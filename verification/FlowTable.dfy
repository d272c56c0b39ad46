/** The direction the replayer gives to every five-tuple, and the number of flows it reports. */
module FlowTable {
  import opened Bytes

  datatype FiveTuple = FiveTuple(
    macSrc: seq<byte>, macDst: seq<byte>, ipSrc: seq<byte>, ipDst: seq<byte>,
    sport: Option<nat>, dport: Option<nat>, proto: int)
  {
    function Reversed(): FiveTuple {
      FiveTuple(macDst, macSrc, ipDst, ipSrc, dport, sport, proto)
    }
  }

  datatype Direction = Uplink | Downlink

  /** The user's hint which address is the client and which the server. */
  type Hints = Option<(seq<byte>, seq<byte>)>

  /** One packet as the table sees it. */
  datatype Seen = Seen(key: FiveTuple, bareSyn: bool)

  /** The direction a key gets that is not yet in the table. */
  function Judge(table: map<FiveTuple, Direction>, hints: Hints, p: Seen): Direction {
    if hints.Some? then
      if p.key.ipSrc == hints.value.0 && p.key.ipDst == hints.value.1 then Uplink
      else if p.key.ipSrc == hints.value.1 && p.key.ipDst == hints.value.0 then Downlink
      else Uplink
    else if p.bareSyn then Uplink
    else if p.key.Reversed() in table then
      if table[p.key.Reversed()] == Uplink then Downlink else Uplink
    else Uplink
  }

  function Learn(table: map<FiveTuple, Direction>, hints: Hints, p: Seen): map<FiveTuple, Direction> {
    if p.key in table then table else table[p.key := Judge(table, hints, p)]
  }

  /** The table after a run of packets, from an empty table. */
  function Run(hints: Hints, ps: seq<Seen>): map<FiveTuple, Direction> {
    if ps == [] then map[] else Learn(Run(hints, ps[..|ps| - 1]), hints, ps[|ps| - 1])
  }

  /** The same, from a table that is already there. */
  function RunFrom(table: map<FiveTuple, Direction>, hints: Hints, ps: seq<Seen>): map<FiveTuple, Direction> {
    if ps == [] then table else Learn(RunFrom(table, hints, ps[..|ps| - 1]), hints, ps[|ps| - 1])
  }

  lemma {:induction false} RunFromAppend(table: map<FiveTuple, Direction>, hints: Hints, a: seq<Seen>, b: seq<Seen>)
    ensures RunFrom(table, hints, a + b) == RunFrom(RunFrom(table, hints, a), hints, b)
  {
    hide Learn;
    if b == [] {
      assert a + b == a;
    } else {
      RunFromAppend(table, hints, a, b[..|b| - 1]);
      assert (a + b)[..|a + b| - 1] == a + b[..|b| - 1];
    }
  }

  lemma {:induction false} RunFromEmpty(hints: Hints, ps: seq<Seen>)
    ensures RunFrom(map[], hints, ps) == Run(hints, ps)
  {
    if ps != [] {
      RunFromEmpty(hints, ps[..|ps| - 1]);
    }
  }

  /** Packet `i` is the first one of its key. */
  predicate First(ps: seq<Seen>, k: FiveTuple, i: nat) {
    i < |ps| && ps[i].key == k && forall j :: 0 <= j < i ==> ps[j].key != k
  }

  predicate SeenBefore(ps: seq<Seen>, k: FiveTuple, n: nat) {
    exists j :: 0 <= j < n && j < |ps| && ps[j].key == k
  }

  /** The direction of a key from the whole run: with hints, what they say; without, downlink exactly when
      the other side was seen first and the key's own first packet is not a bare SYN. */
  predicate Describes(d: Direction, hints: Hints, ps: seq<Seen>, k: FiveTuple, i: nat)
    requires First(ps, k, i)
  {
    match hints
    case Some(h) => d.Downlink? <==> k.ipSrc == h.1 && k.ipDst == h.0 && !(k.ipSrc == h.0 && k.ipDst == h.1)
    case None => d.Downlink? <==> SeenBefore(ps, k.Reversed(), i) && !ps[i].bareSyn
  }

  /** A run in which the hints that count depend on the key. */
  function RunBy(rule: FiveTuple -> Hints, ps: seq<Seen>): map<FiveTuple, Direction> {
    if ps == [] then map[] else Learn(RunBy(rule, ps[..|ps| - 1]), rule(ps[|ps| - 1].key), ps[|ps| - 1])
  }

  function Always(hints: Hints): FiveTuple -> Hints {
    k => hints
  }

  lemma {:induction false} RunIsRunBy(hints: Hints, ps: seq<Seen>)
    ensures Run(hints, ps) == RunBy(Always(hints), ps)
  {
    if ps != [] {
      RunIsRunBy(hints, ps[..|ps| - 1]);
    }
  }

  lemma {:induction false} RunByKeys(rule: FiveTuple -> Hints, ps: seq<Seen>)
    ensures forall k :: k in RunBy(rule, ps) <==> SeenBefore(ps, k, |ps|)
  {
    if ps != [] {
      var n := |ps| - 1;
      RunByKeys(rule, ps[..n]);
      forall k
        ensures SeenBefore(ps, k, |ps|) <==> SeenBefore(ps[..n], k, n) || k == ps[n].key
      {
        if SeenBefore(ps[..n], k, n) {
          var j :| 0 <= j < n && ps[..n][j].key == k;
          assert ps[j].key == k;
        }
        if SeenBefore(ps, k, |ps|) && k != ps[n].key {
          var j :| 0 <= j < |ps| && ps[j].key == k;
          assert ps[..n][j].key == k;
        }
      }
    }
  }

  lemma SeenInPrefix(ps: seq<Seen>, k: FiveTuple, m: nat, n: nat)
    requires m <= n <= |ps|
    ensures SeenBefore(ps[..n], k, m) <==> SeenBefore(ps, k, m)
  {
    assert forall j :: 0 <= j < m ==> ps[..n][j] == ps[j];
  }

  /** The direction of a key in such a run, when its reverse is judged by the same hints. */
  lemma {:induction false} RunByDirections(rule: FiveTuple -> Hints, ps: seq<Seen>, k: FiveTuple, i: nat)
    requires First(ps, k, i) && (rule(k).None? ==> rule(k.Reversed()).None?)
    ensures k in RunBy(rule, ps) && Describes(RunBy(rule, ps)[k], rule(k), ps, k, i)
    decreases |ps|
  {
    hide SeenBefore;
    var n := |ps| - 1;
    var before := ps[..n];
    RunByKeys(rule, before);
    SeenInPrefix(ps, k.Reversed(), i, n);
    if i < n {
      assert First(before, k, i);
      RunByDirections(rule, before, k, i);
    } else {
      NotSeen(ps, k, n);
      SeenInPrefix(ps, k, n, n);
      if k.Reversed() in RunBy(rule, before) && rule(k).None? {
        FirstOfTwo(rule, ps, k, n);
      }
    }
  }

  lemma NotSeen(ps: seq<Seen>, k: FiveTuple, i: nat)
    requires First(ps, k, i)
    ensures !SeenBefore(ps, k, i)
  {
  }

  /** Where no hints count, the reverse of a key not yet seen is uplink. */
  lemma {:induction false} FirstOfTwo(rule: FiveTuple -> Hints, ps: seq<Seen>, k: FiveTuple, n: nat)
    requires n <= |ps| && SeenBefore(ps, k.Reversed(), n) && !SeenBefore(ps, k, n) && rule(k.Reversed()).None?
    ensures var t := RunBy(rule, ps[..n]); k.Reversed() in t && t[k.Reversed()] == Uplink
    decreases n
  {
    var r := k.Reversed();
    var m := n - 1;
    assert ps[..n][..m] == ps[..m] && ps[..n][m] == ps[m];
    RunByKeys(rule, ps[..m]);
    SeenInPrefix(ps, k, m, m);
    SeenInPrefix(ps, r, m, m);
    if SeenBefore(ps, r, m) {
      FirstOfTwo(rule, ps, k, m);
    } else {
      assert ps[m].key == r && r.Reversed() == k;
    }
  }

  lemma {:induction false} RunKeys(hints: Hints, ps: seq<Seen>)
    ensures forall k :: k in Run(hints, ps) <==> SeenBefore(ps, k, |ps|)
  {
    RunIsRunBy(hints, ps);
    RunByKeys(Always(hints), ps);
  }

  /** Every key in the table has the direction its first packet determines, whatever came after. */
  lemma RunDirections(hints: Hints, ps: seq<Seen>, k: FiveTuple, i: nat)
    requires First(ps, k, i)
    ensures k in Run(hints, ps) && Describes(Run(hints, ps)[k], hints, ps, k, i)
  {
    RunIsRunBy(hints, ps);
    RunByDirections(Always(hints), ps, k, i);
  }

  /** Without hints, as long as a key has not been seen, its reverse is uplink. */
  lemma FirstSideUplink(ps: seq<Seen>, k: FiveTuple, n: nat)
    requires n <= |ps| && SeenBefore(ps, k.Reversed(), n) && !SeenBefore(ps, k, n)
    ensures var t := Run(None, ps[..n]); k.Reversed() in t && t[k.Reversed()] == Uplink
  {
    RunIsRunBy(None, ps[..n]);
    FirstOfTwo(Always(None), ps, k, n);
  }

  // ------------------------------------------------------------- hints that do not match

  /** The hint names the two addresses of the key. */
  predicate Hinted(hint: (seq<byte>, seq<byte>), k: FiveTuple) {
    (k.ipSrc == hint.0 && k.ipDst == hint.1) || (k.ipSrc == hint.1 && k.ipDst == hint.0)
  }

  /** What the comments announce: where the hint does not match, the other rules apply. */
  function Announced(hint: (seq<byte>, seq<byte>)): FiveTuple -> Hints {
    k => if Hinted(hint, k) then Some(hint) else None
  }

  /** The code keeps what is announced for a key if and only if the hint matches it, its first packet is a
      bare SYN, or the other side was not seen before. */
  lemma HintFallback(hint: (seq<byte>, seq<byte>), ps: seq<Seen>, k: FiveTuple, i: nat)
    requires First(ps, k, i)
    ensures var code, announced := Run(Some(hint), ps), RunBy(Announced(hint), ps);
            && k in code && k in announced
            && (code[k] == announced[k] <==> Hinted(hint, k) || ps[i].bareSyn || !SeenBefore(ps, k.Reversed(), i))
  {
    RunDirections(Some(hint), ps, k, i);
    RunByDirections(Announced(hint), ps, k, i);
  }

  /** A request and its answer between other addresses than the hint names: both become uplink. */
  lemma HintFallbackMissing() returns (hint: (seq<byte>, seq<byte>), ps: seq<Seen>)
    ensures |ps| == 2 && ps[1].key == ps[0].key.Reversed() && ps[0].key != ps[1].key
    ensures var code, announced := Run(Some(hint), ps), RunBy(Announced(hint), ps);
            && ps[0].key in code && code[ps[0].key] == Uplink
            && ps[1].key in code && code[ps[1].key] == Uplink
            && ps[1].key in announced && announced[ps[1].key] == Downlink
  {
    hint := ([10, 0, 0, 1], [10, 0, 0, 2]);
    var k := FiveTuple([], [], [10, 0, 0, 3], [10, 0, 0, 4], Some(1000), Some(53), 17);
    ps := [Seen(k, false), Seen(k.Reversed(), false)];
    assert k.ipSrc[3] != hint.0[3] && k.ipSrc[3] != hint.1[3];
    assert k.ipDst[3] != hint.0[3] && k.ipDst[3] != hint.1[3];
    assert k.ipSrc[3] != k.ipDst[3];
    RunDirections(Some(hint), ps, k, 0);
    RunDirections(Some(hint), ps, k.Reversed(), 1);
    assert SeenBefore(ps, k.Reversed().Reversed(), 1) by {
      assert ps[0].key == k;
    }
    RunByDirections(Announced(hint), ps, k.Reversed(), 1);
  }

  /** A direction once given never changes, whatever packets follow. */
  lemma {:induction false} RunStable(hints: Hints, ps: seq<Seen>, qs: seq<Seen>)
    ensures forall k :: k in Run(hints, ps) ==> k in Run(hints, ps + qs) && Run(hints, ps + qs)[k] == Run(hints, ps)[k]
    decreases |qs|
  {
    if qs == [] {
      assert ps + qs == ps;
    } else {
      var m := |qs| - 1;
      RunStable(hints, ps, qs[..m]);
      assert (ps + qs)[..|ps + qs| - 1] == ps + qs[..m];
    }
  }

  // ------------------------------------------------------------- counting flows

  /** The flows of a set of keys: a key and its reverse are one flow. */
  function Flows(keys: set<FiveTuple>): set<set<FiveTuple>> {
    set k | k in keys :: {k, k.Reversed()}
  }

  /** A new key adds a flow exactly when its reverse is new as well. */
  lemma FlowsAdd(keys: set<FiveTuple>, k: FiveTuple)
    requires k !in keys
    ensures |Flows(keys + {k})| == |Flows(keys)| + if k.Reversed() in keys then 0 else 1
  {
    var f := {k, k.Reversed()};
    assert Flows(keys + {k}) == Flows(keys) + {f};
    assert f in Flows(keys) <==> k.Reversed() in keys by {
      if f in Flows(keys) {
        var x :| x in keys && {x, x.Reversed()} == f;
        assert x in f;
      }
      if k.Reversed() in keys {
        assert {k.Reversed(), k.Reversed().Reversed()} == f;
      }
    }
  }

  /** The five-tuples of a run of packets. */
  function KeysOf(ps: seq<Seen>): set<FiveTuple> {
    set p | p in ps :: p.key
  }

  lemma {:induction false} RunFromKeys(table: map<FiveTuple, Direction>, hints: Hints, ps: seq<Seen>)
    ensures RunFrom(table, hints, ps).Keys == table.Keys + KeysOf(ps)
  {
    hide Judge;
    if ps != [] {
      var n := |ps| - 1;
      RunFromKeys(table, hints, ps[..n]);
      assert ps == ps[..n] + [ps[n]];
      assert KeysOf(ps) == KeysOf(ps[..n]) + {ps[n].key};
    }
  }

  /** The flows a run adds to a table are all flows of the run exactly when none of them was in it. */
  lemma FlowsAdded(before: set<FiveTuple>, run: set<FiveTuple>)
    ensures |Flows(before + run)| - |Flows(before)| == |Flows(run)| <==> Flows(before) !! Flows(run)
  {
    var a, b := Flows(before), Flows(run);
    assert Flows(before + run) == a + b;
    Disjoint(a, b);
  }

  lemma Disjoint<T>(a: set<T>, b: set<T>)
    ensures |a + b| == |a| + |b| <==> a !! b
  {
    var c := a * b;
    assert |a + b| == |a| + |b| - |c|;
    if c != {} {
      var x :| x in c;
      assert x in a && x in b && |c| == |c - {x}| + 1;
    } else {
      forall x | x in a
        ensures x !in b
      {
        assert x !in c;
      }
    }
  }
}
