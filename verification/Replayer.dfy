/** The replayer: classifying records, keeping flows, rewriting and sending, pacing and accounting. */
module Replayer {
  import opened Bytes
  import opened PacketRewrite
  import opened FlowTable
  import Vlan

  // ------------------------------------------------------------- classifying a record

  /** One pcap record: the captured bytes and the two lengths of its header. */
  datatype Record = Record(data: seq<byte>, incl: nat, orig: nat)

  /** What the parsers make of a packet: its key and whether it is a TCP SYN without ACK. */
  datatype Packet = Packet(key: FiveTuple, bareSyn: bool)

  function Bit(b: byte, weight: nat): bool
    requires weight > 0
  {
    b / weight % 2 == 1
  }

  /** The IP packet behind the Ethernet header and at most one VLAN tag; `None` for anything else, and for
      bytes that are missing. */
  function IpPayload(data: seq<byte>): Option<seq<byte>> {
    if |data| < 14 then None
    else
      var ethType := BE16(data, 12);
      var p := data[14..];
      if ethType == 0x8100 then
        if |p| >= 4 && BE16(p, 2) in {0x0800, 0x86DD} then Some(p[4..]) else None
      else if ethType in {0x0800, 0x86DD} then Some(p)
      else None
  }

  /** The packets that are replayed; all others are skipped. */
  function Classify(data: seq<byte>): Option<Packet> {
    match IpPayload(data)
    case None => None
    case Some(p) =>
      match ParseIp(p)
      case None => None
      case Some(ip) =>
        var ports := ParseTransport(ip.proto, ip.rest);
        var key := FiveTuple(
          data[6..12], data[0..6], ip.src, ip.dst,
          if ports.Some? then Some(ports.value.sport) else None,
          if ports.Some? then Some(ports.value.dport) else None,
          if ip.proto == TCP then 6 else if ip.proto == UDP then 17 else 0);
        Some(Packet(key, ip.proto == TCP && ports.Some? && Bit(ports.value.flags, 2) && !Bit(ports.value.flags, 16)))
  }

  // ------------------------------------------------------------- choosing the new five-tuple

  /** The forced fields. An empty address or port 0 counts as not given. */
  datatype Forces = Forces(src: Option<seq<byte>>, dst: Option<seq<byte>>, sport: Option<nat>, dport: Option<nat>)
  {
    predicate None() {
      src.None? && dst.None? && sport.None? && dport.None?
    }
  }

  function Addr(force: Option<seq<byte>>, own: Option<seq<byte>>): Option<seq<byte>> {
    if force.Some? && force.value != [] then force else own
  }

  function Port(force: Option<nat>, own: Option<nat>): Option<nat> {
    if force.Some? && force.value != 0 then force else own
  }

  /** The client's fields are forced on the source side going up and on the destination side coming down. */
  function Retarget(f: Forces, d: Direction, own: Target): Target {
    match d
    case Uplink => Target(Addr(f.src, own.src), Addr(f.dst, own.dst), Port(f.sport, own.sport), Port(f.dport, own.dport))
    case Downlink => Target(Addr(f.dst, own.src), Addr(f.src, own.dst), Port(f.dport, own.sport), Port(f.sport, own.dport))
  }

  /** The five-tuple fields a packet has itself. */
  function Own(p: seq<byte>): Target {
    match ParseIp(p)
    case None => Target(None, None, None, None)
    case Some(ip) =>
      var ports := ParseTransport(ip.proto, ip.rest);
      Target(Some(ip.src), Some(ip.dst),
             if ports.Some? then Some(ports.value.sport) else None,
             if ports.Some? then Some(ports.value.dport) else None)
  }

  /** What `modify_packet` aims at, if it changes anything. */
  function Aim(frame: seq<byte>, f: Forces, d: Direction): Option<Target> {
    if f.None() then None
    else match IpPayload(frame) case None => None case Some(p) => Some(Retarget(f, d, Own(p)))
  }

  function Modified(frame: seq<byte>, f: Forces, d: Direction): seq<byte> {
    match Aim(frame, f, d) case None => frame case Some(t) => Rewrite(frame, t)
  }

  /** `modify_packet` changes the IP version of this frame, which is left open. */
  predicate ChangesVersion(frame: seq<byte>, f: Forces, d: Direction) {
    var a := Aim(frame, f, d);
    a.Some? && CrossFamily(Payload(frame), a.value)
  }

  lemma RetargetReversed(f: Forces, own: Target)
    ensures Retarget(f, Downlink, own.Swap()) == Retarget(f, Uplink, own).Swap()
  {
  }

  /** The two directions of a flow are rewritten symmetrically: rewriting what the other side sends as
      downlink is the other side's view of the packet rewritten as uplink. */
  lemma ModifiedReversed(frame: seq<byte>, f: Forces)
    requires |frame| >= 14 && BE16(frame, 12) in {0x0800, 0x86DD}
    requires Aim(frame, f, Uplink).Some? ==> Well(frame, Aim(frame, f, Uplink).value)
    requires Aim(frame, f, Uplink).None? ==> f.None()
    ensures Modified(Reverse(frame), f, Downlink) == Reverse(Modified(frame, f, Uplink))
  {
    hide Rewrite;
    match Aim(frame, f, Uplink)
    case None =>
    case Some(t) =>
      var l := LayoutOf(Payload(frame)).value;
      ReverseWell(frame, t);
      RewriteReversed(frame, t);
      OwnOf(frame, t);
      OwnOf(Reverse(frame), t.Swap());
      OwnReversed(frame, t);
      RetargetReversed(f, Own(Payload(frame)));
      assert BE16(Reverse(frame), 12) == BE16(frame, 12) by {
        assert Reverse(frame)[..14][12] == frame[12] && Reverse(frame)[..14][13] == frame[13];
      }
  }

  /** What a rewritten frame says when it is parsed again: the forced client is its source going up and its
      destination coming down, the forced server the other, and what is not forced is unchanged. */
  lemma ForcesApplied(frame: seq<byte>, f: Forces, d: Direction)
    requires |frame| >= 14 && BE16(frame, 12) in {0x0800, 0x86DD} && !f.None()
    requires Aim(frame, f, d).Some? && Well(frame, Aim(frame, f, d).value)
    ensures var own, new_ := Own(Payload(frame)), Own(Payload(Modified(frame, f, d)));
            var client := if d.Uplink? then (new_.src, new_.sport) else (new_.dst, new_.dport);
            var server := if d.Uplink? then (new_.dst, new_.dport) else (new_.src, new_.sport);
            var client0 := if d.Uplink? then (own.src, own.sport) else (own.dst, own.dport);
            var server0 := if d.Uplink? then (own.dst, own.dport) else (own.src, own.sport);
            && client == (Addr(f.src, client0.0), Port(f.sport, client0.1))
            && server == (Addr(f.dst, server0.0), Port(f.dport, server0.1))
  {
    hide Rewrite, Well, Own;
    OwnRewritten(frame, Aim(frame, f, d).value);
  }

  lemma OwnRewritten(frame: seq<byte>, t: Target)
    requires Well(frame, t)
    ensures Own(Payload(Rewrite(frame, t))) == t
  {
    hide Rewrite, LayoutOf;
    RewriteVerifies(frame, t);
  }

  /** A well-formed frame's own fields, by position. */
  lemma OwnOf(frame: seq<byte>, t: Target)
    requires Well(frame, t)
    ensures var l := LayoutOf(Payload(frame)).value;
            var h, s := HeaderOf(frame), SegmentOf(frame);
            && |h| >= l.at + 2 * l.alen && |s| >= 4
            && Own(Payload(frame)) == Target(Some(h[l.at..l.at + l.alen]), Some(h[l.at + l.alen..l.at + 2 * l.alen]),
                                             Some(BE16(s, 0)), Some(BE16(s, 2)))
  {
    var l := LayoutOf(Payload(frame)).value;
    FrameParts(frame);
    SplitParts(frame, frame[..14], l, HeaderOf(frame), SegmentOf(frame));
  }

  lemma OwnReversed(frame: seq<byte>, t: Target)
    requires Well(frame, t)
    ensures Own(Payload(Reverse(frame))) == Own(Payload(frame)).Swap()
  {
    hide Own, Reverse;
    ReverseWell(frame, t);
    OwnOf(frame, t);
    OwnOf(Reverse(frame), t.Swap());
    var l := LayoutOf(Payload(frame)).value;
    var h, s := HeaderOf(frame), SegmentOf(frame);
    var h', s' := SwapAt(h, l.at, l.alen), SwapAt(s, 0, 2);
    assert h'[l.at..l.at + l.alen] == h[l.at + l.alen..l.at + 2 * l.alen];
    assert h'[l.at + l.alen..l.at + 2 * l.alen] == h[l.at..l.at + l.alen];
    assert BE16(s', 0) == BE16(s, 2) && BE16(s', 2) == BE16(s, 0);
  }

  // ------------------------------------------------------------- pacing

  function Sum(ns: seq<nat>): nat {
    if ns == [] then 0 else Sum(ns[..|ns| - 1]) + ns[|ns| - 1]
  }

  lemma {:induction false} SumAppend(a: seq<nat>, b: seq<nat>)
    ensures Sum(a + b) == Sum(a) + Sum(b)
  {
    if b == [] {
      assert a + b == a;
    } else {
      assert (a + b)[..|a + b| - 1] == a + b[..|b| - 1];
      SumAppend(a, b[..|b| - 1]);
    }
  }

  /** The marks are the values of `last_send_time`, the lengths those of the packets sent between them:
      every gap is long enough for its packet. */
  ghost predicate Paced(marks: seq<real>, lens: seq<nat>, rate: real) {
    && |marks| == |lens| + 1
    && forall i :: 0 <= i < |lens| ==> 8.0 * lens[i] as real <= rate * (marks[i + 1] - marks[i])
  }

  /** No window of consecutive packets exceeds the rate. */
  lemma {:induction false} WindowPaced(marks: seq<real>, lens: seq<nat>, rate: real, i: nat, j: nat)
    requires Paced(marks, lens, rate) && i <= j <= |lens|
    ensures 8.0 * Sum(lens[i..j]) as real <= rate * (marks[j] - marks[i])
    decreases j
  {
    if i < j {
      WindowPaced(marks, lens, rate, i, j - 1);
      assert lens[i..j][..j - i - 1] == lens[i..j - 1];
      assert 8.0 * lens[j - 1] as real <= rate * (marks[j] - marks[j - 1]);
      assert rate * (marks[j] - marks[j - 1]) + rate * (marks[j - 1] - marks[i]) == rate * (marks[j] - marks[i]);
    }
  }

  /** Time that only moves forward; a sleep takes at least as long as asked. */
  class Clock {
    var now: real
    ghost var slept: real     // what has been asked for in all

    constructor ()
    {
      now, slept := 0.0, 0.0;
    }

    method Read() returns (t: real)
      modifies this`now
      ensures t == now >= old(now)
    {
      var step: real := *;
      now := if step > 0.0 then now + step else now;
      t := now;
    }

    method Sleep(d: real)
      modifies this
      ensures now >= old(now) && now >= old(now) + d && slept == old(slept) + d
    {
      slept := slept + d;
      var extra: real := *;
      now := now + (if d > 0.0 then d else 0.0) + (if extra > 0.0 then extra else 0.0);
    }
  }

  /** Waiting `bits / rate` is waiting long enough. */
  lemma DelayEnough(bytes: nat, rate: real, delay: real, t: real)
    requires rate > 0.0 && delay == (bytes * 8) as real / rate && t >= delay
    ensures 8.0 * bytes as real <= rate * t
  {
    assert rate * delay == (bytes * 8) as real;
    Scale(rate, delay, t);
  }

  /** Waiting for what is missing of `bits / rate` is not waiting too long. */
  lemma DelayNotLonger(bytes: nat, rate: real, delay: real, wait: real, passed: real)
    requires rate > 0.0 && delay == (bytes * 8) as real / rate && wait + passed <= delay
    ensures rate * (wait + passed) <= 8.0 * bytes as real
  {
    assert rate * delay == (bytes * 8) as real;
    Scale(rate, wait + passed, delay);
  }

  lemma Scale(rate: real, a: real, b: real)
    requires rate > 0.0 && a <= b
    ensures rate * a <= rate * b
  {
  }

  // ------------------------------------------------------------- the replayer

  datatype FlowInfo = FlowInfo(direction: Direction, target: Option<Target>)

  /** `add_or_modify_vlan`; `None` when the tag does not fit into 16 bits. */
  function AddVlan(frame: seq<byte>, vlan: Option<int>): Option<seq<byte>> {
    match vlan
    case None => Some(frame)
    case Some(id) =>
      if id < 0 || id >= 0x1_0000 then None
      else if Slice(frame, 12, 14) == [0x81, 0x00]
      then Some(Slice(frame, 0, 6) + Slice(frame, 6, 12) + [0x81, 0x00] + PutBE16(id) + frame[Min(18, |frame|)..])
      else Some(Slice(frame, 0, 6) + Slice(frame, 6, 12) + [0x81, 0x00] + PutBE16(id)
                + Slice(frame, 12, 14) + frame[Min(14, |frame|)..])
  }

  /** Tagging is undone by stripping the tag exactly for frames that had no tag. On a tagged frame the source
      drops the inner type along with the old tag. */
  lemma TagThenStrip(frame: seq<byte>, id: nat)
    requires |frame| >= 18 && id < 0x1_0000
    ensures var r := AddVlan(frame, Some(id)).value;
            && |r| >= 16 && BE16(r, 12) == 0x8100 && BE16(r, 14) == id
            && (Vlan.Strip(r) == frame <==> BE16(frame, 12) != 0x8100)
  {
    var r := AddVlan(frame, Some(id)).value;
    assert BE16(frame, 12) == 0x8100 <==> Slice(frame, 12, 14) == [0x81, 0x00];
    if BE16(frame, 12) != 0x8100 {
      assert r == frame[..12] + [0x81, 0x00] + PutBE16(id) + frame[12..];
      assert Vlan.Strip(r) == frame[..12] + frame[12..] == frame;
    } else {
      assert r == frame[..12] + [0x81, 0x00] + PutBE16(id) + frame[18..];
      assert |Vlan.Strip(r)| == |frame| - 6;
    }
  }

  lemma TagFits(frame: seq<byte>, vlan: Option<int>)
    ensures AddVlan(frame, vlan).Some? <==> AddVlan([], vlan).Some?
  {
  }

  function Larger(a: nat, b: nat): (m: nat)
    ensures m >= a && m >= b && m in {a, b}
  {
    if a > b then a else b
  }

  /** The packets of a file the flow table learns from. */
  function Seens(records: seq<Record>): seq<Seen> {
    if records == [] then []
    else
      var rest := Seens(records[..|records| - 1]);
      match Classify(records[|records| - 1].data)
      case None => rest
      case Some(p) => rest + [Seen(p.key, p.bareSyn)]
  }

  function RunAll(table: map<FiveTuple, Direction>, hints: Hints, files: seq<seq<Record>>): map<FiveTuple, Direction> {
    if files == [] then table
    else RunFrom(RunAll(table, hints, files[..|files| - 1]), hints, Seens(files[|files| - 1]))
  }

  /** Everything the flow table sees in a whole replay. */
  function AllSeens(files: seq<seq<Record>>): seq<Seen> {
    if files == [] then [] else AllSeens(files[..|files| - 1]) + Seens(files[|files| - 1])
  }

  lemma {:induction false} RunAllIsRun(table: map<FiveTuple, Direction>, hints: Hints, files: seq<seq<Record>>)
    ensures RunAll(table, hints, files) == RunFrom(table, hints, AllSeens(files))
  {
    hide Seens;
    if files != [] {
      var n := |files| - 1;
      RunAllIsRun(table, hints, files[..n]);
      RunFromAppend(table, hints, AllSeens(files[..n]), Seens(files[n]));
    }
  }

  /** The direction in which a replay from an empty table sends the packets of a five-tuple, across all
      its files. */
  lemma ReplayedDirections(hints: Hints, files: seq<seq<Record>>, k: FiveTuple, i: nat)
    requires First(AllSeens(files), k, i)
    ensures var t := RunAll(map[], hints, files);
            k in t && Describes(t[k], hints, AllSeens(files), k, i)
  {
    RunAllIsRun(map[], hints, files);
    RunFromEmpty(hints, AllSeens(files));
    RunDirections(hints, AllSeens(files), k, i);
  }

  /** One of these records is a packet with this key. */
  predicate Holds(records: seq<Record>, k: FiveTuple) {
    exists r :: r in records && Classify(r.data).Some? && Classify(r.data).value.key == k
  }

  lemma {:induction false} SeensAppend(a: seq<Record>, b: seq<Record>)
    ensures Seens(a + b) == Seens(a) + Seens(b)
  {
    hide Classify;
    if b == [] {
      assert a + b == a;
    } else {
      assert (a + b)[..|a + b| - 1] == a + b[..|b| - 1];
      SeensAppend(a, b[..|b| - 1]);
    }
  }

  lemma {:induction false} SeensHold(records: seq<Record>, k: FiveTuple)
    ensures Holds(records, k) <==> SeenBefore(Seens(records), k, |Seens(records)|)
  {
    hide Classify;
    if records != [] {
      var n := |records| - 1;
      SeensHold(records[..n], k);
      assert records == records[..n] + [records[n]];
      var s, s' := Seens(records[..n]), Seens(records);
      assert s <= s';
      if SeenBefore(s', k, |s'|) && !SeenBefore(s, k, |s|) {
        var j :| 0 <= j < |s'| && s'[j].key == k;
        assert j == |s|;
      }
      if SeenBefore(s, k, |s|) {
        var j :| 0 <= j < |s| && s[j].key == k;
        assert s'[j] == s[j];
      }
      if Classify(records[n].data).Some? && Classify(records[n].data).value.key == k {
        assert s'[|s|].key == k;
      }
    }
  }

  /** The direction in a replay from an empty table, by the records: the first packet of a flow decides. Without
      hints it is downlink exactly when a packet of the other side came earlier and it is no bare SYN. */
  lemma RecordDirection(a: seq<Record>, rec: Record, b: seq<Record>)
    requires Classify(rec.data).Some? && !Holds(a, Classify(rec.data).value.key)
    ensures var t, p := RunAll(map[], None, [a + [rec] + b]), Classify(rec.data).value;
            p.key in t && (t[p.key] == Downlink <==> Holds(a, p.key.Reversed()) && !p.bareSyn)
  {
    hide Classify, RunAll, Holds;
    var p := Classify(rec.data).value;
    var s, all := Seens(a), AllSeens([a + [rec] + b]);
    SeensAppend(a + [rec], b);
    SeensAppend(a, [rec]);
    OneSeen(rec);
    OneFile(a + [rec] + b);
    assert all == s + [Seen(p.key, p.bareSyn)] + Seens(b);
    assert all[..|s|] == s && all[|s|] == Seen(p.key, p.bareSyn);
    SeensHold(a, p.key);
    SeensHold(a, p.key.Reversed());
    SeenInPrefix(all, p.key, |s|, |s|);
    SeenInPrefix(all, p.key.Reversed(), |s|, |s|);
    assert First(all, p.key, |s|);
    ReplayedDirections(None, [a + [rec] + b], p.key, |s|);
  }

  lemma OneSeen(rec: Record)
    ensures Seens([rec]) == match Classify(rec.data) case None => [] case Some(p) => [Seen(p.key, p.bareSyn)]
  {
    hide Classify;
    assert [rec][..0] == [];
  }

  lemma OneFile(records: seq<Record>)
    ensures AllSeens([records]) == Seens(records)
  {
    hide Seens;
    assert [records][..0] == [];
    assert AllSeens([]) == [];
  }

  /** What the flow table learns from one record. */
  function LearnRecord(table: map<FiveTuple, Direction>, hints: Hints, rec: Record): map<FiveTuple, Direction> {
    match Classify(rec.data)
    case None => table
    case Some(p) => Learn(table, hints, Seen(p.key, p.bareSyn))
  }

  // ------------------------------------------------------------- what goes out

  /** How the replayer was set up: `noFlow` is set when there is one direction, nothing is forced and flows
      are not asked for; `caching` when the sent frames are also written to a file. */
  datatype Config = Config(hints: Hints, forces: Forces, uplinkVlan: Option<int>, downlinkVlan: Option<int>, noFlow: bool,
                           caching: bool)
  {
    function VlanOf(d: Direction): Option<int> {
      if d.Uplink? then uplinkVlan else downlinkVlan
    }

    /** The tag of this direction fits into 16 bits. */
    predicate Taggable(d: Direction) {
      AddVlan([], VlanOf(d)).Some?
    }
  }

  /** A frame that should be sent; its bytes are open where the IP version is changed. */
  datatype Out = Out(dir: Direction, frame: Option<seq<byte>>, orig: nat, incl: nat)

  /** What one record should put on the wire, given the flow table before it. A tag that does not fit is an
      exception: nothing is sent. */
  function OutOne(c: Config, table: map<FiveTuple, Direction>, rec: Record): seq<Out> {
    match Classify(rec.data)
    case None => []
    case Some(p) =>
      var d := if c.noFlow then Uplink else Learn(table, c.hints, Seen(p.key, p.bareSyn))[p.key];
      if !c.Taggable(d) then []
      else if c.noFlow then [Out(d, AddVlan(rec.data, c.VlanOf(d)), rec.orig, rec.incl)]
      else
        [Out(d, if ChangesVersion(rec.data, c.forces, d) then None else AddVlan(Modified(rec.data, c.forces, d), c.VlanOf(d)),
             rec.orig, rec.incl)]
  }

  function OutFile(c: Config, table: map<FiveTuple, Direction>, records: seq<Record>): seq<Out> {
    if records == [] then []
    else
      var before := records[..|records| - 1];
      OutFile(c, table, before) + OutOne(c, RunFrom(table, c.hints, Seens(before)), records[|records| - 1])
  }

  function OutFiles(c: Config, table: map<FiveTuple, Direction>, files: seq<seq<Record>>): seq<Out> {
    if files == [] then []
    else
      var before := files[..|files| - 1];
      OutFiles(c, table, before) + OutFile(c, RunAll(table, c.hints, before), files[|files| - 1])
  }

  /** What became of a frame: the socket refused it, it went out, or it went out and then could not be
      written to the cache. */
  datatype Fate = Refused | Sent | Uncached

  /** One call of `send` with its frame, and the length of the original packet. */
  datatype Attempt = Attempt(dir: Direction, frame: seq<byte>, orig: nat, fate: Fate)

  /** The attempts are those for the frames that should be sent, in order. */
  ghost predicate Matches(attempts: seq<Attempt>, outs: seq<Out>) {
    && |attempts| == |outs|
    && forall i :: 0 <= i < |attempts| ==> Fits(attempts[i], outs[i])
  }

  predicate Fits(x: Attempt, o: Out) {
    x.dir == o.dir && x.orig == o.orig && (o.frame.Some? ==> x.frame == o.frame.value)
  }

  /** The attempts that went out: what is on the wire. */
  function Wire(attempts: seq<Attempt>): seq<Attempt> {
    if attempts == [] then []
    else
      var n := |attempts| - 1;
      Wire(attempts[..n]) + if attempts[n].fate.Refused? then [] else [attempts[n]]
  }

  /** The frames that should be sent, without those that were refused. */
  function Unrefused(outs: seq<Out>, attempts: seq<Attempt>): seq<Out>
    requires |outs| == |attempts|
  {
    if outs == [] then []
    else
      var n := |outs| - 1;
      Unrefused(outs[..n], attempts[..n]) + if attempts[n].fate.Refused? then [] else [outs[n]]
  }

  /** The wire carries what should be sent, with exactly the refused frames left out. */
  lemma {:induction false} WireMatches(attempts: seq<Attempt>, outs: seq<Out>)
    requires Matches(attempts, outs)
    ensures Matches(Wire(attempts), Unrefused(outs, attempts))
  {
    if outs != [] {
      var n := |outs| - 1;
      WireMatches(attempts[..n], outs[..n]);
    }
  }

  lemma MatchesAppend(a: seq<Attempt>, x: seq<Out>, b: seq<Attempt>, y: seq<Out>)
    requires Matches(a, x) && Matches(b, y)
    ensures Matches(a + b, x + y)
  {
    hide Fits;
  }

  /** Without flows the table does not matter. */
  lemma {:induction false} OutWithoutFlows(c: Config, table: map<FiveTuple, Direction>, table': map<FiveTuple, Direction>,
                                           records: seq<Record>)
    requires c.noFlow
    ensures OutFile(c, table, records) == OutFile(c, table', records)
  {
    if records != [] {
      OutWithoutFlows(c, table, table', records[..|records| - 1]);
    }
  }

  // ------------------------------------------------------------- counting

  /** How many frames of a direction were counted, and how many bytes they count for. */
  function Count(attempts: seq<Attempt>, d: Direction): nat {
    if attempts == [] then 0
    else
      var x := attempts[|attempts| - 1];
      Count(attempts[..|attempts| - 1], d) + if x.fate.Sent? && x.dir == d then 1 else 0
  }

  function CountedBytes(attempts: seq<Attempt>, d: Direction): nat {
    if attempts == [] then 0
    else
      var x := attempts[|attempts| - 1];
      CountedBytes(attempts[..|attempts| - 1], d) + if x.fate.Sent? && x.dir == d then Larger(x.orig, 60) else 0
  }

  /** The length of the original packets of the counted frames. */
  function OrigBytes(attempts: seq<Attempt>, d: Direction): nat {
    if attempts == [] then 0
    else
      var x := attempts[|attempts| - 1];
      OrigBytes(attempts[..|attempts| - 1], d) + if x.fate.Sent? && x.dir == d then x.orig else 0
  }

  /** Every frame that was sent is counted for its own direction, with 60 bytes at least, and with those of its
      packet when they are more. */
  lemma {:induction false} BytesCounted(attempts: seq<Attempt>, d: Direction)
    ensures CountedBytes(attempts, d) >= 60 * Count(attempts, d)
    ensures (forall x :: x in attempts ==> x.dir != d) ==> Count(attempts, d) == CountedBytes(attempts, d) == 0
    ensures (forall x :: x in attempts ==> x.dir == d && x.fate == Sent) ==> Count(attempts, d) == |attempts|
    ensures (forall x :: x in attempts ==> x.orig <= 60) ==> CountedBytes(attempts, d) == 60 * Count(attempts, d)
    ensures (forall x :: x in attempts ==> x.orig >= 60) ==> CountedBytes(attempts, d) == OrigBytes(attempts, d)
  {
    if attempts != [] {
      BytesCounted(attempts[..|attempts| - 1], d);
    }
  }

  /** How many attempts raised an exception. */
  function Failures(attempts: seq<Attempt>): nat {
    if attempts == [] then 0
    else Failures(attempts[..|attempts| - 1]) + if attempts[|attempts| - 1].fate.Sent? then 0 else 1
  }

  lemma TallyAppend(attempts: seq<Attempt>, x: Attempt, d: Direction)
    ensures Count(attempts + [x], d) == Count(attempts, d) + if x.fate.Sent? && x.dir == d then 1 else 0
    ensures CountedBytes(attempts + [x], d)
         == CountedBytes(attempts, d) + if x.fate.Sent? && x.dir == d then Larger(x.orig, 60) else 0
  {
    assert (attempts + [x])[..|attempts|] == attempts;
  }

  /** The socket and the cache file: whether the n-th frame goes out, and whether it can be written to
      the cache. */
  class Link {
    const accepts: nat -> bool
    const caches: nat -> bool
    var uses: nat

    constructor (accepts: nat -> bool, caches: nat -> bool)
      ensures this.accepts == accepts && this.caches == caches && uses == 0
    {
      this.accepts, this.caches, uses := accepts, caches, 0;
    }

    function FateOf(n: nat, caching: bool): Fate {
      if !accepts(n) then Refused else if caching && !caches(n) then Uncached else Sent
    }

    method Send(caching: bool) returns (fate: Fate)
      modifies this
      ensures fate == FateOf(old(uses), caching) && uses == old(uses) + 1
    {
      fate := FateOf(uses, caching);
      uses := uses + 1;
    }
  }

  /** The fates of the attempts are those the link had for them. */
  ghost predicate Fated(attempts: seq<Attempt>, link: Link, uses: nat, caching: bool) {
    && |attempts| <= uses
    && forall i :: 0 <= i < |attempts| ==> attempts[i].fate == link.FateOf(uses - |attempts| + i, caching)
  }

  lemma FatedAppend(attempts: seq<Attempt>, d: Direction, frame: seq<byte>, orig: nat, link: Link, uses: nat,
                    caching: bool)
    requires Fated(attempts, link, uses, caching)
    ensures Fated(attempts + [Attempt(d, frame, orig, link.FateOf(uses, caching))], link, uses + 1, caching)
  {
  }

  /** What the counters say of a run: every attempt is a counted frame or a failure. The frames that were
      counted are all that went out if and only if nothing was cached, or every frame that went out
      could be written to the cache. */
  lemma {:induction false} CountersComplete(attempts: seq<Attempt>, link: Link, uses: nat, caching: bool)
    requires Fated(attempts, link, uses, caching)
    ensures var counted := Count(attempts, Uplink) + Count(attempts, Downlink);
            && |attempts| == counted + Failures(attempts)
            && counted <= |Wire(attempts)| <= |attempts|
            && (counted == |Wire(attempts)|
                <==> !caching || forall k :: uses - |attempts| <= k < uses && link.accepts(k) ==> link.caches(k))
  {
    if attempts != [] {
      var n := |attempts| - 1;
      CountersComplete(attempts[..n], link, uses - 1, caching);
    }
  }

  /** The captured lengths of the frames that should be sent. */
  function Incls(outs: seq<Out>): (ns: seq<nat>)
    ensures |ns| == |outs|
  {
    seq(|outs|, i requires 0 <= i < |outs| => outs[i].incl)
  }

  lemma NoFiles(files: seq<seq<Record>>, table: map<FiveTuple, Direction>, c: Config)
    ensures RunAll(table, c.hints, files[..0]) == table && OutFiles(c, table, files[..0]) == []
  {
  }

  lemma NextFile(files: seq<seq<Record>>, i: nat, table: map<FiveTuple, Direction>, c: Config)
    requires i < |files|
    ensures RunAll(table, c.hints, files[..i + 1]) == RunFrom(RunAll(table, c.hints, files[..i]), c.hints, Seens(files[i]))
    ensures OutFiles(c, table, files[..i + 1])
         == OutFiles(c, table, files[..i]) + OutFile(c, RunAll(table, c.hints, files[..i]), files[i])
  {
    hide Seens, RunFrom, OutFile;
    assert files[..i + 1][..i] == files[..i];
  }

  lemma NextFileMatches(c: Config, table: map<FiveTuple, Direction>, direct: map<FiveTuple, Direction>,
                        files: seq<seq<Record>>, i: nat, before: seq<Attempt>, new_: seq<Attempt>)
    requires i < |files| && (c.noFlow || direct == RunAll(table, c.hints, files[..i]))
    requires Matches(before, OutFiles(c, table, files[..i])) && Matches(new_, OutFile(c, direct, files[i]))
    ensures Matches(before + new_, OutFiles(c, table, files[..i + 1]))
  {
    hide Matches, OutFile, OutFiles, RunAll;
    NextFile(files, i, table, c);
    if c.noFlow {
      OutWithoutFlows(c, direct, RunAll(table, c.hints, files[..i]), files[i]);
    }
    MatchesAppend(before, OutFiles(c, table, files[..i]), new_, OutFile(c, direct, files[i]));
  }

  class Replayer {
    const config: Config
    const mbps: real
    const clock: Clock
    const link: Link
    var flowTable: map<FiveTuple, FlowInfo>
    var flowCount: nat
    var totalFiles: nat
    var totalPackets: nat
    var totalBytes: nat
    var uplinkPackets: nat
    var uplinkBytes: nat
    var downlinkPackets: nat
    var downlinkBytes: nat
    ghost var attempts: seq<Attempt>   // since the counters were reset

    constructor (config: Config, mbps: real, clock: Clock, link: Link)
      ensures flowTable == map[] && flowCount == 0 && Tallied() && attempts == []
      ensures this.config == config && this.mbps == mbps && this.clock == clock && this.link == link
    {
      this.config, this.mbps, this.clock, this.link := config, mbps, clock, link;
      flowTable, flowCount := map[], 0;
      totalFiles, totalPackets, totalBytes := 0, 0, 0;
      uplinkPackets, uplinkBytes, downlinkPackets, downlinkBytes := 0, 0, 0, 0;
      attempts := [];
    }

    /** The counters are those of the counted frames, and their fates come from the link. */
    ghost predicate Tallied()
      reads this`attempts, this`totalBytes, this`uplinkPackets, this`uplinkBytes, this`downlinkPackets, this`downlinkBytes
      reads link
    {
      && uplinkPackets == Count(attempts, Uplink) && downlinkPackets == Count(attempts, Downlink)
      && uplinkBytes == CountedBytes(attempts, Uplink) && downlinkBytes == CountedBytes(attempts, Downlink)
      && totalBytes == uplinkBytes + downlinkBytes
      && Fated(attempts, link, link.uses, config.caching)
    }

    ghost function Directions(): map<FiveTuple, Direction>
      reads this`flowTable
    {
      map k | k in flowTable :: flowTable[k].direction
    }

    /** `reset_stats`: the counters are reset, the flow table is not. */
    method ResetStats()
      modifies this`flowCount, this`totalFiles, this`totalPackets, this`totalBytes, this`uplinkPackets,
               this`uplinkBytes, this`downlinkPackets, this`downlinkBytes, this`attempts
      ensures flowCount == totalFiles == totalPackets == totalBytes == 0 && attempts == [] && Tallied()
    {
      totalFiles, totalPackets, totalBytes := 0, 0, 0;
      uplinkPackets, uplinkBytes, downlinkPackets, downlinkBytes := 0, 0, 0, 0;
      flowCount, attempts := 0, [];
    }

    /** `get_direction`: what the table learns, and one more flow when neither side was known. */
    method GetDirection(key: FiveTuple, bareSyn: bool) returns (d: Direction)
      modifies this`flowTable, this`flowCount
      ensures Directions() == Learn(old(Directions()), config.hints, Seen(key, bareSyn)) && key in flowTable
      ensures d == Directions()[key]
      ensures flowTable == if key in old(flowTable) then old(flowTable) else old(flowTable)[key := FlowInfo(d, None)]
      ensures flowCount - |Flows(flowTable.Keys)| == old(flowCount - |Flows(flowTable.Keys)|)
    {
      if key in flowTable {
        return flowTable[key].direction;
      }
      d := Uplink;
      var reversedKey := key.Reversed();
      if config.hints.Some? {
        if key.ipSrc == config.hints.value.0 && key.ipDst == config.hints.value.1 {
          d := Uplink;
        } else if key.ipSrc == config.hints.value.1 && key.ipDst == config.hints.value.0 {
          d := Downlink;
        }
      } else if bareSyn {
        d := Uplink;
      } else if reversedKey in flowTable {
        d := if flowTable[reversedKey].direction == Uplink then Downlink else Uplink;
      }
      FlowsAdd(flowTable.Keys, key);
      var isNew := reversedKey !in flowTable;
      ghost var before := flowTable.Keys;
      flowTable := flowTable[key := FlowInfo(d, None)];
      assert flowTable.Keys == before + {key};
      if isNew {
        flowCount := flowCount + 1;
      }
    }

    /** `modify_packet`: rewrite the frame and note in the flow what it was rewritten to. */
    method ModifyPacket(frame: seq<byte>, key: Option<FiveTuple>, d: Direction) returns (out: seq<byte>)
      requires key.Some? ==> key.value in flowTable
      modifies this`flowTable
      ensures Directions() == old(Directions())
      ensures flowTable == if key.None? || Aim(frame, config.forces, d).None? then old(flowTable)
                           else old(flowTable)[key.value := old(flowTable)[key.value].(target := Aim(frame, config.forces, d))]
      ensures key.None? ==> out == frame
      ensures key.Some? && !ChangesVersion(frame, config.forces, d) ==> out == Modified(frame, config.forces, d)
    {
      out := frame;
      if key.None? || config.forces.None() {
        return;
      }
      var payload := IpPayload(frame);
      if payload.Some? {
        var target := Retarget(config.forces, d, Own(payload.value));
        flowTable := flowTable[key.value := flowTable[key.value].(target := Some(target))];
        out := BuildModifiedPacket(frame, target);
      }
    }

    /** `send_packet`: the rewritten and tagged frame is handed to the socket. A tag that does not fit is an
        exception. */
    method SendPacket(raw: seq<byte>, d: Direction, key: Option<FiveTuple>, orig: nat) returns (raised: bool)
      requires key.Some? ==> key.value in flowTable
      requires Tallied()
      modifies this`flowTable, this`uplinkPackets, this`uplinkBytes, this`downlinkPackets, this`downlinkBytes,
               this`totalBytes, this`attempts, link
      ensures Directions() == old(Directions()) && flowTable.Keys == old(flowTable.Keys)
      ensures Tallied() && link.uses - |attempts| == old(link.uses - |attempts|)
      ensures raised <==> !config.Taggable(d)
      ensures raised ==> attempts == old(attempts)
      ensures !raised ==>
                && |attempts| == |old(attempts)| + 1 && attempts[..|old(attempts)|] == old(attempts)
                && var x := attempts[|old(attempts)|];
                   && x.dir == d && x.orig == orig
                   && (!ChangesVersion(raw, config.forces, d) || key.None? ==>
                         Some(x.frame) == AddVlan(if key.Some? then Modified(raw, config.forces, d) else raw, config.VlanOf(d)))
    {
      hide Modified, ChangesVersion, Aim, AddVlan, Tallied;
      var pkt := ModifyPacket(raw, key, d);
      var tagged := AddVlan(pkt, config.VlanOf(d));
      TagFits(pkt, config.VlanOf(d));
      if tagged.None? {
        return true;
      }
      raised := false;
      Transmit(d, tagged.value, orig);
    }

    /** The rest of `send_packet`. A frame that went out is counted by the length of the original, at least
        60, unless writing it to the cache failed. */
    method Transmit(d: Direction, frame: seq<byte>, orig: nat)
      requires Tallied()
      modifies this`uplinkPackets, this`uplinkBytes, this`downlinkPackets, this`downlinkBytes, this`totalBytes, this`attempts, link
      ensures attempts == old(attempts) + [Attempt(d, frame, orig, link.FateOf(old(link.uses), config.caching))]
      ensures Tallied() && link.uses == old(link.uses) + 1
    {
      hide Count, CountedBytes, Fated;
      FatedAppend(attempts, d, frame, orig, link, link.uses, config.caching);
      var fate := link.Send(config.caching);
      ghost var x := Attempt(d, frame, orig, fate);
      TallyAppend(attempts, x, Uplink);
      TallyAppend(attempts, x, Downlink);
      attempts := attempts + [x];
      if !fate.Sent? {
        return;
      }
      if d.Uplink? {
        uplinkPackets, uplinkBytes := uplinkPackets + 1, uplinkBytes + Larger(orig, 60);
      } else {
        downlinkPackets, downlinkBytes := downlinkPackets + 1, downlinkBytes + Larger(orig, 60);
      }
      totalBytes := totalBytes + Larger(orig, 60);
    }

    /** There is no wait when enough time has passed already; otherwise waiting and the time that had passed
        are together no more than these bytes take at the rate. */
    ghost predicate NotLonger(wait: real, passed: real, bytes: nat) {
      wait == 0.0 || (wait > 0.0 && mbps * 1000000.0 * (wait + passed) <= 8.0 * bytes as real)
    }

    /** Wait until the packet's share of time has passed since the last send. */
    method Pace(incl: nat, last: real) returns (now: real)
      requires mbps > 0.0 && clock.now >= last
      modifies clock
      ensures now == clock.now >= old(clock.now)
      ensures 8.0 * incl as real <= mbps * 1000000.0 * (now - last)
      ensures NotLonger(clock.slept - old(clock.slept), old(clock.now) - last, incl)
    {
      var bitsPerSecond := mbps * 1000000.0;
      var delay := (incl * 8) as real / bitsPerSecond;
      var t := clock.Read();
      var elapsed := t - last;
      if delay > elapsed {
        DelayNotLonger(incl, bitsPerSecond, delay, delay - elapsed, old(clock.now) - last);
        clock.Sleep(delay - elapsed);
      }
      now := clock.Read();
      DelayEnough(incl, bitsPerSecond, delay, now - last);
    }

    /** Wait until the whole run is slow enough for the bytes sent so far. */
    method PaceTotal(bytes: nat, startTime: real)
      requires mbps > 0.0
      modifies clock
      ensures clock.now >= old(clock.now)
      ensures 8.0 * bytes as real <= mbps * 1000000.0 * (clock.now - startTime)
      ensures NotLonger(clock.slept - old(clock.slept), old(clock.now) - startTime, bytes)
    {
      var now := clock.Read();
      var elapsed := now - startTime;
      var shouldElapsed := (bytes * 8) as real / (mbps * 1000000.0);
      if shouldElapsed > elapsed {
        DelayNotLonger(bytes, mbps * 1000000.0, shouldElapsed, shouldElapsed - elapsed, old(clock.now) - startTime);
        clock.Sleep(shouldElapsed - elapsed);
      }
      DelayEnough(bytes, mbps * 1000000.0, shouldElapsed, clock.now - startTime);
    }

    /** One round of the loop of `replay_file`: `counted` says whether the packet was handed to the socket. */
    method ReplayRecord(rec: Record, last: real) returns (counted: bool, now: real)
      requires clock.now >= last && Tallied()
      modifies this`flowTable, this`flowCount, this`uplinkPackets, this`uplinkBytes, this`downlinkPackets,
               this`downlinkBytes, this`totalBytes, this`attempts, clock, link
      ensures clock.now >= old(clock.now) && clock.now >= now
      ensures counted && mbps > 0.0 ==> 8.0 * rec.incl as real <= mbps * 1000000.0 * (now - last)
      ensures !counted ==> now == last
      ensures var outs := OutOne(config, old(Directions()), rec);
              && |outs| == (if counted then 1 else 0) && (counted ==> outs[0].incl == rec.incl)
              && |attempts| >= |old(attempts)| && attempts[..|old(attempts)|] == old(attempts)
              && Matches(attempts[|old(attempts)|..], outs)
      ensures Tallied() && link.uses - |attempts| == old(link.uses - |attempts|)
      ensures config.noFlow ==> Directions() == old(Directions()) && flowCount == old(flowCount)
      ensures !config.noFlow ==> Directions() == LearnRecord(old(Directions()), config.hints, rec)
      ensures flowCount - |Flows(flowTable.Keys)| == old(flowCount - |Flows(flowTable.Keys)|)
    {
      hide Classify, Flows, Learn, AddVlan, Modified, ChangesVersion, Tallied;
      counted, now := false, last;
      var packet := Classify(rec.data);
      if packet.None? {
        return;
      }
      var raised;
      if config.noFlow {
        raised := SendPacket(rec.data, Uplink, None, rec.orig);
      } else {
        var d := GetDirection(packet.value.key, packet.value.bareSyn);
        raised := SendPacket(rec.data, d, Some(packet.value.key), rec.orig);
      }
      if raised {
        return;
      }
      counted := true;
      if mbps > 0.0 {
        now := Pace(rec.incl, last);
      }
    }

    /** `replay_file` on the records of one file. */
    method ReplayFile(records: seq<Record>) returns (n: nat, ghost marks: seq<real>)
      requires Tallied()
      modifies this`flowTable, this`flowCount, this`uplinkPackets, this`uplinkBytes, this`downlinkPackets,
               this`downlinkBytes, this`totalBytes, this`attempts, clock, link
      ensures clock.now >= old(clock.now)
      ensures mbps > 0.0 ==> Paced(marks, Incls(OutFile(config, old(Directions()), records)), mbps * 1000000.0)
      ensures |marks| == n + 1 && old(clock.now) <= marks[0] && marks[n] <= clock.now
      ensures n == |OutFile(config, old(Directions()), records)|
      ensures |attempts| >= |old(attempts)| && attempts[..|old(attempts)|] == old(attempts)
      ensures Matches(attempts[|old(attempts)|..], OutFile(config, old(Directions()), records))
      ensures Tallied() && link.uses - |attempts| == old(link.uses - |attempts|)
      ensures Directions() == if config.noFlow then old(Directions()) else RunFrom(old(Directions()), config.hints, Seens(records))
      ensures flowCount - |Flows(flowTable.Keys)| == old(flowCount - |Flows(flowTable.Keys)|)
    {
      hide Classify, Flows, Learn, RunFrom, Seens, AddVlan, LearnRecord, OutOne, OutFile, Matches, Tallied, Incls, Paced;
      n := 0;
      var lastSendTime := clock.Read();
      marks := [lastSendTime];
      var i := 0;
      ghost var table := Directions();
      NoRecords(records, table, config, marks, mbps * 1000000.0);
      NothingSent();
      assert attempts[|old(attempts)|..] == [];
      while i < |records|
        invariant 0 <= i <= |records| && clock.now >= old(clock.now) && clock.now >= lastSendTime
        invariant mbps > 0.0 ==> Paced(marks, Incls(OutFile(config, table, records[..i])), mbps * 1000000.0)
        invariant |marks| == n + 1 && old(clock.now) <= marks[0] && marks[n] == lastSendTime
        invariant n == |OutFile(config, table, records[..i])|
        invariant |attempts| >= |old(attempts)| && attempts[..|old(attempts)|] == old(attempts)
        invariant Matches(attempts[|old(attempts)|..], OutFile(config, table, records[..i]))
        invariant Tallied() && link.uses - |attempts| == old(link.uses - |attempts|)
        invariant Directions() == if config.noFlow then table else RunFrom(table, config.hints, Seens(records[..i]))
        invariant flowCount - |Flows(flowTable.Keys)| == old(flowCount - |Flows(flowTable.Keys)|)
      {
        ghost var before, direct, last := attempts, Directions(), lastSendTime;
        NextRecord(records, i, table, direct, config);
        var counted;
        counted, lastSendTime := ReplayRecord(records[i], lastSendTime);
        NextAttempts(old(attempts), before, attempts, OutFile(config, table, records[..i]), OutOne(config, direct, records[i]));
        if counted {
          PacedAppend(marks, OutFile(config, table, records[..i]), OutOne(config, direct, records[i]), mbps, last, lastSendTime);
          n, marks := n + 1, marks + [lastSendTime];
        } else {
          assert OutFile(config, table, records[..i]) + [] == OutFile(config, table, records[..i]);
        }
        i := i + 1;
      }
      assert records[..|records|] == records;
    }

    /** One round of the loop of `replay_files`. */
    method ReplayNext(records: seq<Record>, startTime: real, totalBytesSent: nat) returns (bytesSent: nat)
      requires Tallied() && totalPackets == |attempts| && totalBytesSent == totalBytes && clock.now >= startTime
      modifies this, clock, link
      ensures Tallied() && totalPackets == |attempts| && totalFiles == old(totalFiles) + 1 && bytesSent == totalBytes
      ensures clock.now >= startTime
      ensures mbps > 0.0 ==> 8.0 * totalBytes as real <= mbps * 1000000.0 * (clock.now - startTime)
      ensures Directions() == if config.noFlow then old(Directions()) else RunFrom(old(Directions()), config.hints, Seens(records))
      ensures flowCount - |Flows(flowTable.Keys)| == old(flowCount - |Flows(flowTable.Keys)|)
      ensures |attempts| >= |old(attempts)| && attempts[..|old(attempts)|] == old(attempts)
      ensures Matches(attempts[|old(attempts)|..], OutFile(config, old(Directions()), records))
      ensures link.uses - |attempts| == old(link.uses - |attempts|)
    {
      hide Flows, RunFrom, Seens, Paced, OutFile, Tallied, Fits, Incls;
      var bytesBefore := totalBytes;
      ghost var marks;
      var packets;
      packets, marks := ReplayFile(records);
      totalFiles := totalFiles + 1;
      totalPackets := totalPackets + packets;
      bytesSent := totalBytesSent + totalBytes - bytesBefore;
      if mbps > 0.0 {
        PaceTotal(bytesSent, startTime);
      }
    }

    /** `replay_files`. What is handed to the socket is, in order, exactly what the files should put on the
        wire, and on the wire only the refused frames are missing. Every attempt is counted once, as a frame
        or as a failure; the counters miss none of the frames that went out if and only if none of them
        failed to be cached; and the whole run is no faster than asked. The flow count is that of this
        run exactly when none of its flows was in the table before. */
    method ReplayFiles(files: seq<seq<Record>>) returns (duration: real)
      modifies this, clock, link
      ensures Matches(attempts, OutFiles(config, old(Directions()), files)) && totalFiles == |files|
      ensures Tallied() && totalPackets == |attempts| == uplinkPackets + downlinkPackets + Failures(attempts)
      ensures Matches(Wire(attempts), Unrefused(OutFiles(config, old(Directions()), files), attempts))
      ensures uplinkPackets + downlinkPackets <= |Wire(attempts)|
      ensures uplinkPackets + downlinkPackets == |Wire(attempts)|
         <==> !config.caching || forall k :: old(link.uses) <= k < link.uses && link.accepts(k) ==> link.caches(k)
      ensures mbps > 0.0 ==> 8.0 * totalBytes as real <= mbps * 1000000.0 * duration
      ensures Directions() == if config.noFlow then old(Directions()) else RunAll(old(Directions()), config.hints, files)
      ensures flowCount == |Flows(flowTable.Keys)| - |Flows(old(flowTable).Keys)|
      ensures !config.noFlow ==>
                (flowCount == |Flows(KeysOf(AllSeens(files)))| <==> Flows(old(flowTable).Keys) !! Flows(KeysOf(AllSeens(files))))
      ensures link.uses == old(link.uses) + |attempts|
    {
      hide Flows, RunFrom, Seens, RunAll, OutFile, OutFiles, Matches, Count, CountedBytes, AllSeens, KeysOf;
      hide Wire, Unrefused, Failures, Fated;
      ghost var table := Directions();
      ResetStats();
      var startTime := clock.Read();
      Replay(files, table, startTime);
      ghost var before := clock.now;
      var endTime := clock.Read();
      duration := endTime - startTime;
      if mbps > 0.0 {
        Scale(mbps * 1000000.0, before - startTime, duration);
      }
      CountersComplete(attempts, link, link.uses, config.caching);
      WireMatches(attempts, OutFiles(config, table, files));
      if !config.noFlow {
        assert table.Keys == old(flowTable).Keys && flowTable.Keys == Directions().Keys;
        RunFlows(table, config.hints, files);
      }
    }

    /** The loop of `replay_files`. */
    method Replay(files: seq<seq<Record>>, ghost table: map<FiveTuple, Direction>, startTime: real)
      requires Tallied() && totalPackets == totalFiles == totalBytes == flowCount == 0 && attempts == []
      requires table == Directions() && clock.now >= startTime
      modifies this, clock, link
      ensures Tallied() && totalPackets == |attempts| && totalFiles == |files| && clock.now >= startTime
      ensures mbps > 0.0 ==> 8.0 * totalBytes as real <= mbps * 1000000.0 * (clock.now - startTime)
      ensures Directions() == if config.noFlow then table else RunAll(table, config.hints, files)
      ensures flowCount == |Flows(flowTable.Keys)| - |Flows(old(flowTable).Keys)|
      ensures Matches(attempts, OutFiles(config, table, files))
      ensures link.uses == old(link.uses) + |attempts|
    {
      hide Flows, RunFrom, Seens, RunAll, OutFile, OutFiles, Matches, Tallied;
      var totalBytesSent := 0;
      var i := 0;
      NoFiles(files, table, config);
      NothingSent();
      while i < |files|
        invariant 0 <= i <= |files| && clock.now >= startTime
        invariant Tallied() && totalPackets == |attempts| && totalFiles == i && totalBytesSent == totalBytes
        invariant mbps > 0.0 ==> 8.0 * totalBytes as real <= mbps * 1000000.0 * (clock.now - startTime)
        invariant Directions() == if config.noFlow then table else RunAll(table, config.hints, files[..i])
        invariant flowCount == |Flows(flowTable.Keys)| - |Flows(old(flowTable).Keys)|
        invariant Matches(attempts, OutFiles(config, table, files[..i]))
        invariant link.uses == old(link.uses) + |attempts|
      {
        NextFile(files, i, table, config);
        ghost var before, direct := attempts, Directions();
        totalBytesSent := ReplayNext(files[i], startTime, totalBytesSent);
        assert attempts == before + attempts[|before|..];
        NextFileMatches(config, table, direct, files, i, before, attempts[|before|..]);
        i := i + 1;
      }
      assert files[..|files|] == files;
    }
  }

  /** The attempts of one more record. */
  lemma NextAttempts(old_: seq<Attempt>, before: seq<Attempt>, after: seq<Attempt>, outs: seq<Out>, new_: seq<Out>)
    requires |old_| <= |before| <= |after| && before[..|old_|] == old_ && after[..|before|] == before
    requires Matches(before[|old_|..], outs) && Matches(after[|before|..], new_)
    ensures after[..|old_|] == old_ && Matches(after[|old_|..], outs + new_)
  {
    hide Matches;
    assert after[|old_|..] == before[|old_|..] + after[|before|..];
    MatchesAppend(before[|old_|..], outs, after[|before|..], new_);
  }

  lemma PacedAppend(marks: seq<real>, outs: seq<Out>, new_: seq<Out>, mbps: real, last: real, now: real)
    requires |marks| == |outs| + 1 && marks[|outs|] == last && |new_| == 1
    requires mbps > 0.0 ==> Paced(marks, Incls(outs), mbps * 1000000.0)
    requires mbps > 0.0 ==> 8.0 * new_[0].incl as real <= mbps * 1000000.0 * (now - last)
    ensures mbps > 0.0 ==> Paced(marks + [now], Incls(outs + new_), mbps * 1000000.0)
  {
    if mbps > 0.0 {
      var m, ns := marks + [now], Incls(outs + new_);
      forall i | 0 <= i < |ns|
        ensures 8.0 * ns[i] as real <= mbps * 1000000.0 * (m[i + 1] - m[i])
      {
        if i < |outs| {
          assert ns[i] == Incls(outs)[i] && m[i] == marks[i] && m[i + 1] == marks[i + 1];
        }
      }
    }
  }

  lemma NothingSent()
    ensures Matches([], [])
  {
  }

  lemma NoRecords(records: seq<Record>, table: map<FiveTuple, Direction>, c: Config, marks: seq<real>, rate: real)
    requires |marks| == 1
    ensures RunFrom(table, c.hints, Seens(records[..0])) == table
    ensures OutFile(c, table, records[..0]) == [] && Paced(marks, Incls([]), rate)
  {
  }

  lemma NextRecord(records: seq<Record>, i: nat, table: map<FiveTuple, Direction>,
                   current: map<FiveTuple, Direction>, c: Config)
    requires i < |records|
    requires current == if c.noFlow then table else RunFrom(table, c.hints, Seens(records[..i]))
    ensures RunFrom(table, c.hints, Seens(records[..i + 1]))
         == LearnRecord(RunFrom(table, c.hints, Seens(records[..i])), c.hints, records[i])
    ensures OutFile(c, table, records[..i + 1]) == OutFile(c, table, records[..i]) + OutOne(c, current, records[i])
  {
    hide Classify, Learn, Modified, ChangesVersion;
    assert records[..i + 1][..i] == records[..i];
    var s := Seens(records[..i]);
    match Classify(records[i].data)
    case None =>
    case Some(p) => assert (s + [Seen(p.key, p.bareSyn)])[..|s|] == s;
  }

  /** What a run adds to the flows of the table is all of its flows exactly when the table had none of them. */
  lemma RunFlows(table: map<FiveTuple, Direction>, hints: Hints, files: seq<seq<Record>>)
    ensures RunAll(table, hints, files).Keys == table.Keys + KeysOf(AllSeens(files))
    ensures var run := KeysOf(AllSeens(files));
            |Flows(RunAll(table, hints, files).Keys)| - |Flows(table.Keys)| == |Flows(run)| <==> Flows(table.Keys) !! Flows(run)
  {
    hide Flows, KeysOf;
    RunAllIsRun(table, hints, files);
    RunFromKeys(table, hints, AllSeens(files));
    FlowsAdded(table.Keys, KeysOf(AllSeens(files)));
  }

  /** Replaying the same files again on the same replayer: the first run reports their flows, the second
      reports none. */
  method ReplayTwice(r: Replayer, files: seq<seq<Record>>) returns (first: nat, second: nat)
    requires !r.config.noFlow && r.flowTable == map[]
    modifies r, r.clock, r.link
    ensures first == |Flows(KeysOf(AllSeens(files)))| && second == 0
    ensures AllSeens(files) != [] ==> first > second
  {
    hide Flows, KeysOf, AllSeens, RunAll, OutFiles, Matches, Wire, Failures, Replayer.Tallied;
    NoFlows(AllSeens(files));
    assert r.Directions() == map[] && r.flowTable.Keys == {};
    RunFlows(map[], r.config.hints, files);
    var _ := r.ReplayFiles(files);
    first := r.flowCount;
    ghost var table := r.Directions();
    ghost var keys := r.flowTable.Keys;
    assert table.Keys == keys == {} + KeysOf(AllSeens(files)) == KeysOf(AllSeens(files));
    RunFlows(table, r.config.hints, files);
    var _ := r.ReplayFiles(files);
    second := r.flowCount;
    assert r.flowTable.Keys == r.Directions().Keys == keys + KeysOf(AllSeens(files)) == keys;
  }

  lemma NoFlows(ps: seq<Seen>)
    ensures Flows({}) == {} && (ps != [] ==> |Flows(KeysOf(ps))| > 0)
  {
    if ps != [] {
      var k := ps[0].key;
      assert k in KeysOf(ps);
      assert {k, k.Reversed()} in Flows(KeysOf(ps));
    }
  }

  lemma ShortUdpClassified()
    ensures Classify(ShortUdp()).Some?
  {
    hide ParseTransport;
    ShortUdpParts();
    assert BE16(ShortUdp(), 12) == 0x0800;
  }

  /** Replaying one UDP packet while its frame cannot be written to the cache: it is on the wire, and no
      counter has it. */
  method ReplayUncached() returns (counted: nat, ghost wire: seq<Attempt>)
    ensures counted == 0 && |wire| == 1
  {
    hide Classify, Learn, ShortUdp, AddVlan, Flows, RunAll, Count, CountedBytes, Replayer.Tallied, Unrefused;
    var config := Config(None, Forces(None, None, None, None), None, None, true, true);
    var clock := new Clock();
    var link := new Link(_ => true, _ => false);
    var r := new Replayer(config, 0.0, clock, link);
    var records := [Record(ShortUdp(), 60, 60)];
    ShortUdpClassified();
    OneRecord(config, records[0]);
    ghost var table := r.Directions();
    var _ := r.ReplayFiles([records]);
    counted, wire := r.uplinkPackets + r.downlinkPackets, Wire(r.attempts);
    OneOut(config, table, records[0]);
    assert link.accepts(0) && !link.caches(0);
  }

  lemma OneRecord(c: Config, rec: Record)
    requires c.noFlow && c.uplinkVlan.None? && Classify(rec.data).Some?
    ensures forall table :: |OutOne(c, table, rec)| == 1
  {
    hide Classify, Learn;
  }

  lemma OneOut(c: Config, table: map<FiveTuple, Direction>, rec: Record)
    ensures OutFiles(c, table, [[rec]]) == OutOne(c, table, rec)
  {
    hide OutOne;
    assert [rec][..0] == [] && [[rec]][..0] == [];
    assert OutFile(c, table, [rec]) == OutFile(c, table, []) + OutOne(c, table, rec);
    assert OutFiles(c, table, [[rec]]) == OutFiles(c, table, []) + OutFile(c, table, [rec]);
  }
}
