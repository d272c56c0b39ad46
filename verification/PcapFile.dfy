/** pcap files: records, and the stable re-sort by timestamp (draft-ietf-opsawg-pcap sections 4 and 5). */
module PcapFile {
  import opened Bytes

  const MAGIC_US: nat := 0xA1B2C3D4
  const MAGIC_US_SWAPPED: nat := 0xD4C3B2A1
  const MAGIC_NS: nat := 0xA1B23C4D
  const MAGIC_NS_SWAPPED: nat := 0x4D3CB2A1

  datatype Endian = Little | Big

  type word = w: int | 0 <= w < 0x1_0000_0000

  function Get(e: Endian, s: seq<byte>, i: nat): word
    requires i + 4 <= |s|
  {
    if e.Little? then LE32(s, i) else LE32(Reverse4(s[i..i + 4]), 0)
  }

  function Put(e: Endian, w: word): (s: seq<byte>)
    ensures |s| == 4
  {
    if e.Little? then PutLE32(w) else Reverse4(PutLE32(w))
  }

  lemma PutGet(e: Endian, w: word)
    ensures Get(e, Put(e, w), 0) == w
  {
    if e.Big? {
      assert Put(e, w)[0..4] == Put(e, w);
      assert Reverse4(Reverse4(PutLE32(w))) == PutLE32(w);
    }
  }

  lemma GetPut(e: Endian, s: seq<byte>, i: nat)
    requires i + 4 <= |s|
    ensures Put(e, Get(e, s, i)) == s[i..i + 4]
  {
    var t := s[i..i + 4];
    assert LE32(s, i) == LE32(t, 0);
    if e.Little? {
      LE32Injective(t);
    } else {
      LE32Injective(Reverse4(t));
      assert Reverse4(Reverse4(t)) == t;
    }
  }

  /** What a word is taken for in the other byte order. */
  function Swapped(w: word): word {
    LE32(Reverse4(PutLE32(w)), 0)
  }

  /** The two readings of a word. */
  lemma GetSwapped(s: seq<byte>, i: nat)
    requires i + 4 <= |s|
    ensures Get(Little, s, i) == Swapped(Get(Big, s, i))
  {
    hide LE32, PutLE32;
    var t := s[i..i + 4];
    GetAt(Little, s, i, t);
    LE32Injective(Reverse4(t));
    assert Reverse4(Reverse4(t)) == t;
  }

  /** A length below 64 KiB is taken for one that is not. */
  lemma SwappedLarge(w: word)
    requires 0 < w < 0x1_0000
    ensures Swapped(w) >= 0x1_0000
  {
    var s := PutLE32(w);
    assert s[2] == 0 && s[3] == 0;
  }

  /** The byte order of a file, from the first word as a little-endian host reads it. */
  function EndianOf(header: seq<byte>): Option<Endian>
    requires |header| >= 4
  {
    var magic := LE32(header, 0);
    if magic in {MAGIC_US, MAGIC_NS} then Some(Little)
    else if magic in {MAGIC_US_SWAPPED, MAGIC_NS_SWAPPED} then Some(Big)
    else None
  }

  // ------------------------------------------------------------- records

  /** One record; `orig` is the length the packet had on the wire. */
  datatype Rec = Rec(sec: word, frac: word, orig: word, data: seq<byte>)

  predicate Fits(r: Rec) {
    |r.data| < 0x1_0000_0000
  }

  /** A record as it stands in a file. */
  function Raw(e: Endian, r: Rec): (s: seq<byte>)
    requires Fits(r)
    ensures |s| == 16 + |r.data|
  {
    Put(e, r.sec) + Put(e, r.frac) + Put(e, |r.data|) + Put(e, r.orig) + r.data
  }

  /** A record as the sorter writes it: both lengths are that of the data. */
  function Plain(r: Rec): Rec
    requires Fits(r)
  {
    r.(orig := |r.data|)
  }

  /** The complete records at the beginning of `s`. */
  function ParseAll(e: Endian, s: seq<byte>): (rs: seq<Rec>)
    ensures forall r :: r in rs ==> Fits(r)
    decreases |s|
  {
    if |s| < 16 || |s| - 16 < Get(e, s, 8) then []
    else [Rec(Get(e, s, 0), Get(e, s, 4), Get(e, s, 12), s[16..16 + Get(e, s, 8)])] + ParseAll(e, s[16 + Get(e, s, 8)..])
  }

  /** What is left behind the complete records. */
  function Tail(e: Endian, s: seq<byte>): (t: seq<byte>)
    ensures |t| < 16 || |t| - 16 < Get(e, t, 8)
    decreases |s|
  {
    if |s| < 16 || |s| - 16 < Get(e, s, 8) then s else Tail(e, s[16 + Get(e, s, 8)..])
  }

  ghost predicate AllFit(rs: seq<Rec>) {
    forall r :: r in rs ==> Fits(r)
  }

  function RawAll(e: Endian, rs: seq<Rec>): seq<byte>
    requires AllFit(rs)
  {
    if rs == [] then [] else Raw(e, rs[0]) + RawAll(e, rs[1..])
  }

  function PlainAll(rs: seq<Rec>): (ps: seq<Rec>)
    requires AllFit(rs)
    ensures |ps| == |rs| && AllFit(ps) && forall i :: 0 <= i < |rs| ==> ps[i] == Plain(rs[i])
  {
    seq(|rs|, i requires 0 <= i < |rs| => Plain(rs[i]))
  }

  lemma ParseRaw(e: Endian, r: Rec, s: seq<byte>)
    requires Fits(r)
    ensures var t := Raw(e, r) + s;
            Get(e, t, 0) == r.sec && Get(e, t, 4) == r.frac && Get(e, t, 8) == |r.data| && Get(e, t, 12) == r.orig
            && t[16..16 + |r.data|] == r.data && t[16 + |r.data|..] == s
  {
    hide Put;
    var t := Raw(e, r) + s;
    PutGet(e, r.sec);
    PutGet(e, r.frac);
    PutGet(e, |r.data|);
    PutGet(e, r.orig);
    GetAt(e, t, 0, Put(e, r.sec));
    GetAt(e, t, 4, Put(e, r.frac));
    GetAt(e, t, 8, Put(e, |r.data|));
    GetAt(e, t, 12, Put(e, r.orig));
  }

  lemma GetAt(e: Endian, t: seq<byte>, i: nat, p: seq<byte>)
    requires i + 4 <= |t| && |p| == 4 && t[i..i + 4] == p
    ensures Get(e, t, i) == Get(e, p, 0)
  {
    assert p[0..4] == p;
    assert p[0] == t[i] && p[1] == t[i + 1] && p[2] == t[i + 2] && p[3] == t[i + 3];
  }

  /** Reading back what was written. */
  lemma {:induction false} ParseOfRaw(e: Endian, rs: seq<Rec>, tail: seq<byte>)
    requires AllFit(rs) && (|tail| < 16 || |tail| - 16 < Get(e, tail, 8))
    ensures ParseAll(e, RawAll(e, rs) + tail) == rs && Tail(e, RawAll(e, rs) + tail) == tail
    decreases |rs|
  {
    hide Get, Raw;
    var s := RawAll(e, rs) + tail;
    if rs == [] {
      assert s == tail;
    } else {
      var rest := RawAll(e, rs[1..]) + tail;
      assert s == Raw(e, rs[0]) + rest;
      ParseRaw(e, rs[0], rest);
      ParseOfRaw(e, rs[1..], tail);
      assert rs == [rs[0]] + rs[1..];
    }
  }

  /** A file is its complete records and an incomplete tail. */
  lemma {:induction false} RawOfParse(e: Endian, s: seq<byte>)
    ensures s == RawAll(e, ParseAll(e, s)) + Tail(e, s)
    decreases |s|
  {
    hide Get, Raw, ParseAll;
    ParseNext(e, s);
    if |s| >= 16 && |s| - 16 >= Get(e, s, 8) {
      var n := Get(e, s, 8);
      var r := Rec(Get(e, s, 0), Get(e, s, 4), Get(e, s, 12), s[16..16 + n]);
      var rs := ParseAll(e, s[16 + n..]);
      RawOfParse(e, s[16 + n..]);
      RawOfGet(e, s);
      assert ([r] + rs)[1..] == rs;
      assert s == s[..16 + n] + s[16 + n..];
    }
  }

  lemma RawOfGet(e: Endian, s: seq<byte>)
    requires |s| >= 16 && |s| - 16 >= Get(e, s, 8)
    ensures var n := Get(e, s, 8);
            Raw(e, Rec(Get(e, s, 0), Get(e, s, 4), Get(e, s, 12), s[16..16 + n])) == s[..16 + n]
  {
    hide Get, Put;
    GetPut(e, s, 0);
    GetPut(e, s, 4);
    GetPut(e, s, 8);
    GetPut(e, s, 12);
    var n := Get(e, s, 8);
    assert s[..16 + n] == s[0..4] + s[4..8] + s[8..12] + s[12..16] + s[16..16 + n];
  }

  // ------------------------------------------------------------- sorting

  predicate Le(a: Rec, b: Rec) {
    a.sec < b.sec || (a.sec == b.sec && a.frac <= b.frac)
  }

  /** Put a record before the first one that is not earlier. */
  function Insert(r: Rec, rs: seq<Rec>): (s: seq<Rec>)
    ensures |s| == |rs| + 1 && forall x :: x in s <==> x == r || x in rs
  {
    if rs == [] || Le(r, rs[0]) then [r] + rs
    else
      assert rs == [rs[0]] + rs[1..];
      [rs[0]] + Insert(r, rs[1..])
  }

  /** The order `records.sort` with the index as last key gives. */
  function Sort(rs: seq<Rec>): (s: seq<Rec>)
    ensures |s| == |rs| && forall x :: x in s <==> x in rs
  {
    if rs == [] then []
    else
      assert rs == [rs[0]] + rs[1..];
      Insert(rs[0], Sort(rs[1..]))
  }

  predicate Sorted(rs: seq<Rec>) {
    forall i, j :: 0 <= i < j < |rs| ==> Le(rs[i], rs[j])
  }

  /** The records with timestamp `(sec, frac)`, in order. */
  function With(rs: seq<Rec>, sec: word, frac: word): seq<Rec> {
    if rs == [] then []
    else (if rs[0].sec == sec && rs[0].frac == frac then [rs[0]] else []) + With(rs[1..], sec, frac)
  }

  /** Both sequences hold, for every timestamp, the same records in the same order. */
  ghost predicate StablyPermuted(rs: seq<Rec>, s: seq<Rec>) {
    forall sec: word, frac: word :: With(s, sec, frac) == With(rs, sec, frac)
  }

  lemma {:induction false} InsertSorted(r: Rec, rs: seq<Rec>)
    requires Sorted(rs)
    ensures Sorted(Insert(r, rs))
  {
    if rs != [] && !Le(r, rs[0]) {
      InsertSorted(r, rs[1..]);
      var t := Insert(r, rs[1..]);
      forall j | 0 <= j < |t|
        ensures Le(rs[0], t[j])
      {
        assert t[j] in t;
      }
    }
  }

  lemma {:induction false} InsertStable(r: Rec, rs: seq<Rec>, sec: word, frac: word)
    ensures With(Insert(r, rs), sec, frac) == With([r] + rs, sec, frac)
  {
    assert ([r] + rs)[1..] == rs;
    if rs != [] && !Le(r, rs[0]) {
      InsertStable(r, rs[1..], sec, frac);
      assert ([r] + rs[1..])[1..] == rs[1..];
      assert ([rs[0]] + Insert(r, rs[1..]))[1..] == Insert(r, rs[1..]);
    }
  }

  lemma {:induction false} SortCorrect(rs: seq<Rec>)
    ensures Sorted(Sort(rs)) && StablyPermuted(rs, Sort(rs))
  {
    if rs != [] {
      SortCorrect(rs[1..]);
      InsertSorted(rs[0], Sort(rs[1..]));
      forall sec: word, frac: word
        ensures With(Sort(rs), sec, frac) == With(rs, sec, frac)
      {
        InsertStable(rs[0], Sort(rs[1..]), sec, frac);
        assert ([rs[0]] + Sort(rs[1..]))[1..] == Sort(rs[1..]);
      }
    }
  }

  /** Nothing is left to do on sorted records. */
  lemma {:induction false} SortSorted(rs: seq<Rec>)
    requires Sorted(rs)
    ensures Sort(rs) == rs
  {
    if rs != [] {
      SortSorted(rs[1..]);
      assert rs == [rs[0]] + rs[1..];
    }
  }

  /** Sorted and stable leaves only one possibility, so `Sort` is what any correct stable sort gives. */
  lemma {:induction false} SortUnique(rs: seq<Rec>, s: seq<Rec>)
    requires Sorted(rs) && Sorted(s) && StablyPermuted(rs, s)
    ensures rs == s
  {
    HeadWith(s);
    if rs != [] {
      assert With(s, rs[0].sec, rs[0].frac) == With(rs, rs[0].sec, rs[0].frac);
      assert s != [];
      HeadOfSorted(rs, s);
      HeadOfSorted(s, rs);
      assert With(s, rs[0].sec, rs[0].frac)[0] == s[0];
      forall sec: word, frac: word
        ensures With(s[1..], sec, frac) == With(rs[1..], sec, frac)
      {
        assert With(s, sec, frac) == With(rs, sec, frac);
        var h := if rs[0].sec == sec && rs[0].frac == frac then [rs[0]] else [];
        assert (h + With(s[1..], sec, frac))[|h|..] == With(s[1..], sec, frac);
        assert (h + With(rs[1..], sec, frac))[|h|..] == With(rs[1..], sec, frac);
      }
      SortUnique(rs[1..], s[1..]);
      assert rs == [rs[0]] + rs[1..] && s == [s[0]] + s[1..];
    }
  }

  lemma HeadWith(s: seq<Rec>)
    ensures s != [] ==> With(s, s[0].sec, s[0].frac) != []
  {
  }

  lemma HeadOfSorted(rs: seq<Rec>, s: seq<Rec>)
    requires rs != [] && s != [] && Sorted(s) && StablyPermuted(rs, s)
    ensures Le(s[0], rs[0])
  {
    assert With(s, rs[0].sec, rs[0].frac) == With(rs, rs[0].sec, rs[0].frac);
    InWith(s, rs[0].sec, rs[0].frac);
  }

  lemma {:induction false} InWith(s: seq<Rec>, sec: word, frac: word)
    requires With(s, sec, frac) != []
    ensures exists i :: 0 <= i < |s| && s[i].sec == sec && s[i].frac == frac
  {
    if !(s[0].sec == sec && s[0].frac == frac) {
      InWith(s[1..], sec, frac);
      var i :| 0 <= i < |s[1..]| && s[1..][i].sec == sec && s[1..][i].frac == frac;
      assert s[i + 1].sec == sec;
    }
  }

  lemma {:induction false} SortPlain(rs: seq<Rec>)
    requires AllFit(rs)
    ensures AllFit(Sort(rs)) && PlainAll(Sort(rs)) == Sort(PlainAll(rs))
  {
    if rs != [] {
      assert rs == [rs[0]] + rs[1..];
      SortPlain(rs[1..]);
      InsertPlain(rs[0], Sort(rs[1..]));
      assert PlainAll(rs)[1..] == PlainAll(rs[1..]);
    }
  }

  lemma {:induction false} InsertPlain(r: Rec, rs: seq<Rec>)
    requires Fits(r) && AllFit(rs)
    ensures AllFit(Insert(r, rs)) && PlainAll(Insert(r, rs)) == Insert(Plain(r), PlainAll(rs))
  {
    if rs != [] && !Le(r, rs[0]) {
      InsertPlain(r, rs[1..]);
      assert PlainAll(rs)[1..] == PlainAll(rs[1..]);
      assert PlainAll([rs[0]] + Insert(r, rs[1..])) == [Plain(rs[0])] + PlainAll(Insert(r, rs[1..]));
    } else {
      assert PlainAll([r] + rs) == [Plain(r)] + PlainAll(rs);
    }
  }

  // ------------------------------------------------------------- the sorted file

  /** The content of the file after sorting; a file that is no pcap is left alone. */
  function SortedFile(c: seq<byte>): seq<byte> {
    if |c| < 24 then c
    else
      match EndianOf(c)
      case None => c
      case Some(e) =>
        var rs := Sort(ParseAll(e, c[24..]));
        c[..24] + RawAll(e, PlainAll(rs))
  }

  /** The sorted file parses back to the complete records in timestamp order, equal timestamps in their
      old order, and nothing else is in it. */
  lemma SortedFileParses(c: seq<byte>)
    requires |c| >= 24 && EndianOf(c).Some?
    ensures var e := EndianOf(c).value;
            var before, after := ParseAll(e, c[24..]), ParseAll(e, SortedFile(c)[24..]);
            && |SortedFile(c)| >= 24 && SortedFile(c)[..24] == c[..24] && EndianOf(SortedFile(c)) == Some(e)
            && Sorted(after) && StablyPermuted(PlainAll(before), after) && |after| == |before|
            && Tail(e, SortedFile(c)[24..]) == []
            && after == Sort(PlainAll(before))
  {
    hide Sort;
    var e := EndianOf(c).value;
    var rs := ParseAll(e, c[24..]);
    SortPlain(rs);
    SortCorrect(PlainAll(rs));
    var s := SortedFile(c);
    assert s[24..] == RawAll(e, Sort(PlainAll(rs))) + [];
    ParseOfRaw(e, Sort(PlainAll(rs)), []);
    assert s[..24] == c[..24];
    assert LE32(s[..24], 0) == LE32(s, 0) && LE32(c[..24], 0) == LE32(c, 0);
  }

  /** A file without a complete header, or with another magic number, is left alone. */
  lemma NotSorted(c: seq<byte>)
    requires |c| < 24 || c[..4] !in {[0xD4, 0xC3, 0xB2, 0xA1], [0x4D, 0x3C, 0xB2, 0xA1], [0xA1, 0xB2, 0xC3, 0xD4],
                                     [0xA1, 0xB2, 0x3C, 0x4D]}
    ensures SortedFile(c) == c
  {
    hide Sort, ParseAll, RawAll;
    if |c| >= 24 {
      MagicBytes(c);
    }
  }

  /** Sorting twice is sorting once. */
  lemma SortedFileIdempotent(c: seq<byte>)
    ensures SortedFile(SortedFile(c)) == SortedFile(c)
  {
    if |c| >= 24 && EndianOf(c).Some? {
      hide Sort, ParseAll;
      var e := EndianOf(c).value;
      SortedFileParses(c);
      var s := SortedFile(c);
      var after := ParseAll(e, s[24..]);
      SortSorted(after);
      SortPlain(ParseAll(e, c[24..]));
      assert PlainAll(after) == after;
      assert s == s[..24] + s[24..];
      RawOfParse(e, s[24..]);
    }
  }

  /** The records keep all their bytes exactly when none of them was cut short on capture: the sorter
      replaces the original length by the captured one. */
  lemma RecordBytesKept(c: seq<byte>)
    requires |c| >= 24 && EndianOf(c).Some?
    ensures var e := EndianOf(c).value;
            var rs := ParseAll(e, c[24..]);
            AllFit(Sort(rs)) &&
            (SortedFile(c) == c[..24] + RawAll(e, Sort(rs)) <==> forall r :: r in rs ==> r.orig == |r.data|)
  {
    hide Sort, ParseAll, RawAll, PlainAll;
    var e := EndianOf(c).value;
    var rs := ParseAll(e, c[24..]);
    var s := Sort(rs);
    assert SortedFile(c)[24..] == RawAll(e, PlainAll(s));
    assert (c[..24] + RawAll(e, s))[24..] == RawAll(e, s);
    RawInjective(e, PlainAll(s), s);
    AllPlain(s);
    assert forall r :: r in s <==> r in rs;
  }

  lemma RawInjective(e: Endian, a: seq<Rec>, b: seq<Rec>)
    requires AllFit(a) && AllFit(b)
    ensures RawAll(e, a) == RawAll(e, b) <==> a == b
  {
    hide ParseAll, RawAll;
    ParseOfRaw(e, a, []);
    ParseOfRaw(e, b, []);
  }

  lemma AllPlain(s: seq<Rec>)
    requires AllFit(s)
    ensures PlainAll(s) == s <==> forall r :: r in s ==> r.orig == |r.data|
  {
    if PlainAll(s) == s {
      forall r | r in s
        ensures r.orig == |r.data|
      {
        var i :| 0 <= i < |s| && s[i] == r;
        assert PlainAll(s)[i] == Plain(r);
      }
    }
    if forall r :: r in s ==> r.orig == |r.data| {
      forall i | 0 <= i < |s|
        ensures Plain(s[i]) == s[i]
      {
        assert s[i] in s;
      }
    }
  }

  /** `_sort_pcap_by_timestamp` on the content of a file: what is written back. */
  method SortPcapByTimestamp(content: seq<byte>) returns (sorted: seq<byte>)
    ensures sorted == SortedFile(content)
  {
    hide Sort, Put, Get, ParseAll;
    if |content| < 24 {
      return content;
    }
    var endian := EndianOf(content);
    if endian.None? {
      return content;
    }
    var e := endian.value;
    var records := ReadRecords(e, content[24..]);
    records := Sort(records);
    sorted := content[..24];
    var i := 0;
    assert records[..0] == [];
    while i < |records|
      invariant 0 <= i <= |records|
      invariant sorted == content[..24] + RawAll(e, PlainAll(records[..i]))
    {
      var r := records[i];
      assert Fits(r);
      RawAppend(e, PlainAll(records[..i]), Plain(r));
      assert PlainAll(records[..i + 1]) == PlainAll(records[..i]) + [Plain(r)];
      sorted := sorted + (Put(e, r.sec) + Put(e, r.frac) + Put(e, |r.data|) + Put(e, |r.data|) + r.data);
      i := i + 1;
    }
    assert records[..|records|] == records;
  }

  lemma {:induction false} RawAppend(e: Endian, rs: seq<Rec>, r: Rec)
    requires AllFit(rs) && Fits(r)
    ensures AllFit(rs + [r]) && RawAll(e, rs + [r]) == RawAll(e, rs) + Raw(e, r)
  {
    if rs == [] {
      assert [] + [r] == [r];
    } else {
      assert (rs + [r])[1..] == rs[1..] + [r];
      RawAppend(e, rs[1..], r);
    }
  }

  /** The reading loop: stop at the end of the file or at a record that is cut off. */
  method ReadRecords(e: Endian, s: seq<byte>) returns (records: seq<Rec>)
    ensures records == ParseAll(e, s)
  {
    hide Get, ParseAll;
    records := [];
    var pos := 0;
    while |s| - pos >= 16
      invariant 0 <= pos <= |s|
      invariant ParseAll(e, s) == records + ParseAll(e, s[pos..])
      decreases |s| - pos
    {
      var rest := s[pos..];
      ParseNext(e, rest);
      var incl := Get(e, rest, 8);
      if |rest| - 16 < incl {
        return;
      }
      var r := Rec(Get(e, rest, 0), Get(e, rest, 4), Get(e, rest, 12), rest[16..16 + incl]);
      records := records + [r];
      assert rest[16 + incl..] == s[pos + 16 + incl..];
      pos := pos + 16 + incl;
    }
    ParseNext(e, s[pos..]);
  }

  lemma ParseNext(e: Endian, s: seq<byte>)
    ensures ParseAll(e, s) == if |s| < 16 || |s| - 16 < Get(e, s, 8) then []
                              else [Rec(Get(e, s, 0), Get(e, s, 4), Get(e, s, 12), s[16..16 + Get(e, s, 8)])]
                                   + ParseAll(e, s[16 + Get(e, s, 8)..])
  {
    hide Get;
  }

  // ------------------------------------------------------------- the bytes

  /** The four magic numbers by their bytes: microseconds and nanoseconds, in either order. */
  lemma MagicBytes(header: seq<byte>)
    requires |header| >= 4
    ensures EndianOf(header) == Some(Little) <==> header[..4] in {[0xD4, 0xC3, 0xB2, 0xA1], [0x4D, 0x3C, 0xB2, 0xA1]}
    ensures EndianOf(header) == Some(Big) <==> header[..4] in {[0xA1, 0xB2, 0xC3, 0xD4], [0xA1, 0xB2, 0x3C, 0x4D]}
  {
    var m := header[..4];
    assert m == [m[0], m[1], m[2], m[3]] && LE32(header, 0) == LE32(m, 0);
    LE32Injective(m);
    WordBytes(0xD4, 0xC3, 0xB2, 0xA1);
    WordBytes(0x4D, 0x3C, 0xB2, 0xA1);
    WordBytes(0xA1, 0xB2, 0xC3, 0xD4);
    WordBytes(0xA1, 0xB2, 0x3C, 0x4D);
  }

  /** A record byte by byte: seconds, fraction, captured and original length, then the data. */
  lemma RawBytes(sec: seq<byte>, frac: seq<byte>, incl: seq<byte>, orig: seq<byte>, data: seq<byte>)
    requires |sec| == |frac| == |incl| == |orig| == 4 && LE32(incl, 0) == |data|
    ensures Raw(Little, Rec(LE32(sec, 0), LE32(frac, 0), LE32(orig, 0), data)) == sec + frac + incl + orig + data
    ensures Raw(Big, Rec(LE32(sec, 0), LE32(frac, 0), LE32(orig, 0), data))
         == Reverse4(sec) + Reverse4(frac) + Reverse4(incl) + Reverse4(orig) + data
  {
    LE32Injective(sec);
    LE32Injective(frac);
    LE32Injective(incl);
    LE32Injective(orig);
  }
}
