/** The file a replay can write the frames it sends to, and what a later replay of that file reads. */
module ReplayCache {
  import opened Bytes
  import opened PcapFile
  import Replayer

  /** What `replay_file` reads behind the global header: little-endian records, the last of which may be cut
      short. `cutOff` when the file ends in a record header, which is an exception. */
  datatype Reading = Reading(records: seq<Replayer.Record>, cutOff: bool)

  function ReadRecords(s: seq<byte>): Reading
    decreases |s|
  {
    if s == [] then Reading([], false)
    else if |s| < 16 then Reading([], true)
    else
      var incl := Get(Little, s, 8);
      var n := Min(incl, |s| - 16);
      var rest := ReadRecords(s[16 + n..]);
      Reading([Replayer.Record(s[16..16 + n], incl, Get(Little, s, 12))] + rest.records, rest.cutOff)
  }

  /** What is read from a little-endian file: its records, of one whose data are cut short what there is, and
      behind that, or behind a cut-off header, nothing. */
  lemma {:induction false} RecordsRead(rs: seq<Rec>, tail: seq<byte>)
    requires AllFit(rs) && (|tail| < 16 || |tail| - 16 < Get(Little, tail, 8))
    ensures var read := ReadRecords(RawAll(Little, rs) + tail);
            && |read.records| == |rs| + (if |tail| < 16 then 0 else 1)
            && (forall i :: 0 <= i < |rs| ==> read.records[i] == Replayer.Record(rs[i].data, |rs[i].data|, rs[i].orig))
            && (|tail| >= 16 ==> read.records[|rs|] == Replayer.Record(tail[16..], Get(Little, tail, 8), Get(Little, tail, 12)))
            && (read.cutOff <==> 0 < |tail| < 16)
    decreases |rs|
  {
    hide Get, Raw, ReadRecords;
    var s := RawAll(Little, rs) + tail;
    if rs == [] {
      assert s == tail;
      LastRead(tail);
    } else {
      var rest := RawAll(Little, rs[1..]) + tail;
      assert s == Raw(Little, rs[0]) + rest;
      RecordRead(rs[0], rest);
      RecordsRead(rs[1..], tail);
    }
  }

  lemma RecordRead(r: Rec, rest: seq<byte>)
    requires Fits(r)
    ensures ReadRecords(Raw(Little, r) + rest)
         == Reading([Replayer.Record(r.data, |r.data|, r.orig)] + ReadRecords(rest).records, ReadRecords(rest).cutOff)
  {
    hide Get, Raw;
    ParseRaw(Little, r, rest);
  }

  lemma LastRead(tail: seq<byte>)
    requires |tail| < 16 || |tail| - 16 < Get(Little, tail, 8)
    ensures ReadRecords(tail)
         == if |tail| < 16 then Reading([], tail != [])
            else Reading([Replayer.Record(tail[16..], Get(Little, tail, 8), Get(Little, tail, 12))], false)
  {
    hide Get;
    if |tail| >= 16 {
      var n := Min(Get(Little, tail, 8), |tail| - 16);
      assert tail[16..16 + n] == tail[16..] && tail[16 + n..] == [];
      assert ReadRecords([]) == Reading([], false);
    }
  }

  /** The packets read are the frames that were written. */
  predicate ReadBack(read: seq<Replayer.Record>, written: seq<Rec>) {
    |read| == |written| && forall i :: 0 <= i < |read| ==> read[i].data == written[i].data
  }

  /** The length in front of the `i`-th frame is taken for the right one, or, at the end of the file, for one
      that is at least not too short. */
  predicate LengthHarmless(rs: seq<Rec>, i: nat)
    requires i < |rs| && Fits(rs[i])
  {
    var w := |rs[i].data|;
    Swapped(w) == w || (i == |rs| - 1 && Swapped(w) > w)
  }

  lemma FirstLength(r: Rec, rest: seq<byte>)
    requires Fits(r)
    ensures var s := Raw(Big, r) + rest;
            |s| == 16 + |r.data| + |rest| && Get(Little, s, 8) == Swapped(|r.data|) && s[16..16 + |r.data|] == r.data
            && s[16 + |r.data|..] == rest
  {
    hide Get, Put, Raw, Swapped;
    ParseRaw(Big, r, rest);
    GetSwapped(Raw(Big, r) + rest, 8);
  }

  /** What one frame becomes. */
  lemma FirstRead(r: Rec, rest: seq<byte>)
    requires Fits(r)
    ensures var s, w := Raw(Big, r) + rest, Swapped(|r.data|);
            var n := Min(w, |r.data| + |rest|);
            && |s| >= 16 + n && ReadRecords(s).records != [] && ReadRecords(s).records[0].data == s[16..16 + n]
            && ReadRecords(s).records[1..] == ReadRecords(s[16 + n..]).records
            && (ReadRecords(s).records[0].data == r.data <==> w == |r.data| || (rest == [] && w > |r.data|))
  {
    hide Get, Raw, Swapped;
    FirstLength(r, rest);
    var s, w := Raw(Big, r) + rest, Swapped(|r.data|);
    var n := Min(w, |r.data| + |rest|);
    var rec := Replayer.Record(s[16..16 + n], w, Get(Little, s, 12));
    assert ReadRecords(s).records == [rec] + ReadRecords(s[16 + n..]).records;
    assert n == |r.data| ==> s[16..16 + n] == r.data;
  }

  /** A cache file holds big-endian records. Replaying it reads back the frames that were written to it if and
      only if every length in it is harmless. */
  lemma {:induction false} CacheReadBack(rs: seq<Rec>)
    requires AllFit(rs)
    ensures ReadBack(ReadRecords(RawAll(Big, rs)).records, rs) <==> forall i :: 0 <= i < |rs| ==> LengthHarmless(rs, i)
    decreases |rs|
  {
    hide Raw, Swapped;
    if rs != [] {
      var tail := RawAll(Big, rs[1..]);
      var s := RawAll(Big, rs);
      FirstRead(rs[0], tail);
      TailEmpty(rs[1..]);
      var read := ReadRecords(s).records;
      assert LengthHarmless(rs, 0) <==> read[0].data == rs[0].data;
      if rs[1..] == [] {
        var n := Min(Swapped(|rs[0].data|), |rs[0].data| + |tail|);
        if read[0].data == rs[0].data {
          assert n == |rs[0].data| && s[16 + n..] == [];
        }
      } else if read[0].data == rs[0].data {
        assert s[16 + |rs[0].data|..] == tail by {
          FirstLength(rs[0], tail);
        }
        CacheReadBack(rs[1..]);
        ReadBackTail(read, rs);
        LengthsTail(rs);
      }
    }
  }

  lemma TailEmpty(rs: seq<Rec>)
    requires AllFit(rs)
    ensures RawAll(Big, rs) == [] <==> rs == []
  {
  }

  lemma ReadBackTail(read: seq<Replayer.Record>, rs: seq<Rec>)
    requires read != [] && rs != [] && read[0].data == rs[0].data
    ensures ReadBack(read, rs) <==> ReadBack(read[1..], rs[1..])
  {
    if ReadBack(read[1..], rs[1..]) {
      forall i | 0 < i < |read|
        ensures read[i].data == rs[i].data
      {
        assert read[1..][i - 1].data == rs[1..][i - 1].data;
      }
    }
  }

  lemma LengthsTail(rs: seq<Rec>)
    requires AllFit(rs) && |rs| > 1 && LengthHarmless(rs, 0)
    ensures (forall i :: 0 <= i < |rs| ==> LengthHarmless(rs, i))
       <==> forall i :: 0 <= i < |rs[1..]| ==> LengthHarmless(rs[1..], i)
  {
    forall i | 0 <= i < |rs[1..]|
      ensures LengthHarmless(rs[1..], i) <==> LengthHarmless(rs, i + 1)
    {
    }
    if forall i :: 0 <= i < |rs[1..]| ==> LengthHarmless(rs[1..], i) {
      forall i | 0 < i < |rs|
        ensures LengthHarmless(rs, i)
      {
        assert LengthHarmless(rs[1..], i - 1);
      }
    }
  }

  /** Frames of ordinary size are read back if and only if there is at most one of them. */
  lemma OrdinaryCache(rs: seq<Rec>)
    requires AllFit(rs) && forall r :: r in rs ==> 0 < |r.data| < 0x1_0000
    ensures ReadBack(ReadRecords(RawAll(Big, rs)).records, rs) <==> |rs| <= 1
  {
    hide Swapped, ReadRecords, RawAll, ReadBack;
    CacheReadBack(rs);
    forall i | 0 <= i < |rs|
      ensures LengthHarmless(rs, i) <==> i == |rs| - 1
    {
      assert rs[i] in rs;
      SwappedLarge(|rs[i].data|);
    }
    assert |rs| > 1 ==> !LengthHarmless(rs, 0);
  }
}
