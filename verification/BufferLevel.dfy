/** How full the upload buffer gets: bodies one byte longer than `DocLimit` that fill it beyond the bound its
    docstring gives. Together with `ParseMultipartStream`, which keeps that bound up to `DocLimit`,
    they make the limit exact, with full reads and with short ones. */
module BufferLevel {
  import opened Bytes
  import opened Multipart
  import opened BodyReader
  import opened Upload

  function Zeros(n: nat): (s: seq<byte>)
    ensures |s| == n && forall i :: 0 <= i < n ==> s[i] == 0
  {
    seq(n, _ => 0)
  }

  lemma NotInZeros(n: nat, p: seq<byte>)
    requires |p| > 0 && p[0] != 0
    ensures Find(Zeros(n), p, 0) == None
  {
    forall k | 0 <= k
      ensures !At(Zeros(n), p, k)
    {
      assert k + |p| <= n ==> Zeros(n)[k..k + |p|][0] == 0;
    }
  }

  lemma BehindZeros(m: nat, p: seq<byte>, rest: seq<byte>)
    requires |p| > 0 && p[0] != 0
    ensures Find(Zeros(m) + p + rest, p, 0) == Some(m)
  {
    var s := Zeros(m) + p + rest;
    assert At(s, p, m) by {
      assert s[m..m + |p|] == p;
    }
    forall k | 0 <= k < m
      ensures !At(s, p, k)
    {
      assert k + |p| <= |s| ==> s[k..k + |p|][0] == 0;
    }
  }

  /** What is kept of the first read: a part of no interest, and the beginning of the next one's header. */
  function FirstRead(d: seq<byte>, m: nat): seq<byte> {
    CRLF + HEADER_END + (Zeros(m) + d + (CRLF + Zeros(HEADER_LIMIT)))
  }

  lemma FirstReadStaged(d: seq<byte>, m: nat, dec: Decoder)
    requires DelimShape(d) && dec.info([]).name == OtherField
    ensures Staged(FirstRead(d, m), d, dec) && Behind(FirstRead(d, m), d) == CRLF + Zeros(HEADER_LIMIT)
  {
    hide Find, At, LineEnd;
    var body := Zeros(m) + d + (CRLF + Zeros(HEADER_LIMIT));
    var b := FirstRead(d, m);
    assert b[2..] == HEADER_END + body;
    AtStart(HEADER_END, body);
    assert b[2..][..0] == [];
    assert b[2..][0 + 4..] == body;
    BehindZeros(m, d, CRLF + Zeros(HEADER_LIMIT));
    assert body[m + |d|..] == CRLF + Zeros(HEADER_LIMIT);
    assert LineEnd(body, m + |d|) by {
      EndsLine(body, m + |d|);
    }
    NotInZeros(HEADER_LIMIT, HEADER_END);
    assert (CRLF + Zeros(HEADER_LIMIT))[2..] == Zeros(HEADER_LIMIT);
  }

  lemma EndsLine(s: seq<byte>, j: nat)
    requires j + 2 <= |s| && s[j] == 13 && s[j + 1] == 10
    ensures LineEnd(s, j)
  {
  }

  lemma AtStart(p: seq<byte>, rest: seq<byte>)
    requires |p| > 0
    ensures Find(p + rest, p, 0) == Some(0)
  {
    assert (p + rest)[0..|p|] == p;
  }

  /** A body one byte longer than the docstring's bound allows with full reads. */
  function FullBody(boundary: seq<byte>): seq<byte>
    requires |boundary| <= 1024
  {
    var d := Delim(boundary);
    DASHES + boundary + (CRLF + HEADER_END + (Zeros(CHUNK - HEADER_LIMIT - 2 * |d| - 6) + d + (CRLF + Zeros(CHUNK + |d| + 1))))
  }

  lemma FullBodyRead(boundary: seq<byte>)
    requires |boundary| <= 1024
    ensures var d := Delim(boundary);
            && |FullBody(boundary)| == DocLimit(d, true) + 1 >= CHUNK
            && DASHES + boundary <= FullBody(boundary)[..CHUNK]
            && FullBody(boundary)[|boundary| + 2..CHUNK] == FirstRead(d, CHUNK - HEADER_LIMIT - 2 * |d| - 6)
  {
    var d := Delim(boundary);
    var m := CHUNK - HEADER_LIMIT - 2 * |d| - 6;
    var s := FullBody(boundary);
    assert Zeros(CHUNK + |d| + 1)[..HEADER_LIMIT] == Zeros(HEADER_LIMIT);
    assert s == DASHES + boundary + FirstRead(d, m) + Zeros(CHUNK + |d| + 1)[HEADER_LIMIT..];
    assert |DASHES + boundary + FirstRead(d, m)| == CHUNK;
    assert s[..CHUNK] == DASHES + boundary + FirstRead(d, m);
  }

  lemma FullLevel(d: seq<byte>, limit: nat -> nat, pos: nat)
    requires 4 <= |d| <= 1028 && forall p: nat :: limit(p) >= CHUNK
    ensures Filled(limit, pos, 0, |d|, DocLimit(d, true) + 1) == CHUNK
    ensures Awaited(limit, pos + CHUNK, CRLF + Zeros(HEADER_LIMIT), DocLimit(d, true) + 1 - CHUNK) == DocBound(d) + 1
  {
    hide Filled;
    var n := DocLimit(d, true) + 1;
    FilledStep(limit, pos, 0, |d|, n);
    FilledEnough(limit, pos + CHUNK, CHUNK, |d|, n - CHUNK);
    var have, need := HEADER_LIMIT, HEADER_LIMIT + 8192;
    FilledStep(limit, pos + CHUNK, have, need, n - CHUNK);
    FilledEnough(limit, pos + CHUNK + (n - CHUNK), have + (n - CHUNK), need, 0);
  }

  lemma FullClimbs(boundary: seq<byte>, limit: nat -> nat, dec: Decoder, peak: nat)
    requires |boundary| <= 1024 && (forall p: nat :: limit(p) >= CHUNK) && dec.info([]).name == OtherField
    ensures |FullBody(boundary)| == DocLimit(Delim(boundary), true) + 1
    ensures Climbs(FullBody(boundary), limit, 0, boundary, dec, peak) ==> peak > DocBound(Delim(boundary))
  {
    hide FullBody, Filled, Awaited, Staged, Behind, FirstRead, DocLimit, DocBound, Delim;
    var d := Delim(boundary);
    DelimHasShape(boundary);
    FullBodyRead(boundary);
    FirstReadStaged(d, CHUNK - HEADER_LIMIT - 2 * |d| - 6, dec);
    FullLevel(d, limit, 0);
  }

  /** With full reads it fills the buffer beyond that bound. */
  method FullReadsExceed(boundary: seq<byte>, limit: nat -> nat) returns (length: nat, ghost peak: nat)
    requires |boundary| <= 1024 && forall p: nat :: limit(p) >= CHUNK
    ensures length == DocLimit(Delim(boundary), true) + 1
    ensures peak > DocBound(Delim(boundary))
  {
    hide FullBody, Climbs, DocLimit, DocBound, BufferBound, Landing.Valid;
    var disk := new Disk(b => |b|, true);
    var dec := Decoder(_ => PartInfo(OtherField, None), p => Some(p));
    var up := new Landing(disk, dec.normalize);
    var body := FullBody(boundary);
    var src := new ByteSource(body, limit);
    assert body[..|body|] == body;
    var r;
    ghost var st;
    length := |body|;
    r, st, peak := ParseMultipartStream(src, length, boundary, dec, up);
    FullClimbs(boundary, limit, dec, peak);
  }

  /** A body one byte longer than the bound allows with short reads, and the reads: the first two end after
      the boundary and in the header block. */
  function ShortBody(boundary: seq<byte>): seq<byte> {
    DASHES + boundary + CRLF + Zeros(CHUNK + |Delim(boundary)| + 1)
  }

  function ShortReads(n: nat): nat -> nat
    requires n > 0
  {
    p => if p == 0 then n else if p == n then n + 1 else CHUNK
  }

  lemma ShortLevel(d: seq<byte>)
    requires 4 <= |d| <= 1028
    ensures var limit := ShortReads(|d|);
            && Filled(limit, 0, 0, |d|, DocLimit(d, false) + 1) == |d|
            && Awaited(limit, |d|, CRLF, CHUNK + |d| + 1) == DocBound(d) + 1
  {
    hide Filled;
    var limit := ShortReads(|d|);
    FilledStep(limit, 0, 0, |d|, DocLimit(d, false) + 1);
    FilledEnough(limit, |d|, |d|, |d|, CHUNK + |d| + 1);
    FilledStep(limit, |d|, 0, 8192, CHUNK + |d| + 1);
    FilledStep(limit, 2 * |d| + 1, |d| + 1, 8192, CHUNK);
    FilledEnough(limit, CHUNK + 2 * |d| + 1, CHUNK + |d| + 1, 8192, 0);
  }

  lemma ShortUnfinished()
    ensures Unfinished(CRLF)
  {
    assert CRLF[2..] == [];
  }

  lemma ShortClimbs(boundary: seq<byte>, dec: Decoder, peak: nat)
    requires |boundary| <= 1024
    ensures |ShortBody(boundary)| == DocLimit(Delim(boundary), false) + 1
    ensures Climbs(ShortBody(boundary), ShortReads(|Delim(boundary)|), 0, boundary, dec, peak) ==> peak > DocBound(Delim(boundary))
  {
    hide Filled, Awaited, Staged, Behind, Unfinished, DocBound;
    var d, body := Delim(boundary), ShortBody(boundary);
    ShortLevel(d);
    ShortUnfinished();
    assert body[..|d|] == DASHES + boundary + CRLF && body[|boundary| + 2..|d|] == CRLF;
  }

  /** With those reads it fills the buffer beyond that bound. */
  method ShortReadsExceed(boundary: seq<byte>) returns (length: nat, ghost peak: nat)
    requires |boundary| <= 1024
    ensures length == DocLimit(Delim(boundary), false) + 1
    ensures peak > DocBound(Delim(boundary))
  {
    hide ShortBody, ShortReads, Climbs, DocLimit, DocBound, BufferBound, Landing.Valid;
    var disk := new Disk(b => |b|, true);
    var dec := Decoder(_ => PartInfo(OtherField, None), p => Some(p));
    var up := new Landing(disk, dec.normalize);
    var body := ShortBody(boundary);
    var src := new ByteSource(body, ShortReads(|Delim(boundary)|));
    assert body[..|body|] == body;
    var r;
    ghost var st;
    length := |body|;
    r, st, peak := ParseMultipartStream(src, length, boundary, dec, up);
    ShortClimbs(boundary, dec, peak);
  }
}
