/** multipart/form-data as the upload service reads it: delimiter lines, the whole-buffer
    parser that serves as the specification, and the encoding it inverts
    (RFC 2046 section 5.1.1, RFC 7578 section 4). */
module Multipart {
  import opened Bytes

  const CRLF: seq<byte> := [13, 10]
  const DASHES: seq<byte> := [45, 45]
  const HEADER_END: seq<byte> := [13, 10, 13, 10]
  const PATH_CAP: nat := 4096
  const HEADER_LIMIT: nat := 16384

  // ------------------------------------------------------------- delimiter lines

  function Delim(boundary: seq<byte>): seq<byte> {
    CRLF + DASHES + boundary
  }

  predicate DelimShape(d: seq<byte>) {
    |d| >= 4 && d[0] == 13 && d[1] == 10 && d[2] == 45 && d[3] == 45
  }

  lemma DelimHasShape(boundary: seq<byte>)
    ensures DelimShape(Delim(boundary)) && |Delim(boundary)| == |boundary| + 4
  {
  }

  /** What must follow the delimiter for it to count as a delimiter line. */
  predicate LineEnd(s: seq<byte>, j: int) {
    0 <= j < |s| &&
    (s[j] == 10 || (j + 1 < |s| && ((s[j] == 45 && s[j + 1] == 45) || (s[j] == 13 && s[j + 1] == 10))))
  }

  predicate IsCut(s: seq<byte>, d: seq<byte>, i: int) {
    At(s, d, i) && LineEnd(s, i + |d|)
  }

  /** The first delimiter line at or after `from`, on the whole buffer. */
  function Cut(s: seq<byte>, d: seq<byte>, from: nat): (r: Option<nat>)
    ensures r.Some? ==> from <= r.value && r.value + |d| <= |s| && IsCut(s, d, r.value)
    ensures r.Some? ==> forall k :: from <= k < r.value ==> !IsCut(s, d, k)
    ensures r.None? ==> forall k :: from <= k ==> !IsCut(s, d, k)
    decreases |s| - from
  {
    if from + |d| > |s| then None
    else if IsCut(s, d, from) then Some(from)
    else Cut(s, d, from + 1)
  }

  /** The scan the service runs once everything is buffered: take the next delimiter, and when it
      is not a delimiter line, go on searching only after it. */
  function Scan(s: seq<byte>, d: seq<byte>, from: nat): (r: Option<nat>)
    requires |d| > 0
    ensures r.Some? ==> from <= r.value && r.value + |d| <= |s| && IsCut(s, d, r.value)
    decreases |s| - from
  {
    match Find(s, d, from)
    case None => None
    case Some(i) => if LineEnd(s, i + |d|) then Some(i) else Scan(s, d, i + |d|)
  }

  /** The first `b` bytes of `d` are also its last `b` bytes, so `d` can overlap itself by `b`. */
  predicate Border(d: seq<byte>, b: int) {
    0 < b < |d| && d[..b] == d[|d| - b..]
  }

  /** Wherever the delimiter can overlap itself, the overlap already reads as a delimiter line. */
  ghost predicate CleanBorders(d: seq<byte>) {
    forall b :: Border(d, b) ==> LineEnd(d, b)
  }

  /** A boundary without a carriage return, as every multipart boundary is, gives a delimiter that cannot
      overlap itself at all. */
  lemma CrFreeNoBorder(boundary: seq<byte>)
    requires 13 !in boundary
    ensures forall b :: !Border(Delim(boundary), b)
    ensures CleanBorders(Delim(boundary))
  {
    var d := Delim(boundary);
    forall b | 0 < b < |d|
      ensures !Border(d, b)
    {
      var k := |d| - b;
      assert d[k] != 13 by {
        if k >= 4 {
          assert d[k] == boundary[k - 4];
        }
      }
      assert d[..b][0] == 13;
      assert d[k..][0] == d[k];
    }
  }

  /** Two overlapping delimiters make a border, and are at least four bytes apart. */
  lemma OverlapBorder(s: seq<byte>, d: seq<byte>, i: int, j: int)
    requires DelimShape(d) && At(s, d, i) && At(s, d, j) && i < j < i + |d|
    ensures Border(d, i + |d| - j) && j >= i + 4
  {
    var b := i + |d| - j;
    forall k | 0 <= k < b
      ensures d[k] == d[|d| - b + k]
    {
      assert d[k] == s[j..j + |d|][k] == s[j + k];
      assert d[|d| - b + k] == s[i..i + |d|][|d| - b + k] == s[j + k];
    }
    assert d[..b] == d[|d| - b..];
    assert d[0] == s[j..j + |d|][0] == s[j] == s[i..i + |d|][j - i] == d[j - i];
  }

  lemma LineEndShift(a: seq<byte>, t: seq<byte>, z: seq<byte>, j: int)
    requires 0 <= j < |t|
    ensures LineEnd(t, j) ==> LineEnd(a + t + z, |a| + j)
    ensures j + 2 <= |t| && LineEnd(a + t + z, |a| + j) ==> LineEnd(t, j)
  {
    if j + 2 <= |t| {
      assert (a + t + z)[|a| + j..|a| + j + 2] == t[j..j + 2];
    }
  }

  /** With clean borders a delimiter overlapped by a later one is itself a delimiter line, so a
      rejected delimiter hides nothing. */
  lemma OverlapLineEnd(s: seq<byte>, d: seq<byte>, i: int, j: int)
    requires DelimShape(d) && CleanBorders(d)
    requires At(s, d, i) && At(s, d, j) && i < j < i + |d|
    ensures LineEnd(s, i + |d|)
  {
    OverlapBorder(s, d, i, j);
    var b := i + |d| - j;
    assert LineEnd(d, b);
    assert s == s[..j] + d + s[j + |d|..];
    LineEndShift(s[..j], d, s[j + |d|..], b);
  }

  lemma {:induction false} ScanIsCut(s: seq<byte>, d: seq<byte>, from: nat)
    requires DelimShape(d) && CleanBorders(d)
    ensures Scan(s, d, from) == Cut(s, d, from)
    decreases |s| - from
  {
    hide At;
    match Find(s, d, from)
    case None =>
    case Some(i) =>
      if !LineEnd(s, i + |d|) {
        forall j | i < j < i + |d|
          ensures !At(s, d, j)
        {
          if At(s, d, j) {
            OverlapLineEnd(s, d, i, j);
            assert false;
          }
        }
        ScanIsCut(s, d, i + |d|);
        assert forall k :: from <= k < i + |d| ==> !IsCut(s, d, k);
        CutSkips(s, d, from, i + |d|);
      }
  }

  lemma CutSkips(s: seq<byte>, d: seq<byte>, from: nat, to: nat)
    requires from <= to && forall k :: from <= k < to ==> !IsCut(s, d, k)
    ensures Cut(s, d, from) == Cut(s, d, to)
  {
  }

  /** A stream on which a delimiter with a bad border is missed. */
  lemma {:induction false} BadBorderMissed(d: seq<byte>, b: int)
    requires DelimShape(d) && Border(d, b) && !LineEnd(d, b)
    ensures exists s :: Scan(s, d, 0) != Cut(s, d, 0)
  {
    var k := |d| - b;
    var s := d[..k] + d + [10];
    assert At(s, d, 0) by {
      assert s[..|d|] == d[..k] + d[..b];
      assert d == d[..k] + d[|d| - b..];
    }
    assert IsCut(s, d, k) by {
      assert s[k..k + |d|] == d;
      assert s[k + |d|] == 10;
    }
    OverlapBorder(s, d, 0, k);
    assert !LineEnd(s, |d|) by {
      assert s == d[..k] + d + [10];
      LineEndShift(d[..k], d, [10], b);
    }
    MissedCut(s, d, k);
  }

  lemma MissedCut(s: seq<byte>, d: seq<byte>, k: nat)
    requires |d| > 0 && At(s, d, 0) && !LineEnd(s, |d|) && IsCut(s, d, k) && 0 < k < |d|
    ensures Scan(s, d, 0) != Cut(s, d, 0)
  {
    hide At, LineEnd;
  }

  /** A boundary and a buffer with which that happens. */
  lemma BoundaryMissed() returns (boundary: seq<byte>, s: seq<byte>)
    ensures boundary == [120, 13, 10, 45, 45] && Scan(s, Delim(boundary), 0) != Cut(s, Delim(boundary), 0)
  {
    hide Scan, Cut;
    boundary := [120, 13, 10, 45, 45];
    var d := Delim(boundary);
    assert d == [13, 10, 45, 45, 120, 13, 10, 45, 45];
    assert d[..4] == d[|d| - 4..] == [13, 10, 45, 45];
    BadBorderMissed(d, 4);
    s :| Scan(s, d, 0) != Cut(s, d, 0);
  }

  /** The skipping scan finds the first delimiter line of every buffer exactly when the
      delimiter has no bad border. */
  lemma ScanExact(d: seq<byte>)
    requires DelimShape(d)
    ensures (forall s :: Scan(s, d, 0) == Cut(s, d, 0)) <==> CleanBorders(d)
  {
    if CleanBorders(d) {
      forall s ensures Scan(s, d, 0) == Cut(s, d, 0) { ScanIsCut(s, d, 0); }
    } else {
      var b :| Border(d, b) && !LineEnd(d, b);
      BadBorderMissed(d, b);
    }
  }

  // ------------------------------------------------------------- whole-buffer parser

  datatype FieldName = PathField | FileField | OtherField

  /** What the header block of a part says: the field it names and the file name it carries. */
  datatype PartInfo = PartInfo(name: FieldName, filename: Option<seq<byte>>)

  /** `os.path.realpath`, which raises a ValueError for some names. */
  type Normalizer = seq<byte> -> Option<seq<byte>>

  /** Decoding the header text and matching its two patterns is left to a function, and so are paths. */
  datatype Decoder = Decoder(info: seq<byte> -> PartInfo, normalize: Normalizer)

  /** What has been read so far. `openedWith` is the path value handed to `open_file` by the first file
      part, and `content` is everything written to the file it returned. */
  datatype Fields = Fields(
    path: Option<seq<byte>>, size: nat, filename: Option<seq<byte>>, fileSeen: bool,
    openedWith: Option<Option<seq<byte>>>, content: seq<byte>)

  const NO_FIELDS := Fields(None, 0, None, false, None, [])

  datatype Outcome = Parsed(fields: Fields) | ValueError

  /** A file cannot be opened yet, because there is a path and it is not usable. */
  predicate Unusable(st: Fields, normalize: Normalizer) {
    st.openedWith.None? && st.path.Some? && st.path.value != [] && normalize(st.path.value).None?
  }

  /** Record the value of one part, or fail because a path is too long or not usable. */
  function AddField(st: Fields, part: PartInfo, value: seq<byte>, normalize: Normalizer): Option<Fields> {
    match part.name
    case PathField =>
      if |value| > PATH_CAP then None else Some(st.(path := Some(value)))
    case FileField =>
      if Unusable(st, normalize) then None
      else
        Some(st.(size := |value|, fileSeen := true, content := st.content + value,
                 filename := if part.filename.Some? then part.filename else st.filename,
                 openedWith := if st.openedWith.None? then Some(st.path) else st.openedWith))
    case OtherField => Some(st)
  }

  datatype Step = Malformed | Closing | Part(header: seq<byte>, value: seq<byte>, rest: seq<byte>)

  /** Split off the part that follows a boundary: its header block ends at the first blank line and
      its value at the first delimiter line. */
  function NextPart(s: seq<byte>, d: seq<byte>): (r: Step)
    ensures r.Part? ==> |r.header| + |r.value| + |r.rest| < |s|
  {
    if DASHES <= s then Closing
    else if !(CRLF <= s) then Malformed
    else PartIn(s[2..], d)
  }

  function PartIn(t: seq<byte>, d: seq<byte>): (r: Step)
    ensures r.Part? ==> |r.header| + |r.value| + |r.rest| < |t|
    ensures !r.Closing?
  {
    match Find(t, HEADER_END, 0)
    case None => Malformed
    case Some(h) =>
      PartWith(t[..h], t[h + 4..], d)
  }

  function PartWith(header: seq<byte>, body: seq<byte>, d: seq<byte>): (r: Step)
    ensures r.Part? ==> |r.header| == |header| && |r.value| + |r.rest| <= |body|
    ensures !r.Closing?
  {
    match Cut(body, d, 0)
    case None => Malformed
    case Some(i) => Part(header, body[..i], body[i + |d|..])
  }

  function Parts(s: seq<byte>, d: seq<byte>, dec: Decoder, st: Fields): Outcome
    decreases |s|
  {
    match NextPart(s, d)
    case Malformed => ValueError
    case Closing => Parsed(st)
    case Part(h, v, rest) =>
      match AddField(st, dec.info(h), v, dec.normalize)
      case None => ValueError
      case Some(st') => Parts(rest, d, dec, st')
  }

  /** The specification: read the complete body at once. */
  function ParseWhole(s: seq<byte>, boundary: seq<byte>, dec: Decoder): Outcome {
    if DASHES + boundary <= s
    then Parts(s[|boundary| + 2..], Delim(boundary), dec, NO_FIELDS)
    else ValueError
  }

  /** Some part has a header block so long that whether the service accepts it depends on how the
      body arrives. */
  predicate LongHeader(s: seq<byte>, d: seq<byte>, dec: Decoder, st: Fields)
    decreases |s|
  {
    match NextPart(s, d)
    case Part(h, v, rest) =>
      |h| + 4 > HEADER_LIMIT + 1 ||
      (match AddField(st, dec.info(h), v, dec.normalize) case None => false case Some(st') => LongHeader(rest, d, dec, st'))
    case _ => false
  }

  predicate HasLongHeader(s: seq<byte>, boundary: seq<byte>, dec: Decoder) {
    DASHES + boundary <= s && LongHeader(s[|boundary| + 2..], Delim(boundary), dec, NO_FIELDS)
  }

  // ------------------------------------------------------------- encoding

  datatype Field = Field(header: seq<byte>, value: seq<byte>)

  /** The body a client sends: every field behind its own boundary line, then the closing line. */
  function Encode(fields: seq<Field>, boundary: seq<byte>): seq<byte> {
    DASHES + boundary + EncodeTail(fields, boundary)
  }

  function EncodeTail(fields: seq<Field>, boundary: seq<byte>): (s: seq<byte>)
    ensures LineEnd(s, 0)
    decreases |fields|
  {
    if fields == [] then DASHES + CRLF
    else
      var s := CRLF + fields[0].header + HEADER_END + fields[0].value + CRLF
               + (DASHES + boundary + EncodeTail(fields[1..], boundary));
      assert s[..2] == CRLF;
      s
  }

  /** A header block that ends where it seems to. */
  predicate GoodHeader(h: seq<byte>) {
    |h| <= 16381 && Find(h + HEADER_END, HEADER_END, 0) == Some(|h|)
  }

  /** A value that contains no delimiter line, not even together with the CRLF that follows it. */
  predicate GoodValue(v: seq<byte>, d: seq<byte>) {
    Cut(v + CRLF, d, 0).None?
  }

  ghost predicate Borderless(d: seq<byte>) {
    forall b :: !Border(d, b)
  }

  /** What the encoded fields amount to. */
  function Collect(fields: seq<Field>, dec: Decoder, st: Fields): Outcome
    decreases |fields|
  {
    if fields == [] then Parsed(st)
    else
      match AddField(st, dec.info(fields[0].header), fields[0].value, dec.normalize)
      case None => ValueError
      case Some(st') => Collect(fields[1..], dec, st')
  }

  /** A field value is cut off exactly at its end if and only if it contains no delimiter line. */
  lemma ValueSurvives(v: seq<byte>, d: seq<byte>, rest: seq<byte>)
    requires DelimShape(d) && Borderless(d) && LineEnd(rest, 0)
    ensures Cut(v + d + rest, d, 0) == Some(|v|) <==> GoodValue(v, d)
  {
    var s := v + d + rest;
    assert s[..|v| + 2] == v + CRLF;
    assert At(s, d, |v|);
    assert IsCut(s, d, |v|) by {
      assert s == (v + d) + rest + [];
      LineEndShift(v + d, rest, [], 0);
    }
    forall k | 0 <= k < |v|
      ensures IsCut(s, d, k) <==> IsCut(v + CRLF, d, k)
    {
      CutBeforeEnd(v, d, rest, k);
    }
    forall k | |v| <= k
      ensures !IsCut(v + CRLF, d, k)
    {
      assert k + |d| > |v + CRLF|;
    }
  }

  lemma CutBeforeEnd(v: seq<byte>, d: seq<byte>, rest: seq<byte>, k: nat)
    requires DelimShape(d) && Borderless(d) && k < |v|
    ensures IsCut(v + d + rest, d, k) <==> IsCut(v + CRLF, d, k)
  {
    var s, t := v + d + rest, v + CRLF;
    assert s == [] + t + (d[2..] + rest);
    assert At(s, d, |v|);
    if k + |d| <= |t| {
      AtShift([], t, d[2..] + rest, d, k);
    }
    if k + |d| > |v| {
      if At(s, d, k) {
        OverlapBorder(s, d, k, |v|);
        assert false;
      }
    } else {
      LineEndShift([], t, d[2..] + rest, k + |d|);
    }
  }

  /** What a value must not contain, in bytes: CRLF, two dashes and the boundary, followed by two dashes,
      CRLF or LF. */
  lemma GoodValueBytes(v: seq<byte>, boundary: seq<byte>)
    ensures GoodValue(v, Delim(boundary))
        <==> forall p: seq<byte>, q: seq<byte> :: v + [13, 10] == p + ([13, 10, 45, 45] + boundary) + q ==>
               !([45, 45] <= q) && !([13, 10] <= q) && !([10] <= q)
  {
    hide LineEnd, Cut;
    var w, d := v + [13, 10], [13, 10, 45, 45] + boundary;
    assert w == v + CRLF && d == Delim(boundary);
    CutInside(w, d);
    if GoodValue(v, d) {
      forall p: seq<byte>, q: seq<byte> | w == p + d + q
        ensures !([45, 45] <= q) && !([13, 10] <= q) && !([10] <= q)
      {
        SplitIsCut(p, d, q);
      }
    } else {
      var i := Cut(w, d, 0).value;
      assert w == w[..i] + d + w[i + |d|..];
      SplitIsCut(w[..i], d, w[i + |d|..]);
    }
  }

  lemma SplitIsCut(p: seq<byte>, d: seq<byte>, q: seq<byte>)
    ensures IsCut(p + d + q, d, |p|) <==> [45, 45] <= q || [13, 10] <= q || [10] <= q
  {
    var s := p + d + q;
    assert s[|p| + |d|..] == q && s[|p|..|p| + |d|] == d;
    LineEndBytes(s, |p| + |d|);
  }

  lemma LineEndBytes(s: seq<byte>, j: nat)
    requires j <= |s|
    ensures LineEnd(s, j) <==> [45, 45] <= s[j..] || [13, 10] <= s[j..] || [10] <= s[j..]
  {
    var t := s[j..];
    if j + 1 < |s| {
      assert t[0] == s[j] && t[1] == s[j + 1];
      assert t[..2] == [t[0], t[1]] && t[..1] == [t[0]];
    } else if j < |s| {
      assert t == [s[j]];
    }
  }

  lemma HeaderSurvives(h: seq<byte>, rest: seq<byte>)
    requires GoodHeader(h)
    ensures Find(h + HEADER_END + rest, HEADER_END, 0) == Some(|h|)
  {
    var s, t := h + HEADER_END + rest, h + HEADER_END;
    assert s == [] + t + rest;
    forall k | 0 <= k <= |h|
      ensures At(s, HEADER_END, k) <==> At(t, HEADER_END, k)
    {
      AtShift([], t, rest, HEADER_END, k);
    }
  }

  lemma NextPartOfEncoding(f: Field, boundary: seq<byte>, rest: seq<byte>)
    requires Borderless(Delim(boundary)) && LineEnd(rest, 0)
    requires GoodHeader(f.header) && GoodValue(f.value, Delim(boundary))
    ensures NextPart(CRLF + f.header + HEADER_END + f.value + CRLF + (DASHES + boundary + rest), Delim(boundary))
         == Part(f.header, f.value, rest)
  {
    hide Find, Cut, Border, Borderless, GoodHeader, GoodValue, LineEnd;
    var d := Delim(boundary);
    var s := CRLF + f.header + HEADER_END + f.value + CRLF + (DASHES + boundary + rest);
    assert s[2..] == f.header + HEADER_END + (f.value + d + rest);
    HeaderSurvives(f.header, f.value + d + rest);
    assert s[2..][|f.header| + 4..] == f.value + d + rest;
    ValueSurvives(f.value, d, rest);
    assert s[2..][..|f.header|] == f.header;
    assert (f.value + d + rest)[..|f.value|] == f.value;
    assert (f.value + d + rest)[|f.value| + |d|..] == rest;
  }

  lemma {:induction false} TailRoundTrip(fields: seq<Field>, boundary: seq<byte>, dec: Decoder, st: Fields)
    requires Borderless(Delim(boundary))
    requires forall f :: f in fields ==> GoodHeader(f.header) && GoodValue(f.value, Delim(boundary))
    ensures Parts(EncodeTail(fields, boundary), Delim(boundary), dec, st) == Collect(fields, dec, st)
    ensures !LongHeader(EncodeTail(fields, boundary), Delim(boundary), dec, st)
    decreases |fields|
  {
    if fields == [] {
      assert DASHES <= EncodeTail(fields, boundary);
    } else {
      NextPartOfEncoding(fields[0], boundary, EncodeTail(fields[1..], boundary));
      match AddField(st, dec.info(fields[0].header), fields[0].value, dec.normalize)
      case None =>
      case Some(st') => TailRoundTrip(fields[1..], boundary, dec, st');
    }
  }

  /** Round trip: parsing an encoded body gives back its fields, in whatever order they come. */
  lemma RoundTrip(fields: seq<Field>, boundary: seq<byte>, dec: Decoder)
    requires Borderless(Delim(boundary))
    requires forall f :: f in fields ==> GoodHeader(f.header) && GoodValue(f.value, Delim(boundary))
    ensures ParseWhole(Encode(fields, boundary), boundary, dec) == Collect(fields, dec, NO_FIELDS)
    ensures !HasLongHeader(Encode(fields, boundary), boundary, dec)
  {
    var s := Encode(fields, boundary);
    assert s[|boundary| + 2..] == EncodeTail(fields, boundary);
    TailRoundTrip(fields, boundary, dec, NO_FIELDS);
  }

  /** A body that ends before the two dashes of its closing line is refused, wherever it ends. */
  lemma TruncatedRefused(fields: seq<Field>, boundary: seq<byte>, dec: Decoder, n: nat)
    requires Borderless(Delim(boundary)) && n < |Encode(fields, boundary)| - 2
    requires forall f :: f in fields ==> GoodHeader(f.header) && GoodValue(f.value, Delim(boundary))
    ensures ParseWhole(Encode(fields, boundary)[..n], boundary, dec) == ValueError
  {
    hide Parts, EncodeTail;
    var s := Encode(fields, boundary)[..n];
    if n >= |boundary| + 2 {
      assert s[|boundary| + 2..] == EncodeTail(fields, boundary)[..n - |boundary| - 2];
      TailTruncated(fields, boundary, dec, NO_FIELDS, n - |boundary| - 2);
    }
  }

  /** Behind the two dashes of its closing line a body may end, or go on with anything. */
  lemma Epilogue(fields: seq<Field>, boundary: seq<byte>, dec: Decoder, rest: seq<byte>)
    requires Borderless(Delim(boundary))
    requires forall f :: f in fields ==> GoodHeader(f.header) && GoodValue(f.value, Delim(boundary))
    ensures ParseWhole(Encode(fields, boundary)[..|Encode(fields, boundary)| - 2] + rest, boundary, dec)
         == Collect(fields, dec, NO_FIELDS)
  {
    hide Parts, EncodeTail;
    var e := EncodeTail(fields, boundary);
    TwoBytes(fields, boundary);
    var s := Encode(fields, boundary)[..|Encode(fields, boundary)| - 2] + rest;
    assert s[..|boundary| + 2] == DASHES + boundary;
    assert s[|boundary| + 2..] == e[..|e| - 2] + rest;
    TailEpilogue(fields, boundary, dec, NO_FIELDS, rest);
  }

  lemma {:induction false} TailEpilogue(fields: seq<Field>, boundary: seq<byte>, dec: Decoder, st: Fields, rest: seq<byte>)
    requires Borderless(Delim(boundary))
    requires forall f :: f in fields ==> GoodHeader(f.header) && GoodValue(f.value, Delim(boundary))
    ensures |EncodeTail(fields, boundary)| >= if fields == [] then 4 else 8
    ensures Parts(EncodeTail(fields, boundary)[..|EncodeTail(fields, boundary)| - 2] + rest, Delim(boundary), dec, st)
         == Collect(fields, dec, st)
    decreases |fields|
  {
    hide NextPart, GoodHeader, GoodValue, Borderless, LineEnd, AddField;
    var e := EncodeTail(fields, boundary);
    if fields == [] {
      ClosingAhead(rest, Delim(boundary));
      assert e[..2] == DASHES;
    } else {
      var f, tail := fields[0], EncodeTail(fields[1..], boundary);
      assert f in fields && forall g :: g in fields[1..] ==> g in fields;
      var rest' := tail[..|tail| - 2] + rest;
      TailEpilogue(fields[1..], boundary, dec, st, rest);
      TailParts(fields, boundary, rest);
      LineAhead(fields[1..], boundary, rest);
      NextPartOfEncoding(f, boundary, rest');
      match AddField(st, dec.info(f.header), f.value, dec.normalize)
      case None =>
      case Some(st') => TailEpilogue(fields[1..], boundary, dec, st', rest);
    }
  }

  lemma TailParts(fields: seq<Field>, boundary: seq<byte>, rest: seq<byte>)
    requires fields != [] && |EncodeTail(fields[1..], boundary)| >= 2
    ensures var e, tail, f := EncodeTail(fields, boundary), EncodeTail(fields[1..], boundary), fields[0];
            e[..|e| - 2] + rest
            == CRLF + f.header + HEADER_END + f.value + CRLF + (DASHES + boundary + (tail[..|tail| - 2] + rest))
  {
    var f, tail := fields[0], EncodeTail(fields[1..], boundary);
    TailCut(CRLF + f.header + HEADER_END + f.value + CRLF, DASHES + boundary, tail, rest);
  }

  lemma TailCut(a: seq<byte>, b: seq<byte>, tail: seq<byte>, rest: seq<byte>)
    requires |tail| >= 2
    ensures var e := a + (b + tail); e[..|e| - 2] + rest == a + (b + (tail[..|tail| - 2] + rest))
  {
    var e := a + (b + tail);
    assert e[..|e| - 2] == a + (b + tail[..|tail| - 2]);
    assert b + tail[..|tail| - 2] + rest == b + (tail[..|tail| - 2] + rest);
    assert (a + (b + tail[..|tail| - 2])) + rest == a + (b + tail[..|tail| - 2] + rest);
  }

  lemma ClosingAhead(rest: seq<byte>, d: seq<byte>)
    ensures NextPart(DASHES + rest, d) == Closing
  {
  }

  lemma LineAhead(fields: seq<Field>, boundary: seq<byte>, rest: seq<byte>)
    requires |EncodeTail(fields, boundary)| >= 4
    ensures LineEnd(EncodeTail(fields, boundary)[..|EncodeTail(fields, boundary)| - 2] + rest, 0)
  {
    var e := EncodeTail(fields, boundary);
    TwoBytes(fields, boundary);
    assert (e[..|e| - 2] + rest)[0] == e[..2][0] && (e[..|e| - 2] + rest)[1] == e[..2][1];
  }

  lemma {:induction false} TailTruncated(fields: seq<Field>, boundary: seq<byte>, dec: Decoder, st: Fields, m: nat)
    requires Borderless(Delim(boundary)) && m < |EncodeTail(fields, boundary)| - 2
    requires forall f :: f in fields ==> GoodHeader(f.header) && GoodValue(f.value, Delim(boundary))
    ensures Parts(EncodeTail(fields, boundary)[..m], Delim(boundary), dec, st) == ValueError
    decreases |fields|
  {
    hide NextPart, GoodHeader, GoodValue, Borderless, LineEnd, AddField;
    var s := EncodeTail(fields, boundary)[..m];
    if fields == [] {
      ShortHead(s, Delim(boundary));
    } else {
      var f, rest := fields[0], EncodeTail(fields[1..], boundary);
      assert f in fields && forall g :: g in fields[1..] ==> g in fields;
      assert EncodeTail(fields, boundary) == CRLF + f.header + HEADER_END + f.value + CRLF + (DASHES + boundary + rest);
      PartTruncated(f, boundary, rest, m);
      TwoBytes(fields[1..], boundary);
      if NextPart(s, Delim(boundary)).Part? {
        match AddField(st, dec.info(f.header), f.value, dec.normalize)
        case None =>
        case Some(st') => TailTruncated(fields[1..], boundary, dec, st', m - (|EncodeTail(fields, boundary)| - |rest|));
      }
    }
  }

  lemma ShortHead(s: seq<byte>, d: seq<byte>)
    requires |s| < 2
    ensures NextPart(s, d) == Malformed
  {
  }

  lemma TwoBytes(fields: seq<Field>, boundary: seq<byte>)
    ensures |EncodeTail(fields, boundary)| >= 2
    ensures EncodeTail(fields, boundary)[..2] == DASHES || EncodeTail(fields, boundary)[..2] == CRLF
  {
  }

  /** Of an encoded part of which only the first `m` bytes are there, nothing is accepted, or all of it. */
  lemma PartTruncated(f: Field, boundary: seq<byte>, rest: seq<byte>, m: nat)
    requires Borderless(Delim(boundary)) && |rest| >= 2 && (rest[..2] == DASHES || rest[..2] == CRLF)
    requires GoodHeader(f.header) && GoodValue(f.value, Delim(boundary))
    requires m <= |CRLF + f.header + HEADER_END + f.value + CRLF + (DASHES + boundary + rest)|
    ensures var whole := CRLF + f.header + HEADER_END + f.value + CRLF + (DASHES + boundary + rest);
            var head := |whole| - |rest|;
            NextPart(whole[..m], Delim(boundary)) == if m < head + 2 then Malformed else Part(f.header, f.value, rest[..m - head])
  {
    hide Find, Cut, Border, Borderless, GoodHeader, GoodValue, LineEnd, NextPart;
    var d := Delim(boundary);
    var whole := CRLF + f.header + HEADER_END + f.value + CRLF + (DASHES + boundary + rest);
    if m < 2 {
      ShortHead(whole[..m], d);
    } else {
      var u := f.value + d + rest;
      assert whole == CRLF + (f.header + HEADER_END + u);
      assert whole[..m] == CRLF + (f.header + HEADER_END + u)[..m - 2];
      NextTruncated(f.header, u, d, m - 2);
      if m - 2 >= |f.header| + 4 {
        var k := m - 2 - |f.header| - 4;
        ValueTruncated(f.value, d, rest, k);
        if k >= |f.value| + |d| + 2 {
          TakeBehind(f.value, d, rest, k);
        }
      }
    }
  }

  lemma NextTruncated(h: seq<byte>, u: seq<byte>, d: seq<byte>, m: nat)
    requires GoodHeader(h) && m <= |h| + 4 + |u|
    ensures NextPart(CRLF + (h + HEADER_END + u)[..m], d)
         == if m < |h| + 4 then Malformed else PartWith(h, u[..m - |h| - 4], d)
  {
    hide Find, Cut, GoodHeader, NextPart, PartWith;
    var t := (h + HEADER_END + u)[..m];
    HeaderTruncated(h, u, m);
    NextOfHeader(t, d);
    if m >= |h| + 4 {
      TakeBehind(h, HEADER_END, u, m);
      assert PartIn(t, d) == PartWith(t[..|h|], t[|h| + 4..], d);
    }
  }

  lemma TakeBehind(a: seq<byte>, b: seq<byte>, c: seq<byte>, m: nat)
    requires |a| + |b| <= m <= |a| + |b| + |c|
    ensures (a + b + c)[..m][..|a|] == a && (a + b + c)[..m][|a| + |b|..] == c[..m - |a| - |b|]
  {
  }

  lemma NextOfHeader(t: seq<byte>, d: seq<byte>)
    ensures NextPart(CRLF + t, d) == PartIn(t, d)
  {
    hide PartIn;
    assert (CRLF + t)[0] == 13;
    assert (CRLF + t)[2..] == t;
  }

  lemma HeaderTruncated(h: seq<byte>, rest: seq<byte>, m: nat)
    requires GoodHeader(h) && m <= |h + HEADER_END + rest|
    ensures Find((h + HEADER_END + rest)[..m], HEADER_END, 0) == if m >= |h| + 4 then Some(|h|) else None
  {
    hide GoodHeader, Find, At;
    var s := h + HEADER_END + rest;
    HeaderSurvives(h, rest);
    assert s == [] + s[..m] + s[m..];
    forall k | 0 <= k && k + 4 <= m
      ensures At(s[..m], HEADER_END, k) <==> At(s, HEADER_END, k)
    {
      AtShift([], s[..m], s[m..], HEADER_END, k);
    }
    FindInside(s[..m], HEADER_END);
  }

  lemma FindInside(s: seq<byte>, p: seq<byte>)
    ensures var f := Find(s, p, 0); f.Some? ==> f.value + |p| <= |s| && At(s, p, f.value)
    ensures Find(s, p, 0) == None ==> forall k :: 0 <= k ==> !At(s, p, k)
  {
  }

  lemma ValueTruncated(v: seq<byte>, d: seq<byte>, rest: seq<byte>, k: nat)
    requires DelimShape(d) && Borderless(d) && |rest| >= 2 && (rest[..2] == DASHES || rest[..2] == CRLF) && GoodValue(v, d)
    requires k <= |v + d + rest|
    ensures Cut((v + d + rest)[..k], d, 0) == if k >= |v| + |d| + 2 then Some(|v|) else None
  {
    hide At, GoodValue, Cut, IsCut, Borderless;
    var s, t := v + d + rest, (v + d + rest)[..k];
    CutInside(t, d);
    if k >= |v| + |d| + 2 {
      CutThere(v, d, rest, k);
      forall i | 0 <= i < |v|
        ensures !IsCut(t, d, i)
      {
        CutIsEnd(v, d, rest, i);
        if IsCut(t, d, i) {
          assert t + s[k..] == s;
          CutInPrefix(t, s[k..], d, i);
        }
      }
    } else {
      forall i | 0 <= i
        ensures !IsCut(t, d, i)
      {
        NoCutInside(v, d, rest, k, i);
      }
    }
  }

  lemma CutThere(v: seq<byte>, d: seq<byte>, rest: seq<byte>, k: nat)
    requires |rest| >= 2 && (rest[..2] == DASHES || rest[..2] == CRLF) && |v| + |d| + 2 <= k <= |v + d + rest|
    ensures IsCut((v + d + rest)[..k], d, |v|)
  {
    hide LineEnd, IsCut;
    var q := rest[..k - |v| - |d|];
    assert (v + d + rest)[..k] == v + d + q;
    assert q[..2] == rest[..2];
    SplitIsCut(v, d, q);
  }

  lemma CutInside(s: seq<byte>, d: seq<byte>)
    ensures var c := Cut(s, d, 0); c.Some? ==> IsCut(s, d, c.value) && forall k :: 0 <= k < c.value ==> !IsCut(s, d, k)
    ensures Cut(s, d, 0) == None ==> forall k :: 0 <= k ==> !IsCut(s, d, k)
  {
  }

  lemma CutInPrefix(t: seq<byte>, z: seq<byte>, d: seq<byte>, i: nat)
    requires IsCut(t, d, i)
    ensures IsCut(t + z, d, i)
  {
    assert [] + t + z == t + z;
    AtShift([], t, z, d, i);
    LineEndShift([], t, z, i + |d|);
  }

  /** Without the two bytes behind the delimiter there is no delimiter line yet. */
  lemma NoCutInside(v: seq<byte>, d: seq<byte>, rest: seq<byte>, k: nat, i: nat)
    requires DelimShape(d) && Borderless(d) && |rest| >= 2 && (rest[..2] == DASHES || rest[..2] == CRLF) && GoodValue(v, d)
    requires k <= |v + d + rest| && k < |v| + |d| + 2
    ensures !IsCut((v + d + rest)[..k], d, i)
  {
    hide GoodValue, Cut, LineEnd;
    var s, t := v + d + rest, (v + d + rest)[..k];
    CutIsEnd(v, d, rest, i);
    assert s == t + s[k..];
    assert k == |v| + |d| + 1 ==> t[|v| + |d|..] == [rest[..2][0]];
    if IsCut(t, d, i) {
      CutInPrefix(t, s[k..], d, i);
      LineEndBytes(t, |v| + |d|);
      assert false;
    }
  }

  /** The only delimiter line up to the delimiter behind the value is that one. */
  lemma CutIsEnd(v: seq<byte>, d: seq<byte>, rest: seq<byte>, i: nat)
    requires DelimShape(d) && Borderless(d) && |rest| >= 2 && (rest[..2] == DASHES || rest[..2] == CRLF) && GoodValue(v, d)
    ensures i < |v| + |d| && IsCut(v + d + rest, d, i) ==> i == |v|
  {
    hide GoodValue, Cut, LineEnd;
    var s := v + d + rest;
    LineEndBytes(rest, 0);
    assert rest[0..] == rest;
    ValueSurvives(v, d, rest);
    CutInside(s, d);
    assert At(s, d, |v|);
    if |v| < i < |v| + |d| && IsCut(s, d, i) {
      OverlapBorder(s, d, |v|, i);
      assert false;
    }
  }

  // ------------------------------------------------------------- what the bytes and the fields mean

  /** A header block is good if no blank line begins before its end. */
  lemma GoodHeaderBytes(h: seq<byte>)
    ensures GoodHeader(h)
        <==> |h| <= 16381 && forall p: seq<byte>, q: seq<byte> :: h + [13, 10, 13, 10] == p + [13, 10, 13, 10] + q ==> q == []
  {
    hide Find;
    var w, e := h + [13, 10, 13, 10], [13, 10, 13, 10];
    FindInside(w, e);
    FindFirst(w, e);
    assert At(w, e, |h|);
    if forall p: seq<byte>, q: seq<byte> :: w == p + e + q ==> q == [] {
      forall k | 0 <= k < |h|
        ensures !At(w, e, k)
      {
        SplitAt(w, e, k);
      }
    }
    if Find(w, e, 0) == Some(|h|) {
      forall p: seq<byte>, q: seq<byte> | w == p + e + q
        ensures q == []
      {
        assert w[|p|..|p| + 4] == e;
        assert At(w, e, |p|);
      }
    }
  }

  lemma SplitAt(s: seq<byte>, p: seq<byte>, i: nat)
    requires i + |p| <= |s|
    ensures At(s, p, i) ==> s == s[..i] + p + s[i + |p|..]
  {
  }

  lemma FindFirst(s: seq<byte>, p: seq<byte>)
    ensures var f := Find(s, p, 0); f.Some? ==> forall k :: 0 <= k < f.value ==> !At(s, p, k)
  {
  }

  /** The bytes of a body: boundary line, header block, blank line and value for each field, then the
      closing line. */
  lemma EncodeBytes(fields: seq<Field>, boundary: seq<byte>)
    ensures Encode(fields, boundary)
         == if fields == [] then [45, 45] + boundary + [45, 45, 13, 10]
            else [45, 45] + boundary + [13, 10] + fields[0].header + [13, 10, 13, 10] + fields[0].value + [13, 10]
                 + Encode(fields[1..], boundary)
  {
  }

  /** The values of the fields with one name, in order. */
  function Values(fields: seq<Field>, dec: Decoder, name: FieldName): seq<seq<byte>> {
    if fields == [] then []
    else if dec.info(fields[0].header).name == name then [fields[0].value] + Values(fields[1..], dec, name)
    else Values(fields[1..], dec, name)
  }

  function Joined(values: seq<seq<byte>>): seq<byte> {
    if values == [] then [] else values[0] + Joined(values[1..])
  }

  /** The file name of the last file part that has one. */
  function LastName(fields: seq<Field>, dec: Decoder): Option<seq<byte>> {
    if fields == [] then None
    else
      var rest := LastName(fields[1..], dec);
      if rest.Some? || dec.info(fields[0].header).name != FileField then rest else dec.info(fields[0].header).filename
  }

  /** What the first file part is opened with: the last path before it, `path` to begin with. */
  function OpensWith(fields: seq<Field>, dec: Decoder, path: Option<seq<byte>>): Option<Option<seq<byte>>>
    decreases |fields|
  {
    if fields == [] then None
    else
      match dec.info(fields[0].header).name
      case FileField => Some(path)
      case PathField => OpensWith(fields[1..], dec, Some(fields[0].value))
      case OtherField => OpensWith(fields[1..], dec, path)
  }

  lemma {:induction false} OpensFrom(fields: seq<Field>, dec: Decoder, path: Option<seq<byte>>)
    ensures OpensWith(fields, dec, path).Some? <==> Values(fields, dec, FileField) != []
    ensures match OpensWith(fields, dec, path)
            case Some(Some(v)) => Some(v) == path || v in Values(fields, dec, PathField)
            case _ => true
    decreases |fields|
  {
    if fields != [] {
      var f := fields[0];
      OpensFrom(fields[1..], dec, if dec.info(f.header).name == PathField then Some(f.value) else path);
      if dec.info(f.header).name == PathField {
        assert Values(fields, dec, PathField)[0] == f.value;
      }
    }
  }

  lemma JoinedValues(fields: seq<Field>, dec: Decoder, c: seq<byte>)
    requires fields != [] && dec.info(fields[0].header).name == FileField
    ensures c + Joined(Values(fields, dec, FileField)) == c + fields[0].value + Joined(Values(fields[1..], dec, FileField))
  {
    var rest := Values(fields[1..], dec, FileField);
    assert ([fields[0].value] + rest)[1..] == rest;
  }

  /** Whatever the fields and their order: the last path, the last length and the last file name are kept,
      every file part is appended to the content, and the file is opened with the path known then. */
  lemma {:induction false} Collected(fields: seq<Field>, dec: Decoder, st: Fields)
    requires Collect(fields, dec, st).Parsed?
    ensures var r, paths, files := Collect(fields, dec, st).fields, Values(fields, dec, PathField), Values(fields, dec, FileField);
            && r.content == st.content + Joined(files)
            && r.path == (if paths == [] then st.path else Some(paths[|paths| - 1]))
            && r.size == (if files == [] then st.size else |files[|files| - 1]|)
            && (r.fileSeen <==> st.fileSeen || files != [])
            && r.filename == (if LastName(fields, dec).Some? then LastName(fields, dec) else st.filename)
            && r.openedWith == (if st.openedWith.Some? then st.openedWith else OpensWith(fields, dec, st.path))
            && forall i :: 0 <= i < |paths| ==> |paths[i]| <= 4096
    decreases |fields|
  {
    if fields != [] {
      var st' := AddField(st, dec.info(fields[0].header), fields[0].value, dec.normalize).value;
      Collected(fields[1..], dec, st');
      if dec.info(fields[0].header).name == FileField {
        JoinedValues(fields, dec, st.content);
      }
    }
  }

  /** A form is refused exactly for a path that is too long, or one that is not usable when the first file
      part needs it. */
  lemma {:induction false} RefusedExactly(fields: seq<Field>, dec: Decoder, st: Fields)
    ensures Collect(fields, dec, st) == ValueError
       <==> || (exists v :: v in Values(fields, dec, PathField) && |v| > 4096)
            || (st.openedWith.None? && NeedsUnusable(OpensWith(fields, dec, st.path), dec))
    decreases |fields|
  {
    if fields != [] {
      var paths, rest := Values(fields, dec, PathField), Values(fields[1..], dec, PathField);
      var f := fields[0];
      if dec.info(f.header).name == PathField {
        assert paths == [f.value] + rest && f.value in paths;
        assert forall v :: v in paths <==> v == f.value || v in rest;
      }
      match AddField(st, dec.info(f.header), f.value, dec.normalize)
      case None =>
      case Some(st') => RefusedExactly(fields[1..], dec, st');
    }
  }

  predicate NeedsUnusable(first: Option<Option<seq<byte>>>, dec: Decoder) {
    match first
    case Some(Some(path)) => path != [] && dec.normalize(path).None?
    case _ => false
  }

  lemma CollectTwo(f: Field, g: Field, dec: Decoder)
    ensures Collect([f, g], dec, NO_FIELDS)
         == match AddField(NO_FIELDS, dec.info(f.header), f.value, dec.normalize)
            case None => ValueError
            case Some(st) =>
              match AddField(st, dec.info(g.header), g.value, dec.normalize)
              case None => ValueError
              case Some(st') => Parsed(st')
  {
    assert [f, g][1..] == [g] && [g][1..] == [];
    match AddField(NO_FIELDS, dec.info(f.header), f.value, dec.normalize)
    case None =>
    case Some(st) =>
      match AddField(st, dec.info(g.header), g.value, dec.normalize)
      case None =>
      case Some(st') => assert Collect([], dec, st') == Parsed(st');
  }

  lemma CollectFirst(f: Field, rest: seq<Field>, dec: Decoder, st: Fields)
    ensures Collect([f] + rest, dec, st)
         == match AddField(st, dec.info(f.header), f.value, dec.normalize)
            case None => ValueError
            case Some(st') => Collect(rest, dec, st')
  {
    assert ([f] + rest)[1..] == rest;
  }

  /** The documented upload, path field and file field in either order: the exact path and content
      come back, and the file is opened with the path exactly when the path came first. A path that
      cannot be used is refused then, and only then. */
  lemma UploadRoundTrip(path: Field, file: Field, boundary: seq<byte>, dec: Decoder)
    requires 13 !in boundary
    requires GoodHeader(path.header) && GoodHeader(file.header)
    requires GoodValue(path.value, Delim(boundary)) && GoodValue(file.value, Delim(boundary))
    requires dec.info(path.header).name == PathField && dec.info(file.header).name == FileField
    requires |path.value| <= PATH_CAP
    ensures ParseWhole(Encode([path, file], boundary), boundary, dec)
         == if path.value != [] && dec.normalize(path.value).None? then ValueError
            else Parsed(Fields(Some(path.value), |file.value|, dec.info(file.header).filename, true,
                               Some(Some(path.value)), file.value))
    ensures ParseWhole(Encode([file, path], boundary), boundary, dec)
         == Parsed(Fields(Some(path.value), |file.value|, dec.info(file.header).filename, true,
                          Some(None), file.value))
  {
    hide ParseWhole, HasLongHeader, Encode, Collect;
    CrFreeNoBorder(boundary);
    RoundTrip([path, file], boundary, dec);
    RoundTrip([file, path], boundary, dec);
    CollectTwo(path, file, dec);
    CollectTwo(file, path, dec);
  }
}
