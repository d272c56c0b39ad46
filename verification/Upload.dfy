/** Uploads over HTTP: the streaming multipart parser and the landing of the file it delivers. */
module Upload {
  import opened Bytes
  import opened Multipart
  import opened BodyReader

  const PART_SUFFIX: seq<byte> := [46, 112, 97, 114, 116]  // ".part"

  /** The `up` dictionary of one request. */
  class Landing {
    const disk: Disk
    const normalize: Normalizer
    var fh: Handle?
    var part: Option<seq<byte>>
    var temp: Option<seq<byte>>
    ghost const before: map<seq<byte>, seq<byte>>   // the disk when the request arrived

    constructor (disk: Disk, normalize: Normalizer)
      ensures Valid(NO_FIELDS) && this.disk == disk && this.normalize == normalize && before == disk.files
      ensures fh == null
    {
      this.disk, this.normalize, fh, part, temp := disk, normalize, null, None, None;
      before := disk.files;
    }

    /** The name of the file being written. */
    ghost function Name(): Option<seq<byte>>
      reads this
    {
      if part.Some? then part else temp
    }

    /** At most one file has been created, the one the first file part asked for. */
    ghost predicate Tracks(openedWith: Option<Option<seq<byte>>>)
      reads this, disk`files
    {
      match openedWith
      case None => part == temp == None && disk.files == before
      case Some(path) =>
        if path.Some? && path.value != []
        then temp == None && normalize(path.value).Some? && part == Some(normalize(path.value).value + PART_SUFFIX)
             && disk.files == before[part.value := []]
        else part == None && temp.Some? && temp.value !in before && disk.files == before[temp.value := []]
    }

    /** The file is open under its recorded name. */
    ghost predicate Open(openedWith: Option<Option<seq<byte>>>)
      reads this, disk`files
    {
      && Tracks(openedWith)
      && (openedWith.Some? <==> fh != null)
      && (fh != null ==> fh.disk == disk && Name() == Some(fh.name))
    }

    /** What has been parsed is what has been opened and written. */
    ghost predicate Valid(st: Fields)
      reads this, disk`files, if fh == null then {} else {fh}
    {
      Open(st.openedWith) && st.content == if fh == null then [] else fh.written
    }

    /** `open_file`: reuse the open file, or create `<dest>.part`, or a temporary file while the path is
        not known. A path that is not usable is a ValueError. */
    method OpenFile(path: Option<seq<byte>>, ghost st: Fields) returns (r: Status)
      requires Valid(st) && path == st.path
      modifies this`fh, this`part, this`temp, disk`files, disk`faults
      ensures r == Done ==> Valid(st.(openedWith := if st.openedWith.None? then Some(path) else st.openedWith))
      ensures r == Done ==> fh != null && (old(fh) == null ==> fresh(fh)) && (old(fh) != null ==> fh == old(fh))
      ensures r != Done ==> Valid(st) && fh == old(fh)
      ensures r == Invalid <==> Unusable(st, normalize)
      ensures if r == Failed then disk.faults > old(disk.faults) && !disk.reliable else disk.faults == old(disk.faults)
    {
      if fh != null {
        return Done;
      }
      var name;
      if path.Some? && path.value != [] {
        var dest := normalize(path.value);
        if dest.None? {
          return Invalid;
        }
        name := dest.value + PART_SUFFIX;
        var ok := disk.Create(name);
        if !ok {
          return Failed;
        }
        part := Some(name);
      } else {
        name := FreshName(disk.files);
        var ok := disk.Create(name);
        if !ok {
          return Failed;
        }
        temp := Some(name);
      }
      fh := new Handle(disk, name);
      return Done;
    }

    method CloseFile()
      requires fh != null ==> fh.disk == disk
      modifies this`fh, disk`files, disk`shorts
      ensures fh == null
      ensures old(fh) == null ==> disk.files == old(disk.files) && disk.shorts == old(disk.shorts)
      ensures old(fh) != null ==>
                var kept := disk.Reaches(old(fh).written);
                && disk.files == old(disk.files)[old(fh).name := old(fh).written[..kept]]
                && disk.shorts == old(disk.shorts) + if kept == |old(fh).written| then 0 else 1
    {
      if fh != null {
        fh.Close();
        fh := null;
      }
    }

    /** `_discard_upload`: close the file, remove it, and forget its name. */
    method Discard()
      requires fh != null ==> fh.disk == disk && Name() == Some(fh.name)
      requires part.None? || temp.None?
      modifies this`fh, this`part, this`temp, disk`files, disk`stuck, disk`shorts
      ensures disk.stuck >= old(disk.stuck) && (disk.reliable ==> disk.stuck == old(disk.stuck))
      ensures forall n :: old(Name()) != Some(n) ==>
                (n in disk.files <==> n in old(disk.files)) && (n in disk.files ==> disk.files[n] == old(disk.files)[n])
      ensures old(Name()).Some? && disk.stuck == old(disk.stuck) ==> old(Name()).value !in disk.files
      ensures fh == null && part == temp == None
    {
      CloseFile();
      if part.Some? {
        disk.Unlink(part.value);
        part := None;
      }
      if temp.Some? {
        disk.Unlink(temp.value);
        temp := None;
      }
    }
  }

  /** `tempfile.mkstemp`: a name no file has. */
  method FreshName(files: map<seq<byte>, seq<byte>>) returns (name: seq<byte>)
    ensures name !in files
  {
    LongestName(files.Keys);
    name :| name !in files;
  }

  lemma LongestName(names: set<seq<byte>>)
    ensures exists name: seq<byte> :: name !in names
  {
    var bound := NameBound(names);
    var name: seq<byte> := seq(bound + 1, _ => 0);
    assert name !in names;
  }

  ghost function NameBound(names: set<seq<byte>>): (n: nat)
    ensures forall name :: name in names ==> |name| <= n
  {
    if names == {} then 0
    else
      var x :| x in names;
      var m := NameBound(names - {x});
      if |x| > m then |x| else m
  }

  // ------------------------------------------------------------- parsing

  /** The dictionary the parser returns. */
  datatype Report = Report(path: Option<seq<byte>>, size: nat, filename: Option<seq<byte>>, fileSeen: bool)

  datatype ParseResult = Ok(report: Report) | ValueErr | OsErr

  ghost predicate Reports(r: Report, st: Fields) {
    r == Report(st.path, st.size, st.filename, st.fileSeen)
  }

  /** What is left of the body continues the parse of the whole body. */
  ghost predicate Continues(s: seq<byte>, boundary: seq<byte>, dec: Decoder, rest: seq<byte>, st: Fields) {
    CleanBorders(Delim(boundary)) ==>
      && ParseWhole(s, boundary, dec) == Parts(rest, Delim(boundary), dec, st)
      && (LongHeader(rest, Delim(boundary), dec, st) ==> HasLongHeader(s, boundary, dec))
  }

  ghost predicate Rejected(s: seq<byte>, boundary: seq<byte>, dec: Decoder) {
    CleanBorders(Delim(boundary)) ==> ParseWhole(s, boundary, dec) == ValueError || HasLongHeader(s, boundary, dec)
  }

  /** What follows a boundary; `Lost` when it cannot be read. */
  datatype Head = Final | Broken | Lost | Header(text: seq<byte>)

  /** A part begins in the buffer, but its header block does not end there. */
  predicate Unfinished(b: seq<byte>) {
    CRLF <= b && Find(b[2..], HEADER_END, 0).None? && |b| - 2 <= HEADER_LIMIT
  }

  /** How much is buffered once the rest of that header block has been waited for. */
  function Awaited(limit: nat -> nat, pos: nat, b: seq<byte>, avail: nat): nat {
    if |b| < 2 then 0 else Filled(limit, pos, |b| - 2, |b| - 2 + 8192, avail)
  }

  /** What follows a boundary: the closing dashes, or the header block of the next part. */
  method NextHead(br: BodyReader) returns (m: Head)
    requires br.Valid() && br.Consumed() >= |br.delim| - 2 && |br.delim| >= 4
    modifies br`buf, br`remaining, br`peak, br.src
    ensures br.Valid() && br.Consumed() >= old(br.Consumed()) && br.peak >= old(br.peak)
    ensures HeadOf(old(br.Pending()), m, br.Pending())
    ensures m.Lost? ==> br.src.Fails()
    ensures m.Header? ==> br.Consumed() >= |br.delim|
    ensures CRLF <= old(br.buf) ==>
              var f := Find(old(br.buf)[2..], HEADER_END, 0);
              f.Some? ==> && m == Header(old(br.buf)[2..][..f.value]) && br.buf == old(br.buf)[2..][f.value + 4..]
                          && br.Unread() == old(br.Unread()) && br.src.pos == old(br.src.pos)
    ensures Unfinished(old(br.buf)) ==>
              br.peak >= Awaited(br.src.limit, old(br.src.pos), old(br.buf), |old(br.Unread())|)
  {
    hide Find, Awaited, Filled, BufferBound, DocLimit, DocBound, ByteSource.Whole, Room, BodyReader.Reading, BodyReader.Bounded;
    RoomFor(br.delim, br.src.Whole(), |br.buf|);
    var ok := br.Fill(2);
    if !ok {
      return Lost;
    }
    if br.buf == [] {
      return Broken;
    }
    if DASHES <= br.buf {
      assert br.buf[0] == 45;
      return Final;
    }
    if !(CRLF <= br.buf) {
      return Broken;
    }
    m := PartHead(br);
  }

  /** The header block of a part. */
  method PartHead(br: BodyReader) returns (m: Head)
    requires br.Valid() && br.Consumed() >= |br.delim| - 2 && CRLF <= br.buf
    modifies br`buf, br`remaining, br`peak, br.src
    ensures br.Valid() && br.Consumed() >= old(br.Consumed()) && br.peak >= old(br.peak)
    ensures HeadOf(old(br.Pending()), m, br.Pending()) && !m.Final?
    ensures m.Lost? ==> br.src.Fails()
    ensures m.Header? ==> br.Consumed() >= |br.delim|
    ensures var f := Find(old(br.buf)[2..], HEADER_END, 0);
            f.Some? ==> && m == Header(old(br.buf)[2..][..f.value]) && br.buf == old(br.buf)[2..][f.value + 4..]
                        && br.Unread() == old(br.Unread()) && br.src.pos == old(br.src.pos)
    ensures Unfinished(old(br.buf)) ==>
              br.peak >= Awaited(br.src.limit, old(br.src.pos), old(br.buf), |old(br.Unread())|)
  {
    hide Find, Filled, BufferBound, DocLimit, DocBound, ByteSource.Whole, Room, BodyReader.Reading, BodyReader.Bounded, HeadOf;
    ghost var s := br.Pending();
    var _ := br.Take(2);
    var status, headers := br.ReadHeaders();
    HeadIs(s, status, headers, br.Pending());
    m := match status case Done => Header(headers) case Invalid => Broken case Failed => Lost;
  }

  lemma HeadIs(s: seq<byte>, status: Status, text: seq<byte>, rest: seq<byte>)
    requires CRLF <= s
    requires status == Done ==> Find(s[2..], HEADER_END, 0) == Some(|text|) && text == s[2..][..|text|] && rest == s[2..][|text| + 4..]
    requires status == Invalid ==> var f := Find(s[2..], HEADER_END, 0); f.None? || f.value + 4 > HEADER_LIMIT + 1
    ensures HeadOf(s, match status case Done => Header(text) case Invalid => Broken case Failed => Lost, rest)
  {
    hide Find;
    assert s[0] == 13;
  }

  /** How `m` describes the beginning of `s`, with `rest` still to come. */
  ghost predicate HeadOf(s: seq<byte>, m: Head, rest: seq<byte>) {
    match m
    case Final => DASHES <= s
    case Broken =>
      && !(DASHES <= s)
      && (CRLF <= s ==> var f := Find(s[2..], HEADER_END, 0); f.None? || f.value + 4 > HEADER_LIMIT + 1)
    case Lost => true
    case Header(h) =>
      && !(DASHES <= s) && CRLF <= s
      && Find(s[2..], HEADER_END, 0) == Some(|h|) && h == s[2..][..|h|] && rest == s[2..][|h| + 4..]
  }

  /** Read the value of one field to where it belongs. */
  method ReadField(br: BodyReader, d: seq<byte>, part: PartInfo, up: Landing, report: Report, ghost st: Fields)
    returns (status: Status, report': Report, ghost st': Fields, ghost cutAt: nat)
    requires br.Valid() && d == br.delim && DelimShape(d) && br.Consumed() >= |d|
    requires up.Valid(st) && Reports(report, st)
    modifies br`buf, br`remaining, br`peak, br.src, up`fh, up`part, up`temp, up.disk`files, up.disk`faults
    modifies if up.fh == null then {} else {up.fh}
    ensures br.Valid() && br.Consumed() >= old(br.Consumed()) && br.peak >= old(br.peak)
    ensures up.fh == old(up.fh) || fresh(up.fh)
    ensures status != Failed ==> up.disk.faults == old(up.disk.faults)
    ensures status == Failed ==>
              || (up.disk.faults > old(up.disk.faults) && !up.disk.reliable)
              || (up.disk.faults == old(up.disk.faults) && br.src.Fails())
    ensures status == Done ==> up.Valid(st') && Reports(report', st')
    ensures status == Done ==> FieldRead(old(br.Pending()), d, part, st, st', cutAt, br.Pending(), up.normalize)
    ensures status == Invalid ==> FieldRefused(old(br.Pending()), d, part, st, up.normalize)
    ensures up.Open(st'.openedWith)
    ensures part.name == OtherField && Decided(old(br.buf), d) ==>
              && status == Done && br.buf == old(br.buf)[Find(old(br.buf), d, 0).value + |d|..]
              && br.Unread() == old(br.Unread()) && br.src.pos == old(br.src.pos)
  {
    hide At, IsCut, LineEnd, Find, Cut, Scan, CleanBorders, Landing.Tracks, Decided, BodyReader.Reading, BodyReader.Bounded;
    st', report', cutAt := st, report, 0;
    if part.name == PathField {
      status, report', st', cutAt := ReadPath(br, d, part, up.normalize, report, st);
    } else if part.name == FileField {
      status, report', st', cutAt := ReadFile(br, d, part, up, report, st);
    } else {
      status, cutAt := SkipField(br, d, part, up.normalize, st);
    }
  }

  /** A field of another name is read and dropped. */
  method SkipField(br: BodyReader, d: seq<byte>, part: PartInfo, normalize: Normalizer, ghost st: Fields)
    returns (status: Status, ghost cutAt: nat)
    requires br.Valid() && d == br.delim && DelimShape(d) && br.Consumed() >= |d| && part.name == OtherField
    modifies br`buf, br`remaining, br`peak, br.src
    ensures br.Valid() && br.Consumed() >= old(br.Consumed()) && br.peak >= old(br.peak)
    ensures status == Failed ==> br.src.Fails()
    ensures status == Done ==> FieldRead(old(br.Pending()), d, part, st, st, cutAt, br.Pending(), normalize)
    ensures status == Invalid ==> FieldRefused(old(br.Pending()), d, part, st, normalize)
    ensures Decided(old(br.buf), d) ==>
              && status == Done && br.buf == old(br.buf)[Find(old(br.buf), d, 0).value + |d|..]
              && br.Unread() == old(br.Unread()) && br.src.pos == old(br.src.pos)
  {
    hide At, IsCut, LineEnd, Find, Cut, Scan, CleanBorders, Decided, BodyReader.Reading, BodyReader.Bounded;
    var sink := new Sink(None, null);
    ghost var s, buffered := br.Pending(), br.Unread() == [];
    status, cutAt := br.StreamValue(d, sink);
    UncappedRefusal(s, d, part, st, sink, cutAt, buffered, normalize);
  }

  /** The path field is collected in memory, up to its cap. */
  method ReadPath(br: BodyReader, d: seq<byte>, part: PartInfo, normalize: Normalizer, report: Report, ghost st: Fields)
    returns (status: Status, report': Report, ghost st': Fields, ghost cutAt: nat)
    requires br.Valid() && d == br.delim && DelimShape(d) && br.Consumed() >= |d| && part.name == PathField
    requires Reports(report, st)
    modifies br`buf, br`remaining, br`peak, br.src
    ensures br.Valid() && br.Consumed() >= old(br.Consumed()) && br.peak >= old(br.peak)
    ensures status == Failed ==> br.src.Fails()
    ensures status == Done ==> Reports(report', st') && FieldRead(old(br.Pending()), d, part, st, st', cutAt, br.Pending(), normalize)
    ensures status == Invalid ==> FieldRefused(old(br.Pending()), d, part, st, normalize)
    ensures st'.openedWith == st.openedWith && st'.content == st.content
  {
    hide At, IsCut, LineEnd, Find, Cut, Scan, CleanBorders, BodyReader.Reading, BodyReader.Bounded;
    st', report', cutAt := st, report, 0;
    var sink := new Sink(Some(PATH_CAP), null);
    status, cutAt := br.StreamValue(d, sink);
    if status == Done {
      report' := report.(path := Some(sink.got));
      st' := st.(path := Some(sink.got));
    }
  }

  /** The file branch: the content goes straight to the upload file. */
  method ReadFile(br: BodyReader, d: seq<byte>, part: PartInfo, up: Landing, report: Report, ghost st: Fields)
    returns (status: Status, report': Report, ghost st': Fields, ghost cutAt: nat)
    requires br.Valid() && d == br.delim && DelimShape(d) && br.Consumed() >= |d| && part.name == FileField
    requires up.Valid(st) && Reports(report, st)
    modifies br`buf, br`remaining, br`peak, br.src, up`fh, up`part, up`temp, up.disk`files, up.disk`faults
    modifies if up.fh == null then {} else {up.fh}
    ensures br.Valid() && br.Consumed() >= old(br.Consumed()) && br.peak >= old(br.peak)
    ensures up.fh == old(up.fh) || fresh(up.fh)
    ensures status != Failed ==> up.disk.faults == old(up.disk.faults)
    ensures status == Failed ==>
              || (up.disk.faults > old(up.disk.faults) && !up.disk.reliable)
              || (up.disk.faults == old(up.disk.faults) && br.src.Fails())
    ensures status == Done ==> up.Valid(st') && Reports(report', st')
    ensures status == Done ==> FieldRead(old(br.Pending()), d, part, st, st', cutAt, br.Pending(), up.normalize)
    ensures status == Invalid ==> FieldRefused(old(br.Pending()), d, part, st, up.normalize)
    ensures up.Open(st'.openedWith)
  {
    hide At, IsCut, LineEnd, Find, Cut, Scan, CleanBorders, Landing.Tracks, EndsAt, ValueRefused, FieldRefused, AddField;
    hide BodyReader.Reading, BodyReader.Bounded, FieldRead, Unusable;
    st', report', cutAt := st, report, 0;
    if part.filename.Some? {
      report' := report'.(filename := part.filename);
    }
    ghost var s, buffered := br.Pending(), br.Unread() == [];
    status := up.OpenFile(report'.path, st);
    UnusableRefused(s, d, part, st, up.normalize);
    if status != Done {
      return;
    }
    st' := st.(filename := report'.filename, openedWith := if st.openedWith.None? then Some(st.path) else st.openedWith);
    var size;
    status, size, cutAt := StreamFile(br, d, up.fh);
    NoEndRefused(s, d, part, st, buffered, up.normalize);
    if status == Done {
      UncappedRead(s, d, part, st, cutAt, buffered, br.Pending(), up.normalize);
      report' := report'.(size := size, fileSeen := true);
      st' := st'.(size := size, fileSeen := true, content := st.content + s[..cutAt]);
    }
  }

  /** The value of a file part goes to the end of the open file. */
  method StreamFile(br: BodyReader, d: seq<byte>, fh: Handle) returns (status: Status, size: nat, ghost cutAt: nat)
    requires br.Valid() && d == br.delim && DelimShape(d) && br.Consumed() >= |d|
    modifies br`buf, br`remaining, br`peak, br.src, fh, fh.disk`faults
    ensures br.Valid() && br.Consumed() >= old(br.Consumed()) && br.peak >= old(br.peak)
    ensures status != Failed ==> fh.disk.faults == old(fh.disk.faults)
    ensures status == Failed ==>
              (fh.disk.faults > old(fh.disk.faults) && !fh.disk.reliable) || (fh.disk.faults == old(fh.disk.faults) && br.src.Fails())
    ensures status == Done ==> size == cutAt && cutAt + |d| <= |old(br.Pending())| && br.Pending() == old(br.Pending())[cutAt + |d|..]
    ensures status == Done ==> fh.written == old(fh.written) + old(br.Pending())[..cutAt]
    ensures status == Done ==> EndsAt(old(br.Pending()), d, cutAt, old(br.Unread()) == [])
    ensures status == Invalid ==> NoEnd(old(br.Pending()), d, old(br.Unread()) == [])
  {
    hide At, IsCut, LineEnd, Find, Cut, Scan, CleanBorders, EndsAt, NoEnd, NoEndBefore, BodyReader.Reading, BodyReader.Bounded;
    var sink := new Sink(None, fh);
    status, cutAt := br.StreamValue(d, sink);
    size := |sink.got|;
  }

  lemma NoEndRefused(s: seq<byte>, d: seq<byte>, part: PartInfo, st: Fields, buffered: bool, normalize: Normalizer)
    requires |d| > 0
    ensures NoEnd(s, d, buffered) ==> FieldRefused(s, d, part, st, normalize)
  {
  }

  lemma UncappedRead(s: seq<byte>, d: seq<byte>, part: PartInfo, st: Fields, n: nat, buffered: bool,
                     rest: seq<byte>, normalize: Normalizer)
    requires |d| > 0 && n + |d| <= |s| && rest == s[n + |d|..] && part.name == FileField && EndsAt(s, d, n, buffered)
    requires !Unusable(st, normalize)
    ensures FieldRead(s, d, part, st,
                      Fields(st.path, n, if part.filename.Some? then part.filename else st.filename, true,
                             if st.openedWith.None? then Some(st.path) else st.openedWith, st.content + s[..n]),
                      n, rest, normalize)
  {
  }

  lemma UncappedRefusal(s: seq<byte>, d: seq<byte>, part: PartInfo, st: Fields, sink: Sink, n: nat, buffered: bool,
                        normalize: Normalizer)
    requires |d| > 0 && sink.cap.None?
    ensures ValueRefused(s, d, sink, n, buffered) ==> FieldRefused(s, d, part, st, normalize)
  {
  }

  lemma UnusableRefused(s: seq<byte>, d: seq<byte>, part: PartInfo, st: Fields, normalize: Normalizer)
    requires |d| > 0 && part.name == FileField
    ensures Unusable(st, normalize) ==> FieldRefused(s, d, part, st, normalize)
  {
  }

  ghost predicate FieldRead(s: seq<byte>, d: seq<byte>, part: PartInfo, st: Fields, st': Fields, n: nat, rest: seq<byte>,
                            normalize: Normalizer)
  {
    && n + |d| <= |s| && rest == s[n + |d|..]
    && AddField(st, part, s[..n], normalize) == Some(st')
    && (CleanBorders(d) ==> Cut(s, d, 0) == Some(n))
  }

  ghost predicate FieldRefused(s: seq<byte>, d: seq<byte>, part: PartInfo, st: Fields, normalize: Normalizer) {
    CleanBorders(d) ==> var c := Cut(s, d, 0); c.Some? ==> AddField(st, part, s[..c.value], normalize).None?
  }

  lemma NextPartIs(s: seq<byte>, d: seq<byte>, h: seq<byte>, body: seq<byte>)
    requires HeadOf(s, Header(h), body)
    ensures NextPart(s, d) == PartWith(h, body, d)
  {
    hide Find, Cut, PartWith;
  }

  /** One round of the streaming parser is one round of the whole-buffer parser. */
  lemma RoundRead(s: seq<byte>, boundary: seq<byte>, dec: Decoder, st: Fields, h: seq<byte>,
                  body: seq<byte>, n: nat, rest: seq<byte>, st': Fields, whole: seq<byte>)
    requires Continues(whole, boundary, dec, s, st)
    requires HeadOf(s, Header(h), body) && FieldRead(body, Delim(boundary), dec.info(h), st, st', n, rest, dec.normalize)
    ensures Continues(whole, boundary, dec, rest, st') && |rest| < |s|
  {
    hide Find, Cut, NextPart, AddField, ParseWhole, HasLongHeader, CleanBorders, Delim;
    assert |body| < |s|;
    NextPartIs(s, Delim(boundary), h, body);
  }

  lemma RoundRefused(s: seq<byte>, boundary: seq<byte>, dec: Decoder, st: Fields, h: seq<byte>,
                     body: seq<byte>, whole: seq<byte>)
    requires Continues(whole, boundary, dec, s, st)
    requires HeadOf(s, Header(h), body) && FieldRefused(body, Delim(boundary), dec.info(h), st, dec.normalize)
    ensures Rejected(whole, boundary, dec)
  {
    hide Find, Cut, NextPart, AddField, HeadOf, ParseWhole, HasLongHeader, CleanBorders, Delim;
    NextPartIs(s, Delim(boundary), h, body);
  }

  lemma Start(s: seq<byte>, boundary: seq<byte>, dec: Decoder)
    ensures DASHES + boundary <= s ==> Continues(s, boundary, dec, s[|boundary| + 2..], NO_FIELDS)
    ensures !(DASHES + boundary <= s) ==> Rejected(s, boundary, dec)
  {
  }

  lemma RoundEnds(s: seq<byte>, boundary: seq<byte>, dec: Decoder, st: Fields, m: Head,
                  rest: seq<byte>, whole: seq<byte>)
    requires Continues(whole, boundary, dec, s, st) && HeadOf(s, m, rest)
    ensures m.Final? && CleanBorders(Delim(boundary)) ==> ParseWhole(whole, boundary, dec) == Parsed(st)
    ensures m.Broken? ==> Rejected(whole, boundary, dec)
  {
  }

  /** What is buffered behind the first part, when that is complete in the buffer. */
  function Behind(b: seq<byte>, d: seq<byte>): seq<byte> {
    if !(CRLF <= b) then []
    else
      match Find(b[2..], HEADER_END, 0)
      case None => []
      case Some(h) =>
        var body := b[2..][h + 4..];
        match Find(body, d, 0) case None => [] case Some(i) => body[i + |d|..]
  }

  /** The first part is complete in the buffer and is skipped; the header block of the second is not complete. */
  predicate Staged(b: seq<byte>, d: seq<byte>, dec: Decoder) {
    CRLF <= b &&
    var f := Find(b[2..], HEADER_END, 0);
    f.Some? && dec.info(b[2..][..f.value]).name == OtherField && Decided(b[2..][f.value + 4..], d) && Unfinished(Behind(b, d))
  }

  /** The loop of `parse_multipart_stream`, from the first boundary on. */
  method ParseParts(br: BodyReader, delim: seq<byte>, dec: Decoder, up: Landing,
                    ghost s: seq<byte>, ghost boundary: seq<byte>)
    returns (r: ParseResult, ghost st: Fields)
    requires br.Valid() && delim == br.delim == Delim(boundary) && DelimShape(delim) && br.Consumed() >= |delim| - 2
    requires Continues(s, boundary, dec, br.Pending(), NO_FIELDS)
    requires up.Valid(NO_FIELDS) && up.fh == null && up.normalize == dec.normalize
    modifies br`buf, br`remaining, br`peak, br.src, up`fh, up`part, up`temp, up.disk`files, up.disk`faults
    ensures PartsDone(br, up, s, boundary, dec, r, st, old(up.disk.faults))
    ensures up.fh == null || fresh(up.fh)
    ensures Unfinished(old(br.buf)) ==>
              br.peak >= Awaited(br.src.limit, old(br.src.pos), old(br.buf), |old(br.Unread())|)
    ensures Staged(old(br.buf), delim, dec) ==>
              br.peak >= Awaited(br.src.limit, old(br.src.pos), Behind(old(br.buf), delim), |old(br.Unread())|)
  {
    hide At, IsCut, LineEnd, Find, Cut, Parts, ParseWhole, LongHeader, HasLongHeader, CleanBorders, NextPart, Delim;
    hide HeadOf, FieldRead, FieldRefused, Continues, Rejected, DelimShape, Landing.Tracks;
    hide BodyReader.Reading, BodyReader.Bounded, Awaited, Unfinished, Staged, Behind, Decided;
    r, st := ValueErr, NO_FIELDS;
    var report := Report(None, 0, None, false);
    ghost var round := 0;
    ghost var b0, u0, p0 := br.buf, br.Unread(), br.src.pos;
    ghost var awaited := Awaited(br.src.limit, p0, Behind(b0, delim), |u0|);
    HasShape(delim);
    StagedHead(b0, delim, dec);
    var done := false;
    while !done
      invariant !done ==> br.Valid() && Continues(s, boundary, dec, br.Pending(), st) && br.Consumed() >= |delim| - 2
      invariant !done ==> up.Valid(st) && Reports(report, st) && up.disk.faults == old(up.disk.faults)
      invariant up.fh == null || fresh(up.fh)
      invariant done ==> PartsDone(br, up, s, boundary, dec, r, st, old(up.disk.faults))
      invariant round == 0 ==> br.buf == b0 && br.Unread() == u0 && br.src.pos == p0
      invariant round == 1 && Staged(b0, delim, dec) ==> br.buf == Behind(b0, delim) && br.Unread() == u0 && br.src.pos == p0
      invariant round >= 1 && Unfinished(b0) ==> br.peak >= Awaited(br.src.limit, p0, b0, |u0|)
      invariant round >= 2 && Staged(b0, delim, dec) ==> br.peak >= awaited
      invariant done ==> round >= 1 && (round == 1 ==> !Staged(b0, delim, dec))
      decreases !done, |br.Pending()|
    {
      done, r, report, st := ParsePart(br, delim, dec, up, report, st, s, boundary);
      round := round + 1;
    }
  }

  /** What is known when the loop ends. */
  ghost predicate PartsDone(br: BodyReader, up: Landing, s: seq<byte>, boundary: seq<byte>, dec: Decoder, r: ParseResult, st: Fields,
                            faults: nat)
    reads br, br.src, up, up.disk, if up.fh == null then {} else {up.fh}
  {
    && br.Valid() && up.Open(st.openedWith)
    && (r.Ok? ==> up.Valid(st) && Reports(r.report, st))
    && (r.Ok? && CleanBorders(Delim(boundary)) ==> ParseWhole(s, boundary, dec) == Parsed(st))
    && (r.ValueErr? ==> Rejected(s, boundary, dec))
    && (r.OsErr? ==> (up.disk.faults > faults && !up.disk.reliable) || (up.disk.faults == faults && br.src.Fails()))
    && (!r.OsErr? ==> up.disk.faults == faults)
  }

  /** One round of the loop: one part, or the end. */
  method ParsePart(br: BodyReader, delim: seq<byte>, dec: Decoder, up: Landing, report: Report, ghost st: Fields,
                   ghost s: seq<byte>, ghost boundary: seq<byte>)
    returns (done: bool, r: ParseResult, report': Report, ghost st': Fields)
    requires br.Valid() && delim == br.delim == Delim(boundary) && DelimShape(delim) && br.Consumed() >= |delim| - 2
    requires Continues(s, boundary, dec, br.Pending(), st)
    requires up.Valid(st) && Reports(report, st) && up.normalize == dec.normalize
    modifies br`buf, br`remaining, br`peak, br.src, up`fh, up`part, up`temp, up.disk`files, up.disk`faults
    modifies if up.fh == null then {} else {up.fh}
    ensures done ==> PartsDone(br, up, s, boundary, dec, r, st', old(up.disk.faults))
    ensures up.fh == old(up.fh) || fresh(up.fh)
    ensures !done ==>
              && br.Valid() && Continues(s, boundary, dec, br.Pending(), st') && br.Consumed() >= |delim|
              && up.Valid(st') && Reports(report', st') && up.disk.faults == old(up.disk.faults)
              && |br.Pending()| < old(|br.Pending()|)
    ensures br.peak >= old(br.peak)
    ensures Unfinished(old(br.buf)) ==>
              br.peak >= Awaited(br.src.limit, old(br.src.pos), old(br.buf), |old(br.Unread())|)
    ensures Staged(old(br.buf), delim, dec) ==>
              !done && br.buf == Behind(old(br.buf), delim) && br.Unread() == old(br.Unread()) && br.src.pos == old(br.src.pos)
  {
    hide At, IsCut, LineEnd, Find, Cut, Parts, ParseWhole, LongHeader, HasLongHeader, CleanBorders, NextPart, Delim;
    hide HeadOf, FieldRead, FieldRefused, Continues, Rejected, DelimShape, Landing.Tracks;
    hide BodyReader.Reading, BodyReader.Bounded, Awaited, Unfinished, Staged, Behind, Decided, ByteSource.Whole;
    done, r, report', st' := true, ValueErr, report, st;
    ghost var rest, buf0 := br.Pending(), br.buf;
    HasShape(delim);
    StagedHead(buf0, delim, dec);
    var head := NextHead(br);
    if !head.Header? {
      RoundEnds(rest, boundary, dec, st, head, br.Pending(), s);
      r := match head case Final => Ok(report) case Lost => OsErr case _ => ValueErr;
      return;
    }
    ghost var body := br.Pending();
    var status;
    ghost var n;
    status, report', st', n := ReadField(br, delim, dec.info(head.text), up, report, st);
    match status {
      case Done =>
        RoundRead(rest, boundary, dec, st, head.text, body, n, br.Pending(), st', s);
        done := false;
      case Invalid => RoundRefused(rest, boundary, dec, st, head.text, body, s);
      case Failed => r := OsErr;
    }
  }

  lemma HasShape(d: seq<byte>)
    requires DelimShape(d)
    ensures |d| >= 4
  {
  }

  /** How a staged buffer is consumed. */
  lemma StagedHead(b: seq<byte>, d: seq<byte>, dec: Decoder)
    ensures Staged(b, d, dec) ==>
              && CRLF <= b && Find(b[2..], HEADER_END, 0).Some?
              && var h := Find(b[2..], HEADER_END, 0).value;
                 var body := b[2..][h + 4..];
                 && dec.info(b[2..][..h]).name == OtherField && Decided(body, d)
                 && Find(body, d, 0).Some? && Behind(b, d) == body[Find(body, d, 0).value + |d|..]
    ensures Staged(b, d, dec) ==> Unfinished(Behind(b, d))
  {
    hide At, LineEnd;
  }

  /** `parse_multipart_stream`. For every way the body arrives, the result and everything written to the
      file are those of the whole-buffer parser; at most `length` bytes are read. The buffer, whose
      highest level is `peak`, is bounded, for short bodies as the docstring says. */
  method ParseMultipartStream(src: ByteSource, length: nat, boundary: seq<byte>, dec: Decoder, up: Landing)
    returns (r: ParseResult, ghost st: Fields, ghost peak: nat)
    requires up.Valid(NO_FIELDS) && up.fh == null && up.normalize == dec.normalize
    modifies src, up`fh, up`part, up`temp, up.disk`files, up.disk`faults
    ensures r.Ok? ==> up.Valid(st) && Reports(r.report, st)
    ensures r.Ok? && CleanBorders(Delim(boundary)) ==>
              ParseWhole(old(src.data)[..Min(length, |old(src.data)|)], boundary, dec) == Parsed(st)
    ensures r.ValueErr? ==> Rejected(old(src.data)[..Min(length, |old(src.data)|)], boundary, dec)
    ensures r.OsErr? ==>
              || (up.disk.faults > old(up.disk.faults) && !up.disk.reliable)
              || (up.disk.faults == old(up.disk.faults) && src.Fails())
    ensures !r.OsErr? ==> up.disk.faults == old(up.disk.faults)
    ensures up.Open(st.openedWith) && (up.fh == null || fresh(up.fh))
    ensures |src.data| <= |old(src.data)| <= |src.data| + length
    ensures src.data == old(src.data)[|old(src.data)| - |src.data|..]
    ensures peak <= BufferBound(Delim(boundary), src.Whole())
    ensures Min(length, |old(src.data)|) <= DocLimit(Delim(boundary), src.Whole()) ==> peak <= DocBound(Delim(boundary))
    ensures Climbs(old(src.data)[..Min(length, |old(src.data)|)], src.limit, old(src.pos), boundary, dec, peak)
  {
    hide Find, Rejected, Landing.Tracks, BodyReader.Reading, BodyReader.Bounded, CleanBorders, ParseWhole;
    hide BufferBound, DocLimit, DocBound, Delim, ByteSource.Whole, Climbs;
    var br := new BodyReader(src, length, Delim(boundary));
    r, st := ParseBody(br, boundary, dec, up);
    peak := br.peak;
    BodyLeft(br);
  }

  /** The same on the new reader. */
  method ParseBody(br: BodyReader, boundary: seq<byte>, dec: Decoder, up: Landing) returns (r: ParseResult, ghost st: Fields)
    requires br.Valid() && br.buf == [] && br.delim == Delim(boundary) && br.Consumed() == 0
    requires up.Valid(NO_FIELDS) && up.fh == null && up.normalize == dec.normalize
    modifies br`buf, br`remaining, br`peak, br.src, up`fh, up`part, up`temp, up.disk`files, up.disk`faults
    ensures PartsDone(br, up, old(br.Pending()), boundary, dec, r, st, old(up.disk.faults))
    ensures up.fh == null || fresh(up.fh)
    ensures Climbs(old(br.Pending()), br.src.limit, old(br.src.pos), boundary, dec, br.peak)
  {
    hide Find, Continues, Rejected, Landing.Tracks, BodyReader.Reading, BodyReader.Bounded, CleanBorders, ParseWhole, Filled, Awaited;
    hide BufferBound, DocLimit, DocBound, Unfinished, Staged, Behind, Delim, DelimShape, Room, ByteSource.Whole, Climbs;
    ghost var s, pos0 := br.Pending(), br.src.pos;
    var delim := Delim(boundary);
    DelimHasShape(boundary);
    Start(s, boundary, dec);
    RoomFor(delim, br.src.Whole(), 0);
    var ok := br.Fill(|boundary| + 4);
    ghost var b := br.buf;
    assert b == s[..|b|];
    if !ok {
      ClimbsIf(s, br.src.limit, pos0, boundary, dec, br.peak, |b|);
      return OsErr, NO_FIELDS;
    }
    if !(DASHES + boundary <= br.buf) {
      ClimbsIf(s, br.src.limit, pos0, boundary, dec, br.peak, |b|);
      return ValueErr, NO_FIELDS;
    }
    var _ := br.Take(|boundary| + 2);
    r, st := ParseParts(br, delim, dec, up, s, boundary);
    ClimbsIf(s, br.src.limit, pos0, boundary, dec, br.peak, |b|);
  }

  lemma BodyLeft(br: BodyReader)
    requires br.Valid()
    ensures |br.src.data| <= |br.start| <= |br.src.data| + br.length
    ensures br.src.data == br.start[|br.start| - |br.src.data|..]
    ensures br.peak <= BufferBound(br.delim, br.src.Whole())
    ensures Min(br.length, |br.start|) <= DocLimit(br.delim, br.src.Whole()) ==> br.peak <= DocBound(br.delim)
  {
  }

  /** The buffer gets as full as it does while the header block of the first or second part is awaited. */
  ghost predicate Climbs(s: seq<byte>, limit: nat -> nat, pos: nat, boundary: seq<byte>, dec: Decoder, peak: nat) {
    var n := Filled(limit, pos, 0, |boundary| + 4, |s|);
    n >= |boundary| + 4 && DASHES + boundary <= s[..n] ==>
      var b := s[|boundary| + 2..n];
      && (Unfinished(b) ==> peak >= Awaited(limit, pos + n, b, |s| - n))
      && (Staged(b, Delim(boundary), dec) ==> peak >= Awaited(limit, pos + n, Behind(b, Delim(boundary)), |s| - n))
  }

  lemma ClimbsIf(s: seq<byte>, limit: nat -> nat, pos: nat, boundary: seq<byte>, dec: Decoder, peak: nat, n: nat)
    requires n == Filled(limit, pos, 0, |boundary| + 4, |s|) <= |s|
    requires n >= |boundary| + 4 && DASHES + boundary <= s[..n] ==>
               var b := s[..n][|boundary| + 2..];
               && (Unfinished(b) ==> peak >= Awaited(limit, pos + n, b, |s| - n))
               && (Staged(b, Delim(boundary), dec) ==> peak >= Awaited(limit, pos + n, Behind(b, Delim(boundary)), |s| - n))
    ensures Climbs(s, limit, pos, boundary, dec, peak)
  {
    hide Filled, Unfinished, Staged, Awaited, Behind;
    if n >= |boundary| + 4 {
      assert s[..n][|boundary| + 2..] == s[|boundary| + 2..n];
    }
  }

  // ------------------------------------------------------------- landing

  datatype Response = Created(path: seq<byte>, size: nat) | BadRequest | ServerError | Crashed

  /** The part of the input that belongs to the request. */
  function Body(data: seq<byte>, length: int): seq<byte> {
    data[..Min(if length < 0 then 0 else length, |data|)]
  }

  /** The name of the file an upload is written to before it lands. */
  ghost predicate LandingName(name: Option<seq<byte>>, st: Fields, normalize: Normalizer, before: map<seq<byte>, seq<byte>>) {
    match st.openedWith
    case None => name == None
    case Some(path) =>
      name.Some? && if path.Some? && path.value != []
                    then normalize(path.value).Some? && name.value == normalize(path.value).value + PART_SUFFIX
                    else name.value !in before
  }

  /** What a well-formed request is answered when nothing fails. Without a file, or with a path that is not
      usable by then, an exception goes through. */
  function Answer(st: Fields, normalize: Normalizer): Response {
    if st.path.None? || st.path.value == [] then BadRequest
    else
      match normalize(st.path.value)
      case None => Crashed
      case Some(dest) => if st.openedWith.None? then Crashed else Created(dest, st.size)
  }

  /** What a request is answered when nothing fails. */
  function AnswerTo(o: Outcome, normalize: Normalizer): Response {
    match o case ValueError => BadRequest case Parsed(st) => Answer(st, normalize)
  }

  /** Apart from `name`, the two disks agree. */
  ghost predicate SameExcept(after: map<seq<byte>, seq<byte>>, before: map<seq<byte>, seq<byte>>, name: Option<seq<byte>>) {
    forall n :: name != Some(n) ==> (n in after <==> n in before) && (n in after ==> after[n] == before[n])
  }

  /** The disk after a response: the content has landed, or an exception has left it where it was. */
  ghost predicate Landed(resp: Response, after: map<seq<byte>, seq<byte>>, before: map<seq<byte>, seq<byte>>,
                         name: Option<seq<byte>>, content: seq<byte>)
  {
    match resp
    case Created(path, _) => name.Some? && after == (before - {name.value})[path := content]
    case Crashed => after == if name.Some? then before[name.value := content] else before
    case _ => SameExcept(after, before, name)
  }

  /** The file an upload was landing in is gone, and nothing else has changed. */
  ghost predicate Cleaned(after: map<seq<byte>, seq<byte>>, before: map<seq<byte>, seq<byte>>) {
    after == before || exists dest: seq<byte> :: after == before - {dest + [46, 112, 97, 114, 116]}
  }

  predicate NoPath(path: Option<seq<byte>>) {
    path.None? || path.value == []
  }

  lemma CleanedUp(after: map<seq<byte>, seq<byte>>, before: map<seq<byte>, seq<byte>>, name: Option<seq<byte>>, st: Fields,
                  normalize: Normalizer)
    requires LandingName(name, st, normalize, before) && SameExcept(after, before, name)
    requires name.Some? ==> name.value !in after
    ensures Cleaned(after, before)
    ensures st.openedWith.None? || NoPath(st.openedWith.value) ==> after == before
  {
    if name.None? || name.value !in before {
      assert after == before;
    } else {
      assert after == before - {name.value};
    }
  }

  /** `do_POST`. On success the destination holds the concatenated file parts, as far as the final flush has
      brought them to the disk, which the service does not check; the landing file is gone and
      nothing else has changed. Otherwise nothing but the landing file has changed. Unless
      removing it failed, that is gone exactly when no exception went through: with one, it stays. */
  method DoPost(disk: Disk, dec: Decoder, src: ByteSource, length: int, boundary: Option<seq<byte>>)
    returns (resp: Response, ghost st: Fields, ghost name: Option<seq<byte>>)
    modifies disk, src
    ensures LandingName(name, st, dec.normalize, old(disk.files))
    ensures Landed(resp, disk.files, old(disk.files), name, st.content[..disk.Reaches(st.content)])
    ensures resp.Created? || resp.Crashed? ==> resp == Answer(st, dec.normalize)
    ensures resp.Created? || resp.Crashed? ==>
              (disk.shorts == old(disk.shorts) <==> disk.Reaches(st.content) == |st.content|)
    ensures !resp.Created? && name.Some? && disk.stuck == old(disk.stuck) ==> (name.value !in disk.files <==> !resp.Crashed?)
    ensures disk.reliable ==> disk.stuck == old(disk.stuck)
    ensures disk.faults == old(disk.faults) || (resp.ServerError? && disk.faults > old(disk.faults) && !disk.reliable)
    ensures resp.ServerError? ==> disk.faults > old(disk.faults) || src.Fails()
    ensures length <= 0 || boundary in [None, Some([])] ==> resp.BadRequest?
    ensures length > 0 && boundary !in [None, Some([])] ==>
              && (resp.Created? || resp.Crashed? ==> Accepted(old(src.data), length, boundary.value, dec, st))
              && (resp.BadRequest? ==>
                    || Rejected(Body(old(src.data), length), boundary.value, dec)
                    || (Accepted(old(src.data), length, boundary.value, dec, st) && Answer(st, dec.normalize).BadRequest?))
    ensures length > 0 && boundary !in [None, Some([])] && disk.faults == old(disk.faults) && !src.Fails() ==>
              Decisive(old(src.data), length, boundary.value, dec, st, resp)
    ensures length > 0 ==> |src.data| <= |old(src.data)| <= |src.data| + length
  {
    hide ParseWhole, HasLongHeader, CleanBorders, BufferBound, DocLimit, Climbs;
    st, name := NO_FIELDS, None;
    if length <= 0 || boundary.None? || boundary.value == [] {
      return BadRequest, st, name;
    }
    var up := new Landing(disk, dec.normalize);
    var r;
    ghost var peak;
    r, st, peak := ParseMultipartStream(src, length, boundary.value, dec, up);
    name := up.Name();
    if !r.Ok? {
      up.Discard();
      return if r.ValueErr? then BadRequest else ServerError, st, name;
    }
    resp := Settle(up, r.report, st);
  }

  /** The second half of `do_POST`: the body has been parsed. */
  method Settle(up: Landing, report: Report, ghost st: Fields) returns (resp: Response)
    requires up.Valid(st) && Reports(report, st)
    modifies up`fh, up`part, up`temp, up.disk
    ensures Landed(resp, up.disk.files, up.before, old(up.Name()), st.content[..up.disk.Reaches(st.content)])
    ensures if up.disk.faults == old(up.disk.faults) then resp == Answer(st, up.normalize)
            else resp.ServerError? && up.disk.faults > old(up.disk.faults) && !up.disk.reliable
    ensures up.disk.reliable ==> up.disk.stuck == old(up.disk.stuck)
    ensures resp.Created? || resp.Crashed? ==>
              (up.disk.shorts == old(up.disk.shorts) <==> up.disk.Reaches(st.content) == |st.content|)
    ensures !resp.Created? && old(up.Name()).Some? && up.disk.stuck == old(up.disk.stuck) ==>
              (old(up.Name()).value !in up.disk.files <==> !resp.Crashed?)
  {
    hide Landed, Answer;
    up.CloseFile();
    resp := Finish(up, report, st);
  }

  /** The same once the file is closed. */
  method Finish(up: Landing, report: Report, ghost st: Fields) returns (resp: Response)
    requires up.fh == null && Reports(report, st) && (up.part.None? || up.temp.None?)
    requires up.Name().None? <==> st.openedWith.None?
    requires up.disk.files == if up.Name().None? then up.before
                              else up.before[up.Name().value := st.content[..up.disk.Reaches(st.content)]]
    modifies up`fh, up`part, up`temp, up.disk`files, up.disk`faults, up.disk`stuck, up.disk`shorts
    ensures Landed(resp, up.disk.files, up.before, old(up.Name()), st.content[..up.disk.Reaches(st.content)])
    ensures if up.disk.faults == old(up.disk.faults) then resp == Answer(st, up.normalize)
            else resp.ServerError? && up.disk.faults > old(up.disk.faults) && !up.disk.reliable
    ensures up.disk.reliable ==> up.disk.stuck == old(up.disk.stuck)
    ensures resp.Created? || resp.Crashed? ==> up.disk.shorts == old(up.disk.shorts)
    ensures !resp.Created? && old(up.Name()).Some? && up.disk.stuck == old(up.disk.stuck) ==>
              (old(up.Name()).value !in up.disk.files <==> !resp.Crashed?)
  {
    if report.path.None? || report.path.value == [] {
      up.Discard();
      return BadRequest;
    }
    var dest := up.normalize(report.path.value);
    if dest.None? || (up.temp.None? && up.part.None?) {
      return Crashed;
    }
    var ok := up.disk.Replace(if up.temp.Some? then up.temp.value else up.part.value, dest.value);
    if !ok {
      up.Discard();
      return ServerError;
    }
    return Created(dest.value, report.size);
  }

  ghost predicate Accepted(data: seq<byte>, length: int, boundary: seq<byte>, dec: Decoder, st: Fields) {
    CleanBorders(Delim(boundary)) ==> ParseWhole(Body(data, length), boundary, dec) == Parsed(st)
  }

  /** The whole-buffer parser decides the response. */
  ghost predicate Decisive(data: seq<byte>, length: int, boundary: seq<byte>, dec: Decoder, st: Fields, resp: Response) {
    CleanBorders(Delim(boundary)) && !HasLongHeader(Body(data, length), boundary, dec) ==>
      var o := ParseWhole(Body(data, length), boundary, dec);
      resp == AnswerTo(o, dec.normalize) && (o.Parsed? ==> o == Parsed(st))
  }

  // ------------------------------------------------------------- encoded requests

  /** Any encoded form, whatever its fields and however it is chunked: unless a disk operation fails, the
      fields alone decide the response, and with the final flush what is on disk afterwards. */
  method PostForm(disk: Disk, dec: Decoder, boundary: seq<byte>, fields: seq<Field>, limit: nat -> nat)
    returns (resp: Response, ghost name: Option<seq<byte>>)
    requires boundary != [] && 13 !in boundary
    requires forall f :: f in fields ==> GoodHeader(f.header) && GoodValue(f.value, Delim(boundary))
    requires forall p: nat :: limit(p) > 0
    modifies disk
    ensures disk.reliable ==> disk.faults == old(disk.faults)
    ensures disk.faults == old(disk.faults) ==>
              var o := Collect(fields, dec, NO_FIELDS);
              && resp == AnswerTo(o, dec.normalize)
              && (o.Parsed? && resp != BadRequest ==>
                    && LandingName(name, o.fields, dec.normalize, old(disk.files))
                    && Landed(resp, disk.files, old(disk.files), name, o.fields.content[..disk.Reaches(o.fields.content)]))
              && (disk.reliable && resp == BadRequest ==> Cleaned(disk.files, old(disk.files)))
              && (disk.reliable && resp == BadRequest && o.Parsed? && (o.fields.openedWith.None? || NoPath(o.fields.openedWith.value)) ==>
                    disk.files == old(disk.files))
  {
    hide ParseWhole, HasLongHeader, CleanBorders, Collect, Encode, GoodHeader, GoodValue, LandingName, Answer, Rejected, Accepted;
    hide Cleaned, SameExcept;
    CrFreeNoBorder(boundary);
    RoundTrip(fields, boundary, dec);
    var body := Encode(fields, boundary);
    EncodeNonempty(fields, boundary);
    assert Body(body, |body|) == body;
    var src := new ByteSource(body, limit);
    ghost var st;
    resp, st, name := DoPost(disk, dec, src, |body|, Some(boundary));
    if disk.reliable && resp == BadRequest {
      CleanedUp(disk.files, old(disk.files), name, st, dec.normalize);
    }
  }

  /** A form cut short, wherever that is before its closing dashes: it is refused, and nothing lands. */
  method PostTruncated(disk: Disk, dec: Decoder, boundary: seq<byte>, fields: seq<Field>, sent: nat, limit: nat -> nat)
    returns (resp: Response)
    requires boundary != [] && 13 !in boundary && sent < |Encode(fields, boundary)| - 2
    requires forall f :: f in fields ==> GoodHeader(f.header) && GoodValue(f.value, Delim(boundary))
    requires forall p: nat :: limit(p) > 0
    modifies disk
    ensures disk.reliable ==> disk.faults == old(disk.faults)
    ensures disk.faults == old(disk.faults) ==> resp == BadRequest && (disk.reliable ==> Cleaned(disk.files, old(disk.files)))
  {
    hide ParseWhole, HasLongHeader, CleanBorders, Encode, GoodHeader, GoodValue, LandingName, Answer, Rejected, SameExcept, Decisive;
    hide Cleaned;
    CrFreeNoBorder(boundary);
    TruncatedRefused(fields, boundary, dec, sent);
    var body := Encode(fields, boundary);
    var src := new ByteSource(body[..sent], limit);
    assert body[..sent] == Body(body[..sent], |body|);
    ghost var st, name;
    resp, st, name := DoPost(disk, dec, src, |body|, Some(boundary));
    if disk.reliable && resp == BadRequest {
      CleanedUp(disk.files, old(disk.files), name, st, dec.normalize);
    }
  }

  /** A form without a path, or with empty ones only, however many files it brings: it is refused, and
      the disk is as it was. */
  method PostNoPath(disk: Disk, dec: Decoder, boundary: seq<byte>, fields: seq<Field>, limit: nat -> nat) returns (resp: Response)
    requires boundary != [] && 13 !in boundary
    requires forall f :: f in fields ==> GoodHeader(f.header) && GoodValue(f.value, Delim(boundary))
    requires forall v :: v in Values(fields, dec, PathField) ==> v == []
    requires forall p: nat :: limit(p) > 0
    modifies disk
    ensures disk.reliable ==> disk.faults == old(disk.faults)
    ensures disk.faults == old(disk.faults) ==> resp == BadRequest && (disk.reliable ==> disk.files == old(disk.files))
  {
    hide GoodHeader, GoodValue, Collect;
    NoPaths(fields, dec, NO_FIELDS);
    ghost var name;
    resp, name := PostForm(disk, dec, boundary, fields, limit);
  }

  lemma {:induction false} NoPaths(fields: seq<Field>, dec: Decoder, st: Fields)
    requires forall v :: v in Values(fields, dec, PathField) ==> v == []
    requires NoPath(st.path) && (st.openedWith.None? || NoPath(st.openedWith.value))
    ensures var o := Collect(fields, dec, st);
            && o.Parsed? && NoPath(o.fields.path)
            && (o.fields.openedWith.None? || NoPath(o.fields.openedWith.value))
    decreases |fields|
  {
    if fields != [] {
      var rest := Values(fields[1..], dec, PathField);
      assert forall v :: v in rest ==> v in Values(fields, dec, PathField);
      if dec.info(fields[0].header).name == PathField {
        assert Values(fields, dec, PathField)[0] == fields[0].value;
        assert fields[0].value in Values(fields, dec, PathField);
      }
      NoPaths(fields[1..], dec, AddField(st, dec.info(fields[0].header), fields[0].value, dec.normalize).value);
    }
  }

  /** A path of more than 4096 bytes is refused, before the file or behind it. */
  method PostLongPath(disk: Disk, dec: Decoder, boundary: seq<byte>, path: Field, file: Field, pathFirst: bool, limit: nat -> nat)
    returns (resp: Response)
    requires boundary != [] && 13 !in boundary
    requires GoodHeader(path.header) && GoodHeader(file.header)
    requires GoodValue(path.value, Delim(boundary)) && GoodValue(file.value, Delim(boundary))
    requires dec.info(path.header).name == PathField && dec.info(file.header).name == FileField
    requires |path.value| > 4096
    requires forall p: nat :: limit(p) > 0
    modifies disk
    ensures disk.reliable ==> disk.faults == old(disk.faults)
    ensures disk.faults == old(disk.faults) ==> resp == BadRequest && (disk.reliable ==> Cleaned(disk.files, old(disk.files)))
  {
    hide GoodHeader, GoodValue, Collect;
    CollectTwo(path, file, dec);
    CollectTwo(file, path, dec);
    ghost var name;
    resp, name := PostForm(disk, dec, boundary, if pathFirst then [path, file] else [file, path], limit);
  }

  lemma EncodeNonempty(fields: seq<Field>, boundary: seq<byte>)
    ensures |Encode(fields, boundary)| > 0
  {
  }

  /** The documented upload, end to end: whatever the content (as long as it holds no delimiter line),
      however its encoding is chunked, and in either field order, the answer reports all of it and
      the destination holds what of it the final flush has brought to the disk, unless another
      disk operation failed. */
  method PostEncoded(disk: Disk, dec: Decoder, boundary: seq<byte>, path: Field, file: Field, pathFirst: bool, limit: nat -> nat)
    returns (resp: Response)
    requires boundary != [] && 13 !in boundary
    requires GoodHeader(path.header) && GoodHeader(file.header)
    requires GoodValue(path.value, Delim(boundary)) && GoodValue(file.value, Delim(boundary))
    requires dec.info(path.header).name == PathField && dec.info(file.header).name == FileField
    requires 0 < |path.value| <= 4096 && dec.normalize(path.value).Some?
    requires forall p: nat :: limit(p) > 0
    modifies disk
    ensures disk.reliable ==> disk.faults == old(disk.faults)
    ensures disk.faults == old(disk.faults) ==>
              var dest, stored := dec.normalize(path.value).value, file.value[..disk.Reaches(file.value)];
              && resp == Created(dest, |file.value|) && dest in disk.files && disk.files[dest] == stored
              && (stored == file.value <==> disk.flush(file.value) >= |file.value|)
              && (pathFirst ==> disk.files == (old(disk.files) - {dest + PART_SUFFIX})[dest := stored])
              && (!pathFirst ==>
                    exists temp :: temp !in old(disk.files) && disk.files == (old(disk.files) - {temp})[dest := stored])
  {
    hide GoodHeader, GoodValue, Collect;
    CollectTwo(path, file, dec);
    CollectTwo(file, path, dec);
    ghost var name;
    resp, name := PostForm(disk, dec, boundary, if pathFirst then [path, file] else [file, path], limit);
    assert [] + file.value == file.value;
  }

  /** Any number of file parts, between any other fields: they land one behind the other under the last path,
      while the answer reports the length of the last of them only. */
  method PostFiles(disk: Disk, dec: Decoder, boundary: seq<byte>, fields: seq<Field>, limit: nat -> nat) returns (resp: Response)
    requires boundary != [] && 13 !in boundary
    requires forall f :: f in fields ==> GoodHeader(f.header) && GoodValue(f.value, Delim(boundary))
    requires var paths := Values(fields, dec, PathField);
             && paths != [] && paths[|paths| - 1] != []
             && forall v :: v in paths ==> |v| <= 4096 && (v == [] || dec.normalize(v).Some?)
    requires Values(fields, dec, FileField) != []
    requires forall p: nat :: limit(p) > 0
    modifies disk
    ensures disk.reliable ==> disk.faults == old(disk.faults)
    ensures disk.faults == old(disk.faults) ==>
              var paths, files := Values(fields, dec, PathField), Values(fields, dec, FileField);
              var dest := dec.normalize(paths[|paths| - 1]).value;
              && resp == Created(dest, |files[|files| - 1]|)
              && dest in disk.files && disk.files[dest] == Joined(files)[..disk.Reaches(Joined(files))]
  {
    hide GoodHeader, GoodValue, Collect, Values, Joined, OpensWith;
    RefusedExactly(fields, dec, NO_FIELDS);
    OpensFrom(fields, dec, None);
    Collected(fields, dec, NO_FIELDS);
    ghost var paths := Values(fields, dec, PathField);
    assert paths[|paths| - 1] in paths;
    assert [] + Joined(Values(fields, dec, FileField)) == Joined(Values(fields, dec, FileField));
    ghost var name;
    resp, name := PostForm(disk, dec, boundary, fields, limit);
  }

  /** An upload of one byte that is answered as stored, and of which nothing is. */
  method FlushLoses() returns (resp: Response, stored: seq<byte>)
    ensures resp == Created([112], 1) && stored == []
  {
    hide Find, Cut;
    var disk := new Disk(_ => 0, true);
    var dec := Decoder(h => PartInfo(if h == [] then FileField else PathField, None), p => Some(p));
    ShortHeader([]);
    ShortHeader([112]);
    ShortValue([112], [66]);
    ShortValue([120], [66]);
    resp := PostEncoded(disk, dec, [66], Field([112], [112]), Field([], [120]), true, _ => 1);
    stored := disk.files[[112]];
  }

  /** A file that holds the delimiter of its own form, but no delimiter line, lands whole. */
  method FalseHitLands() returns (resp: Response, stored: seq<byte>)
    ensures resp == Created([112], 7) && stored == [13, 10, 45, 45, 66, 45, 49]
  {
    hide Find, Cut, GoodValue;
    var disk := new Disk(b => |b|, true);
    var dec := Decoder(h => PartInfo(if h == [] then FileField else PathField, None), p => Some(p));
    ShortHeader([]);
    ShortHeader([112]);
    ShortValue([112], [66]);
    FalseHit();
    resp := PostEncoded(disk, dec, [66], Field([112], [112]), Field([], [13, 10, 45, 45, 66, 45, 49]), true, _ => 1);
    stored := disk.files[[112]];
  }

  lemma FalseHit()
    ensures GoodValue([13, 10, 45, 45, 66, 45, 49], Delim([66]))
  {
    hide GoodValue;
    var v: seq<byte> := [13, 10, 45, 45, 66, 45, 49];
    var w: seq<byte> := [13, 10, 45, 45, 66, 45, 49, 13, 10];
    assert v + [13, 10] == w;
    forall p: seq<byte>, q: seq<byte> | v + [13, 10] == p + ([13, 10, 45, 45] + [66]) + q
      ensures !([45, 45] <= q) && !([13, 10] <= q) && !([10] <= q)
    {
      assert w == p + [13, 10, 45, 45, 66] + q;
      assert w[|p|] == 13 && w[|p| + 1] == 10 && |p| <= 4;
      assert q == w[5..];
      assert q[0] == 45 && q[1] == 49;
    }
    GoodValueBytes(v, [66]);
  }

  lemma ShortHeader(h: seq<byte>)
    requires h in [[], [112]]
    ensures GoodHeader(h)
  {
    var s := h + HEADER_END;
    assert s[|h|..|h| + 4] == HEADER_END;
    assert |h| == 1 ==> s[0] == 112 && !At(s, HEADER_END, 0);
  }

  lemma ShortValue(v: seq<byte>, boundary: seq<byte>)
    requires |v| <= |boundary| + 1
    ensures GoodValue(v, Delim(boundary))
  {
  }

  /** A path and no file: the exception that goes through is a TypeError. */
  method PostPathOnly(disk: Disk, dec: Decoder, boundary: seq<byte>, path: Field, limit: nat -> nat) returns (resp: Response)
    requires boundary != [] && 13 !in boundary
    requires GoodHeader(path.header) && GoodValue(path.value, Delim(boundary))
    requires dec.info(path.header).name == PathField && 0 < |path.value| <= PATH_CAP
    requires forall p: nat :: limit(p) > 0
    modifies disk
    ensures disk.reliable ==> disk.faults == old(disk.faults)
    ensures disk.faults == old(disk.faults) ==> resp == Crashed && disk.files == old(disk.files)
  {
    hide GoodHeader, GoodValue, Collect;
    CollectFirst(path, [], dec, NO_FIELDS);
    assert [path] + [] == [path];
    CollectNone(dec, NO_FIELDS.(path := Some(path.value)));
    ghost var name;
    resp, name := PostForm(disk, dec, boundary, [path], limit);
  }

  lemma CollectNone(dec: Decoder, st: Fields)
    ensures Collect([], dec, st) == Parsed(st)
  {
  }

  /** A path that is not usable, behind the file: the exception is a ValueError, and the temporary file
      stays. If a usable path came before the file, it is the `.part` file that stays. */
  method PostUnusablePath(disk: Disk, dec: Decoder, boundary: seq<byte>, first: Option<Field>, file: Field, bad: Field, limit: nat -> nat)
    returns (resp: Response)
    requires boundary != [] && 13 !in boundary
    requires GoodHeader(file.header) && GoodHeader(bad.header) && (first.Some? ==> GoodHeader(first.value.header))
    requires GoodValue(file.value, Delim(boundary)) && GoodValue(bad.value, Delim(boundary))
    requires first.Some? ==> GoodValue(first.value.value, Delim(boundary))
    requires dec.info(file.header).name == FileField && dec.info(bad.header).name == PathField
    requires 0 < |bad.value| <= PATH_CAP && dec.normalize(bad.value).None?
    requires first.Some? ==> dec.info(first.value.header).name == PathField && 0 < |first.value.value| <= PATH_CAP
    requires first.Some? ==> dec.normalize(first.value.value).Some?
    requires forall p: nat :: limit(p) > 0
    modifies disk
    ensures disk.reliable ==> disk.faults == old(disk.faults)
    ensures disk.faults == old(disk.faults) ==>
              var stored := file.value[..disk.Reaches(file.value)];
              && resp == Crashed
              && (first.Some? ==>
                    disk.files == old(disk.files)[dec.normalize(first.value.value).value + PART_SUFFIX := stored])
              && (first.None? ==>
                    exists temp :: temp !in old(disk.files) && disk.files == old(disk.files)[temp := stored])
  {
    hide GoodHeader, GoodValue, Collect;
    var fields := if first.Some? then [first.value, file, bad] else [file, bad];
    CollectTwo(file, bad, dec);
    if first.Some? {
      var st := NO_FIELDS.(path := Some(first.value.value));
      CollectFirst(first.value, [file, bad], dec, NO_FIELDS);
      assert [first.value] + [file, bad] == fields;
      CollectFirst(file, [bad], dec, st);
      assert [file] + [bad] == [file, bad];
      var st' := AddField(st, dec.info(file.header), file.value, dec.normalize).value;
      CollectFirst(bad, [], dec, st');
      assert [bad] + [] == [bad];
      CollectNone(dec, st'.(path := Some(bad.value)));
    }
    ghost var name;
    resp, name := PostForm(disk, dec, boundary, fields, limit);
    assert [] + file.value == file.value;
  }
}
