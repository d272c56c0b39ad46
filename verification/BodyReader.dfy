/** The streaming body reader: a bounded buffer in front of a source that may return short reads. */
module BodyReader {
  import opened Bytes
  import opened Multipart

  const CHUNK: nat := 256 * 1024

  /** `rfile`. A read at position `p` returns at most `limit(p)` bytes, and raises an OSError when that is 0. */
  class ByteSource {
    var data: seq<byte>
    var pos: nat
    const limit: nat -> nat

    constructor (data: seq<byte>, limit: nat -> nat)
      ensures this.data == data && this.limit == limit && pos == 0
    {
      this.data, this.limit, pos := data, limit, 0;
    }

    /** The next read raises an OSError. */
    ghost predicate Fails()
      reads this`pos
    {
      limit(pos) == 0
    }

    /** No read is short, as with the buffered reader of a request. */
    ghost predicate Whole() {
      forall p: nat :: limit(p) == 0 || limit(p) >= CHUNK
    }

    method Read(n: nat) returns (ok: bool, chunk: seq<byte>)
      modifies this
      ensures ok <==> !old(Fails())
      ensures !ok ==> chunk == [] && data == old(data) && pos == old(pos)
      ensures |chunk| == if ok then Min(Min(n, |old(data)|), limit(old(pos))) else 0
      ensures chunk + data == old(data) && pos == old(pos) + |chunk|
    {
      ok, chunk := limit(pos) != 0, [];
      if ok {
        var k := Min(Min(n, |data|), limit(pos));
        chunk, data, pos := data[..k], data[k..], pos + k;
      }
    }
  }

  /** The storage behind upload files. When a file is closed, `flush` says how many of its bytes reach the
      disk. Other operations may fail, unless the disk is `reliable`. Failures are counted: in `shorts`
      when a flush falls short, in `stuck` when a file cannot be removed, in `faults` otherwise. */
  class Disk {
    const flush: seq<byte> -> nat
    const reliable: bool
    var files: map<seq<byte>, seq<byte>>
    ghost var faults: nat
    ghost var stuck: nat
    ghost var shorts: nat

    constructor (flush: seq<byte> -> nat, reliable: bool)
      ensures this.flush == flush && this.reliable == reliable
      ensures files == map[] && faults == stuck == shorts == 0
    {
      this.flush, this.reliable := flush, reliable;
      files, faults, stuck, shorts := map[], 0, 0, 0;
    }

    /** How many of these bytes reach the disk. */
    function Reaches(b: seq<byte>): (n: nat)
      ensures n <= |b|
    {
      Min(|b|, flush(b))
    }

    /** Create or truncate a file. */
    method Create(name: seq<byte>) returns (ok: bool)
      modifies this`files, this`faults
      ensures ok ==> files == old(files)[name := []] && faults == old(faults)
      ensures !ok ==> files == old(files) && faults > old(faults) && !reliable
    {
      ok := *;
      if ok || reliable {
        ok, files := true, files[name := []];
      } else {
        faults := faults + 1;
      }
    }

    method Unlink(name: seq<byte>)
      modifies this`files, this`stuck
      ensures (files == old(files) - {name} && stuck == old(stuck)) || (files == old(files) && stuck > old(stuck) && !reliable)
    {
      var ok: bool := *;
      if ok || reliable {
        files := files - {name};
      } else {
        stuck := stuck + 1;
      }
    }

    /** `os.replace`, and `shutil.move` on one disk. */
    method Replace(from: seq<byte>, to: seq<byte>) returns (ok: bool)
      requires from in files
      modifies this`files, this`faults
      ensures ok ==> files == (old(files) - {from})[to := old(files)[from]] && faults == old(faults)
      ensures !ok ==> files == old(files) && faults > old(faults) && !reliable
    {
      ok := *;
      if ok || reliable {
        ok, files := true, (files - {from})[to := files[from]];
      } else {
        faults := faults + 1;
      }
    }
  }

  /** An open upload file. What is written reaches the disk when the file is closed. */
  class Handle {
    const disk: Disk
    const name: seq<byte>
    var written: seq<byte>

    constructor (disk: Disk, name: seq<byte>)
      ensures this.disk == disk && this.name == name && written == []
    {
      this.disk, this.name, written := disk, name, [];
    }

    method Write(b: seq<byte>) returns (ok: bool)
      modifies this`written, disk`faults
      ensures ok ==> written == old(written) + b && disk.faults == old(disk.faults)
      ensures !ok ==> disk.faults > old(disk.faults) && !disk.reliable
    {
      var k: nat :| k <= |b| && (disk.reliable ==> k == |b|);
      written := written + b[..k];
      ok := k == |b|;
      if !ok {
        disk.faults := disk.faults + 1;
      }
    }

    /** Flush and close. What does not reach the disk is lost; callers ignore that. */
    method Close()
      modifies disk`files, disk`shorts
      ensures disk.files == old(disk.files)[name := written[..disk.Reaches(written)]]
      ensures disk.shorts == old(disk.shorts) + if disk.Reaches(written) == |written| then 0 else 1
    {
      disk.files := disk.files[name := written[..disk.Reaches(written)]];
      if disk.Reaches(written) < |written| {
        disk.shorts := disk.shorts + 1;
      }
    }
  }

  datatype Status = Done | Invalid | Failed

  /** Where a field value goes: into memory up to a cap, into an open file, or nowhere. */
  class Sink {
    const cap: Option<nat>
    const file: Handle?
    var got: seq<byte>
    ghost const base: seq<byte>      // what the file held before
    ghost const faults: nat          // how often the disk had failed before

    constructor (cap: Option<nat>, file: Handle?)
      ensures Valid() && this.cap == cap && this.file == file && got == []
      ensures file != null ==> base == file.written && faults == file.disk.faults
    {
      this.cap, this.file, got := cap, file, [];
      if file != null {
        base, faults := file.written, file.disk.faults;
      }
    }

    /** Everything accepted is in the file, and nothing has failed. */
    ghost predicate Valid()
      reads this, OwnFile(), OwnDisk()
    {
      file != null ==> file.written == base + got && file.disk.faults == faults
    }

    ghost predicate Broken()
      reads OwnDisk()
    {
      file != null && file.disk.faults > faults && !file.disk.reliable
    }

    ghost predicate Fits(n: nat) {
      cap.Some? ==> n <= cap.value
    }

    method Accept(b: seq<byte>) returns (r: Status)
      requires Valid()
      modifies this`got, OwnFile(), OwnDisk()`faults
      ensures r == Done ==> Valid() && got == old(got) + b && Fits(|got|)
      ensures r == Invalid ==> Valid() && !Fits(|old(got)| + |b|)
      ensures r == Failed ==> Broken()
    {
      if cap.Some? && |got| + |b| > cap.value {
        return Invalid;
      }
      got := got + b;
      if file != null {
        var ok := file.Write(b);
        if !ok {
          return Failed;
        }
      }
      return Done;
    }

    ghost function OwnFile(): set<Handle> {
      if file == null then {} else {file}
    }

    ghost function OwnDisk(): set<Disk> {
      if file == null then {} else {file.disk}
    }
  }

  /** What the buffer can hold when a full read begins. */
  function Kept(d: seq<byte>): nat {
    if |d| + 1 > HEADER_LIMIT then |d| + 1 else HEADER_LIMIT
  }

  /** The most the buffer ever holds. */
  function BufferBound(d: seq<byte>, whole: bool): nat {
    if whole then CHUNK + Kept(d) else 2 * CHUNK + |d|
  }

  /** The bound the docstring gives: a chunk and the delimiter. */
  function DocBound(d: seq<byte>): nat {
    CHUNK + |d|
  }

  /** The length up to which it holds for every body. */
  function DocLimit(d: seq<byte>, whole: bool): int {
    if whole then 2 * CHUNK + |d| - Kept(d) else CHUNK + 2 * |d|
  }

  /** These bounds in bytes. */
  lemma BoundsInBytes(boundary: seq<byte>)
    requires |boundary| <= 16000
    ensures var n, d := |boundary|, Delim(boundary);
            && BufferBound(d, true) == 278528 && BufferBound(d, false) == 524292 + n && DocBound(d) == 262148 + n
            && DocLimit(d, true) == 507908 + n && DocLimit(d, false) == 262152 + 2 * n
  {
  }

  /** Reading until there are `need` bytes, when there are `have`, keeps the buffer within its bound. */
  ghost predicate Room(d: seq<byte>, whole: bool, have: nat, need: nat) {
    need + CHUNK <= BufferBound(d, whole) + 1 || (whole && need <= have + CHUNK <= BufferBound(d, whole))
  }

  lemma RoomFor(d: seq<byte>, whole: bool, have: nat)
    ensures have <= HEADER_LIMIT ==> Room(d, whole, have, have + 8192)
    ensures have <= |d| + 1 ==> Room(d, whole, have, have + CHUNK)
    ensures Room(d, whole, have, |d|) && Room(d, whole, have, 2)
  {
  }

  /** How much is buffered after reading from `pos` on until there are `need` bytes, when `have` are there
      and `avail` can be read. */
  function Filled(limit: nat -> nat, pos: nat, have: nat, need: nat, avail: nat): (n: nat)
    ensures have <= n <= have + avail
    decreases avail
  {
    if have >= need || avail == 0 || limit(pos) == 0 then have
    else
      var k := Min(Min(CHUNK, avail), limit(pos));
      Filled(limit, pos + k, have + k, need, avail - k)
  }

  /** The buffer holds a delimiter line. */
  predicate Decided(b: seq<byte>, d: seq<byte>) {
    var f := Find(b, d, 0);
    f.Some? && LineEnd(b, f.value + |d|)
  }

  /** `after` is what follows the first delimiter in `b`. */
  predicate StepsOver(b: seq<byte>, d: seq<byte>, after: seq<byte>) {
    var f := Find(b, d, 0);
    f.Some? && after == b[f.value + |d|..]
  }

  /** No more than `length` bytes have left the source, in order, and `have` of them are buffered. */
  ghost predicate ReadingAt(start: seq<byte>, data: seq<byte>, length: nat, remaining: nat, have: nat, whole: bool) {
    && |data| <= |start| && data == start[|start| - |data|..]
    && remaining + (|start| - |data|) <= length && have <= |start| - |data|
    && (whole ==> (|data| == |start| && have == 0) || |start| - |data| >= CHUNK || Min(remaining, |data|) == 0)
  }

  class BodyReader {
    const src: ByteSource
    var remaining: nat
    var buf: seq<byte>
    ghost var peak: nat                 // the most the buffer has held
    ghost const delim: seq<byte>        // the delimiter this body is read with
    ghost const start: seq<byte>        // what the source held in the beginning
    ghost const length: nat             // the announced Content-Length

    constructor (src: ByteSource, length: nat, ghost delim: seq<byte>)
      ensures Valid() && this.src == src && this.start == src.data && this.length == length && this.delim == delim
      ensures buf == [] && peak == 0 && Consumed() == 0
      ensures Pending() == src.data[..Min(length, |src.data|)]
    {
      this.src, remaining, buf := src, length, [];
      start, this.length, this.delim, peak := src.data, length, delim, 0;
    }

    /** How many bytes have been read. */
    ghost function Got(): int
      reads this, src
    {
      |start| - |src.data|
    }

    /** How many of them have left the buffer. */
    ghost function Consumed(): int
      reads this, src
    {
      Got() - |buf|
    }

    ghost predicate Reading()
      reads this, src
    {
      ReadingAt(start, src.data, length, remaining, |buf|, src.Whole())
    }

    /** The buffer has always been bounded, for short bodies by what the docstring says. */
    ghost predicate Bounded()
      reads this
    {
      && |buf| <= peak <= BufferBound(delim, src.Whole())
      && (Min(length, |start|) <= DocLimit(delim, src.Whole()) ==> peak <= DocBound(delim))
    }

    ghost predicate Valid()
      reads this, src
    {
      Reading() && Bounded()
    }

    /** What can still be read from the source. */
    ghost function Unread(): seq<byte>
      reads this, src
    {
      src.data[..Min(remaining, |src.data|)]
    }

    /** Everything of the body that is not yet consumed. */
    ghost function Pending(): seq<byte>
      reads this, src
    {
      buf + Unread()
    }

    /** Nothing has been read since then. */
    twostate predicate NothingRead()
      reads this, src
    {
      Unread() == old(Unread()) && src.pos == old(src.pos) && peak == old(peak)
    }

    /** Read until the buffer holds `need` bytes or the body ends. */
    method Fill(need: nat) returns (ok: bool)
      requires Valid()
      requires Room(delim, src.Whole(), |buf|, need)
      requires need <= |delim| + 1 || Consumed() >= |delim|
      modifies this`buf, this`remaining, this`peak, src
      ensures Valid() && Pending() == old(Pending()) && old(buf) <= buf && Consumed() == old(Consumed())
      ensures ok && |buf| < need ==> Unread() == []
      ensures !ok ==> src.Fails() && |buf| < need
      ensures |old(buf)| >= need ==> buf == old(buf) && NothingRead()
      ensures |buf| == Filled(src.limit, old(src.pos), |old(buf)|, need, |old(Unread())|)
      ensures peak == if |buf| > old(peak) then |buf| else old(peak)
      ensures src.pos == old(src.pos) + (|buf| - |old(buf)|)
    {
      hide Filled, DocLimit, DocBound, BufferBound, ByteSource.Whole, ReadingAt;
      ok := true;
      FilledEnough(src.limit, src.pos, |buf|, need, |Unread()|);
      while |buf| < need && remaining > 0
        invariant Valid() && Pending() == old(Pending()) && old(buf) <= buf && Consumed() == old(Consumed())
        invariant |old(buf)| >= need ==> buf == old(buf) && NothingRead()
        invariant Room(delim, src.Whole(), |buf|, need) || |buf| >= need || Unread() == []
        invariant Filled(src.limit, src.pos, |buf|, need, |Unread()|)
               == Filled(src.limit, old(src.pos), |old(buf)|, need, |old(Unread())|)
        invariant peak == if |buf| > old(peak) then |buf| else old(peak)
        invariant src.pos == old(src.pos) + (|buf| - |old(buf)|)
        decreases remaining
      {
        FilledStep(src.limit, src.pos, |buf|, need, |Unread()|);
        WholeRead(src, src.pos);
        ok := FillOnce(need);
        if !ok {
          break;
        }
      }
      FilledEnough(src.limit, src.pos, |buf|, need, |Unread()|);
    }

    /** One round of `fill`. */
    method FillOnce(ghost need: nat) returns (ok: bool)
      requires Valid() && |buf| < need && remaining > 0
      requires Room(delim, src.Whole(), |buf|, need) || Unread() == []
      requires need <= |delim| + 1 || Consumed() >= |delim|
      modifies this`buf, this`remaining, this`peak, src
      ensures Valid() && Pending() == old(Pending()) && old(buf) <= buf && Consumed() == old(Consumed())
      ensures !ok ==> src.Fails() && NothingRead() && buf == old(buf)
      ensures ok ==> remaining < old(remaining)
      ensures |buf| - |old(buf)| == if old(src.Fails()) then 0 else Min(Min(CHUNK, |old(Unread())|), src.limit(old(src.pos)))
      ensures |Unread()| == |old(Unread())| - (|buf| - |old(buf)|)
      ensures peak == if |buf| > old(peak) then |buf| else old(peak)
      ensures src.pos == old(src.pos) + (|buf| - |old(buf)|)
    {
      hide BufferBound, DocLimit, DocBound, Room, ReadingAt, ByteSource.Whole;
      ghost var unread, avail, got := src.data, |Unread()|, Got();
      var chunk;
      ok, chunk := src.Read(Min(CHUNK, remaining));
      if ok {
        WholeRead(src, old(src.pos));
        ReadKeeps(start, unread, chunk, src.data, length, remaining, |buf|, src.Whole(), src.limit(old(src.pos)));
        ReadStep(start, unread, chunk, src.data, buf, remaining);
        if chunk == [] {
          remaining := 0;
        } else {
          StillBounded(delim, src.Whole(), Min(length, |start|), |buf|, need, got, |chunk|, avail);
          Append(chunk);
        }
      }
    }

    /** What was read goes into the buffer. */
    method Append(chunk: seq<byte>)
      requires |chunk| <= remaining && Bounded()
      requires ReadingAt(start, src.data, length, remaining - |chunk|, |buf| + |chunk|, src.Whole())
      requires |buf| + |chunk| <= BufferBound(delim, src.Whole())
      requires Min(length, |start|) <= DocLimit(delim, src.Whole()) ==> |buf| + |chunk| <= DocBound(delim)
      modifies this`buf, this`remaining, this`peak
      ensures Valid() && buf == old(buf) + chunk && remaining == old(remaining) - |chunk|
      ensures peak == if |buf| > old(peak) then |buf| else old(peak)
    {
      hide BufferBound, DocLimit, DocBound, ReadingAt, ByteSource.Whole;
      buf := buf + chunk;
      remaining := remaining - |chunk|;
      peak := if |buf| > peak then |buf| else peak;
    }

    method Take(n: nat) returns (out: seq<byte>)
      requires Valid() && n <= |buf|
      modifies this`buf
      ensures Valid() && out == old(buf)[..n] && buf == old(buf)[n..] && Consumed() == old(Consumed()) + n
      ensures Pending() == old(Pending())[n..]
    {
      out, buf := buf[..n], buf[n..];
    }

    /** Read up to the blank line that ends a header block. A block of at most 16381 bytes is always
        found; a longer one is found or refused, depending on how the body arrives. */
    method ReadHeaders() returns (r: Status, text: seq<byte>)
      requires Valid() && Consumed() >= |delim|
      modifies this`buf, this`remaining, this`peak, src
      ensures Valid() && Consumed() >= old(Consumed()) && peak >= old(peak)
      ensures r == Done ==> Find(old(Pending()), HEADER_END, 0) == Some(|text|)
      ensures r == Done ==> text == old(Pending())[..|text|] && Pending() == old(Pending())[|text| + 4..]
      ensures r == Invalid ==> var f := Find(old(Pending()), HEADER_END, 0);
                               f.None? || f.value + 4 > 16385
      ensures r == Failed ==> src.Fails()
      ensures var f := Find(old(buf), HEADER_END, 0);
              f.Some? ==> r == Done && text == old(buf)[..f.value] && buf == old(buf)[f.value + 4..] && NothingRead()
      ensures Find(old(buf), HEADER_END, 0).None? && |old(buf)| > 16384 ==> r == Invalid && NothingRead()
      ensures Find(old(buf), HEADER_END, 0).None? && |old(buf)| <= HEADER_LIMIT ==>
                peak >= Filled(src.limit, old(src.pos), |old(buf)|, |old(buf)| + 8192, |old(Unread())|)
    {
      hide At, Find, Filled, BufferBound, DocLimit, DocBound, Room, ByteSource.Whole, Bounded, Reading;
      ghost var s, first := Pending(), true;
      while true
        invariant Valid() && Pending() == s && Consumed() == old(Consumed()) && peak >= old(peak)
        invariant first ==> buf == old(buf) && NothingRead()
        invariant !first ==> Find(old(buf), HEADER_END, 0).None? && |old(buf)| <= 16384
        invariant !first ==> peak >= Filled(src.limit, old(src.pos), |old(buf)|, |old(buf)| + 8192, |old(Unread())|)
        decreases |Unread()|
      {
        var idx := Find(buf, HEADER_END, 0);
        if idx.Some? {
          FoundInPrefix(buf, Unread(), HEADER_END, idx.value);
          Advance([], buf, Unread(), idx.value);
          text := Take(idx.value + 4);
          return Done, text[..idx.value];
        }
        if |buf| > HEADER_LIMIT {
          NotFoundInPrefix(buf, Unread(), HEADER_END);
          return Invalid, [];
        }
        var before := |buf|;
        ghost var searched := buf;
        RoomFor(delim, src.Whole(), before);
        var ok := Fill(before + 8192);
        first := false;
        if !ok {
          return Failed, [];
        }
        if |buf| == before {
          assert buf == searched && Pending() == buf;
          return Invalid, [];
        }
      }
    }

    /** Hand the first `n` bytes of the buffer to the sink. */
    method Emit(n: nat, sink: Sink, ghost out: seq<byte>) returns (r: Status)
      requires Valid() && n <= |buf| && sink.Valid() && sink.got == out
      modifies this`buf, sink`got, sink.OwnFile(), sink.OwnDisk()`faults
      ensures Valid() && NothingRead() && Consumed() >= old(Consumed())
      ensures r == Done ==> sink.Valid() && |sink.got| == |out| + n && sink.Fits(|out| + n)
      ensures r == Done ==> buf == old(buf)[n..] && sink.got + Pending() == out + old(Pending())
      ensures r == Invalid ==> sink.Valid() && !sink.Fits(|out| + n)
      ensures r == Failed ==> sink.Broken()
    {
      hide Reading, Bounded;
      r := sink.Accept(buf[..n]);
      if r == Done {
        Advance(out, buf, Unread(), n);
        var _ := Take(n);
      }
    }

    /** Part of the value `s` begins with is in the sink, the rest is pending. */
    ghost predicate Streaming(s: seq<byte>, sink: Sink, buffered: bool)
      requires |delim| > 0
      reads this, src, sink, sink.OwnFile(), sink.OwnDisk()
    {
      && Valid() && sink.Valid() && s == sink.got + Pending()
      && NoEndBefore(s, delim, |sink.got|, buffered)
      && (buffered ==> Unread() == [] && Scan(s, delim, 0) == Scan(s, delim, |sink.got|))
    }

    /** The buffer holds no decided delimiter: hand on all but a tail that may be the beginning of one,
        and read more. */
    method KeepTail(d: seq<byte>, sink: Sink, ghost s: seq<byte>, ghost buffered: bool) returns (r: Status, ghost cutAt: nat)
      requires DelimShape(d) && d == delim && Streaming(s, sink, buffered) && Consumed() >= |delim|
      requires var f := Find(buf, delim, 0);
               f.Some? ==> !LineEnd(buf, f.value + |delim|) && f.value + |delim| + 2 >= |buf|
      modifies this`buf, this`remaining, this`peak, src, sink`got, sink.OwnFile(), sink.OwnDisk()`faults
      ensures Valid() && Consumed() >= old(Consumed()) && peak >= old(peak)
      ensures r == Done ==> Streaming(s, sink, buffered)
      ensures r == Done ==> |Pending()| <= old(|Pending()|) && |Unread()| < old(|Unread()|)
      ensures r == Invalid ==> sink.Valid() && ValueRefused(s, delim, sink, cutAt, buffered)
      ensures r == Failed ==> sink.Broken() || (sink.Valid() && src.Fails())
    {
      hide At, IsCut, LineEnd, Scan, Find, NoEndBefore, Filled, BufferBound, DocLimit, DocBound, Room, ByteSource.Whole, Bounded, Reading;
      ghost var out := sink.got;
      var keep := |d| + 1;
      Associate(out, buf, Unread());
      TailStep(s, out, buf, Unread(), delim, buffered);
      cutAt := |out|;
      if |buf| > keep {
        cutAt := |out| + |buf| - keep;
        r := Emit(|buf| - keep, sink, out);
        if r != Done {
          return;
        }
      }
      var before := |buf|;
      RoomFor(delim, src.Whole(), before);
      var ok := Fill(before + CHUNK);
      r := if !ok then Failed else if |buf| == before then Invalid else Done;
    }

    /** The buffer holds the delimiter line that ends the value: hand on the rest of the value and step
        over the delimiter. */
    method EndValue(i: nat, d: seq<byte>, sink: Sink, ghost s: seq<byte>, ghost buffered: bool)
      returns (r: Status, ghost cutAt: nat)
      requires DelimShape(d) && d == delim && Streaming(s, sink, buffered)
      requires Find(buf, d, 0) == Some(i) && LineEnd(buf, i + |d|)
      modifies this`buf, sink`got, sink.OwnFile(), sink.OwnDisk()`faults
      ensures Valid() && NothingRead() && Consumed() >= old(Consumed())
      ensures r == Done ==> buf == old(buf)[i + |d|..]
      ensures r == Done ==> cutAt + |d| <= |s| && Pending() == s[cutAt + |d|..]
      ensures r == Done ==> sink.Valid() && sink.got == s[..cutAt] && sink.Fits(cutAt)
      ensures r == Done ==> EndsAt(s, d, cutAt, buffered)
      ensures r == Invalid ==> sink.Valid() && ValueRefused(s, d, sink, cutAt, buffered) && !sink.Fits(cutAt)
      ensures r == Failed ==> sink.Broken()
    {
      hide At, IsCut, LineEnd, Cut, Scan, Find, CleanBorders, NoEndBefore, EndsAt, NoEnd;
      ghost var out := sink.got;
      Associate(out, buf, Unread());
      HitStep(s, out, buf, Unread(), d, i, buffered);
      cutAt := |out| + i;
      r := Emit(i, sink, out);
      if r == Done {
        Advance(sink.got, buf, Unread(), 0);
        var _ := Take(|d|);
      }
    }

    /** The buffer holds a delimiter that is content: hand it on as well. */
    method SkipHit(i: nat, d: seq<byte>, sink: Sink, ghost s: seq<byte>, ghost buffered: bool)
      returns (r: Status, ghost cutAt: nat)
      requires DelimShape(d) && d == delim && Streaming(s, sink, buffered)
      requires Find(buf, d, 0) == Some(i) && !LineEnd(buf, i + |d|) && i + |d| + 2 < |buf|
      modifies this`buf, sink`got, sink.OwnFile(), sink.OwnDisk()`faults
      ensures Valid() && NothingRead() && Consumed() >= old(Consumed())
      ensures r == Done ==> Streaming(s, sink, buffered) && |Pending()| < old(|Pending()|)
      ensures r == Invalid ==> sink.Valid() && ValueRefused(s, d, sink, cutAt, buffered)
      ensures r == Failed ==> sink.Broken()
    {
      hide At, IsCut, LineEnd, Cut, Scan, Find, CleanBorders, NoEndBefore, EndsAt, NoEnd, Bounded, Reading;
      ghost var out := sink.got;
      Associate(out, buf, Unread());
      FalseHitAt(s, out, buf, Unread(), d, i);
      FalseHitStep(s, d, |out|, |out| + i, buffered);
      cutAt := |out| + i + |d|;
      r := Emit(i + |d|, sink, out);
    }

    /** How a round ends the value, at a delimiter line that was in the buffer or not at all. */
    ghost predicate Ended(s: seq<byte>, d: seq<byte>, sink: Sink, buffered: bool, r: Status, cutAt: nat)
      requires |d| > 0
      reads this, src, sink, sink.OwnFile(), sink.OwnDisk()
    {
      match r
      case Done => && cutAt + |d| <= |s| && Pending() == s[cutAt + |d|..] && EndsAt(s, d, cutAt, buffered)
                   && sink.Valid() && sink.got == s[..cutAt] && sink.Fits(cutAt)
      case Invalid => sink.Valid() && ValueRefused(s, d, sink, cutAt, buffered)
      case Failed => sink.Broken() || (sink.Valid() && src.Fails())
    }

    /** One round of the loop. */
    method StreamOnce(d: seq<byte>, sink: Sink, ghost s: seq<byte>, ghost buffered: bool)
      returns (ended: bool, r: Status, ghost cutAt: nat)
      requires DelimShape(d) && d == delim && Streaming(s, sink, buffered) && Consumed() >= |delim|
      modifies this`buf, this`remaining, this`peak, src, sink`got, sink.OwnFile(), sink.OwnDisk()`faults
      ensures Valid() && Consumed() >= old(Consumed()) && peak >= old(peak)
      ensures ended ==> Ended(s, d, sink, buffered, r, cutAt)
      ensures !ended ==>
                && Streaming(s, sink, buffered) && |Pending()| <= old(|Pending()|)
                && (|Pending()| < old(|Pending()|) || |Unread()| < old(|Unread()|))
      ensures Decided(old(buf), d) ==>
                && ended && NothingRead()
                && (r == Done ==> StepsOver(old(buf), d, buf))
                && (r == Invalid ==> !sink.Fits(cutAt)) && (r == Failed ==> sink.Broken())
    {
      hide At, IsCut, LineEnd, Cut, Scan, Find, CleanBorders, NoEndBefore, EndsAt, NoEnd, Bounded, Reading, ValueRefused, ByteSource.Whole;
      var idx := Find(buf, d, 0);
      if idx.Some? {
        var i := idx.value;
        if LineEnd(buf, i + |d|) {
          r, cutAt := EndValue(i, d, sink, s, buffered);
          return true, r, cutAt;
        }
        if i + |d| + 2 < |buf| {
          r, cutAt := SkipHit(i, d, sink, s, buffered);
          return r != Done, r, cutAt;
        }
      }
      r, cutAt := KeepTail(d, sink, s, buffered);
      ended := r != Done;
    }

    /** Stream a field value into `sink` up to the next delimiter line. However the body arrives, the
        value ends at the first delimiter line of the whole body; with everything buffered,
        where `Scan` says. */
    method StreamValue(d: seq<byte>, sink: Sink) returns (r: Status, ghost cutAt: nat)
      requires Valid() && DelimShape(d) && d == delim && sink.Valid() && sink.got == [] && Consumed() >= |delim|
      modifies this`buf, this`remaining, this`peak, src, sink`got, sink.OwnFile(), sink.OwnDisk()`faults
      ensures Valid() && Consumed() >= old(Consumed()) && peak >= old(peak)
      ensures Ended(old(Pending()), d, sink, old(Unread()) == [], r, cutAt)
      ensures Decided(old(buf), d) ==>
                && NothingRead()
                && (r == Done ==> StepsOver(old(buf), d, buf))
                && (r == Invalid ==> !sink.Fits(cutAt)) && (r == Failed ==> sink.Broken())
    {
      hide At, IsCut, LineEnd, Cut, Scan, Find, CleanBorders, NoEndBefore, EndsAt, NoEnd, Bounded, Reading, ValueRefused, ByteSource.Whole;
      hide Decided, Ended, StepsOver;
      ghost var s := Pending();
      ghost var buffered := Unread() == [];
      StartStep(s, d, buffered);
      while true
        invariant Streaming(s, sink, buffered) && Consumed() >= old(Consumed()) && peak >= old(peak)
        invariant Decided(old(buf), d) ==> buf == old(buf) && NothingRead()
        decreases |Pending()|, |Unread()|
      {
        var ended;
        ended, r, cutAt := StreamOnce(d, sink, s, buffered);
        if ended {
          return;
        }
      }
    }
  }

  lemma ReadKeeps(start: seq<byte>, data: seq<byte>, chunk: seq<byte>, rest: seq<byte>, length: nat, remaining: nat,
                  have: nat, whole: bool, most: nat)
    requires ReadingAt(start, data, length, remaining, have, whole) && remaining > 0
    requires chunk + rest == data && |chunk| == Min(Min(Min(CHUNK, remaining), |data|), most)
    requires whole ==> most >= CHUNK
    ensures ReadingAt(start, rest, length, remaining - |chunk|, have + |chunk|, whole)
    ensures chunk == [] ==> ReadingAt(start, rest, length, 0, have, whole)
    ensures have <= |start| - |data| && |data| <= |start| && data == start[|start| - |data|..]
    ensures |start| - |data| + Min(remaining, |data|) <= Min(length, |start|)
    ensures whole && chunk != [] ==> (|start| == |data| && have == 0) || |start| - |data| >= CHUNK
  {
    assert data[|chunk|..] == rest;
  }

  lemma WholeRead(src: ByteSource, pos: nat)
    ensures src.Whole() && src.limit(pos) != 0 ==> src.limit(pos) >= CHUNK
  {
  }

  /** A read of `k` bytes keeps the buffer within its bounds. */
  lemma StillBounded(d: seq<byte>, whole: bool, total: nat, have: nat, need: nat, got: nat, k: nat, avail: nat)
    requires have < need && have <= got && 0 < k <= avail && k <= CHUNK && got + avail <= total
    requires Room(d, whole, have, need) && (need <= |d| + 1 || got - have >= |d|)
    requires whole ==> (got == 0 && have == 0) || got >= CHUNK
    ensures have + k <= BufferBound(d, whole)
    ensures total <= DocLimit(d, whole) ==> have + k <= DocBound(d)
  {
  }

  lemma FilledStep(limit: nat -> nat, pos: nat, have: nat, need: nat, avail: nat)
    requires have < need
    ensures var k := if limit(pos) == 0 then 0 else Min(Min(CHUNK, avail), limit(pos));
            k <= avail && Filled(limit, pos, have, need, avail) == Filled(limit, pos + k, have + k, need, avail - k)
  {
  }

  lemma FilledEnough(limit: nat -> nat, pos: nat, have: nat, need: nat, avail: nat)
    ensures have >= need || avail == 0 || limit(pos) == 0 ==> Filled(limit, pos, have, need, avail) == have
  {
  }

  // ------------------------------------------------------------- where a value ends

  /** The value does not end in the first `n` bytes. */
  ghost predicate NoEndBefore(s: seq<byte>, d: seq<byte>, n: nat, buffered: bool)
    requires |d| > 0
  {
    && (CleanBorders(d) ==> forall k :: 0 <= k < n ==> !IsCut(s, d, k))
    && (buffered ==> var c := Scan(s, d, 0); c.Some? ==> n <= c.value)
  }

  /** The value ends at `n`. */
  ghost predicate EndsAt(s: seq<byte>, d: seq<byte>, n: nat, buffered: bool)
    requires |d| > 0
  {
    && (CleanBorders(d) ==> Cut(s, d, 0) == Some(n))
    && (buffered ==> Scan(s, d, 0) == Some(n))
  }

  /** The value does not end at all. */
  ghost predicate NoEnd(s: seq<byte>, d: seq<byte>, buffered: bool)
    requires |d| > 0
  {
    && (CleanBorders(d) ==> Cut(s, d, 0) == None)
    && (buffered ==> Scan(s, d, 0) == None)
  }

  /** The value is refused only when it does not end, or what is known of it exceeds the cap. */
  ghost predicate ValueRefused(s: seq<byte>, d: seq<byte>, sink: Sink, n: nat, buffered: bool)
    requires |d| > 0
  {
    NoEnd(s, d, buffered) || (NoEndBefore(s, d, n, buffered) && !sink.Fits(n))
  }

  /** Consuming `n` bytes of the buffer moves them from the pending to the delivered bytes. */
  lemma Advance(out: seq<byte>, b: seq<byte>, z: seq<byte>, n: nat)
    requires n <= |b|
    ensures (out + b[..n]) + b[n..] + z == out + b + z
    ensures (out + b + z)[..|out| + n] == out + b[..n]
    ensures (out + b + z)[|out| + n..] == b[n..] + z
    ensures out + (b + z) == out + b + z
  {
  }

  lemma Associate(out: seq<byte>, b: seq<byte>, z: seq<byte>)
    ensures out + (b + z) == out + b + z
  {
  }

  lemma StartStep(s: seq<byte>, d: seq<byte>, buffered: bool)
    requires |d| > 0
    ensures NoEndBefore(s, d, 0, buffered)
  {
  }

  lemma HitStep(s: seq<byte>, out: seq<byte>, b: seq<byte>, z: seq<byte>, d: seq<byte>, i: nat, buffered: bool)
    requires s == out + b + z
    requires |d| > 0 && Find(b, d, 0) == Some(i) && LineEnd(b, i + |d|)
    requires NoEndBefore(s, d, |out|, buffered)
    requires buffered ==> Scan(s, d, 0) == Scan(s, d, |out|)
    ensures EndsAt(s, d, |out| + i, buffered)
    ensures NoEndBefore(s, d, |out| + i, buffered)
  {
    hide At, Find;
    Located(out, b, z, d, i);
    LineEndShift(out, b, z, i + |d|);
    assert IsCut(s, d, |out| + i);
  }

  lemma {:induction false} FalseHitAt(s: seq<byte>, out: seq<byte>, b: seq<byte>, z: seq<byte>, d: seq<byte>, i: nat)
    requires s == out + b + z
    requires |d| > 0 && Find(b, d, 0) == Some(i) && !LineEnd(b, i + |d|) && i + |d| + 2 < |b|
    ensures Find(s, d, |out|) == Some(|out| + i) && !LineEnd(s, |out| + i + |d|)
  {
    Located(out, b, z, d, i);
    EndDecided(s, out, b, z, i + |d|, |out| + i + |d|);
  }

  lemma FalseHitStep(s: seq<byte>, d: seq<byte>, from: nat, i: nat, buffered: bool)
    requires DelimShape(d) && Find(s, d, from) == Some(i) && !LineEnd(s, i + |d|)
    requires NoEndBefore(s, d, from, buffered)
    requires buffered ==> Scan(s, d, 0) == Scan(s, d, from)
    ensures NoEndBefore(s, d, i + |d|, buffered)
    ensures buffered ==> Scan(s, d, 0) == Scan(s, d, i + |d|)
  {
    FalseHit(s, d, from, i);
  }

  lemma TailStep(s: seq<byte>, out: seq<byte>, b: seq<byte>, z: seq<byte>, d: seq<byte>, buffered: bool)
    requires s == out + b + z
    requires DelimShape(d)
    requires var f := Find(b, d, 0);
             f.Some? ==> !LineEnd(b, f.value + |d|) && f.value + |d| + 2 >= |b|
    requires NoEndBefore(s, d, |out|, buffered)
    requires buffered ==> z == [] && Scan(s, d, 0) == Scan(s, d, |out|)
    ensures |b| > |d| + 1 ==> NoEndBefore(s, d, |out| + |b| - |d| - 1, buffered)
    ensures z == [] ==> NoEnd(s, d, buffered)
  {
    NoCutBeforeTail(out, b, z, d);
  }

  /** A read moves bytes from the source to the buffer and loses none. */
  lemma ReadStep(start: seq<byte>, data: seq<byte>, chunk: seq<byte>, rest: seq<byte>, buf: seq<byte>, remaining: nat)
    requires chunk + rest == data && |chunk| <= remaining
    requires |data| <= |start| && data == start[|start| - |data|..]
    ensures rest == start[|start| - |rest|..]
    ensures (buf + chunk) + rest[..Min(remaining - |chunk|, |rest|)] == buf + data[..Min(remaining, |data|)]
    ensures |rest[..Min(remaining - |chunk|, |rest|)]| == |data[..Min(remaining, |data|)]| - |chunk|
    ensures chunk == [] ==> data == rest
  {
    assert data[|chunk|..] == rest;
    assert data[..Min(remaining, |data|)] == chunk + rest[..Min(remaining - |chunk|, |rest|)];
  }

  // ------------------------------------------------------------- search in a growing buffer

  lemma FoundInPrefix(b: seq<byte>, z: seq<byte>, p: seq<byte>, i: nat)
    requires Find(b, p, 0) == Some(i)
    ensures Find(b + z, p, 0) == Some(i)
  {
    assert b + z == [] + b + z;
    forall k | 0 <= k <= i
      ensures At(b + z, p, k) <==> At(b, p, k)
    {
      AtShift([], b, z, p, k);
    }
  }

  lemma {:induction false} NotFoundInPrefix(b: seq<byte>, z: seq<byte>, p: seq<byte>)
    requires Find(b, p, 0).None?
    ensures var f := Find(b + z, p, 0); f.Some? ==> f.value + |p| > |b|
  {
    var f := Find(b + z, p, 0);
    if f.Some? && f.value + |p| <= |b| {
      assert b + z == [] + b + z;
      AtShift([], b, z, p, f.value);
      assert false;
    }
  }

  /** The first hit in the buffer is the first hit of the body from here on. */
  lemma Located(out: seq<byte>, b: seq<byte>, z: seq<byte>, d: seq<byte>, i: nat)
    requires Find(b, d, 0) == Some(i)
    ensures At(out + b + z, d, |out| + i)
    ensures forall k :: |out| <= k < |out| + i ==> !At(out + b + z, d, k)
    ensures Find(out + b + z, d, |out|) == Some(|out| + i)
  {
    forall k | 0 <= k <= i
      ensures At(out + b + z, d, |out| + k) <==> At(b, d, k)
    {
      AtShift(out, b, z, d, k);
    }
    forall k | |out| <= k < |out| + i
      ensures !At(out + b + z, d, k)
    {
      assert At(out + b + z, d, |out| + (k - |out|)) <==> At(b, d, k - |out|);
    }
  }

  /** Nothing is lost by skipping a rejected hit. */
  lemma FalseHit(s: seq<byte>, d: seq<byte>, from: nat, i: nat)
    requires DelimShape(d) && Find(s, d, from) == Some(i) && !LineEnd(s, i + |d|)
    ensures CleanBorders(d) ==> forall k :: from <= k < i + |d| ==> !IsCut(s, d, k)
    ensures Scan(s, d, from) == Scan(s, d, i + |d|)
  {
    hide At, LineEnd, CleanBorders, Border;
    if CleanBorders(d) {
      forall k | i < k < i + |d|
        ensures !At(s, d, k)
      {
        if At(s, d, k) {
          OverlapLineEnd(s, d, i, k);
          assert false;
        }
      }
    }
  }

  /** Without a decided hit in the buffer, no delimiter line starts before the kept tail; and at the
      end of the body there is none at all. */
  lemma {:induction false} NoCutBeforeTail(out: seq<byte>, b: seq<byte>, z: seq<byte>, d: seq<byte>)
    requires DelimShape(d)
    requires var f := Find(b, d, 0);
             f.Some? ==> !LineEnd(b, f.value + |d|) && f.value + |d| + 2 >= |b|
    ensures forall k :: |out| <= k && k + |d| + 2 <= |out| + |b| ==> !IsCut(out + b + z, d, k)
    ensures z == [] ==> forall k :: |out| <= k ==> !IsCut(out + b + z, d, k)
    ensures z == [] ==> Scan(out + b + z, d, |out|).None?
  {
    forall k | |out| <= k && (k + |d| + 2 <= |out| + |b| || z == [])
      ensures !IsCut(out + b + z, d, k)
    {
      NoCutAt(out, b, z, d, k - |out|);
    }
    if z == [] {
      assert (out + b + z) == out + b;
      var f := Find(b, d, 0);
      if f.Some? {
        Located(out, b, z, d, f.value);
        EndDecided(out + b + z, out, b, z, f.value + |d|, |out| + f.value + |d|);
      } else {
        Unlocated(out, b, d);
      }
    }
  }

  lemma Unlocated(out: seq<byte>, b: seq<byte>, d: seq<byte>)
    requires Find(b, d, 0).None?
    ensures Find(out + b, d, |out|).None?
  {
    hide At, Find;
    var f := Find(out + b, d, |out|);
    if f.Some? {
      assert out + b == out + b + [];
      AtShift(out, b, [], d, f.value - |out|);
      assert false;
    }
  }

  lemma {:induction false} NoCutAt(out: seq<byte>, b: seq<byte>, z: seq<byte>, d: seq<byte>, j: nat)
    requires DelimShape(d)
    requires var f := Find(b, d, 0);
             f.Some? ==> !LineEnd(b, f.value + |d|) && f.value + |d| + 2 >= |b|
    requires j + |d| + 2 <= |b| || z == []
    ensures !IsCut(out + b + z, d, |out| + j)
  {
    if At(b, d, j) {
      OnlyHit(b, d, Find(b, d, 0).value, j);
      EndDecided(out + b + z, out, b, z, j + |d|, |out| + j + |d|);
    } else if j + |d| <= |b| {
      AtShift(out, b, z, d, j);
    }
  }

  lemma OnlyHit(b: seq<byte>, d: seq<byte>, i: nat, j: nat)
    requires DelimShape(d) && Find(b, d, 0) == Some(i) && i + |d| + 2 >= |b| && At(b, d, j)
    ensures i == j
  {
    if i < j {
      OverlapBorder(b, d, i, j);
      assert false;
    }
  }

  /** Two bytes, or the end of the body, decide what follows a delimiter. */
  lemma EndDecided(s: seq<byte>, out: seq<byte>, b: seq<byte>, z: seq<byte>, j: nat, k: nat)
    requires s == out + b + z && k == |out| + j
    requires j <= |b| && (j + 2 <= |b| || z == [])
    ensures LineEnd(s, k) <==> LineEnd(b, j)
  {
    if j + 2 <= |b| {
      assert s[k..k + 2] == b[j..j + 2];
    } else {
      assert s == out + b;
    }
  }
}
