/** The TCP protocol: length-prefixed frames over a byte stream, and the file upload in four steps. */
module Protocol {
  import opened Bytes

  // ------------------------------------------------------------- frames

  /** `struct.unpack("i", ...)` on a little-endian host. */
  function Signed32(s: seq<byte>): int
    requires |s| >= 4
  {
    var w := LE32(s, 0);
    if w < 0x8000_0000 then w else w - 0x1_0000_0000
  }

  /** What has been received of the current frame; a length of 0 means that the next bytes begin a frame. */
  datatype Rx = Rx(total: seq<byte>, len: int)

  const IDLE := Rx([], 0)

  datatype Out = More | Body(body: seq<byte>) | Oversize | TooShort

  /** One `recv` result goes into the reassembly. */
  function Feed(rx: Rx, chunk: seq<byte>): (Rx, Out) {
    if rx.len == 0 && |chunk| < 4 then (rx, TooShort)
    else
      var len := if rx.len == 0 then Signed32(chunk) else rx.len;
      var total := rx.total + if rx.len == 0 then chunk[4..] else chunk;
      if |total| < len then (Rx(total, len), More)
      else if |total| == len then (IDLE, Body(total))
      else (IDLE, Oversize)
  }

  /** A frame as a client sends it. */
  function Frame(body: seq<byte>): seq<byte>
    requires |body| < 0x8000_0000
  {
    PutLE32(|body|) + body
  }

  function Concat(cs: seq<seq<byte>>): seq<byte> {
    if cs == [] then [] else cs[0] + Concat(cs[1..])
  }

  /** The first outcome other than "more" of a run of chunks, and how many chunks it took. */
  function FirstOut(rx: Rx, cs: seq<seq<byte>>): (r: (Out, nat))
    ensures r.1 <= |cs|
    decreases |cs|
  {
    if cs == [] then (More, 0)
    else
      var (rx', out) := Feed(rx, cs[0]);
      if !out.More? then (out, 1)
      else
        var (o, n) := FirstOut(rx', cs[1..]);
        (o, n + 1)
  }

  /** Some chunk ends exactly where `n` bytes do. */
  predicate EndsAfter(cs: seq<seq<byte>>, n: int) {
    n == 0 || (cs != [] && n > 0 && EndsAfter(cs[1..], n - |cs[0]|))
  }

  /** In the middle of a frame: its body comes out if and only if a chunk ends where the frame does. */
  lemma {:induction false} RestRecovered(rx: Rx, cs: seq<seq<byte>>, missing: seq<byte>, rest: seq<byte>)
    requires rx.len > 0 && missing != [] && rx.len == |rx.total| + |missing|
    requires Concat(cs) == missing + rest && forall c :: c in cs ==> c != []
    ensures FirstOut(rx, cs).0 == Body(rx.total + missing) <==> EndsAfter(cs, |missing|)
    ensures FirstOut(rx, cs).0 in {Body(rx.total + missing), Oversize}
    decreases |cs|
  {
    assert cs != [];
    var c := cs[0];
    assert c in cs;
    assert forall x :: x in cs[1..] ==> x in cs;
    if |c| < |missing| {
      assert c == missing[..|c|] by {
        assert (missing + rest)[..|c|] == missing[..|c|];
      }
      assert Concat(cs[1..]) == missing[|c|..] + rest by {
        assert (c + Concat(cs[1..]))[|c|..] == Concat(cs[1..]);
        assert (missing + rest)[|c|..] == missing[|c|..] + rest;
      }
      RestRecovered(Rx(rx.total + c, rx.len), cs[1..], missing[|c|..], rest);
      assert rx.total + c + missing[|c|..] == rx.total + missing;
    } else if |c| == |missing| {
      assert c == (missing + rest)[..|c|] == missing;
    } else {
      assert !EndsAfter(cs[1..], |missing| - |c|);
    }
  }

  /** From the beginning of a frame: its body comes out if and only if the first chunk holds the whole
      length field and some chunk ends exactly where the frame does. */
  lemma FrameRecovered(body: seq<byte>, cs: seq<seq<byte>>, rest: seq<byte>)
    requires |body| < 0x8000_0000
    requires Concat(cs) == Frame(body) + rest && forall c :: c in cs ==> c != []
    ensures cs != []
    ensures FirstOut(IDLE, cs).0 == Body(body) <==> |cs[0]| >= 4 && EndsAfter(cs, |Frame(body)|)
    ensures FirstOut(IDLE, cs).0 in {Body(body), Oversize, TooShort}
  {
    assert cs != [];
    var c := cs[0];
    assert c in cs;
    assert forall x :: x in cs[1..] ==> x in cs;
    var all := Frame(body) + rest;
    assert c == all[..|c|];
    assert Concat(cs[1..]) == all[|c|..] by {
      assert (c + Concat(cs[1..]))[|c|..] == Concat(cs[1..]);
    }
    if |c| >= 4 {
      assert LE32(c, 0) == LE32(PutLE32(|body|), 0) by {
        assert c[0] == all[0] && c[1] == all[1] && c[2] == all[2] && c[3] == all[3];
      }
      assert c[4..] == all[4..|c|];
      if |c| < |Frame(body)| {
        var k := |c| - 4;
        assert c[4..] == body[..k];
        assert all[|c|..] == body[k..] + rest;
        RestRecovered(Rx(body[..k], |body|), cs[1..], body[k..], rest);
        assert body[..k] + body[k..] == body;
        assert [] + c[4..] == body[..k];
      } else if |c| == |Frame(body)| {
        assert [] + c[4..] == body;
      } else {
        assert !EndsAfter(cs[1..], |Frame(body)| - |c|);
      }
    }
  }

  // ------------------------------------------------------------- commands and the upload

  const OK21: seq<byte> := [50, 49, 32, 111, 107]
  const OK22: seq<byte> := [50, 50, 32, 111, 107]
  const OK23: seq<byte> := [50, 51, 32, 111, 107]
  const OK24: seq<byte> := [50, 52, 32, 111, 107]
  const EMPTY_MARK: seq<byte> := [94, 36]   // "^$" stands for an empty file

  /** JSON, gzip, the file system and the other commands: what a command 21 names, what decompressing gives,
      whether a file can be opened for writing, and whether `on_data` raises an exception. */
  datatype Env = Env(
    json: seq<byte> -> Option<(Option<seq<byte>>, bool)>,
    gunzip: seq<byte> -> Option<seq<byte>>,
    canOpen: seq<byte> -> bool,
    raises: (int, seq<byte>, Option<seq<byte>>) -> bool)

  datatype Event =
    | Reply(text: seq<byte>)
    | WriteFile(path: seq<byte>, data: seq<byte>)
    | Dispatch(kind: int, data: seq<byte>, current: Option<seq<byte>>)

  /** The fields of one connection. `gzip` does not exist before the first command 21. */
  datatype Conn = Conn(path: Option<seq<byte>>, gzip: Option<bool>, content: seq<byte>, length: nat, bin: bool, bufsize: nat)

  /** What a body leads to: the new fields, what is done, and whether the connection ends. */
  datatype Effect = Effect(conn: Conn, events: seq<Event>, closed: bool)

  function LE64(s: seq<byte>): nat
    requires |s| == 8
  {
    LE32(s, 0) + 0x1_0000_0000 * LE32(s, 4)
  }

  function PutLE64(n: nat): (s: seq<byte>)
    requires n < 0x1_0000_0000_0000_0000
    ensures |s| == 8
  {
    PutLE32(n % 0x1_0000_0000) + PutLE32(n / 0x1_0000_0000)
  }

  lemma PutGet64(n: nat)
    requires n < 0x1_0000_0000_0000_0000
    ensures LE64(PutLE64(n)) == n
  {
    var a, b := PutLE32(n % 0x1_0000_0000), PutLE32(n / 0x1_0000_0000);
    assert LE32(a + b, 0) == LE32(a, 0) && LE32(a + b, 4) == LE32(b, 0);
  }

  function NameFile(env: Env, c: Conn, data: seq<byte>): Effect {
    match env.json(data)
    case None => Effect(c, [], true)
    case Some((path, gz)) => Effect(c.(path := path, gzip := Some(gz)), [Reply(OK21)], false)
  }

  function SetLength(c: Conn, data: seq<byte>): Effect {
    if |data| < 8 then Effect(c, [], false)
    else if |data| > 8 then Effect(c, [], true)
    else Effect(c.(length := LE64(data), content := [], bin := true, bufsize := 102400000), [Reply(OK22)], false)
  }

  function AddContent(c: Conn, data: seq<byte>): Effect {
    var content := c.content + data;
    if |content| == c.length then Effect(c.(content := content, bufsize := 1024, bin := false), [Reply(OK23)], false)
    else if |content| > c.length then Effect(c.(content := content, bufsize := 1024, bin := false), [], true)
    else Effect(c.(content := content), [], false)
  }

  function StoreFile(env: Env, c: Conn): Effect {
    if c.gzip.None? then Effect(c, [], true)
    else
      var plain := if c.gzip.value then env.gunzip(c.content) else Some(c.content);
      if plain.None? || c.path.None? || !env.canOpen(c.path.value) then Effect(c, [], true)
      else
        var data := if plain.value == EMPTY_MARK then [] else plain.value;
        Effect(c.(content := []), [WriteFile(c.path.value, data), Reply(OK24)], false)
  }

  /** What the handler does with one complete body. */
  function Process(env: Env, c: Conn, body: seq<byte>): Effect {
    if c.bin then AddContent(c, body)
    else if |body| < 4 then Effect(c, [], false)
    else
      var kind := Signed32(body);
      var data := body[4..];
      if kind == 21 then NameFile(env, c, data)
      else if kind == 22 then SetLength(c, data)
      else if kind == 23 then AddContent(c, data)
      else if kind == 24 then StoreFile(env, c)
      else Effect(c, [Dispatch(kind, data, c.path)], env.raises(kind, data, c.path))
  }

  function ProcessAll(env: Env, c: Conn, bodies: seq<seq<byte>>): Effect
    decreases |bodies|
  {
    if bodies == [] then Effect(c, [], false)
    else
      var e := Process(env, c, bodies[0]);
      if e.closed then e
      else
        var r := ProcessAll(env, e.conn, bodies[1..]);
        Effect(r.conn, e.events + r.events, r.closed)
  }

  /** The whole connection: a state, what was done, and whether it has ended. */
  datatype Session = Session(rx: Rx, conn: Conn, events: seq<Event>, closed: bool)

  function Receive(env: Env, s: Session, chunk: seq<byte>): Session {
    if s.closed then s
    else
      var (rx, out) := Feed(s.rx, chunk);
      match out
      case TooShort => s.(closed := true)
      case More => s.(rx := rx)
      case Oversize => s.(rx := rx)
      case Body(b) =>
        var e := Process(env, s.conn, b);
        Session(rx, e.conn, s.events + e.events, e.closed)
  }

  function ReceiveAll(env: Env, s: Session, cs: seq<seq<byte>>): Session
    decreases |cs|
  {
    if cs == [] then s else ReceiveAll(env, Receive(env, s, cs[0]), cs[1..])
  }

  const FRESH := Conn(Some([116, 109, 112]), None, [], 0, false, 10240)   // file path "tmp"

  // ------------------------------------------------------------- frames through the handler

  /** The chunks of one frame: none empty, the first at least as long as the length field. */
  ghost predicate Splits(cs: seq<seq<byte>>, body: seq<byte>) {
    |body| < 0x8000_0000 && Concat(cs) == Frame(body) && (forall c :: c in cs ==> c != []) && cs != [] && |cs[0]| >= 4
  }

  lemma {:induction false} EndsAtEnd(cs: seq<seq<byte>>)
    ensures EndsAfter(cs, |Concat(cs)|)
    decreases |cs|
  {
    if cs != [] {
      EndsAtEnd(cs[1..]);
    }
  }

  /** Chunks that complete a body only with the last of them. */
  lemma {:induction false} ReceiveUntil(env: Env, s: Session, cs: seq<seq<byte>>)
    requires !s.closed && FirstOut(s.rx, cs).0.Body? && FirstOut(s.rx, cs).1 == |cs|
    ensures var e := Process(env, s.conn, FirstOut(s.rx, cs).0.body);
            ReceiveAll(env, s, cs) == Session(IDLE, e.conn, s.events + e.events, e.closed)
    decreases |cs|
  {
    hide Process;
    var (rx, out) := Feed(s.rx, cs[0]);
    if out.More? {
      ReceiveUntil(env, s.(rx := rx), cs[1..]);
    }
  }

  lemma {:induction false} AllTaken(rx: Rx, cs: seq<seq<byte>>, missing: seq<byte>)
    requires rx.len > 0 && missing != [] && rx.len == |rx.total| + |missing|
    requires Concat(cs) == missing && forall c :: c in cs ==> c != []
    ensures FirstOut(rx, cs) == (Body(rx.total + missing), |cs|)
    decreases |cs|
  {
    assert cs != [];
    assert cs[0] in cs;
    assert forall x :: x in cs[1..] ==> x in cs;
    var c := cs[0];
    if |c| < |missing| {
      assert missing[|c|..] == Concat(cs[1..]) && missing[..|c|] == c;
      AllTaken(Rx(rx.total + c, rx.len), cs[1..], missing[|c|..]);
      assert rx.total + c + missing[|c|..] == rx.total + missing;
    } else {
      NothingMore(cs[1..]);
      assert c == missing;
    }
  }

  lemma NothingMore(cs: seq<seq<byte>>)
    requires forall c :: c in cs ==> c != []
    ensures cs != [] ==> |Concat(cs)| > 0
  {
    if cs != [] {
      assert cs[0] in cs;
    }
  }

  lemma {:induction false} SplitTaken(cs: seq<seq<byte>>, body: seq<byte>)
    requires Splits(cs, body)
    ensures FirstOut(IDLE, cs) == (Body(body), |cs|)
  {
    hide Feed, Frame, EndsAfter;
    var c, k := cs[0], |cs[0]| - 4;
    assert c in cs && forall x :: x in cs[1..] ==> x in cs;
    assert Concat(cs) == c + Concat(cs[1..]);
    FirstChunk(body, c, Concat(cs[1..]));
    if k < |body| {
      AllTaken(Rx(body[..k], |body|), cs[1..], body[k..]);
      assert body[..k] + body[k..] == body;
    } else {
      NothingMore(cs[1..]);
    }
  }

  /** The first chunk of a frame tells its length and holds the beginning of its body. */
  lemma FirstChunk(body: seq<byte>, c: seq<byte>, tail: seq<byte>)
    requires |body| < 0x8000_0000 && c + tail == Frame(body) && |c| >= 4
    ensures |c| <= |body| + 4 && tail == body[|c| - 4..]
    ensures Feed(IDLE, c) == if |c| - 4 < |body| then (Rx(body[..|c| - 4], |body|), More) else (IDLE, Body(body))
  {
    hide PutLE32;
    var all := Frame(body);
    assert c == all[..|c|] && tail == all[|c|..];
    assert LE32(c, 0) == LE32(PutLE32(|body|), 0) by {
      assert c[0] == all[0] && c[1] == all[1] && c[2] == all[2] && c[3] == all[3];
    }
    assert [] + c[4..] == body[..|c| - 4];
    assert |c| - 4 == |body| ==> body[..|c| - 4] == body;
  }

  lemma {:induction false} ReceiveAppend(env: Env, s: Session, a: seq<seq<byte>>, b: seq<seq<byte>>)
    ensures ReceiveAll(env, s, a + b) == ReceiveAll(env, ReceiveAll(env, s, a), b)
    decreases |a|
  {
    hide Receive;
    if a == [] {
      assert a + b == b;
    } else {
      assert (a + b)[1..] == a[1..] + b;
      ReceiveAppend(env, Receive(env, s, a[0]), a[1..], b);
    }
  }

  lemma ReceiveOne(env: Env, s: Session, a: seq<seq<byte>>, c: seq<byte>)
    ensures ReceiveAll(env, s, a + [c]) == Receive(env, ReceiveAll(env, s, a), c)
  {
    hide Receive;
    ReceiveAppend(env, s, a, [c]);
    assert [c][1..] == [];
  }

  lemma {:induction false} ReceiveClosed(env: Env, s: Session, cs: seq<seq<byte>>)
    requires s.closed
    ensures ReceiveAll(env, s, cs) == s
    decreases |cs|
  {
    if cs != [] {
      ReceiveClosed(env, s, cs[1..]);
    }
  }

  function Flatten(css: seq<seq<seq<byte>>>): seq<seq<byte>> {
    if css == [] then [] else css[0] + Flatten(css[1..])
  }

  /** However the frames are split, as long as no chunk spans two of them and each first chunk holds the
      length field, the handler does what the bodies ask for, in order. */
  lemma {:induction false} FramesProcessed(env: Env, s: Session, bodies: seq<seq<byte>>, css: seq<seq<seq<byte>>>)
    requires !s.closed && s.rx == IDLE
    requires |css| == |bodies| && forall i :: 0 <= i < |bodies| ==> Splits(css[i], bodies[i])
    ensures var r := ProcessAll(env, s.conn, bodies);
            ReceiveAll(env, s, Flatten(css)) == Session(IDLE, r.conn, s.events + r.events, r.closed)
    decreases |bodies|
  {
    hide Process, Splits, Receive;
    if bodies == [] {
      assert s.events + [] == s.events;
    } else {
      ReceiveAppend(env, s, css[0], Flatten(css[1..]));
      SplitTaken(css[0], bodies[0]);
      ReceiveUntil(env, s, css[0]);
      var e := Process(env, s.conn, bodies[0]);
      var s' := Session(IDLE, e.conn, s.events + e.events, e.closed);
      if e.closed {
        ReceiveClosed(env, s', Flatten(css[1..]));
      } else {
        forall i | 0 <= i < |bodies[1..]|
          ensures Splits(css[1..][i], bodies[1..][i])
        {
          assert Splits(css[i + 1], bodies[i + 1]);
        }
        FramesProcessed(env, s', bodies[1..], css[1..]);
        assert s.events + e.events + ProcessAll(env, e.conn, bodies[1..]).events
            == s.events + (e.events + ProcessAll(env, e.conn, bodies[1..]).events);
      }
    }
  }

  // ------------------------------------------------------------- the upload

  function Command(kind: nat, data: seq<byte>): seq<byte>
    requires kind < 0x8000_0000
  {
    PutLE32(kind) + data
  }

  lemma ProcessCommand(env: Env, c: Conn, kind: nat, data: seq<byte>)
    requires kind < 0x8000_0000 && !c.bin
    ensures var body := Command(kind, data); |body| >= 4 && Signed32(body) == kind && body[4..] == data
  {
    var body := Command(kind, data);
    assert LE32(body, 0) == LE32(PutLE32(kind), 0);
  }

  /** Outside binary mode empty bodies do nothing. */
  lemma {:induction false} EmptyIgnored(env: Env, c: Conn, bodies: seq<seq<byte>>)
    requires !c.bin && forall b :: b in bodies ==> b == []
    ensures ProcessAll(env, c, bodies) == Effect(c, [], false)
    decreases |bodies|
  {
    if bodies != [] {
      assert bodies[0] in bodies && forall b :: b in bodies[1..] ==> b in bodies;
      EmptyIgnored(env, c, bodies[1..]);
    }
  }

  lemma {:induction false} EmptyPieces(cs: seq<seq<byte>>)
    requires Concat(cs) == []
    ensures forall c :: c in cs ==> c == []
  {
    if cs != [] {
      assert |Concat(cs)| == |cs[0]| + |Concat(cs[1..])|;
      EmptyPieces(cs[1..]);
      assert cs == [cs[0]] + cs[1..];
    }
  }

  /** In binary mode the content frames are collected, answered once, and nothing is dispatched. Empty frames
      change nothing, wherever they come. */
  lemma {:induction false} ContentCollected(env: Env, c: Conn, cs: seq<seq<byte>>)
    requires c.bin && Concat(cs) != [] && c.length == |c.content| + |Concat(cs)|
    ensures ProcessAll(env, c, cs)
         == Effect(c.(content := c.content + Concat(cs), bufsize := 1024, bin := false), [Reply(OK23)], false)
    decreases |cs|
  {
    var rest := Concat(cs[1..]);
    assert Concat(cs) == cs[0] + rest;
    assert [] + [Reply(OK23)] == [Reply(OK23)] == [Reply(OK23)] + [];
    if rest == [] {
      assert cs[0] + rest == cs[0];
      EmptyPieces(cs[1..]);
      EmptyIgnored(env, c.(content := c.content + cs[0], bufsize := 1024, bin := false), cs[1..]);
    } else {
      ContentCollected(env, c.(content := c.content + cs[0]), cs[1..]);
      assert c.content + cs[0] + rest == c.content + (cs[0] + rest);
    }
  }

  lemma {:induction false} ProcessAppend(env: Env, c: Conn, a: seq<seq<byte>>, b: seq<seq<byte>>)
    requires !ProcessAll(env, c, a).closed
    ensures var e := ProcessAll(env, c, a);
            var r := ProcessAll(env, e.conn, b);
            ProcessAll(env, c, a + b) == Effect(r.conn, e.events + r.events, r.closed)
    decreases |a|
  {
    hide Process;
    if a == [] {
      assert a + b == b;
    } else {
      assert (a + b)[1..] == a[1..] + b;
      var e := Process(env, c, a[0]);
      ProcessAppend(env, e.conn, a[1..], b);
    }
  }

  /** The bodies of one upload. */
  function UploadBodies(info: seq<byte>, pieces: seq<seq<byte>>): seq<seq<byte>>
    requires |Concat(pieces)| < 0x1_0000_0000_0000_0000
  {
    [Command(21, info), Command(22, PutLE64(|Concat(pieces)|))] + pieces + [Command(24, [])]
  }

  /** What the file receives. */
  function Stored(env: Env, gz: bool, content: seq<byte>): Option<seq<byte>> {
    var plain := if gz then env.gunzip(content) else Some(content);
    if plain.None? then None else Some(if plain.value == EMPTY_MARK then [] else plain.value)
  }

  /** Commands 21 and 22. */
  lemma UploadBegins(env: Env, c: Conn, info: seq<byte>, n: nat, path: seq<byte>, gz: bool)
    requires !c.bin && n < 0x1_0000_0000_0000_0000 && env.json(info) == Some((Some(path), gz))
    ensures ProcessAll(env, c, [Command(21, info), Command(22, PutLE64(n))])
         == Effect(Conn(Some(path), Some(gz), [], n, true, 102400000), [Reply(OK21), Reply(OK22)], false)
  {
    ProcessCommand(env, c, 21, info);
    ProcessCommand(env, c, 22, PutLE64(n));
    PutGet64(n);
    ProcessTwo(env, c, Command(21, info), Command(22, PutLE64(n)));
  }

  /** Command 24. */
  lemma UploadEnds(env: Env, c: Conn, path: seq<byte>, gz: bool)
    requires !c.bin && c.path == Some(path) && c.gzip == Some(gz) && env.canOpen(path) && Stored(env, gz, c.content).Some?
    ensures ProcessAll(env, c, [Command(24, [])])
         == Effect(c.(content := []), [WriteFile(path, Stored(env, gz, c.content).value), Reply(OK24)], false)
  {
    ProcessCommand(env, c, 24, []);
    assert [Command(24, [])][1..] == [];
  }

  /** An upload whose content frames have led from the answer 22 to the answer 23. */
  lemma UploadFrames(env: Env, c: Conn, info: seq<byte>, pieces: seq<seq<byte>>, path: seq<byte>, gz: bool)
    requires !c.bin && |Concat(pieces)| < 0x1_0000_0000_0000_0000
    requires env.json(info) == Some((Some(path), gz)) && env.canOpen(path)
    requires Stored(env, gz, Concat(pieces)).Some?
    requires ProcessAll(env, Conn(Some(path), Some(gz), [], |Concat(pieces)|, true, 102400000), pieces)
          == Effect(Conn(Some(path), Some(gz), Concat(pieces), |Concat(pieces)|, false, 1024), [Reply(OK23)], false)
    ensures ProcessAll(env, c, UploadBodies(info, pieces))
         == Effect(Conn(Some(path), Some(gz), [], |Concat(pieces)|, false, 1024),
                   [Reply(OK21), Reply(OK22), Reply(OK23),
                    WriteFile(path, Stored(env, gz, Concat(pieces)).value), Reply(OK24)], false)
  {
    hide Process, ProcessAll, Stored, Concat;
    var n := |Concat(pieces)|;
    var first := [Command(21, info), Command(22, PutLE64(n))];
    UploadBegins(env, c, info, n, path, gz);
    ProcessAppend(env, c, first, pieces);
    UploadEnds(env, Conn(Some(path), Some(gz), Concat(pieces), n, false, 1024), path, gz);
    ProcessAppend(env, c, first + pieces, [Command(24, [])]);
  }

  /** An upload of at least one byte, in any number of content frames: four answers, one file write with the
      collected (and unpacked) content, and no dispatch. */
  lemma UploadRuns(env: Env, c: Conn, info: seq<byte>, pieces: seq<seq<byte>>, path: seq<byte>, gz: bool)
    requires !c.bin && 0 < |Concat(pieces)| < 0x1_0000_0000_0000_0000
    requires env.json(info) == Some((Some(path), gz)) && env.canOpen(path)
    requires Stored(env, gz, Concat(pieces)).Some?
    ensures ProcessAll(env, c, UploadBodies(info, pieces))
         == Effect(Conn(Some(path), Some(gz), [], |Concat(pieces)|, false, 1024),
                   [Reply(OK21), Reply(OK22), Reply(OK23),
                    WriteFile(path, Stored(env, gz, Concat(pieces)).value), Reply(OK24)], false)
  {
    hide Process, ProcessAll, Stored, Concat, UploadBodies;
    var content := Concat(pieces);
    ContentCollected(env, Conn(Some(path), Some(gz), [], |content|, true, 102400000), pieces);
    assert [] + content == content;
    UploadFrames(env, c, info, pieces, path, gz);
  }

  lemma ProcessTwo(env: Env, c: Conn, a: seq<byte>, b: seq<byte>)
    requires !Process(env, c, a).closed && !Process(env, Process(env, c, a).conn, b).closed
    ensures var e := Process(env, c, a);
            var f := Process(env, e.conn, b);
            ProcessAll(env, c, [a, b]) == Effect(f.conn, e.events + f.events, false)
  {
    hide Process;
    assert [a, b][1..] == [b] && [b][1..] == [];
    var e := Process(env, c, a);
    var f := Process(env, e.conn, b);
    assert ProcessAll(env, e.conn, [b]) == Effect(f.conn, f.events + [], false);
    assert f.events + [] == f.events;
  }

  /** A file of length 0 is stored if and only if at least one, empty, content frame is sent for it. Without
      any, the command 24 is taken for content, which is too long, and the connection ends before
      anything is written. */
  lemma ZeroLength(env: Env, c: Conn, info: seq<byte>, pieces: seq<seq<byte>>, path: seq<byte>, gz: bool)
    requires !c.bin && Concat(pieces) == []
    requires env.json(info) == Some((Some(path), gz)) && env.canOpen(path) && Stored(env, gz, []).Some?
    ensures ProcessAll(env, c, UploadBodies(info, pieces))
         == if pieces != []
            then Effect(Conn(Some(path), Some(gz), [], 0, false, 1024),
                        [Reply(OK21), Reply(OK22), Reply(OK23), WriteFile(path, Stored(env, gz, []).value), Reply(OK24)], false)
            else Effect(Conn(Some(path), Some(gz), Command(24, []), 0, false, 1024), [Reply(OK21), Reply(OK22)], true)
  {
    hide Stored, UploadBodies;
    var c2 := Conn(Some(path), Some(gz), [], 0, true, 102400000);
    if pieces != [] {
      EmptyPieces(pieces);
      assert pieces[0] in pieces && forall b :: b in pieces[1..] ==> b in pieces;
      EmptyIgnored(env, c2.(bufsize := 1024, bin := false), pieces[1..]);
      assert [Reply(OK23)] + [] == [Reply(OK23)];
      UploadFrames(env, c, info, pieces, path, gz);
    } else {
      NoContentFrame(env, c, info, path, gz);
    }
  }

  lemma NoContentFrame(env: Env, c: Conn, info: seq<byte>, path: seq<byte>, gz: bool)
    requires !c.bin && env.json(info) == Some((Some(path), gz))
    ensures ProcessAll(env, c, UploadBodies(info, []))
         == Effect(Conn(Some(path), Some(gz), Command(24, []), 0, false, 1024), [Reply(OK21), Reply(OK22)], true)
  {
    hide NameFile, SetLength, StoreFile;
    var first := [Command(21, info), Command(22, PutLE64(0))];
    UploadBegins(env, c, info, 0, path, gz);
    ProcessAppend(env, c, first, [Command(24, [])]);
    assert UploadBodies(info, []) == first + [Command(24, [])];
    assert [] + Command(24, []) == Command(24, []);
  }

  /** Whatever follows a frame in the same `recv` result is lost, and the frame with it. */
  lemma SharedChunkLost(env: Env, s: Session, body: seq<byte>, more: seq<byte>)
    requires !s.closed && s.rx == IDLE && |body| < 0x8000_0000 && more != []
    ensures Receive(env, s, Frame(body) + more) == s
  {
    var chunk := Frame(body) + more;
    assert LE32(chunk, 0) == LE32(PutLE32(|body|), 0);
  }

  /** The upload from the wire to the file: however its frames are split. */
  lemma UploadOverTcp(env: Env, s: Session, info: seq<byte>, pieces: seq<seq<byte>>, path: seq<byte>,
                      gz: bool, css: seq<seq<seq<byte>>>)
    requires !s.closed && s.rx == IDLE
    requires !s.conn.bin && 0 < |Concat(pieces)| < 0x1_0000_0000_0000_0000
    requires env.json(info) == Some((Some(path), gz)) && env.canOpen(path)
    requires Stored(env, gz, Concat(pieces)).Some?
    requires |css| == |UploadBodies(info, pieces)|
    requires forall i :: 0 <= i < |css| ==> Splits(css[i], UploadBodies(info, pieces)[i])
    ensures var r := ReceiveAll(env, s, Flatten(css));
            && r.events == s.events + [Reply(OK21), Reply(OK22), Reply(OK23),
                                       WriteFile(path, Stored(env, gz, Concat(pieces)).value), Reply(OK24)]
            && !r.closed && r.rx == IDLE && !r.conn.bin
  {
    hide Process, ProcessAll, ReceiveAll, Splits, UploadBodies, Stored;
    UploadRuns(env, s.conn, info, pieces, path, gz);
    FramesProcessed(env, s, UploadBodies(info, pieces), css);
  }

  // ------------------------------------------------------------- how far a connection gets

  /** This body ends the connection: what it asks for raises an exception. */
  predicate Ends(env: Env, c: Conn, body: seq<byte>) {
    if c.bin then |c.content| + |body| > c.length
    else if |body| < 4 then false
    else
      var kind, data := Signed32(body), body[4..];
      if kind == 21 then env.json(data).None?
      else if kind == 22 then |data| > 8
      else if kind == 23 then |c.content| + |data| > c.length
      else if kind == 24 then
        c.gzip.None? || (c.gzip.value && env.gunzip(c.content).None?) || c.path.None? || !env.canOpen(c.path.value)
      else env.raises(kind, data, c.path)
  }

  /** A body that ends the connection is not answered and writes no file. */
  lemma EndsExactly(env: Env, c: Conn, body: seq<byte>)
    ensures Process(env, c, body).closed <==> Ends(env, c, body)
    ensures Ends(env, c, body) ==> forall e :: e in Process(env, c, body).events ==> e.Dispatch?
  {
  }

  /** How many of the bodies are processed. */
  function Handled(env: Env, c: Conn, bodies: seq<seq<byte>>): (n: nat)
    ensures n <= |bodies|
    decreases |bodies|
  {
    if bodies == [] then 0
    else
      var e := Process(env, c, bodies[0]);
      if e.closed then 1 else 1 + Handled(env, e.conn, bodies[1..])
  }

  /** The fields when it is the turn of body `i`, if that is reached. */
  function ConnAt(env: Env, c: Conn, bodies: seq<seq<byte>>, i: nat): Conn
    decreases i
  {
    if i == 0 || bodies == [] then c else ConnAt(env, Process(env, c, bodies[0]).conn, bodies[1..], i - 1)
  }

  /** All bodies are processed if and only if none before the last ends the connection; those that are not
      have no effect. */
  lemma {:induction false} AllHandled(env: Env, c: Conn, bodies: seq<seq<byte>>)
    requires bodies != []
    ensures Handled(env, c, bodies) == |bodies|
       <==> forall i :: 0 <= i < |bodies| - 1 ==> !Ends(env, ConnAt(env, c, bodies, i), bodies[i])
    ensures ProcessAll(env, c, bodies) == ProcessAll(env, c, bodies[..Handled(env, c, bodies)])
    decreases |bodies|
  {
    hide Process, Ends;
    EndsExactly(env, c, bodies[0]);
    var e := Process(env, c, bodies[0]);
    var rest := bodies[1..];
    var n := Handled(env, c, bodies);
    assert bodies[..n][0] == bodies[0] && bodies[..n][1..] == rest[..n - 1];
    assert ConnAt(env, c, bodies, 0) == c;
    if rest != [] {
      if !e.closed {
        AllHandled(env, e.conn, rest);
      }
      forall i | 0 <= i < |rest| - 1
        ensures ConnAt(env, e.conn, rest, i) == ConnAt(env, c, bodies, i + 1) && rest[i] == bodies[i + 1]
      {
      }
      assert (forall i :: 0 <= i < |bodies| - 1 ==> !Ends(env, ConnAt(env, c, bodies, i), bodies[i]))
        <==> !Ends(env, c, bodies[0]) && forall i :: 0 <= i < |rest| - 1 ==> !Ends(env, ConnAt(env, e.conn, rest, i), rest[i]) by {
        if forall i :: 0 <= i < |rest| - 1 ==> !Ends(env, ConnAt(env, e.conn, rest, i), rest[i]) {
          forall i | 0 < i < |bodies| - 1
            ensures !Ends(env, ConnAt(env, c, bodies, i), bodies[i])
          {
            assert !Ends(env, ConnAt(env, e.conn, rest, i - 1), rest[i - 1]);
          }
        }
      }
    }
  }

  /** On the wire: a dispatched command and a command 21 behind it. When `on_data` raises, the second is never
      looked at. */
  lemma DispatchLoses(env: Env, s: Session, kind: nat, data: seq<byte>, info: seq<byte>, path: seq<byte>, gz: bool)
    requires !s.closed && s.rx == IDLE && !s.conn.bin && kind < 0x8000_0000 && kind !in {21, 22, 23, 24}
    requires |data| < 0x7FFF_FFF0 && |info| < 0x7FFF_FFF0 && env.json(info) == Some((Some(path), gz))
    ensures var r := ReceiveAll(env, s, [Frame(Command(kind, data)), Frame(Command(21, info))]);
            var d := Dispatch(kind, data, s.conn.path);
            && r.closed == env.raises(kind, data, s.conn.path)
            && r.events == s.events + if r.closed then [d] else [d, Reply(OK21)]
  {
    hide Process, Frame, Command, ReceiveAll;
    var a, b := Command(kind, data), Command(21, info);
    assert |a| == |data| + 4 && |b| == |info| + 4 by {
      CommandLength(kind, data);
      CommandLength(21, info);
    }
    WholeFrame(env, s, a);
    var t := Receive(env, s, Frame(a));
    Dispatched(env, s.conn, kind, data);
    ReceiveTwo(env, s, Frame(a), Frame(b));
    if !t.closed {
      WholeFrame(env, t, b);
      Named(env, s.conn, info, path, gz);
    }
  }

  lemma ReceiveTwo(env: Env, s: Session, x: seq<byte>, y: seq<byte>)
    ensures ReceiveAll(env, s, [x, y]) == Receive(env, Receive(env, s, x), y)
  {
    hide Receive;
    ReceiveOne(env, s, [], x);
    ReceiveOne(env, s, [x], y);
    assert [] + [x] == [x] && [x] + [y] == [x, y];
  }

  lemma CommandLength(kind: nat, data: seq<byte>)
    requires kind < 0x8000_0000
    ensures |Command(kind, data)| == |data| + 4
  {
  }

  lemma Dispatched(env: Env, c: Conn, kind: nat, data: seq<byte>)
    requires !c.bin && kind < 0x8000_0000 && kind !in {21, 22, 23, 24}
    ensures Process(env, c, Command(kind, data)) == Effect(c, [Dispatch(kind, data, c.path)], env.raises(kind, data, c.path))
  {
    ProcessCommand(env, c, kind, data);
  }

  lemma Named(env: Env, c: Conn, info: seq<byte>, path: seq<byte>, gz: bool)
    requires !c.bin && env.json(info) == Some((Some(path), gz))
    ensures Process(env, c, Command(21, info)) == Effect(c.(path := Some(path), gzip := Some(gz)), [Reply(OK21)], false)
  {
    ProcessCommand(env, c, 21, info);
  }

  /** A frame that arrives in one piece. */
  lemma WholeFrame(env: Env, s: Session, body: seq<byte>)
    requires !s.closed && s.rx == IDLE && |body| < 0x8000_0000
    ensures var e := Process(env, s.conn, body);
            Receive(env, s, Frame(body)) == Session(IDLE, e.conn, s.events + e.events, e.closed)
  {
    hide Process;
    assert LE32(Frame(body), 0) == LE32(PutLE32(|body|), 0);
    assert [] + Frame(body)[4..] == body;
  }

  // ------------------------------------------------------------- the handler

  /** The receiving end of a connection: `Recv` returns any nonempty part, up to the buffer size, of what
      the peer has sent, and nothing once all of it is consumed. The peer may reset the connection. */
  class Socket {
    var incoming: seq<byte>

    method Recv(bufsize: nat) returns (chunk: seq<byte>, reset: bool)
      requires bufsize > 0
      modifies this
      ensures chunk + incoming == old(incoming) && |chunk| <= bufsize
      ensures chunk == [] <==> reset || old(incoming) == []
    {
      chunk, reset := [], *;
      if reset {
        return;
      }
      var k: nat :| k <= |incoming| && k <= bufsize && (|incoming| > 0 ==> k > 0);
      chunk, incoming := incoming[..k], incoming[k..];
    }
  }

  /** One connection. */
  class Handler {
    const env: Env
    const socket: Socket
    var filepath: Option<seq<byte>>
    var gzip: Option<bool>
    var content: seq<byte>
    var length: nat
    var binRecvFlag: bool
    var bufsize: nat
    var events: seq<Event>

    constructor (env: Env, socket: Socket)
      ensures this.env == env && this.socket == socket && Fields() == FRESH && events == []
    {
      this.env, this.socket := env, socket;
      filepath, gzip, content, length, binRecvFlag := Some([116, 109, 112]), None, [], 0, false;
      bufsize, events := 10240, [];
    }

    function Fields(): Conn
      reads this
    {
      Conn(filepath, gzip, content, length, binRecvFlag, bufsize)
    }

    /** Act on one complete body; `closed` when an exception ends the connection. */
    method OnBody(body: seq<byte>) returns (closed: bool)
      requires bufsize > 0
      modifies this
      ensures var e := Process(env, old(Fields()), body);
              Fields() == e.conn && events == old(events) + e.events && closed == e.closed
      ensures bufsize > 0
    {
      closed := false;
      var datatype_, data := 23, body;
      if !binRecvFlag {
        if |body| < 4 {
          return;
        }
        datatype_, data := Signed32(body), body[4..];
      }
      if datatype_ == 21 {
        var info := env.json(data);
        if info.None? {
          return true;
        }
        filepath, gzip := info.value.0, Some(info.value.1);
        events := events + [Reply(OK21)];
      } else if datatype_ == 22 {
        if |data| < 8 {
          return;
        }
        if |data| > 8 {
          return true;
        }
        length, content, binRecvFlag, bufsize := LE64(data), [], true, 102400000;
        events := events + [Reply(OK22)];
      } else if datatype_ == 23 {
        content := content + data;
        if |content| == length {
          bufsize, binRecvFlag := 1024, false;
          events := events + [Reply(OK23)];
        } else if |content| > length {
          bufsize, binRecvFlag := 1024, false;
          return true;
        }
      } else if datatype_ == 24 {
        if gzip.None? {
          return true;
        }
        var plain := if gzip.value then env.gunzip(content) else Some(content);
        if plain.None? || filepath.None? || !env.canOpen(filepath.value) {
          return true;
        }
        events := events + [WriteFile(filepath.value, if plain.value == EMPTY_MARK then [] else plain.value)];
        content := [];
        events := events + [Reply(OK24)];
      } else {
        events := events + [Dispatch(datatype_, data, filepath)];
        closed := env.raises(datatype_, data, filepath);
      }
    }

    /** `handle`: what it does is determined by the chunks that `recv` returned, which are returned too;
        they are all of the input unless the connection was ended early or reset. */
    method Handle() returns (ghost chunks: seq<seq<byte>>, reset: bool)
      requires Fields() == FRESH && events == []
      modifies this, socket
      ensures var s := ReceiveAll(env, Session(IDLE, FRESH, [], false), chunks);
              events == s.events && Fields() == s.conn && (!s.closed && !reset ==> socket.incoming == [])
      ensures Concat(chunks) + socket.incoming == old(socket.incoming) && forall c :: c in chunks ==> c != []
    {
      hide Process;
      chunks, reset := [], false;
      var datatotal: seq<byte>, dataLen := [], 0;
      ghost var s := Session(IDLE, FRESH, [], false);
      var done := false;
      while !done
        invariant s == ReceiveAll(env, Session(IDLE, FRESH, [], false), chunks)
        invariant events == s.events && Fields() == s.conn && bufsize > 0
        invariant s.closed ==> done
        invariant !s.closed ==> s.rx == Rx(datatotal, dataLen)
        invariant done && !s.closed && !reset ==> socket.incoming == []
        invariant Concat(chunks) + socket.incoming == old(socket.incoming)
        invariant forall c :: c in chunks ==> c != []
        decreases |socket.incoming|, !done
      {
        var data;
        data, reset := socket.Recv(bufsize);
        if reset || data == [] {
          done := true;
          continue;
        }
        ReceiveOne(env, Session(IDLE, FRESH, [], false), chunks, data);
        ConcatAppend(chunks, data);
        chunks, s := chunks + [data], Receive(env, s, data);
        if dataLen == 0 {
          if |data| < 4 {
            done := true;
            continue;
          }
          dataLen := Signed32(data);
          datatotal := datatotal + data[4..];
        } else {
          datatotal := datatotal + data;
        }
        if |datatotal| < dataLen {
          continue;
        } else if |datatotal| == dataLen {
          data, datatotal, dataLen := datatotal, [], 0;
        } else {
          datatotal, dataLen := [], 0;
          continue;
        }
        done := OnBody(data);
      }
    }
  }

  lemma {:induction false} ConcatAppend(cs: seq<seq<byte>>, c: seq<byte>)
    ensures Concat(cs + [c]) == Concat(cs) + c
    decreases |cs|
  {
    if cs == [] {
      assert [c][1..] == [] && cs + [c] == [c];
    } else {
      assert (cs + [c])[1..] == cs[1..] + [c];
      ConcatAppend(cs[1..], c);
    }
  }

  /** A frame whose first chunk does not hold the length field ends the connection: nothing is done for it,
      nor for what comes behind it. */
  lemma ShortChunkEnds(env: Env, s: Session, cs: seq<seq<byte>>)
    requires !s.closed && s.rx == IDLE && cs != [] && |cs[0]| < 4
    ensures var r := ReceiveAll(env, s, cs); r.closed && r.events == s.events && r.conn == s.conn
  {
    ClosedStays(env, s.(closed := true), cs[1..]);
  }

  lemma {:induction false} ClosedStays(env: Env, s: Session, cs: seq<seq<byte>>)
    requires s.closed
    ensures ReceiveAll(env, s, cs) == s
    decreases |cs|
  {
    if cs != [] {
      ClosedStays(env, s, cs[1..]);
    }
  }

  // ------------------------------------------------------------- the bytes

  /** The answers, the mark of an empty file and the first file path, as text. */
  lemma Texts()
    ensures Spells(OK21, "21 ok") && Spells(OK22, "22 ok") && Spells(OK23, "23 ok") && Spells(OK24, "24 ok")
    ensures Spells(EMPTY_MARK, "^$") && FRESH.path.Some? && Spells(FRESH.path.value, "tmp")
  {
  }

  /** What is stored, uncompressed or not, is the content byte for byte, except that "^$" stores an empty file. */
  lemma StoredAsSent(env: Env, gz: bool, content: seq<byte>)
    ensures var plain := if gz then env.gunzip(content) else Some(content);
            && (plain == Some([94, 36]) ==> Stored(env, gz, content) == Some([]))
            && (plain != Some([94, 36]) ==> Stored(env, gz, content) == plain)
  {
  }

  /** The length field of a frame and the number of a command, byte by byte: four bytes, little-endian, of
      which the last carries the sign. */
  lemma WireBytes(a: byte, b: byte, c: byte, d: byte, data: seq<byte>)
    ensures Signed32([a, b, c, d] + data)
         == a as int + 256 * b as int + 65536 * c as int + 16777216 * if d < 128 then d as int else d - 256
    ensures d < 128 && |data| == a as int + 256 * b as int + 65536 * c as int + 16777216 * d as int ==>
              Frame(data) == [a, b, c, d] + data
    ensures Command(a, data) == [a, 0, 0, 0] + data
    ensures LE64([a, b, c, d, 0, 0, 0, 0]) == a as int + 256 * b as int + 65536 * c as int + 16777216 * d as int
    ensures LE64([0, 0, 0, 0, a, b, c, d])
         == 4294967296 * a as int + 1099511627776 * b as int + 281474976710656 * c as int + 72057594037927936 * d as int
  {
    WordBytes(a, b, c, d);
    WordBytes(a, 0, 0, 0);
    assert ([a, b, c, d] + data)[..4] == [a, b, c, d];
  }
}
