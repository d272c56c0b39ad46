/** The capture: the kernel queue, the receiving thread, the stopping thread and the file, as steps that
    interleave in any order. */
module Capture {
  import opened Bytes
  import opened PcapFile
  import opened Vlan

  /** A packet as `recvmsg` returns it, with the timestamp decoded from its control messages. */
  datatype Item = Item(data: seq<byte>, anc: seq<Cmsg>, ts: nat)

  const BILLION: nat := 1_000_000_000

  /** The global header: nanosecond magic, version 2.4, snap length 65535, Ethernet. */
  const HEADER: seq<byte> := PutLE32(MAGIC_NS) + [2, 0, 4, 0] + PutLE32(0) + PutLE32(0) + PutLE32(65535) + PutLE32(1)

  /** The record header has room for the packet. */
  predicate Writable(it: Item) {
    it.ts / BILLION < 0x1_0000_0000 && |Restore(it.data, it.anc)| < 0x1_0000_0000
  }

  /** The record a packet becomes: its tag restored, its time in seconds and nanoseconds. */
  function RecordOf(it: Item): (r: Rec)
    requires Writable(it)
    ensures Fits(r)
  {
    var frame := Restore(it.data, it.anc);
    Rec(it.ts / BILLION, it.ts % BILLION, |frame|, frame)
  }

  function Records(items: seq<Item>): (rs: seq<Rec>)
    requires forall it :: it in items ==> Writable(it)
    ensures |rs| == |items| && AllFit(rs) && forall i :: 0 <= i < |items| ==> rs[i] == RecordOf(items[i])
  {
    seq(|items|, i requires 0 <= i < |items| => RecordOf(items[i]))
  }

  /** `_write_packet`, and the file and counter it keeps. */
  class PcapWriter {
    var file: seq<byte>
    var pktCount: nat

    constructor ()
      ensures file == HEADER && pktCount == 0
    {
      file, pktCount := HEADER, 0;
    }

    method WritePacket(data: seq<byte>, ts: nat) returns (ok: bool)
      modifies this
      ensures ok <==> ts / BILLION < 0x1_0000_0000 && |data| < 0x1_0000_0000
      ensures ok ==> file == old(file) + Raw(Little, Rec(ts / BILLION, ts % BILLION, |data|, data))
      ensures pktCount == old(pktCount) + if ok then 1 else 0
      ensures !ok ==> file == old(file)
    {
      var tsSec, tsNsec := ts / BILLION, ts % BILLION;
      var caplen := |data|;
      ok := tsSec < 0x1_0000_0000 && caplen < 0x1_0000_0000;
      if ok {
        file := file + (PutLE32(tsSec) + PutLE32(tsNsec) + PutLE32(caplen) + PutLE32(caplen));
        file := file + data;
        pktCount := pktCount + 1;
        assert file == old(file) + Raw(Little, Rec(tsSec, tsNsec, caplen, data));
      }
    }
  }

  /** What the receiving thread does with a packet: the record it stands for is appended, unless there is no room
      for it in the record header. */
  method SavePacket(w: PcapWriter, it: Item) returns (ok: bool)
    modifies w
    ensures ok <==> Writable(it)
    ensures ok ==> w.file == old(w.file) + Raw(Little, RecordOf(it)) && w.pktCount == old(w.pktCount) + 1
    ensures !ok ==> w.file == old(w.file) && w.pktCount == old(w.pktCount)
  {
    hide Restore, Raw;
    var frame := Restore(it.data, it.anc);
    ok := w.WritePacket(frame, it.ts);
  }

  // ------------------------------------------------------------- the threads

  /** Where the receiving thread is. */
  datatype Pc =
    | Check                                // about to look at the stop flag
    | Recv                                 // in `recvmsg` of the main loop
    | Write(item: Item, draining: bool)    // about to write a packet
    | AfterLoop                            // the main loop has ended
    | Drain                                // in `recvmsg` of the draining loop
    | Exited

  /** `accepted`, `atStop` and `damaged` only record the history: the packets the kernel queued, how many
      they were when the stop flag was set, and whether writing or flushing the file failed. */
  datatype State = State(
    queue: seq<Item>, file: seq<byte>, stopped: bool, exc: bool, pc: Pc, open: bool, returned: Option<bool>,
    accepted: seq<Item>, atStop: nat, damaged: bool)

  const INIT := State([], HEADER, false, false, Check, true, None, [], 0, false)

  datatype Action =
    | Arrive(item: Item)          // the kernel queues a packet
    | Drop                        // the kernel drops one: the queue is full
    | Look                        // the thread looks at the flag
    | Take                        // `recvmsg` returns a packet
    | Timeout                     // `recvmsg` finds nothing for a second
    | RecvError(down: bool)       // `recvmsg` fails; `down` when the interface is gone
    | RecvEmpty                   // `recvmsg` returns no data
    | Put
    | PutError(partial: seq<byte>)
    | Leave                       // decide whether to drain
    | Signal                      // `stop` sets the flag
    | Join(flushed: bool, lost: nat)   // `stop` finds the thread gone and closes
    | JoinTimeout                 // `stop` gives up waiting

  /** One step; `None` when it cannot happen. */
  function Step(s: State, a: Action): Option<State> {
    match a
    case Arrive(it) =>
      if s.open then Some(s.(queue := s.queue + [it], accepted := s.accepted + [it])) else None
    case Drop => Some(s)
    case Look =>
      if s.pc.Check? then Some(s.(pc := if s.stopped then AfterLoop else Recv)) else None
    case Take =>
      if s.queue != [] && (s.pc.Recv? || s.pc.Drain?)
      then Some(s.(queue := s.queue[1..], pc := Write(s.queue[0], s.pc.Drain?))) else None
    case Timeout =>
      if s.queue == [] && s.pc.Recv? then Some(s.(pc := Check))
      else if s.queue == [] && s.pc.Drain? then Some(s.(pc := Exited))
      else None
    case RecvError(down) =>
      if s.pc.Recv? then Some(s.(pc := AfterLoop, exc := s.exc || down))
      else if s.pc.Drain? then Some(s.(pc := Exited))
      else None
    case RecvEmpty =>
      if s.pc.Recv? then Some(s.(pc := AfterLoop))
      else if s.pc.Drain? then Some(s.(pc := Exited))
      else None
    case Put =>
      if s.pc.Write? && Writable(s.pc.item)
      then Some(s.(file := s.file + Raw(Little, RecordOf(s.pc.item)), pc := if s.pc.draining then Drain else Check))
      else None
    case PutError(partial) =>
      if s.pc.Write?
      then Some(s.(file := s.file + partial, pc := Exited, exc := s.exc || !s.pc.draining, damaged := true))
      else None
    case Leave =>
      if s.pc.AfterLoop? then Some(s.(pc := if s.stopped && !s.exc then Drain else Exited)) else None
    case Signal =>
      Some(s.(stopped := true, atStop := if s.stopped then s.atStop else |s.accepted|))
    case Join(flushed, lost) =>
      if s.stopped && s.pc.Exited? then
        Some(s.(open := false, returned := Some(true), damaged := s.damaged || !flushed,
                file := if flushed || lost > |s.file| then s.file else s.file[..|s.file| - lost]))
      else None
    case JoinTimeout =>
      if s.stopped && !s.pc.Exited? then Some(s.(returned := Some(false))) else None
  }

  /** The state after a run, if every step of it can happen. */
  function Run(acts: seq<Action>): Option<State> {
    if acts == [] then Some(INIT)
    else
      match Run(acts[..|acts| - 1])
      case None => None
      case Some(s) => Step(s, acts[|acts| - 1])
  }

  function InFlight(s: State): seq<Item> {
    if s.pc.Write? then [s.pc.item] else []
  }

  /** How many packets are in the file. */
  function Delivered(s: State): int {
    |s.accepted| - |InFlight(s)| - |s.queue|
  }

  ghost predicate Written(s: State) {
    var n := Delivered(s);
    && 0 <= n && s.accepted == s.accepted[..n] + InFlight(s) + s.queue
    && (!s.damaged ==>
          && (forall it :: it in s.accepted[..n] ==> Writable(it))
          && s.file == HEADER + RawAll(Little, Records(s.accepted[..n])))
  }

  ghost predicate Inv(s: State) {
    && Written(s)
    && (s.stopped ==> s.atStop <= |s.accepted|)
    && (s.pc.Drain? || (s.pc.Write? && s.pc.draining) ==> s.stopped)
    && (s.returned == Some(true) ==> s.pc.Exited? && s.stopped)
  }

  lemma StepKeeps(s: State, a: Action)
    requires Inv(s) && Step(s, a).Some?
    ensures Inv(Step(s, a).value)
  {
    hide Writable, Written, Raw, RawAll, Restore, Records;
    var t := Step(s, a).value;
    DeliveredNat(s);
    match a
    case Arrive(it) => ArriveKeeps(s, it);
    case Take => TakeKeeps(s);
    case Put => PutKeeps(s);
    case PutError(_) => ErrorKeeps(s, t);
    case _ => SameKeeps(s, t);
  }

  lemma DeliveredNat(s: State)
    requires Written(s)
    ensures 0 <= Delivered(s) <= |s.accepted|
  {
  }

  /** Steps that move no packet. */
  lemma SameKeeps(s: State, t: State)
    requires Written(s) && t.queue == s.queue && t.accepted == s.accepted && InFlight(t) == InFlight(s)
    requires t.file == s.file || t.damaged
    requires s.damaged ==> t.damaged
    ensures Written(t) && Delivered(t) == Delivered(s)
  {
  }

  lemma ArriveKeeps(s: State, it: Item)
    requires Written(s) && s.open
    ensures Written(Step(s, Arrive(it)).value)
    ensures Delivered(Step(s, Arrive(it)).value) == Delivered(s)
  {
    hide Writable, Raw, RawAll, Restore, Records;
    var n := Delivered(s);
    assert (s.accepted + [it])[..n] == s.accepted[..n];
  }

  lemma TakeKeeps(s: State)
    requires Written(s) && s.queue != [] && (s.pc.Recv? || s.pc.Drain?)
    ensures Written(Step(s, Take).value)
    ensures Delivered(Step(s, Take).value) == Delivered(s)
  {
    hide Writable, Raw, RawAll, Restore, Records;
    var n := Delivered(s);
    var done, q := s.accepted[..n], s.queue;
    assert done + [] + q == done + [q[0]] + q[1..];
  }

  lemma ErrorKeeps(s: State, t: State)
    requires Written(s) && s.pc.Write? && t.damaged && !t.pc.Write?
    requires t.queue == s.queue && t.accepted == s.accepted
    ensures Written(t)
  {
    InFlightDelivered(s);
  }

  lemma InFlightDelivered(s: State)
    requires Written(s) && s.pc.Write?
    ensures var n := Delivered(s);
            && n < |s.accepted| && s.accepted[n] == s.pc.item
            && s.accepted[..n + 1] == s.accepted[..n] + [s.pc.item]
            && s.accepted == s.accepted[..n + 1] + s.queue
  {
  }

  lemma PutKeeps(s: State)
    requires Inv(s) && s.pc.Write? && Writable(s.pc.item)
    ensures Inv(Step(s, Put).value)
  {
    hide Writable, Raw, Restore, RecordOf, RawAll;
    InFlightDelivered(s);
    var n := Delivered(s);
    if !s.damaged {
      var before := s.accepted[..n];
      assert Records(before + [s.pc.item]) == Records(before) + [RecordOf(s.pc.item)];
      RawAppend(Little, Records(before), RecordOf(s.pc.item));
    }
  }

  lemma {:induction false} RunKeeps(acts: seq<Action>)
    requires Run(acts).Some?
    ensures Inv(Run(acts).value)
  {
    if acts == [] {
      assert Records([]) == [];
    } else {
      RunKeeps(acts[..|acts| - 1]);
      StepKeeps(Run(acts[..|acts| - 1]).value, acts[|acts| - 1]);
    }
  }

  /** The records in the file. */
  function FileRecords(s: State): seq<Rec> {
    if |s.file| < |HEADER| then [] else ParseAll(Little, s.file[|HEADER|..])
  }

  /** Conservation: at every moment of every run, what is written, what the thread holds and what is queued
      are together exactly the accepted packets, in order. */
  lemma NothingLost(acts: seq<Action>)
    requires Run(acts).Some?
    ensures var s := Run(acts).value;
            var n := Delivered(s);
            && 0 <= n && s.accepted == s.accepted[..n] + InFlight(s) + s.queue
            && (!s.damaged ==>
                  && (forall it :: it in s.accepted[..n] ==> Writable(it))
                  && HEADER <= s.file && FileRecords(s) == Records(s.accepted[..n]))
  {
    RunKeeps(acts);
    var s := Run(acts).value;
    var n := Delivered(s);
    if !s.damaged {
      var rs := Records(s.accepted[..n]);
      assert s.file[|HEADER|..] == RawAll(Little, rs) + [];
      ParseOfRaw(Little, rs, []);
    }
  }

  /** The oldest queued packet was there before the stop. */
  predicate Waiting(s: State) {
    s.queue != [] && |s.accepted| - |s.queue| < s.atStop
  }

  /** This step leaves packets behind that were queued before the stop: reading fails while draining, an
      interface failure makes the thread skip the drain, or it has ended before the stop. */
  predicate Strands(s: State, a: Action) {
    match a
    case RecvError(_) => s.pc.Drain? && Waiting(s)
    case RecvEmpty => s.pc.Drain? && Waiting(s)
    case Leave => s.pc.AfterLoop? && s.stopped && s.exc && Waiting(s)
    case Signal => s.pc.Exited? && !s.stopped && s.queue != []
    case _ => false
  }

  /** Some step of the run did. */
  predicate Stranded(acts: seq<Action>)
    requires Run(acts).Some?
  {
    acts != [] &&
    var before := acts[..|acts| - 1];
    (Stranded(before) || Strands(Run(before).value, acts[|acts| - 1]))
  }

  /** Whether a packet from before the stop stays behind is decided when the thread has gone and the flag is
      set, whichever comes last. */
  lemma {:induction false} StrandedExact(acts: seq<Action>)
    requires Run(acts).Some? && !Run(acts).value.damaged
    ensures var s := Run(acts).value;
            Stranded(acts) <==> Left(s)
  {
    hide Step, Inv, Strands, Left;
    if acts == [] {
      assert !Left(INIT) by {
        NotLeft();
      }
    } else {
      var before := acts[..|acts| - 1];
      RunKeeps(before);
      StrandsStep(Run(before).value, acts[|acts| - 1]);
      StrandedExact(before);
    }
  }

  predicate Left(s: State) {
    s.stopped && s.pc.Exited? && Delivered(s) < s.atStop
  }

  lemma NotLeft()
    ensures !Left(INIT)
  {
  }

  lemma StrandsStep(s: State, a: Action)
    requires Inv(s) && Step(s, a).Some? && !Step(s, a).value.damaged
    ensures !s.damaged && (Left(Step(s, a).value) <==> Left(s) || Strands(s, a))
  {
    hide Written, Restore, Raw, RecordOf, Writable;
    DeliveredNat(s);
  }

  /** When `stop` returns True and the file was not damaged, it holds a prefix of the accepted packets, once
      each and in order; all packets queued before the stop flag was set are among them if and only
      if no step of the run left one behind. */
  lemma StopComplete(acts: seq<Action>)
    requires Run(acts).Some? && Run(acts).value.returned == Some(true) && !Run(acts).value.damaged
    ensures var s := Run(acts).value;
            var rs := FileRecords(s);
            && |rs| <= |s.accepted|
            && (forall i :: 0 <= i < |rs| ==> Writable(s.accepted[i]) && rs[i] == RecordOf(s.accepted[i]))
            && (s.atStop <= |rs| <==> !Stranded(acts))
  {
    NothingLost(acts);
    RunKeeps(acts);
    StrandedExact(acts);
    var s := Run(acts).value;
    var n := Delivered(s);
    forall i | 0 <= i < n
      ensures s.accepted[i] in s.accepted[..n]
    {
      assert s.accepted[..n][i] == s.accepted[i];
    }
  }

  /** As long as no read fails, nothing is left behind. */
  lemma {:induction false} ReadsComplete(acts: seq<Action>)
    requires Run(acts).Some? && !Run(acts).value.damaged
    requires forall a :: a in acts ==> !a.RecvError? && !a.RecvEmpty?
    ensures !Stranded(acts)
    ensures var s := Run(acts).value; !s.exc && (s.pc.AfterLoop? || s.pc.Exited? ==> s.stopped)
  {
    hide Step, Inv, Strands;
    if acts != [] {
      var n := |acts| - 1;
      assert acts[n] in acts && forall a :: a in acts[..n] ==> a in acts;
      RunKeeps(acts[..n]);
      ReadStep(Run(acts[..n]).value, acts[n]);
      ReadsComplete(acts[..n]);
    }
  }

  lemma ReadStep(s: State, a: Action)
    requires Inv(s) && Step(s, a).Some? && !Step(s, a).value.damaged && !a.RecvError? && !a.RecvEmpty?
    ensures !s.damaged
    ensures !s.exc && (s.pc.AfterLoop? || s.pc.Exited? ==> s.stopped) ==>
              var t := Step(s, a).value;
              !Strands(s, a) && !t.exc && (t.pc.AfterLoop? || t.pc.Exited? ==> t.stopped)
  {
    hide Written, Restore, Raw, RecordOf, Writable;
  }

  /** This step ends the main loop with an exception: the interface is gone, or a packet cannot be written. */
  predicate Breaks(pc: Pc, a: Action) {
    match a
    case RecvError(down) => down && pc.Recv?
    case PutError(_) => pc.Write? && !pc.draining
    case _ => false
  }

  predicate BrokeDown(acts: seq<Action>)
    requires Run(acts).Some?
  {
    acts != [] &&
    var before := acts[..|acts| - 1];
    (BrokeDown(before) || Breaks(Run(before).value.pc, acts[|acts| - 1]))
  }

  predicate Draining(s: State) {
    s.pc.Drain? || (s.pc.Write? && s.pc.draining)
  }

  lemma BreaksStep(s: State, a: Action)
    requires Step(s, a).Some? && (Draining(s) ==> s.stopped && !s.exc)
    ensures var t := Step(s, a).value;
            (t.exc <==> s.exc || Breaks(s.pc, a)) && (Draining(t) ==> t.stopped && !t.exc)
  {
    hide Writable, Restore, Raw, RecordOf;
  }

  /** A stopped thread that has left the main loop drains the queue exactly when no step has broken it. */
  lemma {:induction false} DrainsUnlessBroken(acts: seq<Action>)
    requires Run(acts).Some?
    ensures var s := Run(acts).value;
            && (s.exc <==> BrokeDown(acts)) && (Draining(s) ==> s.stopped && !BrokeDown(acts))
            && (s.pc.AfterLoop? ==>
                  var r := Run(acts + [Leave]);
                  r.Some? && r.value.pc == if s.stopped && !BrokeDown(acts) then Drain else Exited)
  {
    hide Step, Breaks, Draining;
    RunOne(acts, Leave);
    AfterLeave(Run(acts).value);
    if acts != [] {
      DrainsUnlessBroken(acts[..|acts| - 1]);
      BreaksStep(Run(acts[..|acts| - 1]).value, acts[|acts| - 1]);
    } else {
      assert !Draining(INIT) by {
        NotDraining();
      }
    }
  }

  lemma NotDraining()
    ensures !Draining(INIT)
  {
  }

  lemma AfterLeave(s: State)
    ensures s.pc.AfterLoop? ==> Step(s, Leave) == Some(s.(pc := if s.stopped && !s.exc then Drain else Exited))
  {
  }

  /** Once it has set the flag, `stop` answers True when the thread has gone, and False only while it has not.
      With True the socket is closed, so nothing more is accepted, and the file loses at most what a failing
      flush leaves unwritten. */
  lemma StopAnswers(acts: seq<Action>, flushed: bool, lost: nat)
    requires Run(acts).Some? && Run(acts).value.stopped
    ensures var gone, done, late := Run(acts).value.pc.Exited?, Run(acts + [Join(flushed, lost)]), Run(acts + [JoinTimeout]);
            && (done.Some? <==> gone) && (done.Some? ==> done.value.returned == Some(true))
            && (late.Some? <==> !gone) && (late.Some? ==> late.value.returned == Some(false))
            && (done.Some? ==>
                  && (forall it :: Run(acts + [Join(flushed, lost)] + [Arrive(it)]) == None)
                  && done.value.file <= Run(acts).value.file
                  && (flushed ==> done.value.file == Run(acts).value.file)
                  && (done.value.damaged <==> Run(acts).value.damaged || !flushed))
  {
    forall it
      ensures Run(acts + [Join(flushed, lost)] + [Arrive(it)])
           == match Run(acts + [Join(flushed, lost)]) case None => None case Some(s) => Step(s, Arrive(it))
    {
      RunOne(acts + [Join(flushed, lost)], Arrive(it));
    }
    RunOne(acts, Join(flushed, lost));
    RunOne(acts, JoinTimeout);
  }

  /** A thread that reads no data, or fails to, leaves the loop it is in. */
  lemma LeavesLoop(acts: seq<Action>, a: Action)
    requires Run(acts).Some? && (Run(acts).value.pc.Recv? || Run(acts).value.pc.Drain?) && (a.RecvEmpty? || a.RecvError?)
    ensures var r := Run(acts + [a]);
            r.Some? && r.value.pc == if Run(acts).value.pc.Recv? then AfterLoop else Exited
  {
    RunOne(acts, a);
  }

  /** A run that does leave one behind: reading fails during the drain, `stop` still returns True. */
  lemma DrainErrorLoses(it: Item) returns (acts: seq<Action>)
    ensures var r := Run(acts);
            && r.Some? && r.value.returned == Some(true) && r.value.atStop == 1
            && r.value.accepted == [it] && r.value.file == HEADER
  {
    var a := [Arrive(it)];
    var b := a + [Signal];
    var c := b + [Look];
    var d := c + [Leave];
    var e := d + [RecvError(false)];
    acts := e + [Join(true, 0)];
    RunOne([], Arrive(it));
    assert [] + [Arrive(it)] == a;
    RunOne(a, Signal);
    RunOne(b, Look);
    RunOne(c, Leave);
    RunOne(d, RecvError(false));
    RunOne(e, Join(true, 0));
  }

  lemma RunOne(acts: seq<Action>, a: Action)
    ensures Run(acts + [a]) == match Run(acts) case None => None case Some(s) => Step(s, a)
  {
    assert (acts + [a])[..|acts|] == acts;
  }

  // ------------------------------------------------------------- the thread comes to an end

  /** The steps of the receiving thread itself. */
  predicate OfThread(a: Action) {
    a.Look? || a.Take? || a.Timeout? || a.RecvError? || a.RecvEmpty? || a.Put? || a.PutError? || a.Leave?
  }

  /** How many steps a stopped thread has left at most. */
  function StepsLeft(s: State): nat {
    2 * |s.queue| + match s.pc
                    case Exited => 0
                    case Drain => 1
                    case Write(_, draining) => if draining then 2 else 5
                    case AfterLoop => 3
                    case Check => 4
                    case Recv => 6
  }

  /** Until it has exited, the thread can always take a step. */
  lemma NeverStuck(s: State) returns (a: Action)
    requires !s.pc.Exited?
    ensures OfThread(a) && Step(s, a).Some?
  {
    a := match s.pc
         case Check => Look
         case Recv => if s.queue == [] then Timeout else Take
         case Write(it, _) => if Writable(it) then Put else PutError([])
         case AfterLoop => Leave
         case Drain => if s.queue == [] then Timeout else Take
         case Exited => Drop;
  }

  function RunOn(s: State, acts: seq<Action>): Option<State>
    decreases |acts|
  {
    if acts == [] then Some(s)
    else match Step(s, acts[0]) case None => None case Some(t) => RunOn(t, acts[1..])
  }

  lemma OneLess(s: State, a: Action)
    requires s.stopped && OfThread(a) && Step(s, a).Some?
    ensures var t := Step(s, a).value; t.stopped && StepsLeft(t) < StepsLeft(s)
  {
    hide Raw, RecordOf, Writable;
  }

  /** Once the stop flag is set and no more packets arrive, the thread exits after a bounded number of steps:
      `stop` fails to join only while traffic goes on or a call blocks. */
  lemma {:induction false} StoppedThreadExits(s: State, acts: seq<Action>)
    requires s.stopped && RunOn(s, acts).Some? && forall a :: a in acts ==> OfThread(a)
    ensures |acts| + StepsLeft(RunOn(s, acts).value) <= StepsLeft(s)
    ensures |acts| == StepsLeft(s) ==> RunOn(s, acts).value.pc.Exited?
    decreases |acts|
  {
    hide Step;
    if acts != [] {
      assert acts[0] in acts && forall a :: a in acts[1..] ==> a in acts;
      OneLess(s, acts[0]);
      StoppedThreadExits(Step(s, acts[0]).value, acts[1..]);
    }
  }

  // ------------------------------------------------------------- the sorted capture

  /** Seconds and nanoseconds order packets as their timestamps do. */
  lemma OrderIsTime(a: Item, b: Item)
    requires Writable(a) && Writable(b)
    ensures Le(RecordOf(a), RecordOf(b)) <==> a.ts <= b.ts
  {
    assert a.ts == a.ts / BILLION * BILLION + a.ts % BILLION;
    assert b.ts == b.ts / BILLION * BILLION + b.ts % BILLION;
  }

  /** Sorting a capture whose file was not damaged keeps every byte of every record. */
  lemma SortedCapture(acts: seq<Action>)
    requires Run(acts).Some? && !Run(acts).value.damaged
    ensures var s := Run(acts).value;
            var rs := FileRecords(s);
            && AllFit(rs) && AllFit(Sort(rs))
            && s.file == HEADER + RawAll(Little, rs)
            && SortedFile(s.file) == HEADER + RawAll(Little, Sort(rs))
  {
    hide Sort, Run;
    NothingLost(acts);
    RunKeeps(acts);
    var s := Run(acts).value;
    assert |HEADER| == 24 && s.file[..24] == HEADER;
    assert LE32(HEADER, 0) == LE32(PutLE32(MAGIC_NS), 0);
    assert LE32(s.file, 0) == LE32(s.file[..24], 0);
    RecordBytesKept(s.file);
  }

  // ------------------------------------------------------------- the bytes

  /** The header of every capture file: magic number for nanoseconds, version 2.4, snap length 65535, Ethernet. */
  lemma HeaderBytes()
    ensures HEADER == [0x4D, 0x3C, 0xB2, 0xA1, 2, 0, 4, 0, 0, 0, 0, 0, 0, 0, 0, 0, 0xFF, 0xFF, 0, 0, 1, 0, 0, 0]
  {
    WordBytes(0x4D, 0x3C, 0xB2, 0xA1);
    WordBytes(0xFF, 0xFF, 0, 0);
    WordBytes(1, 0, 0, 0);
    WordBytes(0, 0, 0, 0);
  }

  /** A frame that the kernel delivers without its tag is recorded as it was on the wire, at its own time. */
  lemma RecordedAsOnTheWire(frame: seq<byte>, pre: seq<Cmsg>, post: seq<Cmsg>, status: nat, len: nat, snaplen: nat,
                            mac: nat, net: nat, ts: nat)
    requires 16 <= |frame| < 0x1_0000_0000 && ts < 0x1_0000_0000 * 1_000_000_000
    requires forall m :: m in pre ==> !(m.level == 263 && m.kind == 8)
    requires status < 0x1_0000_0000 && status / 0x10 % 2 == 1 && status / 0x40 % 2 == 1
    requires len < 0x1_0000_0000 && snaplen < 0x1_0000_0000 && mac < 0x1_0000 && net < 0x1_0000
    ensures var aux := KernelAux(status, len, snaplen, mac, net, BE16(frame, 14), BE16(frame, 12));
            var it := Item(frame[..12] + frame[16..], pre + [Cmsg(263, 8, aux)] + post, ts);
            && Writable(it)
            && var r := RecordOf(it);
               r.data == frame && r.orig == |frame| && r.sec * 1_000_000_000 + r.frac == ts && r.frac < 1_000_000_000
  {
    hide Restore, KernelAux;
    RestoreFromKernel(frame, pre, post, status, len, snaplen, mac, net);
  }

  /** So is one that had no tag. */
  lemma RecordedAsDelivered(data: seq<byte>, pre: seq<Cmsg>, post: seq<Cmsg>, status: nat, len: nat, snaplen: nat,
                            mac: nat, net: nat, tpid: nat, ts: nat)
    requires |data| < 0x1_0000_0000 && ts < 0x1_0000_0000 * 1_000_000_000
    requires forall m :: m in pre ==> !(m.level == 263 && m.kind == 8)
    requires status < 0x1_0000_0000 && status / 0x10 % 2 == 0
    requires len < 0x1_0000_0000 && snaplen < 0x1_0000_0000 && mac < 0x1_0000 && net < 0x1_0000 && tpid < 0x1_0000
    ensures var it := Item(data, pre + [Cmsg(263, 8, KernelAux(status, len, snaplen, mac, net, 0, tpid))] + post, ts);
            && Writable(it)
            && var r := RecordOf(it);
               r.data == data && r.orig == |data| && r.sec * 1_000_000_000 + r.frac == ts && r.frac < 1_000_000_000
  {
    hide Restore, KernelAux;
    RestoreDecides(data, pre, post, status, len, snaplen, mac, net, 0, tpid);
  }
}
