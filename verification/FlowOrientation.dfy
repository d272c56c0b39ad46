/** The flows of a pcap file and which side of each is the client, found in one pass. */
module FlowOrientation {
  import opened Bytes
  import opened PcapFile
  import opened Vlan

  /** An address (4 or 16 bytes) and a port; ICMP has port 0. */
  datatype Endpoint = Endpoint(ip: seq<byte>, port: nat)

  datatype Protocol = Tcp | Udp | Sctp | Icmp

  /** What one packet contributes: its endpoints and the client it names, if it names one. */
  datatype Packet = Packet(src: Endpoint, dst: Endpoint, proto: Protocol, signal: Option<Endpoint>)

  // ------------------------------------------------------------- one packet

  const METHODS: seq<seq<byte>> := [
    [71, 69, 84, 32], [80, 79, 83, 84, 32], [80, 85, 84, 32], [72, 69, 65, 68, 32], [68, 69, 76, 69, 84, 69, 32],
    [79, 80, 84, 73, 79, 78, 83, 32], [80, 65, 84, 67, 72, 32], [67, 79, 78, 78, 69, 67, 84, 32],
    [84, 82, 65, 67, 69, 32]]

  const HTTP1: seq<byte> := [72, 84, 84, 80, 47, 49, 46]

  predicate IsRequest(s: seq<byte>) {
    exists m :: m in METHODS && m <= s
  }

  /** A SYN names its sender, a SYN-ACK its receiver, a request its sender and a response its receiver. */
  function Signal(src: Endpoint, dst: Endpoint, trans: seq<byte>): (c: Option<Endpoint>)
    ensures c.Some? ==> c.value == src || c.value == dst
  {
    var flags: int := if |trans| > 13 then trans[13] else 0;
    if flags / 2 % 2 == 1 then Some(if flags / 16 % 2 == 1 then dst else src)
    else if |trans| >= 14 then
      var http := trans[Min(trans[12] / 16 * 4, |trans|)..];
      if IsRequest(http) then Some(src) else if HTTP1 <= http then Some(dst) else None
    else None
  }

  function ProtocolOf(proto: byte): Option<Protocol> {
    if proto == 6 then Some(Tcp) else if proto == 17 then Some(Udp) else if proto == 132 then Some(Sctp)
    else if proto == 1 || proto == 58 then Some(Icmp) else None
  }

  /** A transport segment between two endpoints. */
  datatype Segment = Segment(src: Endpoint, dst: Endpoint, proto: Protocol, trans: seq<byte>)

  /** Only TCP segments can name a client. */
  function PacketOf(g: Segment): Packet {
    Packet(g.src, g.dst, g.proto, if g.proto.Tcp? then Signal(g.src, g.dst, g.trans) else None)
  }

  function SegmentIp(ipSrc: seq<byte>, ipDst: seq<byte>, proto: byte, trans: seq<byte>): Option<Segment> {
    match ProtocolOf(proto)
    case None => None
    case Some(Icmp) => Some(Segment(Endpoint(ipSrc, 0), Endpoint(ipDst, 0), Icmp, trans))
    case Some(p) =>
      if |trans| < 4 then None
      else Some(Segment(Endpoint(ipSrc, BE16(trans, 0)), Endpoint(ipDst, BE16(trans, 2)), p, trans))
  }

  function SegmentPayload(ethType: nat, p: seq<byte>): Option<Segment> {
    if ethType == 0x0800 then
      if |p| < 20 then None else SegmentIp(p[12..16], p[16..20], p[9], p[Min(p[0] % 16 * 4, |p|)..])
    else if ethType == 0x86DD then
      if |p| < 40 then None else SegmentIp(p[8..24], p[24..40], p[6], p[40..])
    else None
  }

  /** The segment in a captured frame, behind at most one 0x8100 tag; `None` for what is skipped. */
  function SegmentIn(data: seq<byte>): Option<Segment> {
    if |data| < 14 then None
    else if BE16(data, 12) == 0x8100 then
      if |data| < 18 then None else SegmentPayload(BE16(data, 16), data[18..])
    else SegmentPayload(BE16(data, 12), data[14..])
  }

  function Examine(data: seq<byte>): Option<Packet> {
    var g := SegmentIn(data);
    if g.None? then None else Some(PacketOf(g.value))
  }

  /** Restoring the stripped 802.1Q tag of a captured frame changes neither the flow nor the signal, unless
      another 0x8100 tag is inside and the packet behind that one would have been counted. */
  lemma RestoreKeepsPacket(data: seq<byte>, anc: seq<Cmsg>)
    requires |data| >= 12 && AuxOf(anc).Some? && HasVlan(AuxOf(anc).value) && Tpid(AuxOf(anc).value) == 0x8100
    ensures Examine(Restore(data, anc)) == Examine(data)
       <==> |data| < 14 || BE16(data, 12) != 0x8100 || Examine(data).None?
  {
    var r := Restore(data, anc);
    var a := AuxOf(anc).value;
    assert r == data[..12] + PutBE16(0x8100) + PutBE16(a.tci) + data[12..];
    assert BE16(r, 12) == 0x8100;
    if |data| >= 14 {
      assert BE16(r, 16) == BE16(data, 12) && r[18..] == data[14..];
    }
  }

  // ------------------------------------------------------------- flow keys

  predicate Before(a: seq<byte>, b: seq<byte>) {
    b != [] && (a == [] || a[0] < b[0] || (a[0] == b[0] && Before(a[1..], b[1..])))
  }

  datatype Key = Key(lo: Endpoint, hi: Endpoint, proto: Protocol)

  /** The two endpoints in order, and the protocol. */
  function Canonical(p: Packet): Key {
    if EndpointLe(p.src, p.dst) then Key(p.src, p.dst, p.proto) else Key(p.dst, p.src, p.proto)
  }

  predicate EndpointLe(a: Endpoint, b: Endpoint) {
    Before(a.ip, b.ip) || (a.ip == b.ip && a.port <= b.port)
  }

  lemma {:induction false} BeforeOrder(a: seq<byte>, b: seq<byte>)
    ensures Before(a, b) || Before(b, a) || a == b
    ensures !(Before(a, b) && Before(b, a)) && !Before(a, a)
  {
    if a != [] && b != [] {
      BeforeOrder(a[1..], b[1..]);
      assert a == [a[0]] + a[1..] && b == [b[0]] + b[1..];
    }
    if a != [] {
      BeforeOrder(a[1..], a[1..]);
    }
  }

  /** Two packets have the same key exactly when they run between the same two endpoints, in either
      direction, over the same protocol. */
  lemma SameKey(p: Packet, q: Packet)
    ensures Canonical(p) == Canonical(q)
       <==> p.proto == q.proto && ((p.src == q.src && p.dst == q.dst) || (p.src == q.dst && p.dst == q.src))
  {
    BeforeOrder(p.src.ip, p.dst.ip);
    BeforeOrder(q.src.ip, q.dst.ip);
  }

  // ------------------------------------------------------------- the flows of a run, declared

  /** The packets of one flow. */
  function Of(ps: seq<Packet>, k: Key): (qs: seq<Packet>)
    ensures forall q :: q in qs ==> q in ps && Canonical(q) == k
  {
    if ps == [] then []
    else
      var n := |ps| - 1;
      Of(ps[..n], k) + if Canonical(ps[n]) == k then [ps[n]] else []
  }

  /** The flow keys in the order of their first packets. */
  function Keys(ps: seq<Packet>): (ks: seq<Key>)
    ensures forall k :: k in ks <==> exists i :: 0 <= i < |ps| && Canonical(ps[i]) == k
    ensures forall i, j :: 0 <= i < j < |ks| ==> ks[i] != ks[j]
  {
    if ps == [] then []
    else
      var n := |ps| - 1;
      var ks := Keys(ps[..n]);
      assert forall i :: 0 <= i < n ==> ps[..n][i] == ps[i];
      if Canonical(ps[n]) in ks then ks else ks + [Canonical(ps[n])]
  }

  /** The client the first signalling packet names. */
  function FirstSignal(qs: seq<Packet>): Option<Endpoint> {
    if qs == [] then None else if qs[0].signal.Some? then qs[0].signal else FirstSignal(qs[1..])
  }

  /** The first signal decides; without one the sender of the first packet is the client. */
  function Client(qs: seq<Packet>): Endpoint
    requires qs != []
  {
    var s := FirstSignal(qs);
    if s.Some? then s.value else qs[0].src
  }

  datatype FlowResult = FlowResult(src: Endpoint, dst: Endpoint, proto: Protocol)

  /** The result of a flow: its client and the other endpoint. */
  function Oriented(qs: seq<Packet>): FlowResult
    requires qs != []
  {
    FlowResult(Client(qs), if Client(qs) == qs[0].src then qs[0].dst else qs[0].src, qs[0].proto)
  }

  lemma {:induction false} OfNonempty(ps: seq<Packet>, k: Key)
    requires k in Keys(ps)
    ensures Of(ps, k) != []
  {
    var n := |ps| - 1;
    if Canonical(ps[n]) != k {
      var i :| 0 <= i < |ps| && Canonical(ps[i]) == k;
      assert ps[..n][i] == ps[i];
      OfNonempty(ps[..n], k);
    }
  }

  function AllOriented(ps: seq<Packet>, ks: seq<Key>): seq<FlowResult>
    requires forall k :: k in ks ==> Of(ps, k) != []
  {
    if ks == [] then [] else AllOriented(ps, ks[..|ks| - 1]) + [Oriented(Of(ps, ks[|ks| - 1]))]
  }

  /** The specification: one result per flow, in the order the flows appear. */
  function Flows(ps: seq<Packet>): seq<FlowResult> {
    var ks := Keys(ps);
    assert forall k :: k in ks ==> Of(ps, k) != [] by {
      forall k | k in ks ensures Of(ps, k) != [] { OfNonempty(ps, k); }
    }
    AllOriented(ps, ks)
  }

  /** The client is one of the flow's two endpoints, so a result holds exactly these two, client first. */
  lemma ClientIsEndpoint(qs: seq<Packet>, k: Key)
    requires qs != [] && forall q :: q in qs ==> Canonical(q) == k && (q.signal.Some? ==> q.signal.value in {q.src, q.dst})
    ensures Client(qs) == qs[0].src || Client(qs) == qs[0].dst
    ensures Oriented(qs).src == Client(qs)
    ensures {Oriented(qs).src, Oriented(qs).dst} == {qs[0].src, qs[0].dst}
  {
    SignalFrom(qs);
    if FirstSignal(qs).Some? {
      var q :| q in qs && q.signal == FirstSignal(qs);
      SameKey(q, qs[0]);
    }
  }

  lemma {:induction false} SignalFrom(qs: seq<Packet>)
    ensures FirstSignal(qs).Some? ==> exists q :: q in qs && q.signal == FirstSignal(qs)
  {
    if qs != [] && qs[0].signal.None? && FirstSignal(qs[1..]).Some? {
      SignalFrom(qs[1..]);
      var q :| q in qs[1..] && q.signal == FirstSignal(qs[1..]);
      assert q in qs;
    } else if qs != [] {
      assert qs[0] in qs;
    }
  }

  /** Packets of other flows, wherever they are interleaved, change nothing for a flow. */
  lemma {:induction false} OfInterleaved(a: seq<Packet>, b: seq<Packet>, c: seq<Packet>, k: Key)
    requires forall p :: p in b ==> Canonical(p) != k
    ensures Of(a + b + c, k) == Of(a + c, k)
    decreases |b| + |c|
  {
    if c != [] {
      var n := |c| - 1;
      assert (a + b + c)[..|a + b + c| - 1] == a + b + c[..n] && (a + c)[..|a + c| - 1] == a + c[..n];
      OfInterleaved(a, b, c[..n], k);
    } else if b != [] {
      var n := |b| - 1;
      assert a + b + c == a + b && a + c == a;
      assert b[n] in b;
      assert (a + b)[..|a + b| - 1] == a + b[..n] + c;
      OfInterleaved(a, b[..n], c, k);
    } else {
      assert a + b + c == a + c;
    }
  }

  /** What a client and what a server sends that tells them apart. */
  predicate FromClient(trans: seq<byte>) {
    |trans| >= 14 &&
    if trans[13] / 2 % 2 == 1 then trans[13] / 16 % 2 == 0
    else IsRequest(trans[Min(trans[12] / 16 * 4, |trans|)..])
  }

  predicate FromServer(trans: seq<byte>) {
    |trans| >= 14 &&
    if trans[13] / 2 % 2 == 1 then trans[13] / 16 % 2 == 1
    else
      var http := trans[Min(trans[12] / 16 * 4, |trans|)..];
      HTTP1 <= http && !IsRequest(http)
  }

  /** Opening, accepting, asking and answering all name the same side of a connection. */
  lemma BothSidesAgree(client: Endpoint, server: Endpoint, trans: seq<byte>)
    ensures FromClient(trans) ==> Signal(client, server, trans) == Some(client)
    ensures FromServer(trans) ==> Signal(server, client, trans) == Some(client)
    ensures !FromClient(trans) && !FromServer(trans) ==> Signal(client, server, trans) == Signal(server, client, trans) == None
  {
  }

  /** If every signal of a flow names the client, the result is the client first, whichever packet was
      captured first, as soon as there is one signal. */
  lemma ClientFound(qs: seq<Packet>, k: Key, client: Endpoint)
    requires qs != [] && forall q :: q in qs ==> Canonical(q) == k && (q.signal.Some? ==> q.signal.value in {q.src, q.dst})
    requires forall q :: q in qs && q.signal.Some? ==> q.signal.value == client
    requires exists q :: q in qs && q.signal.Some?
    ensures Oriented(qs).src == client
  {
    ClientIsEndpoint(qs, k);
    SignalFrom(qs);
    var q :| q in qs && q.signal.Some?;
    SignalFound(qs, q);
  }

  lemma {:induction false} SignalFound(qs: seq<Packet>, q: Packet)
    requires q in qs && q.signal.Some?
    ensures FirstSignal(qs).Some?
  {
    if qs[0] != q {
      assert qs == [qs[0]] + qs[1..];
      SignalFound(qs[1..], q);
    }
  }

  lemma {:induction false} OrientedAt(ps: seq<Packet>, ks: seq<Key>, j: nat)
    requires j < |ks| && forall k :: k in ks ==> Of(ps, k) != []
    ensures |AllOriented(ps, ks)| == |ks| && AllOriented(ps, ks)[j] == Oriented(Of(ps, ks[j]))
  {
    hide Of, Oriented;
    var n := |ks| - 1;
    if j < n {
      OrientedAt(ps, ks[..n], j);
    } else if n > 0 {
      OrientedAt(ps, ks[..n], 0);
    }
  }

  /** The result of a flow. */
  lemma FlowsHolds(ps: seq<Packet>, p: Packet)
    requires p in ps
    ensures var qs := Of(ps, Canonical(p)); p in qs && Oriented(qs) in Flows(ps)
  {
    hide Canonical, Oriented;
    OfHolds(ps, p);
    var ks := Keys(ps);
    var i :| 0 <= i < |ps| && ps[i] == p;
    assert Canonical(ps[i]) in ks;
    var j :| 0 <= j < |ks| && ks[j] == Canonical(p);
    forall k | k in ks ensures Of(ps, k) != [] { OfNonempty(ps, k); }
    OrientedAt(ps, ks, j);
  }

  lemma {:induction false} OfHolds(ps: seq<Packet>, p: Packet)
    requires p in ps
    ensures p in Of(ps, Canonical(p))
  {
    var n := |ps| - 1;
    if ps[n] != p {
      assert ps == ps[..n] + [ps[n]];
      OfHolds(ps[..n], p);
    }
  }

  function PacketsOf(gs: seq<Segment>): (ps: seq<Packet>)
    ensures |ps| == |gs| && forall i :: 0 <= i < |gs| ==> ps[i] == PacketOf(gs[i])
  {
    seq(|gs|, i requires 0 <= i < |gs| => PacketOf(gs[i]))
  }

  /** A TCP segment from one endpoint to the other. */
  predicate Runs(g: Segment, from: Endpoint, to: Endpoint) {
    g.proto == Tcp && g.src == from && g.dst == to
  }

  /** The flow of a client and a server is reported with the client first, whichever side was captured first
      and whatever else was captured in between, as soon as one of them has sent what tells it
      apart, and neither has sent what the other one sends. */
  lemma ConversationOriented(gs: seq<Segment>, client: Endpoint, server: Endpoint, g: Segment)
    requires client != server
    requires forall x :: x in gs && Runs(x, client, server) ==> !FromServer(x.trans)
    requires forall x :: x in gs && Runs(x, server, client) ==> !FromClient(x.trans)
    requires g in gs
    requires (Runs(g, client, server) && FromClient(g.trans)) || (Runs(g, server, client) && FromServer(g.trans))
    ensures FlowResult(client, server, Tcp) in Flows(PacketsOf(gs))
    ensures FlowResult(server, client, Tcp) !in Flows(PacketsOf(gs))
  {
    hide FromClient, FromServer, Signal, Flows, Of, FirstSignal, Canonical;
    var ps, p := PacketsOf(gs), PacketOf(g);
    var i :| 0 <= i < |gs| && gs[i] == g;
    assert ps[i] == p;
    FlowsHolds(ps, p);
    var k := Canonical(p);
    var qs := Of(ps, k);
    BothSidesAgree(client, server, g.trans);
    forall q | q in qs
      ensures q.proto == Tcp && {q.src, q.dst} == {client, server}
      ensures q.signal.Some? ==> q.signal.value == client
    {
      SignalsClient(gs, client, server, p, q);
    }
    assert Oriented(qs) == FlowResult(client, server, Tcp) by {
      assert qs[0] in qs;
      ClientFound(qs, k, client);
      ClientIsEndpoint(qs, k);
    }
    if FlowResult(server, client, Tcp) in Flows(ps) {
      OneResult(ps, p, FlowResult(server, client, Tcp));
      assert false;
    }
  }

  lemma SignalsClient(gs: seq<Segment>, client: Endpoint, server: Endpoint, p: Packet, q: Packet)
    requires forall x :: x in gs && Runs(x, client, server) ==> !FromServer(x.trans)
    requires forall x :: x in gs && Runs(x, server, client) ==> !FromClient(x.trans)
    requires p.proto == Tcp && {p.src, p.dst} == {client, server} && client != server
    requires q in PacketsOf(gs) && Canonical(q) == Canonical(p)
    ensures q.proto == Tcp && {q.src, q.dst} == {client, server}
    ensures q.signal.Some? ==> q.signal.value == client
  {
    hide FromClient, FromServer, Signal, Canonical;
    var j :| 0 <= j < |gs| && PacketsOf(gs)[j] == q;
    assert gs[j] in gs;
    SameKey(p, q);
    assert p.src in {client, server} && p.dst in {client, server} && client in {p.src, p.dst} && server in {p.src, p.dst};
    BothSidesAgree(client, server, gs[j].trans);
    assert Runs(gs[j], client, server) || Runs(gs[j], server, client);
  }

  /** A flow has no second result. */
  lemma OneResult(ps: seq<Packet>, p: Packet, r: FlowResult)
    requires p in ps && r in Flows(ps) && r.proto == p.proto && {r.src, r.dst} == {p.src, p.dst}
    requires forall q :: q in ps && q.signal.Some? ==> q.signal.value in {q.src, q.dst}
    ensures Of(ps, Canonical(p)) != [] && r == Oriented(Of(ps, Canonical(p)))
  {
    hide Of, FirstSignal, Oriented;
    var ks := Keys(ps);
    forall k | k in ks ensures Of(ps, k) != [] { OfNonempty(ps, k); }
    OrientedIn(ps, ks, r);
    var k :| k in ks && Of(ps, k) != [] && r == Oriented(Of(ps, k));
    ResultKey(ps, k, p);
  }

  lemma {:induction false} OrientedIn(ps: seq<Packet>, ks: seq<Key>, r: FlowResult)
    requires (forall k :: k in ks ==> Of(ps, k) != []) && r in AllOriented(ps, ks)
    ensures exists k :: k in ks && r == Oriented(Of(ps, k))
  {
    hide Of, Oriented;
    var n := |ks| - 1;
    if r != Oriented(Of(ps, ks[n])) {
      OrientedIn(ps, ks[..n], r);
    } else {
      assert ks[n] in ks;
    }
  }

  lemma ResultKey(ps: seq<Packet>, k: Key, p: Packet)
    requires Of(ps, k) != []
    requires forall q :: q in ps && q.signal.Some? ==> q.signal.value in {q.src, q.dst}
    requires var r := Oriented(Of(ps, k)); r.proto == p.proto && {r.src, r.dst} == {p.src, p.dst}
    ensures k == Canonical(p)
  {
    hide Of, FirstSignal, Oriented, Canonical;
    var qs := Of(ps, k);
    ClientIsEndpoint(qs, k);
    var r := Oriented(qs);
    assert r.proto == qs[0].proto by {
      SameProto(qs);
    }
    assert qs[0] in qs && {qs[0].src, qs[0].dst} == {p.src, p.dst};
    assert qs[0].src in {p.src, p.dst} && qs[0].dst in {p.src, p.dst} && p.src in {qs[0].src, qs[0].dst}
        && p.dst in {qs[0].src, qs[0].dst};
    SameKey(qs[0], p);
  }

  lemma SameProto(qs: seq<Packet>)
    requires qs != []
    ensures Oriented(qs).proto == qs[0].proto
  {
  }

  /** The flows that have begun in the first `n` packets come first, in the same order. */
  lemma {:induction false} KeysInOrder(ps: seq<Packet>, n: nat)
    requires n <= |ps|
    ensures Keys(ps[..n]) <= Keys(ps)
  {
    if n < |ps| {
      KeysInOrder(ps[..|ps| - 1], n);
      assert ps[..|ps| - 1][..n] == ps[..n];
    } else {
      assert ps[..n] == ps;
    }
  }

  // ------------------------------------------------------------- the one-pass table

  datatype Flow = Flow(firstSrc: Endpoint, firstDst: Endpoint, client: Endpoint, finalized: bool, proto: Protocol)

  /** The table entry a flow's packets amount to. */
  function Summary(qs: seq<Packet>): Flow
    requires qs != []
  {
    Flow(qs[0].src, qs[0].dst, Client(qs), FirstSignal(qs).Some?, qs[0].proto)
  }

  lemma {:induction false} SignalAppend(qs: seq<Packet>, p: Packet)
    ensures FirstSignal(qs + [p]) == if FirstSignal(qs).Some? then FirstSignal(qs) else p.signal
  {
    if qs == [] {
      assert qs + [p] == [p] && [p][1..] == [];
    } else {
      assert (qs + [p])[1..] == qs[1..] + [p];
      SignalAppend(qs[1..], p);
    }
  }

  /** How one packet changes the summary of its flow. */
  lemma SummaryAppend(qs: seq<Packet>, p: Packet)
    ensures var f := if qs == [] then Flow(p.src, p.dst, p.src, false, p.proto) else Summary(qs);
            Summary(qs + [p])
            == if !f.finalized && p.signal.Some? then f.(client := p.signal.value, finalized := true) else f
  {
    SignalAppend(qs, p);
  }

  /** The entries are the summaries of the flows, in the order of their first packets. */
  ghost predicate Summarises(flows: map<Key, Flow>, order: seq<Key>, packets: seq<Packet>) {
    && order == Keys(packets)
    && (forall k :: k in flows <==> k in order)
    && (forall k :: k in order ==> Of(packets, k) != [] && flows[k] == Summary(Of(packets, k)))
  }

  /** One more packet changes one entry. */
  lemma SummarisesAppend(flows: map<Key, Flow>, order: seq<Key>, packets: seq<Packet>, p: Packet)
    requires Summarises(flows, order, packets)
    ensures var k := Canonical(p);
            && (k in flows ==> Of(packets, k) != [] && flows[k] == Summary(Of(packets, k)))
            && (k !in flows ==> Of(packets, k) == [])
            && Summarises(flows[k := Summary(Of(packets, k) + [p])], if k in flows then order else order + [k], packets + [p])
  {
    hide Of, Keys, Canonical, Summary;
    var k := Canonical(p);
    KeysAppend(packets, p);
    if k !in flows {
      NoneOf(packets, k);
    }
    forall x
      ensures Of(packets + [p], x) == if x == k then Of(packets, k) + [p] else Of(packets, x)
    {
      OfAppend(packets, p, x);
    }
  }

  /** The dictionary of one file: entries, and their insertion order. */
  class Table {
    var flows: map<Key, Flow>
    var order: seq<Key>
    ghost var packets: seq<Packet>

    constructor ()
      ensures Valid() && packets == []
    {
      flows, order, packets := map[], [], [];
    }

    ghost predicate Valid()
      reads this
    {
      Summarises(flows, order, packets)
    }

    /** One packet: make an entry if its flow is new, and orient the flow if nothing has done so yet. */
    method Add(p: Packet)
      requires Valid()
      modifies this
      ensures Valid() && packets == old(packets) + [p]
    {
      hide Of, Canonical, Summary, FirstSignal, Client, Summarises;
      var k := Canonical(p);
      ghost var qs := Of(packets, k);
      SummarisesAppend(flows, order, packets, p);
      SummaryAppend(qs, p);
      ghost var before := flows;
      if k !in flows {
        flows := flows[k := Flow(p.src, p.dst, p.src, false, p.proto)];
        order := order + [k];
      }
      if !flows[k].finalized && p.signal.Some? {
        flows := flows[k := flows[k].(client := p.signal.value, finalized := true)];
      }
      packets := packets + [p];
      assert flows == before[k := Summary(qs + [p])];
    }

    /** The results, each flow turned so that its client comes first. */
    method Results() returns (results: seq<FlowResult>)
      requires Valid() && forall p :: p in packets ==> p.signal.Some? ==> p.signal.value in {p.src, p.dst}
      ensures results == Flows(packets)
    {
      hide Of, Keys, Oriented, FirstSignal, Client;
      results := [];
      var i := 0;
      assert order[..0] == [];
      while i < |order|
        invariant 0 <= i <= |order|
        invariant results == AllOriented(packets, order[..i])
      {
        var flow := flows[order[i]];
        ghost var qs := Of(packets, order[i]);
        assert order[i] in order;
        ClientIsEndpoint(qs, order[i]);
        OrientedIs(qs);
        assert order[..i + 1][..i] == order[..i];
        if flow.client == flow.firstSrc {
          results := results + [FlowResult(flow.firstSrc, flow.firstDst, flow.proto)];
        } else {
          results := results + [FlowResult(flow.firstDst, flow.firstSrc, flow.proto)];
        }
        i := i + 1;
      }
      assert order[..|order|] == order;
    }
  }

  /** How a result follows from the table entry. */
  lemma OrientedIs(qs: seq<Packet>)
    requires qs != [] && (Client(qs) == qs[0].src || Client(qs) == qs[0].dst)
    ensures var f := Summary(qs);
            Oriented(qs) == if f.client == f.firstSrc then FlowResult(f.firstSrc, f.firstDst, f.proto)
                            else FlowResult(f.firstDst, f.firstSrc, f.proto)
  {
    hide FirstSignal;
  }

  lemma {:induction false} NoneOf(ps: seq<Packet>, k: Key)
    requires k !in Keys(ps)
    ensures Of(ps, k) == []
  {
    if ps != [] {
      var n := |ps| - 1;
      assert forall i :: 0 <= i < n ==> ps[..n][i] == ps[i];
      NoneOf(ps[..n], k);
    }
  }

  lemma OfAppend(ps: seq<Packet>, p: Packet, k: Key)
    ensures Of(ps + [p], k) == if Canonical(p) == k then Of(ps, k) + [p] else Of(ps, k)
  {
    assert (ps + [p])[..|ps|] == ps;
  }

  lemma KeysAppend(ps: seq<Packet>, p: Packet)
    ensures Keys(ps + [p]) == if Canonical(p) in Keys(ps) then Keys(ps) else Keys(ps) + [Canonical(p)]
  {
    assert (ps + [p])[..|ps|] == ps;
  }

  // ------------------------------------------------------------- files

  function ExamineAll(rs: seq<Rec>): (ps: seq<Packet>)
    ensures forall p :: p in ps ==> p.signal.Some? ==> p.signal.value in {p.src, p.dst}
  {
    if rs == [] then []
    else
      var n := |rs| - 1;
      var p := Examine(rs[n].data);
      assert p.Some? ==> p.value.signal.Some? ==> p.value.signal.value in {p.value.src, p.value.dst};
      ExamineAll(rs[..n]) + if p.Some? then [p.value] else []
  }

  /** The flows of a file: its 24-byte header is skipped, and its lengths are read as little-endian. */
  function FileFlows(content: seq<byte>): seq<FlowResult> {
    Flows(ExamineAll(ParseAll(Little, content[Min(24, |content|)..])))
  }

  /** The flows of a file in the byte order its header announces. */
  function AnnouncedFlows(content: seq<byte>): seq<FlowResult>
    requires |content| >= 24 && EndianOf(content).Some?
  {
    Flows(ExamineAll(ParseAll(EndianOf(content).value, content[24..])))
  }

  function AllFlows(files: seq<seq<byte>>): seq<FlowResult> {
    if files == [] then [] else AllFlows(files[..|files| - 1]) + FileFlows(files[|files| - 1])
  }

  /** The results of the files come in their order. */
  lemma {:induction false} FilesInOrder(a: seq<seq<byte>>, b: seq<seq<byte>>)
    ensures AllFlows(a + b) == AllFlows(a) + AllFlows(b)
    ensures forall c :: AllFlows([c]) == FileFlows(c)
  {
    hide FileFlows;
    forall c: seq<byte>
      ensures AllFlows([c]) == FileFlows(c)
    {
      assert [c][..0] == [] && AllFlows([]) == [];
    }
    if b == [] {
      assert a + b == a;
    } else {
      assert (a + b)[..|a + b| - 1] == a + b[..|b| - 1];
      FilesInOrder(a, b[..|b| - 1]);
    }
  }

  /** `extract_pcap_flow_five_tuples` on the contents of the pcap files found. */
  method ExtractFlows(files: seq<seq<byte>>) returns (results: seq<FlowResult>)
    ensures results == AllFlows(files)
  {
    results := [];
    var i := 0;
    assert files[..0] == [];
    while i < |files|
      invariant 0 <= i <= |files|
      invariant results == AllFlows(files[..i])
    {
      var flows := ExtractFile(files[i]);
      assert files[..i + 1][..i] == files[..i];
      results := results + flows;
      i := i + 1;
    }
    assert files[..|files|] == files;
  }

  method ExtractFile(content: seq<byte>) returns (results: seq<FlowResult>)
    ensures results == FileFlows(content)
  {
    hide Flows, Examine, ParseAll, ExamineAll, Get, Summarises;
    var table := new Table();
    var s := content[Min(24, |content|)..];
    ghost var rs := ParseAll(Little, s);
    ghost var i := 0;
    var pos := 0;
    FirstRecord(s, rs);
    while |s| - pos >= 16
      invariant 0 <= pos <= |s| && 0 <= i <= |rs|
      invariant rs[i..] == ParseAll(Little, s[pos..])
      invariant fresh(table) && table.Valid() && table.packets == ExamineAll(rs[..i])
      decreases |s| - pos
    {
      var rest := s[pos..];
      var incl := Get(Little, rest, 8);
      if |rest| - 16 < incl {
        break;
      }
      NextRecord(s, pos, rs, i);
      var packet := Examine(rest[16..16 + incl]);
      if packet.Some? {
        table.Add(packet.value);
      }
      pos, i := pos + 16 + incl, i + 1;
    }
    LastRecord(s, pos, rs, i);
    results := table.Results();
  }

  lemma FirstRecord(s: seq<byte>, rs: seq<Rec>)
    ensures rs[0..] == rs && ExamineAll(rs[..0]) == [] && s[0..] == s
  {
  }

  lemma NextRecord(s: seq<byte>, pos: nat, rs: seq<Rec>, i: nat)
    requires pos + 16 <= |s| && i <= |rs| && rs[i..] == ParseAll(Little, s[pos..])
    requires |s| - pos - 16 >= Get(Little, s[pos..], 8)
    ensures var incl := Get(Little, s[pos..], 8);
            && i < |rs| && rs[i + 1..] == ParseAll(Little, s[pos + 16 + incl..])
            && var p := Examine(s[pos..][16..16 + incl]);
               ExamineAll(rs[..i + 1]) == ExamineAll(rs[..i]) + if p.Some? then [p.value] else []
  {
    hide Examine, Get;
    var incl := Get(Little, s[pos..], 8);
    assert rs[i..][0] == rs[i] && rs[i..][1..] == rs[i + 1..];
    assert s[pos..][16 + incl..] == s[pos + 16 + incl..];
    assert rs[..i + 1][..i] == rs[..i];
  }

  lemma LastRecord(s: seq<byte>, pos: nat, rs: seq<Rec>, i: nat)
    requires pos <= |s| && i <= |rs| && rs[i..] == ParseAll(Little, s[pos..])
    requires |s| - pos < 16 || |s| - pos - 16 < Get(Little, s[pos..], 8)
    ensures rs[..i] == rs
  {
    assert |rs[i..]| == 0;
  }

  // ------------------------------------------------------------- files of the other byte order

  function Datas(rs: seq<Rec>): (ds: seq<seq<byte>>)
    ensures |ds| == |rs| && forall i :: 0 <= i < |rs| ==> ds[i] == rs[i].data
  {
    seq(|rs|, i requires 0 <= i < |rs| => rs[i].data)
  }

  /** A length that reads the same in both byte orders. */
  predicate Palindrome(w: word) {
    Swapped(w) == w
  }

  /** No complete little-endian record begins here. */
  predicate Ends(t: seq<byte>) {
    |t| < 16 || |t| - 16 < Get(Little, t, 8)
  }

  /** Reading a big-endian file as little-endian finds the same packets if and only if every length is a
      palindrome and nothing that looks complete is left behind. */
  lemma {:induction false} LittleReadsBig(s: seq<byte>)
    ensures Datas(ParseAll(Little, s)) == Datas(ParseAll(Big, s))
       <==> (forall r :: r in ParseAll(Big, s) ==> Palindrome(|r.data|)) && Ends(Tail(Big, s))
    decreases |s|
  {
    hide Get, Swapped;
    var little, big := ParseAll(Little, s), ParseAll(Big, s);
    if |s| >= 16 && |s| - 16 >= Get(Big, s, 8) {
      var n := Get(Big, s, 8);
      GetSwapped(s, 8);
      assert big == [big[0]] + ParseAll(Big, s[16 + n..]) && |big[0].data| == n;
      if Get(Little, s, 8) == n {
        LittleReadsBig(s[16 + n..]);
        assert little == [little[0]] + ParseAll(Little, s[16 + n..]);
        DatasCons(little[0], ParseAll(Little, s[16 + n..]), big[0], ParseAll(Big, s[16 + n..]));
      } else {
        assert big[0] in big;
        if little != [] {
          assert |Datas(little)[0]| == |little[0].data| == Get(Little, s, 8) && |Datas(big)[0]| == n;
        }
      }
    } else {
      assert big == [];
      assert little == [] <==> Ends(s);
      assert Datas(little) == Datas(big) <==> little == [];
    }
  }

  lemma DatasCons(a: Rec, as_: seq<Rec>, b: Rec, bs: seq<Rec>)
    requires a.data == b.data
    ensures Datas([a] + as_) == Datas([b] + bs) <==> Datas(as_) == Datas(bs)
  {
    assert Datas([a] + as_) == [a.data] + Datas(as_);
    assert Datas([b] + bs) == [b.data] + Datas(bs);
    assert Datas([a] + as_)[1..] == Datas(as_) && Datas([b] + bs)[1..] == Datas(bs);
  }

  /** So the flows of such a big-endian file, and of every little-endian one, are those it announces. */
  lemma ByteOrderHarmless(content: seq<byte>)
    requires |content| >= 24 && EndianOf(content).Some?
    requires EndianOf(content) == Some(Big) ==>
               (forall r :: r in ParseAll(Big, content[24..]) ==> Palindrome(|r.data|)) && Ends(Tail(Big, content[24..]))
    ensures FileFlows(content) == AnnouncedFlows(content)
  {
    hide ParseAll, Flows, Palindrome;
    if EndianOf(content) == Some(Big) {
      LittleReadsBig(content[24..]);
      SameExamined(ParseAll(Little, content[24..]), ParseAll(Big, content[24..]));
    }
  }

  lemma {:induction false} SameExamined(a: seq<Rec>, b: seq<Rec>)
    requires Datas(a) == Datas(b)
    ensures ExamineAll(a) == ExamineAll(b)
  {
    hide Examine;
    assert |a| == |Datas(a)| == |Datas(b)| == |b|;
    if a != [] {
      var n := |a| - 1;
      assert Datas(a)[n] == Datas(b)[n];
      assert Datas(a[..n]) == Datas(a)[..n] && Datas(b[..n]) == Datas(b)[..n];
      SameExamined(a[..n], b[..n]);
    }
  }

  /** In a big-endian file below 64 KiB that begins with a packet of ordinary length no flow is found. */
  lemma BigEndianLost(content: seq<byte>)
    requires 40 <= |content| < 0x1_0000 + 40 && 0 < Get(Big, content[24..], 8) < 0x1_0000
    ensures FileFlows(content) == []
  {
    hide Flows;
    var s := content[24..];
    assert Get(Little, s, 8) >= 0x1_0000;
    assert ParseAll(Little, s) == [];
    NoFlows();
  }

  lemma NoFlows()
    ensures Flows([]) == []
  {
  }

  /** One UDP packet in a big-endian file: its flow is lost. */
  lemma BigEndianFlowLost() returns (content: seq<byte>)
    ensures |content| >= 24 && EndianOf(content) == Some(Big)
    ensures FileFlows(content) == []
    ensures FlowResult(Endpoint([10, 0, 0, 7], 9), Endpoint([10, 0, 0, 8], 9), Udp) in AnnouncedFlows(content)
  {
    hide Flows, Raw, ParseAll, Get;
    var data: seq<byte> := [0, 0, 0, 0, 0, 1, 0, 0, 0, 0, 0, 2, 8, 0]
                           + ([69, 0, 0, 28, 0, 0, 0, 0, 64, 17, 0, 0, 10, 0, 0, 7, 10, 0, 0, 8] + [0, 9, 0, 9, 0, 8, 0, 0]);
    var header := PutLE32(MAGIC_US_SWAPPED) + [0, 0, 0, 0, 0, 0, 0, 0, 0, 0, 0, 0, 0, 0, 0, 0, 0, 0, 0, 0];
    var r := Rec(0, 0, 42, data);
    content := header + Raw(Big, r);
    assert content[24..] == Raw(Big, r) + [] == RawAll(Big, [r]) + [] by {
      assert [r][1..] == [] && Raw(Big, r) + [] == Raw(Big, r);
    }
    ParseRaw(Big, r, []);
    ParseOfRaw(Big, [r], []);
    assert LE32(content, 0) == LE32(PutLE32(MAGIC_US_SWAPPED), 0);
    BigEndianLost(content);
    UdpExamined(data);
    OneExamined(r);
    var p := Packet(Endpoint([10, 0, 0, 7], 9), Endpoint([10, 0, 0, 8], 9), Udp, None);
    OnePacket(p);
  }

  lemma UdpExamined(data: seq<byte>)
    requires data == [0, 0, 0, 0, 0, 1, 0, 0, 0, 0, 0, 2, 8, 0]
                     + ([69, 0, 0, 28, 0, 0, 0, 0, 64, 17, 0, 0, 10, 0, 0, 7, 10, 0, 0, 8] + [0, 9, 0, 9, 0, 8, 0, 0])
    ensures Examine(data) == Some(Packet(Endpoint([10, 0, 0, 7], 9), Endpoint([10, 0, 0, 8], 9), Udp, None))
  {
    hide SegmentIn;
    var h: seq<byte> := [69, 0, 0, 28, 0, 0, 0, 0, 64, 17, 0, 0, 10, 0, 0, 7, 10, 0, 0, 8];
    var u: seq<byte> := [0, 9, 0, 9, 0, 8, 0, 0];
    PlainIpv4([0, 0, 0, 0, 0, 1, 0, 0, 0, 0, 0, 2, 8, 0], h, u);
    assert h[12..16] == [10, 0, 0, 7] && h[16..20] == [10, 0, 0, 8];
  }

  lemma PlainIpv4(eth: seq<byte>, h: seq<byte>, u: seq<byte>)
    requires |eth| == 14 && BE16(eth, 12) == 0x0800 && |h| == 20 && h[0] == 69
    ensures SegmentIn(eth + (h + u)) == SegmentIp(h[12..16], h[16..20], h[9], u)
  {
    hide SegmentIp;
    var data := eth + (h + u);
    assert data[14..] == h + u && BE16(data, 12) == 0x0800;
    assert (h + u)[12..16] == h[12..16] && (h + u)[16..20] == h[16..20] && (h + u)[20..] == u;
  }

  lemma OneExamined(r: Rec)
    ensures ExamineAll([r]) == if Examine(r.data).Some? then [Examine(r.data).value] else []
  {
    hide Examine;
    assert [r][..0] == [];
  }

  lemma OnePacket(p: Packet)
    requires p.signal.None?
    ensures FlowResult(p.src, p.dst, p.proto) in Flows([p])
  {
    hide Flows, Canonical;
    FlowsHolds([p], p);
    var k := Canonical(p);
    assert [p][..0] == [] && Of([p], k) == Of([p][..0], k) + [p] == [p];
    assert [p][1..] == [] && FirstSignal([p]) == FirstSignal([p][1..]) == None;
  }
}
