/** Ethernet frames by the position of their bytes (IEEE 802.3 clause 3, IEEE 802.1Q clause 9, RFC 791
    section 3.1, RFC 8200 section 3), and what the replayer and the flow extraction make of them. */
module Frames {
  import opened Bytes
  import opened FlowTable
  import InternetChecksum
  import PacketRewrite
  import Replayer
  import FlowOrientation
  import PcapFile

  // ------------------------------------------------------------- positions

  /** The Ethernet type `a b` ends the `o` bytes of the Ethernet header, which may hold one 0x8100 tag. */
  predicate TypeAt(data: seq<byte>, o: nat, a: byte, b: byte) {
    && |data| >= o && (o == 14 || (o == 18 && data[12] == 0x81 && data[13] == 0x00))
    && data[o - 2] == a && data[o - 1] == b
  }

  predicate IpType(data: seq<byte>, o: nat) {
    TypeAt(data, o, 0x08, 0x00) || TypeAt(data, o, 0x86, 0xDD)
  }

  /** The fixed part of an IP header of this version begins at `o` and is complete. */
  predicate Fixed(data: seq<byte>, o: nat, v4: bool) {
    |data| >= o + (if v4 then 20 else 40) && data[o] / 16 == if v4 then 4 else 6
  }

  /** An IP packet the replayer takes. */
  predicate IpAt(data: seq<byte>, o: nat, v4: bool) {
    IpType(data, o) && Fixed(data, o, v4)
  }

  /** Addresses and protocol of an IP packet, and where its segment begins. */
  datatype Ip = Ip(src: seq<byte>, dst: seq<byte>, proto: byte, seg: nat)

  function Read(data: seq<byte>, o: nat, v4: bool): Ip
    requires |data| >= o + if v4 then 20 else 40
  {
    if v4 then Ip(data[o + 12..o + 16], data[o + 16..o + 20], data[o + 9], o + data[o] % 16 * 4)
    else Ip(data[o + 8..o + 24], data[o + 24..o + 40], data[o + 6], o + 40)
  }

  function Word(data: seq<byte>, i: nat): nat
    requires i + 2 <= |data|
  {
    256 * data[i] as int + data[i + 1] as int
  }

  /** A port, where the replayer reads one. */
  function PortAt(data: seq<byte>, ip: Ip, i: nat): Option<nat>
    requires i <= 2
  {
    if ip.proto in {6, 17} && |data| >= ip.seg + 4 then Some(Word(data, ip.seg + i)) else None
  }

  // ------------------------------------------------------------- what is replayed

  /** The frames that are replayed are those with a complete IPv4 or IPv6 header, behind at most one tag. */
  lemma ReplayedFrames(data: seq<byte>)
    ensures Replayer.Classify(data).Some?
       <==> exists o, v4 :: o in {14, 18} && IpAt(data, o, v4)
  {
    var p := Replayer.IpPayload(data);
    if IpType(data, 14) {
      PayloadAt(data, 14);
      assert Replayer.Classify(data).Some? <==> IpAt(data, 14, true) || IpAt(data, 14, false);
    } else if IpType(data, 18) {
      PayloadAt(data, 18);
      assert Replayer.Classify(data).Some? <==> IpAt(data, 18, true) || IpAt(data, 18, false);
    } else {
      NoPayload(data);
    }
  }

  lemma PayloadAt(data: seq<byte>, o: nat)
    requires IpType(data, o)
    ensures Replayer.IpPayload(data) == Some(data[o..])
  {
    if o == 18 {
      assert data[14..][4..] == data[18..];
      assert BE16(data[14..], 2) == BE16(data, 16);
    }
  }

  lemma NoPayload(data: seq<byte>)
    requires !IpType(data, 14) && !IpType(data, 18)
    ensures Replayer.IpPayload(data) == None
  {
    if |data| >= 18 {
      assert BE16(data[14..], 2) == BE16(data, 16);
    }
  }

  lemma ParsedAt(data: seq<byte>, o: nat, v4: bool)
    requires Fixed(data, o, v4)
    ensures var ip := Read(data, o, v4);
            PacketRewrite.ParseIp(data[o..])
            == Some(PacketRewrite.IpInfo(v4, ip.src, ip.dst, ip.proto, data[Min(ip.seg, |data|)..]))
  {
    PartsAt(data, o, v4);
  }

  lemma PartsAt(data: seq<byte>, o: nat, v4: bool)
    requires |data| >= o + if v4 then 20 else 40
    ensures var p, ip := data[o..], Read(data, o, v4);
            && (v4 ==> && p[12..16] == ip.src && p[16..20] == ip.dst && p[9] == ip.proto
                       && p[Min(p[0] % 16 * 4, |p|)..] == data[Min(ip.seg, |data|)..])
            && (!v4 ==> p[8..24] == ip.src && p[24..40] == ip.dst && p[6] == ip.proto && p[40..] == data[Min(ip.seg, |data|)..])
  {
  }

  lemma PortsAt(data: seq<byte>, ip: Ip)
    ensures var r := PacketRewrite.ParseTransport(ip.proto, data[Min(ip.seg, |data|)..]);
            && r.Some? == PortAt(data, ip, 0).Some?
            && (r.Some? ==>
                  && PortAt(data, ip, 0) == Some(r.value.sport) && PortAt(data, ip, 2) == Some(r.value.dport)
                  && r.value.flags == if ip.proto == 6 && |data| > ip.seg + 13 then data[ip.seg + 13] else 0)
  {
  }

  /** What the replayer keeps a flow by, and what it takes for the opening of a connection: SYN without ACK
      (RFC 9293 section 3.1). */
  lemma ReplayedAs(data: seq<byte>, o: nat, v4: bool)
    requires IpAt(data, o, v4)
    ensures var ip := Read(data, o, v4);
            Replayer.Classify(data)
            == Some(Replayer.Packet(
                      FiveTuple(data[6..12], data[0..6], ip.src, ip.dst, PortAt(data, ip, 0), PortAt(data, ip, 2),
                                if ip.proto == 6 then 6 else if ip.proto == 17 then 17 else 0),
                      ip.proto == 6 && |data| > ip.seg + 13 && data[ip.seg + 13] / 2 % 2 == 1 && data[ip.seg + 13] / 16 % 2 == 0))
  {
    hide PacketRewrite.ParseIp, PacketRewrite.ParseTransport, Replayer.IpPayload;
    PayloadAt(data, o);
    ParsedAt(data, o, v4);
    PortsAt(data, Read(data, o, v4));
  }

  /** When one frame belongs to the other side of the flow of another: addresses, ports and hardware addresses
      are exchanged, and both are TCP, or both UDP, or neither is either. */
  lemma OtherSide(a: seq<byte>, o: nat, v4: bool, b: seq<byte>, o': nat, v4': bool)
    requires IpAt(a, o, v4) && IpAt(b, o', v4')
    ensures Replayer.Classify(a).Some? && Replayer.Classify(b).Some?
    ensures var x, y := Read(a, o, v4), Read(b, o', v4');
            Replayer.Classify(b).value.key == Replayer.Classify(a).value.key.Reversed()
            <==> && b[0..6] == a[6..12] && b[6..12] == a[0..6] && y.src == x.dst && y.dst == x.src
                 && PortAt(b, y, 0) == PortAt(a, x, 2) && PortAt(b, y, 2) == PortAt(a, x, 0)
                 && (x.proto == 6 <==> y.proto == 6) && (x.proto == 17 <==> y.proto == 17)
  {
    hide Replayer.Classify, PortAt, Read;
    ReplayedAs(a, o, v4);
    ReplayedAs(b, o', v4');
  }

  /** What `modify_packet` aims at when something is forced: going up, the forced source replaces the source
      of the packet and the forced destination its destination, coming down the other way round; an
      empty address and a zero port leave the packet its own. */
  lemma Aimed(data: seq<byte>, o: nat, v4: bool, f: Replayer.Forces, d: Direction)
    requires IpAt(data, o, v4)
    requires f.src.Some? || f.dst.Some? || f.sport.Some? || f.dport.Some?
    ensures var ip, a := Read(data, o, v4), Replayer.Aim(data, f, d);
            && a.Some?
            && var (near, nearPort, far, farPort) :=
                 if d.Uplink? then (a.value.src, a.value.sport, a.value.dst, a.value.dport)
                 else (a.value.dst, a.value.dport, a.value.src, a.value.sport);
               && near == (if f.src in {None, Some([])} then Some(if d.Uplink? then ip.src else ip.dst) else f.src)
               && far == (if f.dst in {None, Some([])} then Some(if d.Uplink? then ip.dst else ip.src) else f.dst)
               && nearPort == (if f.sport in {None, Some(0)} then PortAt(data, ip, if d.Uplink? then 0 else 2) else f.sport)
               && farPort == (if f.dport in {None, Some(0)} then PortAt(data, ip, if d.Uplink? then 2 else 0) else f.dport)
  {
    hide PacketRewrite.ParseIp, PacketRewrite.ParseTransport, Replayer.IpPayload;
    PayloadAt(data, o);
    ParsedAt(data, o, v4);
    PortsAt(data, Read(data, o, v4));
  }

  /** Nothing is changed exactly when nothing is forced, or there is no IP packet. */
  lemma NotAimed(data: seq<byte>, f: Replayer.Forces, d: Direction)
    ensures Replayer.Aim(data, f, d).None?
       <==> (f.src.None? && f.dst.None? && f.sport.None? && f.dport.None?) || (!IpType(data, 14) && !IpType(data, 18))
  {
    hide Replayer.IpPayload;
    if IpType(data, 14) {
      PayloadAt(data, 14);
    } else if IpType(data, 18) {
      PayloadAt(data, 18);
    } else {
      NoPayload(data);
    }
  }

  // ------------------------------------------------------------- what is sent

  /** A frame with the tag `id`: put in front of the type, or in place of a tag and the type behind it. */
  function Tagged(frame: seq<byte>, id: nat): seq<byte>
    requires |frame| >= 18 && id < 0x1_0000
  {
    frame[..12] + [0x81, 0x00, id / 256, id % 256] + frame[if frame[12] == 0x81 && frame[13] == 0x00 then 18 else 12..]
  }

  /** The one frame that is sent: as it is, tagged, or not at all when the tag does not fit. */
  function SentOnce(frame: seq<byte>, d: Direction, tag: Option<int>, rec: Replayer.Record): seq<Replayer.Out>
    requires |frame| >= 18
  {
    if tag.None? then [Replayer.Out(d, Some(frame), rec.orig, rec.incl)]
    else if 0 <= tag.value < 0x1_0000 then [Replayer.Out(d, Some(Tagged(frame, tag.value)), rec.orig, rec.incl)]
    else []
  }

  /** The direction of the record's flow. */
  function DirectionOf(c: Replayer.Config, table: map<FiveTuple, Direction>, rec: Replayer.Record): Direction
    requires Replayer.Classify(rec.data).Some?
  {
    var p := Replayer.Classify(rec.data).value;
    if c.noFlow then Uplink else Learn(table, c.hints, Seen(p.key, p.bareSyn))[p.key]
  }

  /** With nothing forced a packet goes out byte for byte, with the tag of its direction. */
  lemma SentAsIs(c: Replayer.Config, table: map<FiveTuple, Direction>, rec: Replayer.Record, o: nat, v4: bool)
    requires IpAt(rec.data, o, v4)
    requires c.noFlow || (c.forces.src.None? && c.forces.dst.None? && c.forces.sport.None? && c.forces.dport.None?)
    ensures Replayer.Classify(rec.data).Some?
    ensures var d := DirectionOf(c, table, rec);
            Replayer.OutOne(c, table, rec) == SentOnce(rec.data, d, if d.Uplink? then c.uplinkVlan else c.downlinkVlan, rec)
  {
    hide Learn, Replayer.Classify, Replayer.AddVlan, PacketRewrite.Rewrite, Replayer.IpPayload, IpAt, Tagged;
    ReplayedAs(rec.data, o, v4);
    LongEnough(rec.data, o, v4);
    var d := DirectionOf(c, table, rec);
    TagAdded(rec.data, c.VlanOf(d));
    TagAdded([], c.VlanOf(d));
  }

  lemma LongEnough(data: seq<byte>, o: nat, v4: bool)
    requires IpAt(data, o, v4)
    ensures |data| >= 34
  {
  }

  lemma TagAdded(frame: seq<byte>, tag: Option<int>)
    ensures Replayer.AddVlan(frame, tag).Some? <==> tag.None? || 0 <= tag.value < 0x1_0000
    ensures |frame| >= 18 && Replayer.AddVlan(frame, tag).Some? ==>
              Replayer.AddVlan(frame, tag).value == if tag.None? then frame else Tagged(frame, tag.value)
  {
    if |frame| >= 18 {
      assert frame[..12] == frame[0..6] + frame[6..12];
      assert frame[12..] == frame[12..14] + frame[14..];
      assert frame[12..14] == [0x81, 0x00] <==> frame[12] == 0x81 && frame[13] == 0x00;
    }
  }

  /** Forced addresses, where there are any, of the packet's own version. */
  predicate SameVersion(f: Replayer.Forces, v4: bool) {
    var n := if v4 then 4 else 16;
    && (f.src.Some? ==> |f.src.value| in {0, n}) && (f.dst.Some? ==> |f.dst.value| in {0, n})
  }

  /** With forces of its version, an untagged packet goes out rewritten, with the tag of its direction. */
  lemma SentForced(c: Replayer.Config, table: map<FiveTuple, Direction>, rec: Replayer.Record, v4: bool)
    requires IpAt(rec.data, 14, v4) && !c.noFlow && SameVersion(c.forces, v4)
    requires c.forces.src.Some? || c.forces.dst.Some? || c.forces.sport.Some? || c.forces.dport.Some?
    ensures Replayer.Classify(rec.data).Some?
    ensures var d := DirectionOf(c, table, rec);
            && Replayer.Aim(rec.data, c.forces, d).Some?
            && var frame := PacketRewrite.Rewrite(rec.data, Replayer.Aim(rec.data, c.forces, d).value);
               && |frame| >= 18
               && Replayer.OutOne(c, table, rec) == SentOnce(frame, d, if d.Uplink? then c.uplinkVlan else c.downlinkVlan, rec)
  {
    hide Learn, Replayer.Classify, Replayer.AddVlan, PacketRewrite.Rewrite, Replayer.IpPayload, Replayer.Aim, IpAt, Tagged;
    ReplayedAs(rec.data, 14, v4);
    var d := DirectionOf(c, table, rec);
    VersionKept(rec.data, v4, c.forces, d);
    var frame := PacketRewrite.Rewrite(rec.data, Replayer.Aim(rec.data, c.forces, d).value);
    TagAdded(frame, c.VlanOf(d));
    TagAdded([], c.VlanOf(d));
  }

  lemma VersionKept(data: seq<byte>, v4: bool, f: Replayer.Forces, d: Direction)
    requires IpAt(data, 14, v4) && SameVersion(f, v4)
    requires f.src.Some? || f.dst.Some? || f.sport.Some? || f.dport.Some?
    ensures var a := Replayer.Aim(data, f, d);
            a.Some? && !Replayer.ChangesVersion(data, f, d) && |PacketRewrite.Rewrite(data, a.value)| >= 18
  {
    hide PacketRewrite.Rewrite, Replayer.Aim;
    Aimed(data, 14, v4, f, d);
    RewriteLong(data, Replayer.Aim(data, f, d).value);
  }

  lemma RewriteLong(frame: seq<byte>, t: PacketRewrite.Target)
    requires |frame| >= 34
    ensures |PacketRewrite.Rewrite(frame, t)| >= 18
  {
    hide PacketRewrite.NewHeader, PacketRewrite.SealSegment, PacketRewrite.PutPorts;
    var l := PacketRewrite.LayoutOf(PacketRewrite.Payload(frame));
    if l.Some? {
      HeaderLong(PacketRewrite.Slice(PacketRewrite.Payload(frame), 0, l.value.hdr), l.value, t);
    }
  }

  lemma HeaderLong(h: seq<byte>, l: PacketRewrite.Layout, t: PacketRewrite.Target)
    requires |h| >= 10 && l.at >= 8
    ensures |PacketRewrite.NewHeader(h, l, t)| >= 4
  {
  }

  // ------------------------------------------------------------- rewritten frames

  /** An untagged frame with a complete IP header. */
  predicate Complete(frame: seq<byte>, v4: bool) {
    Fixed(frame, 14, v4) && (v4 ==> frame[14] % 16 >= 5) && Read(frame, 14, v4).seg <= |frame|
  }

  /** One with TCP or UDP, of at least 18 or 8 bytes. */
  predicate TcpUdp(frame: seq<byte>, v4: bool) {
    Complete(frame, v4) &&
    var ip := Read(frame, 14, v4);
    var n := |frame| - ip.seg;
    n < 0x1_0000 && ((ip.proto == 6 && n >= 18) || (ip.proto == 17 && n >= 8))
  }

  /** One with the ICMP of its IP version. */
  predicate Icmp(frame: seq<byte>, v4: bool) {
    Complete(frame, v4) && Read(frame, 14, v4).proto == if v4 then 1 else 58
  }

  /** Both addresses are given, and of this version. */
  predicate Addresses(t: PacketRewrite.Target, v4: bool) {
    var n := if v4 then 4 else 16;
    t.src.Some? && |t.src.value| == n && t.dst.Some? && |t.dst.value| == n
  }

  predicate Ports(t: PacketRewrite.Target) {
    t.sport.Some? && t.sport.value < 0x1_0000 && t.dport.Some? && t.dport.value < 0x1_0000
  }

  lemma LayoutAt(frame: seq<byte>, v4: bool)
    requires Complete(frame, v4)
    ensures var ip := Read(frame, 14, v4);
            && PacketRewrite.LayoutOf(PacketRewrite.Payload(frame))
               == Some(PacketRewrite.Layout(v4, ip.seg - 14, if v4 then 12 else 8, if v4 then 4 else 16, ip.proto))
            && PacketRewrite.HeaderOf(frame) == frame[14..ip.seg] && PacketRewrite.SegmentOf(frame) == frame[ip.seg..]
  {
    var p, ip := frame[14..], Read(frame, 14, v4);
    assert p[0..ip.seg - 14] == frame[14..ip.seg] && p[ip.seg - 14..] == frame[ip.seg..];
  }

  /** The frames and targets the results about the rewrite are stated for. */
  lemma WellExactly(frame: seq<byte>, t: PacketRewrite.Target)
    ensures PacketRewrite.Well(frame, t) <==> exists v4 :: TcpUdp(frame, v4) && Addresses(t, v4) && Ports(t)
  {
    hide PacketRewrite.HeaderOf, PacketRewrite.SegmentOf;
    forall v4 | Complete(frame, v4)
      ensures PacketRewrite.Well(frame, t) <==> TcpUdp(frame, v4) && Addresses(t, v4) && Ports(t)
    {
      LayoutAt(frame, v4);
    }
    if PacketRewrite.Well(frame, t) {
      assert Complete(frame, PacketRewrite.LayoutOf(PacketRewrite.Payload(frame)).value.v4);
    }
  }

  lemma WellIcmpExactly(frame: seq<byte>, t: PacketRewrite.Target)
    requires t.src.Some? && t.dst.Some?
    ensures PacketRewrite.WellIcmp(frame, t) <==> exists v4 :: Icmp(frame, v4) && Addresses(t, v4)
  {
    hide PacketRewrite.HeaderOf, PacketRewrite.SegmentOf;
    forall v4 | Complete(frame, v4)
      ensures PacketRewrite.WellIcmp(frame, t) <==> Icmp(frame, v4) && Addresses(t, v4)
    {
      LayoutAt(frame, v4);
    }
    if PacketRewrite.WellIcmp(frame, t) {
      assert Complete(frame, PacketRewrite.LayoutOf(PacketRewrite.Payload(frame)).value.v4);
    }
  }

  /** The addresses of `out` are those of the target, its header verifies, and everything else in front of
      the segment is as it was. */
  predicate Readdressed(out: seq<byte>, frame: seq<byte>, v4: bool, t: PacketRewrite.Target)
    requires Complete(frame, v4) && Addresses(t, v4)
  {
    var ip := Read(frame, 14, v4);
    && Complete(out, v4)
    && Read(out, 14, v4) == Ip(t.src.value, t.dst.value, ip.proto, ip.seg)
    && (v4 ==> InternetChecksum.Checksum(out[14..ip.seg]) == 0)
    && forall i :: 0 <= i < ip.seg && !(if v4 then 24 <= i < 34 else 22 <= i < 54) ==> out[i] == frame[i]
  }

  lemma ReaddressedParts(frame: seq<byte>, v4: bool, t: PacketRewrite.Target, s: seq<byte>)
    requires Complete(frame, v4) && Addresses(t, v4)
    ensures var l := PacketRewrite.LayoutOf(PacketRewrite.Payload(frame)).value;
            var out := frame[..14] + PacketRewrite.NewHeader(PacketRewrite.HeaderOf(frame), l, t) + s;
            Readdressed(out, frame, v4, t) && |out| == Read(frame, 14, v4).seg + |s| && out[Read(frame, 14, v4).seg..] == s
  {
    hide PacketRewrite.NewHeader, PacketRewrite.HeaderOf, PacketRewrite.LayoutOf, InternetChecksum.Checksum, Readdressed;
    LayoutAt(frame, v4);
    var l, ip := PacketRewrite.LayoutOf(PacketRewrite.Payload(frame)).value, Read(frame, 14, v4);
    var h0 := frame[14..ip.seg];
    var h := PacketRewrite.NewHeader(h0, l, t);
    PacketRewrite.HeaderRewritten(h0, l, t);
    HeaderIn(frame, v4, t, h, s);
  }

  /** A header with the target's addresses, in its place. */
  lemma HeaderIn(frame: seq<byte>, v4: bool, t: PacketRewrite.Target, h: seq<byte>, s: seq<byte>)
    requires Complete(frame, v4) && Addresses(t, v4) && |h| == Read(frame, 14, v4).seg - 14
    requires v4 ==> InternetChecksum.Checksum(h) == 0 && h[12..16] == t.src.value && h[16..20] == t.dst.value
    requires !v4 ==> h[8..24] == t.src.value && h[24..40] == t.dst.value
    requires forall i :: 0 <= i < |h| && !(if v4 then 10 <= i < 20 else 8 <= i < 40) ==> h[i] == frame[14..14 + |h|][i]
    ensures var out := frame[..14] + h + s;
            Readdressed(out, frame, v4, t) && |out| == 14 + |h| + |s| && out[14 + |h|..] == s
  {
    hide InternetChecksum.Checksum;
    var out := frame[..14] + h + s;
    var n := 14 + |h|;
    assert out[14..n] == h;
    assert forall i :: 0 <= i < |h| ==> out[14 + i] == h[i] && frame[14..n][i] == frame[14 + i];
    assert out[14] == frame[14] && out[if v4 then 23 else 20] == frame[if v4 then 23 else 20];
    AddressesIn(out, v4, h);
    forall i | 0 <= i < n && !(if v4 then 24 <= i < 34 else 22 <= i < 54)
      ensures out[i] == frame[i]
    {
      if i >= 14 {
        assert out[14 + (i - 14)] == h[i - 14] && frame[14..n][i - 14] == frame[14 + (i - 14)];
      }
    }
  }

  lemma AddressesIn(out: seq<byte>, v4: bool, h: seq<byte>)
    requires |h| >= (if v4 then 20 else 40) && |out| >= 14 + |h| && out[14..14 + |h|] == h
    ensures v4 ==> out[26..30] == h[12..16] && out[30..34] == h[16..20]
    ensures !v4 ==> out[22..38] == h[8..24] && out[38..54] == h[24..40]
  {
    if v4 {
      SliceIn(out, |h|, 12, 16);
      SliceIn(out, |h|, 16, 20);
    } else {
      SliceIn(out, |h|, 8, 24);
      SliceIn(out, |h|, 24, 40);
    }
  }

  lemma SliceIn(s: seq<byte>, n: nat, i: nat, j: nat)
    requires i <= j <= n && 14 + n <= |s|
    ensures s[14..14 + n][i..j] == s[14 + i..14 + j]
  {
    var a, b := s[14..14 + n][i..j], s[14 + i..14 + j];
    forall k | 0 <= k < |a|
      ensures a[k] == b[k]
    {
      assert s[14..14 + n][i + k] == s[14 + i + k];
    }
  }

  /** The pseudo-header in front of `n` bytes of transport (RFC 9293 section 3.1, RFC 8200 section 8.1). */
  function PseudoHeader(src: seq<byte>, dst: seq<byte>, proto: byte, n: nat, v4: bool): seq<byte>
    requires n < 0x1_0000
  {
    src + dst + if v4 then [0, proto, n / 256, n % 256] else [0, 0, n / 256, n % 256, 0, 0, 0, proto]
  }

  /** A TCP or UDP frame after the rewrite, by position: it has the target's addresses and ports, both of
      its checksums verify, and the rest of it is unchanged. */
  lemma TransportRewritten(frame: seq<byte>, v4: bool, t: PacketRewrite.Target)
    requires TcpUdp(frame, v4) && Addresses(t, v4) && Ports(t)
    ensures var out, ip := PacketRewrite.Rewrite(frame, t), Read(frame, 14, v4);
            && |out| == |frame| && Readdressed(out, frame, v4, t)
            && Word(out, ip.seg) == t.sport.value && Word(out, ip.seg + 2) == t.dport.value
            && InternetChecksum.Checksum(PseudoHeader(t.src.value, t.dst.value, ip.proto, |frame| - ip.seg, v4) + out[ip.seg..]) == 0
            && forall i :: ip.seg + 4 <= i < |frame| && !(0 <= i - ip.seg - (if ip.proto == 6 then 16 else 6) < 2) ==> out[i] == frame[i]
  {
    hide PacketRewrite.NewHeader, PacketRewrite.LayoutOf, PacketRewrite.Rewrite, InternetChecksum.Checksum;
    hide Readdressed, PacketRewrite.HeaderOf, PacketRewrite.SegmentOf, PseudoHeader;
    var ip := Read(frame, 14, v4);
    var s' := NewSegment(frame, v4, t);
    ReaddressedParts(frame, v4, t, s');
    SegmentBytes(PacketRewrite.Rewrite(frame, t), frame, ip.seg, s', if ip.proto == 6 then 16 else 6);
    SegmentVerifies(frame, v4, t);
  }

  lemma SegmentBytes(out: seq<byte>, frame: seq<byte>, at: nat, s': seq<byte>, k: nat)
    requires at + 4 <= |frame| == |out| && out[at..] == s'
    requires forall i :: 4 <= i < |s'| && !(0 <= i - k < 2) ==> s'[i] == frame[at..][i]
    ensures forall i :: at + 4 <= i < |frame| && !(0 <= i - at - k < 2) ==> out[i] == frame[i]
    ensures Word(out, at) == Word(s', 0) && Word(out, at + 2) == Word(s', 2)
  {
    forall i | at + 4 <= i < |frame| && !(0 <= i - at - k < 2)
      ensures out[i] == frame[i]
    {
      assert out[i] == s'[i - at] && frame[i] == frame[at..][i - at];
    }
  }

  lemma NewSegment(frame: seq<byte>, v4: bool, t: PacketRewrite.Target) returns (s': seq<byte>)
    requires TcpUdp(frame, v4) && Addresses(t, v4) && Ports(t)
    ensures var ip := Read(frame, 14, v4);
            var l, s := PacketRewrite.LayoutOf(PacketRewrite.Payload(frame)).value, frame[ip.seg..];
            && PacketRewrite.Rewrite(frame, t) == frame[..14] + PacketRewrite.NewHeader(PacketRewrite.HeaderOf(frame), l, t) + s'
            && |s'| == |s| && PacketRewrite.SegmentOf(PacketRewrite.Rewrite(frame, t)) == s'
            && Word(s', 0) == t.sport.value && Word(s', 2) == t.dport.value
            && forall i :: 4 <= i < |s| && !(0 <= i - (if ip.proto == 6 then 16 else 6) < 2) ==> s'[i] == s[i]
  {
    hide PacketRewrite.NewHeader, PacketRewrite.LayoutOf, PacketRewrite.Rewrite, PacketRewrite.PutPorts, PacketRewrite.Seal;
    hide PacketRewrite.Pseudo, InternetChecksum.Checksum, PacketRewrite.Well, PacketRewrite.HeaderOf, PacketRewrite.SegmentOf;
    var ip := Read(frame, 14, v4);
    WellExactly(frame, t);
    LayoutAt(frame, v4);
    PacketRewrite.RewriteParts(frame, t);
    PacketRewrite.RewriteSplit(frame, t);
    var l, s := PacketRewrite.LayoutOf(PacketRewrite.Payload(frame)).value, frame[ip.seg..];
    var h := PacketRewrite.NewHeader(PacketRewrite.HeaderOf(frame), l, t);
    var pre := PacketRewrite.Pseudo(v4, h, ip.proto, |s|);
    s' := PacketRewrite.Seal(pre, PacketRewrite.PutPorts(s, t), PacketRewrite.FieldAt(ip.proto));
    assert |h| >= if v4 then 20 else 40;
    PacketRewrite.SegmentRewritten(pre, s, ip.proto, t);
  }

  lemma SegmentVerifies(frame: seq<byte>, v4: bool, t: PacketRewrite.Target)
    requires TcpUdp(frame, v4) && Addresses(t, v4) && Ports(t)
    ensures var ip, s := Read(frame, 14, v4), PacketRewrite.SegmentOf(PacketRewrite.Rewrite(frame, t));
            && |s| == |frame| - ip.seg
            && InternetChecksum.Checksum(PseudoHeader(t.src.value, t.dst.value, ip.proto, |s|, v4) + s) == 0
  {
    hide PacketRewrite.Rewrite, InternetChecksum.Checksum, PacketRewrite.Well, PacketRewrite.HeaderOf, PacketRewrite.SegmentOf;
    hide PacketRewrite.StandardPseudo, PseudoHeader, PacketRewrite.LayoutOf, PacketRewrite.ParseIp, PacketRewrite.ParseTransport;
    var ip := Read(frame, 14, v4);
    WellExactly(frame, t);
    LayoutAt(frame, v4);
    var s' := NewSegment(frame, v4, t);
    PacketRewrite.RewriteVerifies(frame, t);
    PseudoBytes(PacketRewrite.IpInfo(v4, t.src.value, t.dst.value, ip.proto, s'));
  }

  lemma PseudoBytes(ip: PacketRewrite.IpInfo)
    requires |ip.rest| < 0x1_0000
    ensures PacketRewrite.StandardPseudo(ip) == PseudoHeader(ip.src, ip.dst, ip.proto, |ip.rest|, ip.v4)
  {
    var n := |ip.rest|;
    assert n / 256 / 256 == 0;
    assert PacketRewrite.PutBE32(n) == [0, 0, n / 256, n % 256];
  }

  /** ICMP and ICMPv6: apart from the addresses and the zero byte that an odd message gets, only checksums
      change, and the message verifies without the pseudo-header. */
  lemma IcmpByPosition(frame: seq<byte>, v4: bool, t: PacketRewrite.Target)
    requires Icmp(frame, v4) && Addresses(t, v4)
    requires 4 <= |frame| - Read(frame, 14, v4).seg <= 131074
    ensures var out, ip := PacketRewrite.Rewrite(frame, t), Read(frame, 14, v4);
            && Readdressed(out, frame, v4, t) && |out| == |frame| + (|frame| - ip.seg) % 2
            && InternetChecksum.Checksum(out[ip.seg..|frame|]) == 0
            && (forall i :: ip.seg <= i < |frame| && !(ip.seg + 2 <= i < ip.seg + 4) ==> out[i] == frame[i])
            && (|out| > |frame| ==> out[|frame|] == 0)
  {
    hide PacketRewrite.NewHeader, PacketRewrite.LayoutOf, PacketRewrite.Rewrite, PacketRewrite.SealInPlace;
    hide InternetChecksum.Checksum, PacketRewrite.WellIcmp, Readdressed, PacketRewrite.HeaderOf;
    var ip := Read(frame, 14, v4);
    WellIcmpExactly(frame, t);
    LayoutAt(frame, v4);
    PacketRewrite.IcmpParts(frame, t);
    var s := frame[ip.seg..];
    ReaddressedParts(frame, v4, t, PacketRewrite.SealInPlace(s, 2));
    PacketRewrite.MessageSealed(s);
    var out := PacketRewrite.Rewrite(frame, t);
    assert out[ip.seg..|frame|] == out[ip.seg..][..|s|];
  }

  /** Any other protocol: only the addresses and the IPv4 header checksum change, and of SCTP the ports,
      whose checksum is left as it was. */
  lemma OtherRewritten(frame: seq<byte>, v4: bool, t: PacketRewrite.Target)
    requires Complete(frame, v4) && Addresses(t, v4)
    requires var ip := Read(frame, 14, v4);
             && ip.proto !in {6, 17} && ip.proto != (if v4 then 1 else 58)
             && (ip.proto == 132 ==> t.PortsFit() && 4 <= |frame| - ip.seg < 0x1_0000)
    ensures var out, ip := PacketRewrite.Rewrite(frame, t), Read(frame, 14, v4);
            && |out| == |frame| && Readdressed(out, frame, v4, t)
            && (ip.proto == 132 ==>
                  && Word(out, ip.seg) == (if t.sport.Some? then t.sport.value else Word(frame, ip.seg))
                  && Word(out, ip.seg + 2) == (if t.dport.Some? then t.dport.value else Word(frame, ip.seg + 2)))
            && forall i :: ip.seg + (if ip.proto == 132 then 4 else 0) <= i < |frame| ==> out[i] == frame[i]
  {
    hide PacketRewrite.NewHeader, PacketRewrite.LayoutOf, PacketRewrite.PutPorts, PacketRewrite.Rewrite, PutBE16;
    hide InternetChecksum.Checksum, Readdressed, PacketRewrite.HeaderOf;
    var ip := Read(frame, 14, v4);
    LayoutAt(frame, v4);
    var s := frame[ip.seg..];
    OtherParts(frame, v4, t);
    if ip.proto == 132 {
      PortsIn(s, t);
      ReaddressedParts(frame, v4, t, PacketRewrite.PutPorts(s, t));
    } else {
      ReaddressedParts(frame, v4, t, s);
    }
  }

  lemma OtherParts(frame: seq<byte>, v4: bool, t: PacketRewrite.Target)
    requires Complete(frame, v4) && Addresses(t, v4)
    requires var ip := Read(frame, 14, v4);
             && ip.proto !in {6, 17} && ip.proto != (if v4 then 1 else 58)
             && (ip.proto == 132 ==> t.PortsFit() && 4 <= |frame| - ip.seg < 0x1_0000)
    ensures var ip, l := Read(frame, 14, v4), PacketRewrite.LayoutOf(PacketRewrite.Payload(frame)).value;
            var s := frame[ip.seg..];
            PacketRewrite.Rewrite(frame, t)
            == frame[..14] + PacketRewrite.NewHeader(PacketRewrite.HeaderOf(frame), l, t)
               + if ip.proto == 132 then PacketRewrite.PutPorts(s, t) else s
  {
    hide PacketRewrite.NewHeader, PacketRewrite.LayoutOf, PacketRewrite.PutPorts, PacketRewrite.Seal, PacketRewrite.SealInPlace;
    hide PacketRewrite.Pseudo, PacketRewrite.HeaderOf;
    var ip := Read(frame, 14, v4);
    LayoutAt(frame, v4);
    assert PacketRewrite.HeaderOf(frame) == PacketRewrite.Slice(PacketRewrite.Payload(frame), 0, ip.seg - 14);
    assert PacketRewrite.Payload(frame)[ip.seg - 14..] == frame[ip.seg..];
    if ip.proto == 132 {
      PortsIn(frame[ip.seg..], t);
    }
  }

  lemma PortsIn(s: seq<byte>, t: PacketRewrite.Target)
    requires t.PortsFit() && |s| >= 4
    ensures var r := PacketRewrite.PutPorts(s, t);
            && |r| == |s| && r[4..] == s[4..]
            && Word(r, 0) == (if t.sport.Some? then t.sport.value else Word(s, 0))
            && Word(r, 2) == (if t.dport.Some? then t.dport.value else Word(s, 2))
  {
    hide PutBE16;
  }

  /** A port above 65535 and an IPv4 segment of 65536 bytes are exceptions: the frame goes out as it came. */
  lemma NotRewritten(frame: seq<byte>, v4: bool, t: PacketRewrite.Target)
    requires Complete(frame, v4) && Addresses(t, v4) && Read(frame, 14, v4).proto in {6, 17, 132}
    requires || (t.sport.Some? && t.sport.value >= 0x1_0000) || (t.dport.Some? && t.dport.value >= 0x1_0000)
             || (v4 && |frame| - Read(frame, 14, v4).seg >= 0x1_0000)
    ensures PacketRewrite.Rewrite(frame, t) == frame
  {
    hide PacketRewrite.NewHeader, PacketRewrite.SealSegment, PacketRewrite.PutPorts, PacketRewrite.LayoutOf;
    LayoutAt(frame, v4);
    var ip := Read(frame, 14, v4);
    if t.PortsFit() {
      PortsIn(frame[ip.seg..], t);
      assert PacketRewrite.Payload(frame)[ip.seg - 14..] == frame[ip.seg..];
    }
  }

  /** Which rewrites are left open: those from one IP version to the other. Addresses of both versions leave the
      frame as it is. */
  lemma OpenExactly(frame: seq<byte>, t: PacketRewrite.Target)
    requires t.src.Some? && |t.src.value| in {4, 16} && t.dst.Some? && |t.dst.value| in {4, 16}
    ensures PacketRewrite.CrossFamily(PacketRewrite.Payload(frame), t)
       <==> |frame| > 14 && ((frame[14] / 16 == 4 && Addresses(t, false)) || (frame[14] / 16 == 6 && Addresses(t, true)))
    ensures |t.src.value| != |t.dst.value| ==> PacketRewrite.Rewrite(frame, t) == frame
  {
    hide PacketRewrite.NewHeader, PacketRewrite.SealSegment, PacketRewrite.PutPorts;
  }

  /** The fragment offset is the low 13 bits of the fourth word of an IPv4 header. */
  lemma FragmentAt(frame: seq<byte>)
    ensures PacketRewrite.FragmentOffset(frame) == if |frame| >= 22 && frame[14] / 16 == 4 then Word(frame, 20) % 0x2000 else 0
  {
  }

  /** The length of the segment that the IP header declares. */
  lemma DeclaredAt(frame: seq<byte>, v4: bool)
    requires Complete(frame, v4)
    ensures PacketRewrite.DeclaredLength(PacketRewrite.LayoutOf(PacketRewrite.Payload(frame)).value, PacketRewrite.HeaderOf(frame))
         == if v4 then Word(frame, 16) + 14 - Read(frame, 14, v4).seg else Word(frame, 18)
  {
    hide PacketRewrite.LayoutOf, PacketRewrite.HeaderOf;
    LayoutAt(frame, v4);
    var h := frame[14..Read(frame, 14, v4).seg];
    assert h[2] == frame[16] && h[3] == frame[17] && h[4] == frame[18] && h[5] == frame[19];
  }

  /** Forced fields do not reach a tagged packet, unless the first four bits of its tag read as an IP version. */
  lemma TaggedNotRewritten(data: seq<byte>, f: Replayer.Forces, d: Direction)
    requires IpType(data, 18) && data[14] / 16 !in {4, 6}
    ensures Replayer.Modified(data, f, d) == data
  {
    assert PacketRewrite.Payload(data)[0] == data[14];
  }

  /** So with forces of its version, what a TCP or UDP packet is rewritten to meets these conditions. */
  lemma ForcesFit(data: seq<byte>, v4: bool, f: Replayer.Forces, d: Direction)
    requires IpType(data, 14) && TcpUdp(data, v4) && SameVersion(f, v4)
    requires f.src.Some? || f.dst.Some? || f.sport.Some? || f.dport.Some?
    requires (f.sport.Some? ==> f.sport.value < 0x1_0000) && (f.dport.Some? ==> f.dport.value < 0x1_0000)
    ensures var a := Replayer.Aim(data, f, d);
            && a.Some? && Addresses(a.value, v4) && Ports(a.value) && PacketRewrite.Well(data, a.value)
            && Replayer.Modified(data, f, d) == PacketRewrite.Rewrite(data, a.value)
  {
    hide Replayer.Aim, PacketRewrite.Rewrite, PacketRewrite.Well;
    Aimed(data, 14, v4, f, d);
    WellExactly(data, Replayer.Aim(data, f, d).value);
  }

  // ------------------------------------------------------------- what is extracted

  /** An IPv4 packet by its Ethernet type, or an IPv6 packet. */
  predicate TypedAt(data: seq<byte>, o: nat, v4: bool) {
    if v4 then TypeAt(data, o, 0x08, 0x00) && |data| >= o + 20 else TypeAt(data, o, 0x86, 0xDD) && |data| >= o + 40
  }

  /** ICMP of either version, or TCP, UDP or SCTP with both ports. */
  predicate Counted(data: seq<byte>, ip: Ip) {
    ip.proto in {1, 58} || (ip.proto in {6, 17, 132} && |data| >= ip.seg + 4)
  }

  predicate FlowAt(data: seq<byte>, o: nat, v4: bool) {
    TypedAt(data, o, v4) && Counted(data, Read(data, o, v4))
  }

  /** The request lines that name a client (RFC 9110 section 9, RFC 5789). */
  predicate RequestLine(s: seq<byte>) {
    || Begins(s, "GET ") || Begins(s, "POST ") || Begins(s, "PUT ") || Begins(s, "HEAD ") || Begins(s, "DELETE ")
    || Begins(s, "OPTIONS ") || Begins(s, "PATCH ") || Begins(s, "CONNECT ") || Begins(s, "TRACE ")
  }

  /** The client a TCP segment names: SYN its sender, SYN and ACK its receiver, else an HTTP request its sender
      and an HTTP response its receiver. */
  predicate Names(data: seq<byte>, ip: Ip, src: FlowOrientation.Endpoint, dst: FlowOrientation.Endpoint,
                  client: Option<FlowOrientation.Endpoint>)
  {
    if |data| < ip.seg + 14 then client == None
    else if data[ip.seg + 13] / 2 % 2 == 1 then client == Some(if data[ip.seg + 13] / 16 % 2 == 1 then dst else src)
    else
      var text := data[Min(ip.seg + data[ip.seg + 12] / 16 * 4, |data|)..];
      && (RequestLine(text) ==> client == Some(src))
      && (!RequestLine(text) && Begins(text, "HTTP/1.") ==> client == Some(dst))
      && (!RequestLine(text) && !Begins(text, "HTTP/1.") ==> client == None)
  }

  /** The frames that belong to a flow. */
  lemma ExtractedFrames(data: seq<byte>)
    ensures FlowOrientation.Examine(data).Some? <==> exists o, v4 :: o in {14, 18} && FlowAt(data, o, v4)
  {
    hide FlowOrientation.Signal;
    if FlowAt(data, 14, true) || FlowAt(data, 14, false) || FlowAt(data, 18, true) || FlowAt(data, 18, false) {
      var o: nat := if FlowAt(data, 14, true) || FlowAt(data, 14, false) then 14 else 18;
      ExtractedAs(data, o, FlowAt(data, o, true));
    }
    if FlowOrientation.Examine(data).Some? {
      var o: nat := if BE16(data, 12) == 0x8100 then 18 else 14;
      assert |data| >= o;
      SegmentAt(data, o);
      assert FlowAt(data, o, true) || FlowAt(data, o, false);
    }
  }

  lemma SegmentAt(data: seq<byte>, o: nat)
    requires |data| >= o && 14 <= |data| && o == (if BE16(data, 12) == 0x8100 then 18 else 14)
    ensures FlowOrientation.SegmentIn(data) == FlowOrientation.SegmentPayload(BE16(data, o - 2), data[o..])
  {
  }

  /** The endpoints, protocol and signal of such a frame. */
  lemma ExtractedAs(data: seq<byte>, o: nat, v4: bool)
    requires FlowAt(data, o, v4)
    ensures var ip, x := Read(data, o, v4), FlowOrientation.Examine(data);
            && x.Some?
            && (ip.proto in {1, 58} ==>
                  x.value == FlowOrientation.Packet(FlowOrientation.Endpoint(ip.src, 0), FlowOrientation.Endpoint(ip.dst, 0),
                                                    FlowOrientation.Icmp, None))
            && (ip.proto in {6, 17, 132} ==>
                  && x.value.src == FlowOrientation.Endpoint(ip.src, Word(data, ip.seg))
                  && x.value.dst == FlowOrientation.Endpoint(ip.dst, Word(data, ip.seg + 2))
                  && x.value.proto == (match ip.proto
                                       case 6 => FlowOrientation.Tcp
                                       case 17 => FlowOrientation.Udp
                                       case _ => FlowOrientation.Sctp))
            && (ip.proto in {17, 132} ==> x.value.signal == None)
            && (ip.proto == 6 ==> Names(data, ip, x.value.src, x.value.dst, x.value.signal))
  {
    hide FlowOrientation.Signal, Names, FlowOrientation.SegmentIn;
    var ip := Read(data, o, v4);
    SegmentAt(data, o);
    PartsAt(data, o, v4);
    SignalNames(data, ip, FlowOrientation.Examine(data).value.src, FlowOrientation.Examine(data).value.dst);
  }

  lemma SignalNames(data: seq<byte>, ip: Ip, src: FlowOrientation.Endpoint, dst: FlowOrientation.Endpoint)
    requires ip.seg + 4 <= |data| || ip.proto in {1, 58}
    ensures Names(data, ip, src, dst, FlowOrientation.Signal(src, dst, data[Min(ip.seg, |data|)..]))
  {
    hide FlowOrientation.IsRequest, RequestLine;
    var rest := data[Min(ip.seg, |data|)..];
    if |data| >= ip.seg + 14 {
      var n := rest[12] / 16 * 4;
      assert rest[12] == data[ip.seg + 12] && rest[13] == data[ip.seg + 13];
      assert rest[Min(n, |rest|)..] == data[Min(ip.seg + n, |data|)..];
      RequestText(rest[Min(n, |rest|)..]);
    }
  }

  /** The methods, as text. */
  lemma RequestText(s: seq<byte>)
    ensures FlowOrientation.IsRequest(s) <==> RequestLine(s)
    ensures FlowOrientation.HTTP1 <= s <==> Begins(s, "HTTP/1.")
  {
    hide Begins, FlowOrientation.IsRequest;
    FirstMethods(s);
    LastMethods(s);
    BeginsWith(s, [72, 84, 84, 80, 47, 49, 46], "HTTP/1.");
    RequestIsOneOf(s);
  }

  lemma FirstMethods(s: seq<byte>)
    ensures var ms := FlowOrientation.METHODS;
            && (ms[0] <= s <==> Begins(s, "GET ")) && (ms[1] <= s <==> Begins(s, "POST "))
            && (ms[2] <= s <==> Begins(s, "PUT ")) && (ms[3] <= s <==> Begins(s, "HEAD "))
            && (ms[4] <= s <==> Begins(s, "DELETE "))
  {
    hide Begins;
    BeginsWith(s, [71, 69, 84, 32], "GET ");
    BeginsWith(s, [80, 79, 83, 84, 32], "POST ");
    BeginsWith(s, [80, 85, 84, 32], "PUT ");
    BeginsWith(s, [72, 69, 65, 68, 32], "HEAD ");
    BeginsWith(s, [68, 69, 76, 69, 84, 69, 32], "DELETE ");
  }

  lemma LastMethods(s: seq<byte>)
    ensures var ms := FlowOrientation.METHODS;
            && (ms[5] <= s <==> Begins(s, "OPTIONS ")) && (ms[6] <= s <==> Begins(s, "PATCH "))
            && (ms[7] <= s <==> Begins(s, "CONNECT ")) && (ms[8] <= s <==> Begins(s, "TRACE "))
  {
    hide Begins;
    BeginsWith(s, [79, 80, 84, 73, 79, 78, 83, 32], "OPTIONS ");
    BeginsWith(s, [80, 65, 84, 67, 72, 32], "PATCH ");
    BeginsWith(s, [67, 79, 78, 78, 69, 67, 84, 32], "CONNECT ");
    BeginsWith(s, [84, 82, 65, 67, 69, 32], "TRACE ");
  }

  lemma RequestIsOneOf(s: seq<byte>)
    ensures var ms := FlowOrientation.METHODS;
            && |ms| == 9
            && (FlowOrientation.IsRequest(s)
                <==> || ms[0] <= s || ms[1] <= s || ms[2] <= s || ms[3] <= s || ms[4] <= s || ms[5] <= s || ms[6] <= s
                     || ms[7] <= s || ms[8] <= s)
  {
    var ms := FlowOrientation.METHODS;
    assert |ms| == 9;
    OneOfNine(ms, s);
  }

  lemma OneOfNine(ms: seq<seq<byte>>, s: seq<byte>)
    requires |ms| == 9
    ensures (exists m :: m in ms && m <= s)
       <==> || ms[0] <= s || ms[1] <= s || ms[2] <= s || ms[3] <= s || ms[4] <= s || ms[5] <= s || ms[6] <= s
            || ms[7] <= s || ms[8] <= s
  {
    if exists m :: m in ms && m <= s {
      var m :| m in ms && m <= s;
      var i :| 0 <= i < |ms| && ms[i] == m;
    }
    assert forall i :: 0 <= i < 9 ==> ms[i] in ms;
  }

  /** A file of one packet, in little-endian bytes: its flow is the only result, with the client first that the
      packet names, or else its sender. */
  lemma OnePacketFile(header: seq<byte>, stamp: seq<byte>, orig: seq<byte>, data: seq<byte>, a: byte, b: byte, c: byte, d: byte)
    requires |header| == 24 && |stamp| == 8 && |orig| == 4
    requires |data| == a as int + 256 * b as int + 65536 * c as int + 16777216 * d as int
    requires FlowOrientation.Examine(data).Some?
    ensures var x := FlowOrientation.Examine(data).value;
            var back := x.signal.Some? && x.signal.value != x.src;
            FlowOrientation.FileFlows(header + stamp + [a, b, c, d] + orig + data)
            == [FlowOrientation.FlowResult(if back then x.dst else x.src, if back then x.src else x.dst, x.proto)]
  {
    hide FlowOrientation.Examine, FlowOrientation.Flows, LE32, PcapFile.ParseAll;
    var content, s := header + stamp + [a, b, c, d] + orig + data, stamp + [a, b, c, d] + orig + data;
    assert content[24..] == s;
    var r := OneRecord(s, data, a, b, c, d);
    FlowOrientation.OneExamined(r);
    OneFlow(FlowOrientation.Examine(data).value);
  }

  lemma OneRecord(s: seq<byte>, data: seq<byte>, a: byte, b: byte, c: byte, d: byte) returns (r: PcapFile.Rec)
    requires |s| == 16 + |data| && s[8..12] == [a, b, c, d] && s[16..] == data
    requires |data| == a as int + 256 * b as int + 65536 * c as int + 16777216 * d as int
    ensures PcapFile.ParseAll(PcapFile.Little, s) == [r] && r.data == data
  {
    assert s[8] == s[8..12][0] && s[9] == s[8..12][1] && s[10] == s[8..12][2] && s[11] == s[8..12][3];
    assert PcapFile.Get(PcapFile.Little, s, 8) == |data|;
    r := PcapFile.ParseAll(PcapFile.Little, s)[0];
    assert s[16 + |data|..] == [] && PcapFile.ParseAll(PcapFile.Little, []) == [];
    assert s[16..16 + |data|] == data;
  }

  lemma OneFlow(x: FlowOrientation.Packet)
    requires x.signal.Some? ==> x.signal.value in {x.src, x.dst}
    ensures var back := x.signal.Some? && x.signal.value != x.src;
            FlowOrientation.Flows([x])
            == [FlowOrientation.FlowResult(if back then x.dst else x.src, if back then x.src else x.dst, x.proto)]
  {
    hide FlowOrientation.Canonical, FlowOrientation.Keys, FlowOrientation.Of, FlowOrientation.FirstSignal;
    hide FlowOrientation.AllOriented;
    var k := FlowOrientation.Canonical(x);
    OneKey(x);
    NoSignal();
    FlowOrientation.SignalAppend([], x);
    assert [] + [x] == [x];
    FlowOrientation.OrientedAt([x], [k], 0);
    assert FlowOrientation.AllOriented([x], [k]) == [FlowOrientation.Oriented([x])];
  }

  lemma NoSignal()
    ensures FlowOrientation.FirstSignal([]) == None
  {
  }

  lemma OneKey(x: FlowOrientation.Packet)
    ensures var k := FlowOrientation.Canonical(x);
            FlowOrientation.Keys([x]) == [k] && FlowOrientation.Of([x], k) == [x]
  {
    hide FlowOrientation.Canonical;
    assert [x][..0] == [];
  }

  /** A file of one ping. */
  lemma PingReported(header: seq<byte>, stamp: seq<byte>, orig: seq<byte>, data: seq<byte>, o: nat, v4: bool)
    requires |header| == 24 && |stamp| == 8 && |orig| == 4 && |data| < 0x1_0000
    requires TypedAt(data, o, v4) && Read(data, o, v4).proto in {1, 58}
    ensures var ip := Read(data, o, v4);
            FlowOrientation.FileFlows(header + stamp + [|data| % 256, |data| / 256, 0, 0] + orig + data)
            == [FlowOrientation.FlowResult(FlowOrientation.Endpoint(ip.src, 0), FlowOrientation.Endpoint(ip.dst, 0),
                                           FlowOrientation.Icmp)]
  {
    hide FlowOrientation.Examine, FlowOrientation.FileFlows;
    ExtractedAs(data, o, v4);
    OnePacketFile(header, stamp, orig, data, |data| % 256, |data| / 256, 0, 0);
  }
}
