/** Rewriting the addresses and ports of a captured frame and recomputing its checksums
    (RFC 791 section 3.1, RFC 8200 section 8.1, RFC 9293 section 3.1, RFC 768). */
module PacketRewrite {
  import opened Bytes
  import opened InternetChecksum

  const TCP := 6
  const UDP := 17
  const SCTP := 132
  const ICMP := 1
  const ICMP6 := 58

  // ------------------------------------------------------------- slices, as the source language has them

  /** `s[i:j]` */
  function Slice(s: seq<byte>, i: nat, j: nat): seq<byte>
    requires i <= j
  {
    s[Min(i, |s|)..Min(j, |s|)]
  }

  /** `s[i:j] = v` on a byte array, which grows when the slice lies beyond its end. */
  function Splice(s: seq<byte>, i: nat, j: nat, v: seq<byte>): (r: seq<byte>)
    requires i <= j
    ensures j <= |s| && |v| == j - i ==> |r| == |s|
  {
    s[..Min(i, |s|)] + v + s[Min(j, |s|)..]
  }

  function PutBE32(w: nat): (s: seq<byte>)
    requires w < 0x1_0000_0000
    ensures |s| == 4
  {
    Reverse4(PutLE32(w))
  }

  // ------------------------------------------------------------- parsing

  datatype IpInfo = IpInfo(v4: bool, src: seq<byte>, dst: seq<byte>, proto: byte, rest: seq<byte>)

  /** `parse_ip`; addresses are kept as bytes. */
  function ParseIp(p: seq<byte>): Option<IpInfo> {
    if |p| == 0 then None
    else if p[0] / 16 == 4 then
      if |p| < 20 then None else Some(IpInfo(true, p[12..16], p[16..20], p[9], p[Min(p[0] % 16 * 4, |p|)..]))
    else if p[0] / 16 == 6 then
      if |p| < 40 then None else Some(IpInfo(false, p[8..24], p[24..40], p[6], p[40..]))
    else None
  }

  datatype PortInfo = PortInfo(sport: nat, dport: nat, flags: byte)

  function Flags(proto: byte, p: seq<byte>): byte {
    if proto == TCP && |p| > 13 then p[13] else 0
  }

  /** `parse_transport`. */
  function ParseTransport(proto: byte, p: seq<byte>): Option<PortInfo> {
    if (proto == TCP || proto == UDP) && |p| >= 4
    then Some(PortInfo(BE16(p, 0), BE16(p, 2), Flags(proto, p)))
    else None
  }

  // ------------------------------------------------------------- rewriting

  /** The five-tuple fields to put into a frame; `None` leaves a field alone. */
  datatype Target = Target(src: Option<seq<byte>>, dst: Option<seq<byte>>, sport: Option<nat>, dport: Option<nat>)
  {
    predicate Has(n: nat) {
      (src.Some? && |src.value| == n) || (dst.Some? && |dst.value| == n)
    }

    predicate Only(n: nat) {
      (src.Some? ==> |src.value| == n) && (dst.Some? ==> |dst.value| == n)
    }

    predicate PortsFit() {
      (sport.Some? ==> sport.value < 0x1_0000) && (dport.Some? ==> dport.value < 0x1_0000)
    }

    function Swap(): Target {
      Target(dst, src, dport, sport)
    }
  }

  /** Where things are: header length, first address, address length, protocol. */
  datatype Layout = Layout(v4: bool, hdr: nat, at: nat, alen: nat, proto: byte)

  function Payload(frame: seq<byte>): seq<byte> {
    frame[Min(14, |frame|)..]
  }

  function LayoutOf(p: seq<byte>): Option<Layout> {
    if |p| == 0 then None
    else if p[0] / 16 == 4 && Min(p[0] % 16 * 4, |p|) > 9 then Some(Layout(true, p[0] % 16 * 4, 12, 4, p[9]))
    else if p[0] / 16 == 6 && |p| > 6 then Some(Layout(false, 40, 8, 16, p[6]))
    else None
  }

  /** The target addresses are all of the other IP version. */
  predicate CrossFamily(p: seq<byte>, t: Target) {
    |p| > 0 && ((p[0] / 16 == 4 && t.Has(16) && !t.Has(4)) || (p[0] / 16 == 6 && t.Has(4) && !t.Has(16)))
  }

  function PutAddresses(h: seq<byte>, l: Layout, t: Target): seq<byte> {
    var h1 := if t.src.Some? then Splice(h, l.at, l.at + l.alen, t.src.value) else h;
    if t.dst.Some? then Splice(h1, l.at + l.alen, l.at + 2 * l.alen, t.dst.value) else h1
  }

  /** The IP header with its new addresses and checksum. */
  function NewHeader(h: seq<byte>, l: Layout, t: Target): seq<byte> {
    if l.v4 then SealInPlace(PutAddresses(h, l, t), 10) else PutAddresses(h, l, t)
  }

  predicate HasPorts(proto: int) {
    proto == TCP || proto == UDP || proto == SCTP
  }

  function PutPorts(s: seq<byte>, t: Target): seq<byte>
    requires t.PortsFit()
  {
    var h := Slice(s, 0, 4);
    var h1 := if t.sport.Some? then Splice(h, 0, 2, PutBE16(t.sport.value)) else h;
    var h2 := if t.dport.Some? then Splice(h1, 2, 4, PutBE16(t.dport.value)) else h1;
    h2 + s[Min(4, |s|)..]
  }

  /** Zero the field at `k`, then put there the checksum of everything including `pre`. */
  function Seal(pre: seq<byte>, s: seq<byte>, k: nat): (r: seq<byte>)
    ensures k + 2 <= |s| ==> |r| == |s|
  {
    var z := Splice(s, k, k + 2, [0, 0]);
    Splice(z, k, k + 2, PutBE16(Checksum(pre + z)))
  }

  /** The same on a byte array that `checksum` is given directly: it comes back with even length. */
  function SealInPlace(s: seq<byte>, k: nat): seq<byte> {
    var z := Padded(Splice(s, k, k + 2, [0, 0]));
    Splice(z, k, k + 2, PutBE16(Checksum(z)))
  }

  /** The pseudo-header of the transport checksum. */
  function Pseudo(v4: bool, h: seq<byte>, proto: byte, n: nat): (s: seq<byte>)
    requires n < if v4 then 0x1_0000 else 0x1_0000_0000
    ensures v4 && |h| >= 20 ==> |s| == 12
    ensures !v4 && |h| >= 40 ==> |s| == 40
  {
    if v4 then Slice(h, 12, 20) + [0, proto] + PutBE16(n)
    else Slice(h, 8, 24) + Slice(h, 24, 40) + PutBE32(n) + [0, 0, 0, proto]
  }

  /** The pseudo-header for `n` bytes of transport, if there can be so many. */
  function PseudoFor(l: Layout, h: seq<byte>, n: nat): seq<byte> {
    if n < 0x1_0000 then Pseudo(l.v4, h, l.proto, n) else []
  }

  function SealSegment(l: Layout, h: seq<byte>, s: seq<byte>): seq<byte>
    requires HasPorts(l.proto) ==> |s| < if l.v4 then 0x1_0000 else 0x1_0000_0000
  {
    if l.proto == TCP then Seal(Pseudo(l.v4, h, l.proto, |s|), s, 16)
    else if l.proto == UDP then Seal(Pseudo(l.v4, h, l.proto, |s|), s, 6)
    else if l.proto == (if l.v4 then ICMP else ICMP6) then SealInPlace(s, 2)
    else s
  }

  /** The rewritten frame; a frame that cannot be rewritten comes back unchanged. */
  function Rewrite(frame: seq<byte>, t: Target): seq<byte> {
    var p := Payload(frame);
    match LayoutOf(p)
    case None => frame
    case Some(l) =>
      if !t.Has(l.alen) || !t.Only(l.alen) || (HasPorts(l.proto) && !t.PortsFit()) then frame
      else
        var h := NewHeader(Slice(p, 0, l.hdr), l, t);
        var s0 := p[Min(l.hdr, |p|)..];
        var s := if HasPorts(l.proto) then PutPorts(s0, t) else s0;
        if HasPorts(l.proto) && |s| >= (if l.v4 then 0x1_0000 else 0x1_0000_0000) then frame
        else frame[..Min(14, |frame|)] + h + SealSegment(l, h, s)
  }

  /** `build_modified_packet`. An exception of the source (a missing byte, an address or port that does
      not fit) returns the frame as it is. What the branches that change the IP version build is
      left open. */
  method BuildModifiedPacket(frame: seq<byte>, t: Target) returns (out: seq<byte>)
    ensures !CrossFamily(Payload(frame), t) ==> out == Rewrite(frame, t)
  {
    hide Splice, Checksum, PutBE16, PutBE32;
    if CrossFamily(Payload(frame), t) {
      out := *;
      return;
    }
    var payload := frame[Min(14, |frame|)..];
    if |payload| == 0 {
      return frame;
    }
    var version := payload[0] / 16;
    if version == 4 && t.Has(4) {
      out := BuildV4(frame, t);
    } else if version == 6 && t.Has(16) {
      out := BuildV6(frame, t);
    } else {
      out := frame;
    }
  }

  /** The branch from IPv4 to IPv4. */
  method BuildV4(frame: seq<byte>, t: Target) returns (out: seq<byte>)
    requires |Payload(frame)| > 0 && Payload(frame)[0] / 16 == 4 && t.Has(4)
    ensures out == Rewrite(frame, t)
  {
    hide Splice, Checksum, PutBE16, PutBE32, SealInPlace, Seal, PutPorts;
    var ethHeader := Slice(frame, 0, 14);
    var payload := frame[Min(14, |frame|)..];
    var ihl := payload[0] % 16 * 4;
    var ipHeader := Slice(payload, 0, ihl);
    var transFull := payload[Min(ihl, |payload|)..];
    if |ipHeader| <= 9 || !t.Only(4) {
      return frame;
    }
    var proto := ipHeader[9];
    if t.src.Some? {
      ipHeader := Splice(ipHeader, 12, 16, t.src.value);
    }
    if t.dst.Some? {
      ipHeader := Splice(ipHeader, 16, 20, t.dst.value);
    }
    if HasPorts(proto) {
      if !t.PortsFit() {
        return frame;
      }
      transFull := BuildTransport(transFull, t);
    }
    ipHeader := SealHeader(ipHeader);
    if HasPorts(proto) {
      if |transFull| >= 0x1_0000 {
        return frame;
      }
      var pseudo := Slice(ipHeader, 12, 20) + [0, proto] + PutBE16(|transFull|);
      transFull := SealTransport(pseudo, proto, transFull);
    } else if proto == ICMP {
      transFull := BuildIcmp(transFull);
    }
    out := ethHeader + ipHeader + transFull;
  }

  /** The branch from IPv6 to IPv6. */
  method BuildV6(frame: seq<byte>, t: Target) returns (out: seq<byte>)
    requires |Payload(frame)| > 0 && Payload(frame)[0] / 16 == 6 && t.Has(16)
    ensures out == Rewrite(frame, t)
  {
    hide Splice, Checksum, PutBE16, PutBE32, SealInPlace, Seal, PutPorts;
    var ethHeader := Slice(frame, 0, 14);
    var payload := frame[Min(14, |frame|)..];
    var ip6Header := Slice(payload, 0, 40);
    var transFull := payload[Min(40, |payload|)..];
    if |ip6Header| <= 6 || !t.Only(16) {
      return frame;
    }
    var nextHeader := ip6Header[6];
    if t.src.Some? {
      ip6Header := Splice(ip6Header, 8, 24, t.src.value);
    }
    if t.dst.Some? {
      ip6Header := Splice(ip6Header, 24, 40, t.dst.value);
    }
    if HasPorts(nextHeader) {
      if !t.PortsFit() {
        return frame;
      }
      transFull := BuildTransport(transFull, t);
      if |transFull| >= 0x1_0000_0000 {
        return frame;
      }
      var pseudo := Slice(ip6Header, 8, 24) + Slice(ip6Header, 24, 40) + PutBE32(|transFull|) + [0, 0, 0, nextHeader];
      transFull := SealTransport(pseudo, nextHeader, transFull);
    } else if nextHeader == ICMP6 {
      transFull := BuildIcmp(transFull);
    }
    out := ethHeader + ip6Header + transFull;
  }

  /** Recompute the TCP or UDP checksum; SCTP is left as it is. */
  method SealTransport(pseudo: seq<byte>, proto: byte, segment: seq<byte>) returns (transFull: seq<byte>)
    ensures transFull == if proto == TCP then Seal(pseudo, segment, 16)
                         else if proto == UDP then Seal(pseudo, segment, 6)
                         else segment
  {
    transFull := segment;
    if proto == TCP {
      transFull := Splice(transFull, 16, 18, [0, 0]);
      transFull := Splice(transFull, 16, 18, PutBE16(Checksum(pseudo + transFull)));
    } else if proto == UDP {
      transFull := Splice(transFull, 6, 8, [0, 0]);
      transFull := Splice(transFull, 6, 8, PutBE16(Checksum(pseudo + transFull)));
    }
  }

  /** The IPv4 header checksum; a header cut off at an odd length grows. */
  method SealHeader(header: seq<byte>) returns (ipHeader: seq<byte>)
    ensures ipHeader == SealInPlace(header, 10)
  {
    ipHeader := Splice(header, 10, 12, [0, 0]);
    var c;
    c, ipHeader := ChecksumInPlace(ipHeader);
    ipHeader := Splice(ipHeader, 10, 12, PutBE16(c));
  }

  method BuildTransport(ipPayload: seq<byte>, t: Target) returns (transFull: seq<byte>)
    requires t.PortsFit()
    ensures transFull == PutPorts(ipPayload, t)
  {
    var transHeader := Slice(ipPayload, 0, 4);
    if t.sport.Some? {
      transHeader := Splice(transHeader, 0, 2, PutBE16(t.sport.value));
    }
    if t.dport.Some? {
      transHeader := Splice(transHeader, 2, 4, PutBE16(t.dport.value));
    }
    transFull := transHeader + ipPayload[Min(4, |ipPayload|)..];
  }

  /** ICMP and ICMPv6 alike: the checksum covers the message only, and an odd message grows. */
  method BuildIcmp(message: seq<byte>) returns (transFull: seq<byte>)
    ensures transFull == SealInPlace(message, 2)
  {
    transFull := Splice(message, 2, 4, [0, 0]);
    var c;
    c, transFull := ChecksumInPlace(transFull);
    transFull := Splice(transFull, 2, 4, PutBE16(c));
  }

  /** A receiver that takes the first `n` bytes of `s` behind the pseudo-header `pre` accepts them. */
  predicate Accepted(pre: seq<byte>, s: seq<byte>, n: nat) {
    n <= |s| && Checksum(pre + s[..n]) == 0
  }

  /** The 16-bit field at `k` has the value `w`. */
  predicate Holds(s: seq<byte>, k: nat, w: nat) {
    k + 2 <= |s| && BE16(s, k) == w
  }

  // ------------------------------------------------------------- what a rewritten frame is

  /** An untagged TCP or UDP frame with a complete header, and a target that names all four fields. */
  predicate Well(frame: seq<byte>, t: Target) {
    var p := Payload(frame);
    var l := LayoutOf(p);
    && |frame| >= 14 && l.Some? && (l.value.v4 ==> l.value.hdr >= 20) && l.value.hdr <= |p|
    && (l.value.proto == TCP || l.value.proto == UDP)
    && FieldAt(l.value.proto) + 2 <= |p| - l.value.hdr < 0x1_0000
    && t.src.Some? && t.dst.Some? && t.Only(l.value.alen)
    && t.sport.Some? && t.dport.Some? && t.PortsFit()
  }

  /** Offset of the transport checksum in its segment. */
  function FieldAt(proto: byte): nat {
    if proto == TCP then 16 else 6
  }

  function HeaderOf(frame: seq<byte>): seq<byte> {
    var l := LayoutOf(Payload(frame));
    Slice(Payload(frame), 0, if l.Some? then l.value.hdr else 0)
  }

  function SegmentOf(frame: seq<byte>): seq<byte> {
    var l := LayoutOf(Payload(frame));
    Payload(frame)[Min(if l.Some? then l.value.hdr else 0, |Payload(frame)|)..]
  }

  lemma Sealed(pre: seq<byte>, s: seq<byte>, k: nat)
    requires |pre| % 2 == 0 && k % 2 == 0 && k + 2 <= |s| && |pre| + |s| <= 131076
    ensures Checksum(pre + Seal(pre, s, k)) == 0
    ensures Seal(pre, s, k) == s[..k] + PutBE16(Checksum(pre + (s[..k] + [0, 0] + s[k + 2..]))) + s[k + 2..]
  {
    hide Checksum, PutBE16;
    var z := s[..k] + [0, 0] + s[k + 2..];
    var c := Checksum(pre + z);
    assert pre + z == (pre + s[..k]) + [0, 0] + s[k + 2..];
    FieldVerifies(pre + s[..k], s[k + 2..], c);
    assert z[..k] == s[..k] && z[k + 2..] == s[k + 2..];
    assert pre + Seal(pre, s, k) == (pre + s[..k]) + PutBE16(c) + s[k + 2..];
  }

  /** Sealing in place is sealing the padded bytes. */
  lemma SealedInPlace(s: seq<byte>, k: nat)
    requires k + 2 <= |s|
    ensures SealInPlace(s, k) == Seal([], Padded(s), k)
  {
    hide Checksum, PutBE16;
    var z := Splice(Padded(s), k, k + 2, [0, 0]);
    assert [] + z == z == Padded(Splice(s, k, k + 2, [0, 0]));
  }

  lemma AddressesPut(h: seq<byte>, l: Layout, t: Target)
    requires t.src.Some? && t.dst.Some? && t.Only(l.alen) && l.at + 2 * l.alen <= |h|
    ensures PutAddresses(h, l, t) == h[..l.at] + t.src.value + t.dst.value + h[l.at + 2 * l.alen..]
    ensures |PutAddresses(h, l, t)| == |h|
    ensures PutAddresses(h, l, t)[l.at..l.at + l.alen] == t.src.value
    ensures PutAddresses(h, l, t)[l.at + l.alen..l.at + 2 * l.alen] == t.dst.value
    ensures forall i :: 0 <= i < |h| && !(l.at <= i < l.at + 2 * l.alen) ==> PutAddresses(h, l, t)[i] == h[i]
  {
    var h1 := h[..l.at] + t.src.value + h[l.at + l.alen..];
    assert Splice(h, l.at, l.at + l.alen, t.src.value) == h1;
    assert h1[..l.at + l.alen] == h[..l.at] + t.src.value && h1[l.at + 2 * l.alen..] == h[l.at + 2 * l.alen..];
  }

  lemma SealTouches(pre: seq<byte>, s: seq<byte>, k: nat)
    requires k + 2 <= |s|
    ensures |Seal(pre, s, k)| == |s|
    ensures forall i :: 0 <= i < |s| && !(k <= i < k + 2) ==> Seal(pre, s, k)[i] == s[i]
    ensures forall i, j :: k + 2 <= i <= j <= |s| ==> Seal(pre, s, k)[i..j] == s[i..j]
  {
    hide Checksum, PutBE16;
  }

  lemma PortsPut(s: seq<byte>, t: Target)
    requires t.sport.Some? && t.dport.Some? && t.PortsFit() && |s| >= 4
    ensures PutPorts(s, t) == PutBE16(t.sport.value) + PutBE16(t.dport.value) + s[4..]
  {
    hide PutBE16;
  }

  /** The header has its new addresses and verifies, and is otherwise unchanged. */
  lemma HeaderRewritten(h: seq<byte>, l: Layout, t: Target)
    requires l == Layout(true, |h|, 12, 4, l.proto) || l == Layout(false, 40, 8, 16, l.proto)
    requires l.hdr == |h| >= 20 && |h| <= 60 && |h| % 2 == 0
    requires t.src.Some? && t.dst.Some? && t.Only(l.alen)
    ensures var r := NewHeader(h, l, t);
            && |r| == |h| && (l.v4 ==> Checksum(r) == 0)
            && r[l.at..l.at + l.alen] == t.src.value && r[l.at + l.alen..l.at + 2 * l.alen] == t.dst.value
            && (forall i :: 0 <= i < |h| && !(l.at <= i < l.at + 2 * l.alen) && !(l.v4 && 10 <= i < 12) ==> r[i] == h[i])
  {
    hide Checksum, PutBE16, Seal, SealInPlace, PutAddresses;
    AddressesPut(h, l, t);
    var a := PutAddresses(h, l, t);
    if l.v4 {
      SealedInPlace(a, 10);
      Sealed([], a, 10);
      assert [] + Seal([], a, 10) == Seal([], a, 10);
      SealTouches([], a, 10);
    }
  }

  /** The segment has its new ports and verifies behind the pseudo-header, and is otherwise unchanged. */
  lemma SegmentRewritten(pre: seq<byte>, s: seq<byte>, proto: byte, t: Target)
    requires proto == TCP || proto == UDP
    requires |pre| <= 40 && |pre| % 2 == 0 && FieldAt(proto) + 2 <= |s| < 0x1_0000
    requires t.sport.Some? && t.dport.Some? && t.PortsFit()
    ensures var r := Seal(pre, PutPorts(s, t), FieldAt(proto));
            && |r| == |s| && Checksum(pre + r) == 0
            && BE16(r, 0) == t.sport.value && BE16(r, 2) == t.dport.value
            && (forall i :: 4 <= i < |s| && !(FieldAt(proto) <= i < FieldAt(proto) + 2) ==> r[i] == s[i])
  {
    hide Checksum;
    PortsPut(s, t);
    Sealed(pre, PutPorts(s, t), FieldAt(proto));
  }

  lemma SegmentLength(s: seq<byte>, t: Target)
    requires t.sport.Some? && t.dport.Some? && t.PortsFit() && |s| >= 4
    ensures |PutPorts(s, t)| == |s|
  {
    PortsPut(s, t);
  }

  /** A rewritten frame is its Ethernet header, the new IP header and the new segment. */
  lemma RewriteParts(frame: seq<byte>, t: Target)
    requires Well(frame, t)
    ensures var l := LayoutOf(Payload(frame)).value;
            var h, s := NewHeader(HeaderOf(frame), l, t), SegmentOf(frame);
            && |h| == l.hdr
            && Rewrite(frame, t) == frame[..14] + h + Seal(Pseudo(l.v4, h, l.proto, |s|), PutPorts(s, t), FieldAt(l.proto))
  {
    hide Checksum, PutBE16, Seal, SealInPlace, Pseudo, PutAddresses, PutPorts;
    var l := LayoutOf(Payload(frame)).value;
    HeaderRewritten(HeaderOf(frame), l, t);
    SegmentLength(SegmentOf(frame), t);
  }

  /** What `Well` says of header, segment and target. */
  lemma WellShape(frame: seq<byte>, t: Target)
    requires Well(frame, t)
    ensures LayoutOf(Payload(frame)).Some?
    ensures var l, h, s := LayoutOf(Payload(frame)).value, HeaderOf(frame), SegmentOf(frame);
            && (l == Layout(true, |h|, 12, 4, l.proto) || l == Layout(false, 40, 8, 16, l.proto))
            && l.hdr == |h| && 20 <= |h| <= 60 && |h| % 2 == 0
            && (l.proto == TCP || l.proto == UDP) && FieldAt(l.proto) + 2 <= |s| < 0x1_0000
            && t.src.Some? && t.dst.Some? && t.Only(l.alen) && t.sport.Some? && t.dport.Some? && t.PortsFit()
            && |frame| == 14 + |h| + |s|
  {
  }

  /** The parts of a rewritten frame. */
  lemma RewriteSplit(frame: seq<byte>, t: Target)
    requires Well(frame, t)
    ensures var l := LayoutOf(Payload(frame)).value;
            var h, s := NewHeader(HeaderOf(frame), l, t), SegmentOf(frame);
            var out := Rewrite(frame, t);
            && HeaderOf(out) == h && |h| == l.hdr && |out| == |frame| && LayoutOf(Payload(out)) == Some(l)
            && SegmentOf(out) == Seal(Pseudo(l.v4, h, l.proto, |s|), PutPorts(s, t), FieldAt(l.proto))
            && ParseIp(Payload(out)) == Some(IpInfo(l.v4, t.src.value, t.dst.value, l.proto, SegmentOf(out)))
  {
    hide Checksum, PutBE16, Seal, PutPorts, PutAddresses, Rewrite, NewHeader, Pseudo;
    var l := LayoutOf(Payload(frame)).value;
    var h, s := NewHeader(HeaderOf(frame), l, t), SegmentOf(frame);
    RewriteParts(frame, t);
    HeaderRewritten(HeaderOf(frame), l, t);
    SegmentRewritten(Pseudo(l.v4, h, l.proto, |s|), s, l.proto, t);
    SplitParts(Rewrite(frame, t), frame[..14], l, h, Seal(Pseudo(l.v4, h, l.proto, |s|), PutPorts(s, t), FieldAt(l.proto)));
  }

  /** After a same-family rewrite of a TCP or UDP frame both checksums verify (of an IP fragment the second
      is not the one that counts, see `ReassembledVerifies`), the parsers of the replayer
      read back exactly the target, and the length is unchanged. */
  lemma RewriteVerifies(frame: seq<byte>, t: Target)
    requires Well(frame, t)
    ensures var l := LayoutOf(Payload(frame)).value;
            var out := Rewrite(frame, t);
            var p := Payload(out);
            && |out| == |frame| && LayoutOf(p) == Some(l)
            && ParseIp(p) == Some(IpInfo(l.v4, t.src.value, t.dst.value, l.proto, SegmentOf(out)))
            && ParseTransport(l.proto, SegmentOf(out))
            == Some(PortInfo(t.sport.value, t.dport.value, Flags(l.proto, SegmentOf(frame))))
            && (l.v4 ==> Checksum(HeaderOf(out)) == 0)
            && Checksum(PseudoFor(l, HeaderOf(out), |SegmentOf(out)|) + SegmentOf(out)) == 0
            && Checksum(StandardPseudo(IpInfo(l.v4, t.src.value, t.dst.value, l.proto, SegmentOf(out))) + SegmentOf(out)) == 0
            && DeclaredLength(l, HeaderOf(out)) == DeclaredLength(l, HeaderOf(frame))
  {
    hide Checksum, PutBE16, Seal, PutPorts, PutAddresses, Rewrite, NewHeader, Pseudo, StandardPseudo;
    hide HeaderOf, SegmentOf, LayoutOf, ParseIp, Well;
    WellShape(frame, t);
    var l := LayoutOf(Payload(frame)).value;
    var h, s := NewHeader(HeaderOf(frame), l, t), SegmentOf(frame);
    RewriteSplit(frame, t);
    HeaderRewritten(HeaderOf(frame), l, t);
    SegmentRewritten(Pseudo(l.v4, h, l.proto, |s|), s, l.proto, t);
    StandardIsPseudo(IpInfo(l.v4, t.src.value, t.dst.value, l.proto, SegmentOf(Rewrite(frame, t))), h, l);
  }

  /** The pseudo-header the standards define, from the fields of the parsed packet (RFC 9293 section 3.1, RFC 8200
      section 8.1). */
  function StandardPseudo(ip: IpInfo): seq<byte> {
    if |ip.rest| >= 0x1_0000 then []
    else if ip.v4 then ip.src + ip.dst + [0, ip.proto] + PutBE16(|ip.rest|)
    else ip.src + ip.dst + PutBE32(|ip.rest|) + [0, 0, 0, ip.proto]
  }

  lemma StandardIsPseudo(ip: IpInfo, h: seq<byte>, l: Layout)
    requires |h| == l.hdr >= 20 && |ip.rest| < 0x1_0000
    requires if l.v4 then l.at == 12 && l.alen == 4 else l.at == 8 && l.alen == 16 && l.hdr == 40
    requires ip == IpInfo(l.v4, h[l.at..l.at + l.alen], h[l.at + l.alen..l.at + 2 * l.alen], l.proto, ip.rest)
    ensures StandardPseudo(ip) == Pseudo(l.v4, h, l.proto, |ip.rest|)
  {
    hide PutBE16, PutBE32;
    if l.v4 {
      assert h[12..16] + h[16..20] == Slice(h, 12, 20);
    }
  }

  /** Header and segment of a frame that is given in three parts. */
  lemma SplitParts(frame: seq<byte>, eth: seq<byte>, l: Layout, h: seq<byte>, s: seq<byte>)
    requires frame == eth + h + s && |eth| == 14 && |h| == l.hdr >= 20
    requires if l.v4 then l.at == 12 && l.alen == 4 && h[0] / 16 == 4 && h[0] % 16 * 4 == l.hdr && h[9] == l.proto
             else l.at == 8 && l.alen == 16 && l.hdr == 40 && h[0] / 16 == 6 && h[6] == l.proto
    ensures LayoutOf(Payload(frame)) == Some(l) && frame[..14] == eth
    ensures HeaderOf(frame) == h && SegmentOf(frame) == s
    ensures ParseIp(Payload(frame))
         == Some(IpInfo(l.v4, h[l.at..l.at + l.alen], h[l.at + l.alen..l.at + 2 * l.alen], l.proto, s))
  {
    assert Payload(frame) == h + s;
    assert (h + s)[..|h|] == h && (h + s)[|h|..] == s;
    assert (h + s)[l.at..l.at + l.alen] == h[l.at..l.at + l.alen];
    assert (h + s)[l.at + l.alen..l.at + 2 * l.alen] == h[l.at + l.alen..l.at + 2 * l.alen];
  }

  /** The transport length a receiver takes from the IP header. */
  function DeclaredLength(l: Layout, h: seq<byte>): int {
    if |h| < 6 then 0 else if l.v4 then BE16(h, 2) - l.hdr else BE16(h, 4)
  }

  /** What the sum of a segment loses when only its first `n` bytes are counted. */
  function PadSum(s: seq<byte>, n: nat): nat
    requires n < |s|
  {
    if n % 2 == 0 then WordSum(s[n..]) else s[n] + WordSum(s[n + 1..])
  }

  lemma PseudoSum(v4: bool, h: seq<byte>, proto: byte, n: nat)
    requires |h| >= 40 || (v4 && |h| >= 20)
    requires n < 0x1_0000
    ensures |Pseudo(v4, h, proto, n)| % 2 == 0
    ensures WordSum(Pseudo(v4, h, proto, n)) == WordSum(Pseudo(v4, h, proto, 0)) + n
  {
    if v4 {
      var a := Slice(h, 12, 20) + [0, proto];
      assert Pseudo(v4, h, proto, n) == a + PutBE16(n) + [];
      assert Pseudo(v4, h, proto, 0) == a + PutBE16(0) + [];
      PseudoTail(a, n, []);
      PseudoTail(a, 0, []);
    } else {
      var a := Slice(h, 8, 24) + Slice(h, 24, 40) + [0, 0];
      assert PutBE32(n) == [0, 0] + PutBE16(n) && PutBE32(0) == [0, 0] + PutBE16(0);
      assert Pseudo(v4, h, proto, n) == a + PutBE16(n) + [0, 0, 0, proto];
      assert Pseudo(v4, h, proto, 0) == a + PutBE16(0) + [0, 0, 0, proto];
      PseudoTail(a, n, [0, 0, 0, proto]);
      PseudoTail(a, 0, [0, 0, 0, proto]);
    }
  }

  lemma PseudoTail(a: seq<byte>, n: nat, b: seq<byte>)
    requires |a| % 2 == 0 && n < 0x1_0000
    ensures WordSum(a + PutBE16(n) + b) == WordSum(a) + n + WordSum(b)
  {
    FieldSum(a, b, n);
  }

  lemma {:induction false} PadSumLost(s: seq<byte>, n: nat)
    requires n < |s|
    ensures WordSum(s) == WordSum(s[..n]) + PadSum(s, n)
    decreases n
  {
    if n == 0 {
      assert s[n..] == s;
    } else if n == 1 {
      if |s| == 2 {
        assert s[2..] == [];
      }
    } else {
      PadSumLost(s[2..], n - 2);
      PadSumShift(s, n);
      assert s[..n][2..] == s[2..][..n - 2];
    }
  }

  lemma PadSumShift(s: seq<byte>, n: nat)
    requires 2 <= n < |s|
    ensures PadSum(s[2..], n - 2) == PadSum(s, n)
  {
    hide WordSum;
    assert s[2..][n - 2..] == s[n..] && s[2..][n - 1..] == s[n + 1..];
  }

  /** The checksum covers every byte behind the IP header, and so does the length in the pseudo-header. If
      the packet ends after `n` bytes and the rest is Ethernet padding, a receiver accepts the
      segment exactly when the padding and its length happen to sum to a multiple of 65535. */
  lemma PaddedVerifies(v4: bool, h: seq<byte>, proto: byte, s: seq<byte>, n: nat)
    requires |h| >= 40 || (v4 && |h| >= 20)
    requires proto > 0 && n < |s| < 0x1_0000
    requires Checksum(Pseudo(v4, h, proto, |s|) + s) == 0
    ensures Checksum(Pseudo(v4, h, proto, n) + s[..n]) == 0 <==> (|s| - n + PadSum(s, n)) % 0xFFFF == 0
  {
    hide Checksum, WordSum, PadSum, Pseudo;
    var p, q := Pseudo(v4, h, proto, |s|), Pseudo(v4, h, proto, n);
    PseudoSum(v4, h, proto, |s|);
    PseudoSum(v4, h, proto, n);
    PadSumLost(s, n);
    WordSumAppend(p, s);
    WordSumAppend(q, s[..n]);
    PseudoLength(v4, h, proto, |s|);
    PseudoLength(v4, h, proto, n);
    ChecksumCorrect(p + s);
    ChecksumCorrect(q + s[..n]);
    LessSum(WordSum(q + s[..n]), |s| - n + PadSum(s, n));
  }

  /** The same for a rewritten frame whose IP header says that the segment has `n` bytes. */
  lemma PaddedFrame(frame: seq<byte>, t: Target, n: nat)
    requires Well(frame, t)
    requires FieldAt(LayoutOf(Payload(frame)).value.proto) + 2 <= n < |SegmentOf(frame)|
    ensures var l := LayoutOf(Payload(frame)).value;
            var out := Rewrite(frame, t);
            Accepted(PseudoFor(l, HeaderOf(out), n), SegmentOf(out), n)
            <==> (|SegmentOf(frame)| - n + PadSum(SegmentOf(frame), n)) % 0xFFFF == 0
  {
    hide Checksum, PutBE16, Seal, PutPorts, PutAddresses, Rewrite, NewHeader, Pseudo, PadSum, PseudoFor, Accepted;
    var l := LayoutOf(Payload(frame)).value;
    var h, s := NewHeader(HeaderOf(frame), l, t), SegmentOf(frame);
    RewriteSplit(frame, t);
    var pre := Pseudo(l.v4, h, l.proto, |s|);
    SegmentRewritten(pre, s, l.proto, t);
    PaddedSegment(l, h, s, Seal(pre, PutPorts(s, t), FieldAt(l.proto)), n);
  }

  lemma PaddedSegment(l: Layout, h: seq<byte>, s: seq<byte>, s': seq<byte>, n: nat)
    requires |h| >= 40 || (l.v4 && |h| >= 20)
    requires (l.proto == TCP || l.proto == UDP) && FieldAt(l.proto) + 2 <= n < |s| == |s'| < 0x1_0000
    requires forall i :: 4 <= i < |s| && !(FieldAt(l.proto) <= i < FieldAt(l.proto) + 2) ==> s'[i] == s[i]
    requires Checksum(Pseudo(l.v4, h, l.proto, |s|) + s') == 0
    ensures Accepted(PseudoFor(l, h, n), s', n) <==> (|s| - n + PadSum(s, n)) % 0xFFFF == 0
  {
    hide Checksum, Pseudo, PadSum;
    assert s'[n..] == s[n..];
    PaddedVerifies(l.v4, h, l.proto, s', n);
    SamePadding(s, s', n);
  }

  lemma SamePadding(s: seq<byte>, s': seq<byte>, n: nat)
    requires n < |s| == |s'| && s[n..] == s'[n..]
    ensures PadSum(s, n) == PadSum(s', n)
  {
    assert s[n] == s[n..][0] == s'[n..][0] == s'[n];
    assert s[n + 1..] == s[n..][1..] == s'[n + 1..];
  }

  /** Padding with zeros, as network cards do, never verifies. */
  lemma ZeroPaddingRefused(frame: seq<byte>, t: Target, n: nat)
    requires Well(frame, t)
    requires FieldAt(LayoutOf(Payload(frame)).value.proto) + 2 <= n < |SegmentOf(frame)|
    requires forall i :: n <= i < |SegmentOf(frame)| ==> SegmentOf(frame)[i] == 0
    ensures var l := LayoutOf(Payload(frame)).value;
            var out := Rewrite(frame, t);
            !Accepted(PseudoFor(l, HeaderOf(out), n), SegmentOf(out), n)
  {
    hide Rewrite, Accepted, PseudoFor, HeaderOf, PadSum, SegmentOf, LayoutOf, Well;
    WellLength(frame, t);
    PaddedFrame(frame, t, n);
    ZeroPadding(SegmentOf(frame), n);
  }

  lemma WellLength(frame: seq<byte>, t: Target)
    requires Well(frame, t)
    ensures |SegmentOf(frame)| < 0x1_0000
  {
  }

  lemma ZeroPadding(s: seq<byte>, n: nat)
    requires 8 <= n < |s| < 0x1_0000 && forall i :: n <= i < |s| ==> s[i] == 0
    ensures (|s| - n + PadSum(s, n)) % 0xFFFF != 0
  {
    hide WordSum;
    WordSumZeros(s[n..]);
    WordSumZeros(s[n + 1..]);
  }

  /** The shortest Ethernet frame with a UDP datagram of 8 bytes, which 18 zeros follow. */
  function ShortUdp(): seq<byte> {
    [0, 0, 0, 0, 0, 1, 0, 0, 0, 0, 0, 2, 8, 0] + ShortHeader() + ShortSegment()
  }

  function ShortHeader(): seq<byte> {
    [69, 0, 0, 28, 0, 0, 0, 0, 64, 17, 0, 0, 10, 0, 0, 7, 10, 0, 0, 8]
  }

  function ShortSegment(): seq<byte> {
    [0, 9, 0, 9, 0, 8, 0, 0] + seq(18, _ => 0 as byte)
  }

  lemma ShortUdpParts()
    ensures |ShortUdp()| == 60 && |Payload(ShortUdp())| == 46
    ensures LayoutOf(Payload(ShortUdp())) == Some(Layout(true, 20, 12, 4, UDP))
    ensures HeaderOf(ShortUdp()) == ShortHeader() && SegmentOf(ShortUdp()) == ShortSegment()
    ensures ParseIp(Payload(ShortUdp())).Some?
  {
    hide LayoutOf, HeaderOf, SegmentOf, ParseIp;
    var eth: seq<byte> := [0, 0, 0, 0, 0, 1, 0, 0, 0, 0, 0, 2, 8, 0];
    SplitParts(ShortUdp(), eth, Layout(true, 20, 12, 4, UDP), ShortHeader(), ShortSegment());
  }

  lemma ShortUdpWell(t: Target)
    requires t.src.Some? && t.dst.Some? && t.Only(4) && t.sport.Some? && t.dport.Some? && t.PortsFit()
    ensures |ShortUdp()| == 60 && Well(ShortUdp(), t)
    ensures LayoutOf(Payload(ShortUdp())) == Some(Layout(true, 20, 12, 4, UDP))
    ensures DeclaredLength(Layout(true, 20, 12, 4, UDP), HeaderOf(ShortUdp())) == 8
    ensures |SegmentOf(ShortUdp())| == 26 && forall i :: 8 <= i < 26 ==> SegmentOf(ShortUdp())[i] == 0
  {
    hide ShortUdp, LayoutOf, HeaderOf, SegmentOf, ParseIp, Payload;
    ShortUdpParts();
  }

  /** Rewritten to whatever addresses and ports, no receiver accepts it. */
  lemma PaddedUdpRefused(t: Target)
    requires t.src.Some? && t.dst.Some? && t.Only(4) && t.sport.Some? && t.dport.Some? && t.PortsFit()
    ensures Well(ShortUdp(), t)
    ensures var l, out := Layout(true, 20, 12, 4, UDP), Rewrite(ShortUdp(), t);
            && DeclaredLength(l, HeaderOf(ShortUdp())) == 8
            && !Accepted(PseudoFor(l, HeaderOf(out), 8), SegmentOf(out), 8)
  {
    hide Rewrite, Accepted, PseudoFor, ShortUdp, Well, SegmentOf, HeaderOf, LayoutOf;
    ShortUdpWell(t);
    ZeroPaddingRefused(ShortUdp(), t, 8);
  }

  lemma PseudoLength(v4: bool, h: seq<byte>, proto: byte, n: nat)
    requires |h| >= 40 || (v4 && |h| >= 20)
    requires proto > 0 && n < 0x1_0000
    ensures |Pseudo(v4, h, proto, n)| <= 40 && WordSum(Pseudo(v4, h, proto, n)) > 0
  {
    PseudoSum(v4, h, proto, n);
    if v4 {
      var a := Slice(h, 12, 20) + [0, proto];
      assert Pseudo(v4, h, proto, 0) == a + PutBE16(0) + [];
      PseudoTail(a, 0, []);
      WordSumAppend(Slice(h, 12, 20), [0, proto]);
      assert [0, proto][2..] == [];
    } else {
      var a := Slice(h, 8, 24) + Slice(h, 24, 40) + PutBE32(0);
      WordSumAppend(a, [0, 0, 0, proto]);
      assert [0, 0, 0, proto][2..] == [0, proto] && [0, proto][2..] == [];
    }
  }

  lemma LessSum(a: nat, x: nat)
    requires a > 0 && Residue(a + x) == 0xFFFF
    ensures Residue(a) == 0xFFFF <==> x % 0xFFFF == 0
  {
    assert (a + x) % 0xFFFF == 0;
    assert Residue(a) == 0xFFFF <==> a % 0xFFFF == 0;
    assert x % 0xFFFF == 0 <==> a % 0xFFFF == 0;
  }

  /** The bytes a rewrite may change: addresses, ports and checksums. */
  predicate Touched(l: Layout, i: int) {
    || 14 + l.at <= i < 14 + l.at + 2 * l.alen
    || (l.v4 && 24 <= i < 26)
    || 14 + l.hdr <= i < 14 + l.hdr + 4
    || 14 + l.hdr + FieldAt(l.proto) <= i < 14 + l.hdr + FieldAt(l.proto) + 2
  }

  /** Byte by byte. Of an IP fragment the segment is only a part, see `DataKept`. */
  lemma RewriteTouches(frame: seq<byte>, t: Target)
    requires Well(frame, t)
    ensures |Rewrite(frame, t)| == |frame|
    ensures forall i :: 0 <= i < |frame| && !Touched(LayoutOf(Payload(frame)).value, i) ==> Rewrite(frame, t)[i] == frame[i]
  {
    hide Checksum, PutBE16, Seal, PutPorts, PutAddresses, Rewrite;
    var l := LayoutOf(Payload(frame)).value;
    var h, s := NewHeader(HeaderOf(frame), l, t), SegmentOf(frame);
    RewriteParts(frame, t);
    HeaderRewritten(HeaderOf(frame), l, t);
    SegmentRewritten(Pseudo(l.v4, h, l.proto, |s|), s, l.proto, t);
    assert frame == frame[..14] + HeaderOf(frame) + s;
  }

  // ------------------------------------------------------------- fragments

  /** The offset of an IPv4 fragment, in units of eight bytes (RFC 791 section 3.1). The rewrite does not look at it. */
  function FragmentOffset(frame: seq<byte>): nat {
    var p := Payload(frame);
    if |p| < 8 || p[0] / 16 != 4 then 0 else p[6] as int % 32 * 256 + p[7] as int
  }

  /** The user data in the segment of a frame: of a first fragment all but ports and checksum, of a later
      fragment everything. */
  function Data(frame: seq<byte>): seq<byte> {
    var l, s := LayoutOf(Payload(frame)), SegmentOf(frame);
    if l.None? || FragmentOffset(frame) > 0 then s
    else
      var k := FieldAt(l.value.proto);
      Slice(s, 4, k) + s[Min(k + 2, |s|)..]
  }

  /** The segment of a later fragment already has these ports, and this checksum, at its beginning. */
  predicate SameFields(pre: seq<byte>, s: seq<byte>, k: nat, t: Target)
    requires 4 <= k && k + 2 <= |s|
  {
    Some(BE16(s, 0)) == t.sport && Some(BE16(s, 2)) == t.dport && BE16(s, k) == Checksum(pre + (s[..k] + [0, 0] + s[k + 2..]))
  }

  /** The rewrite keeps the user data if and only if the frame is no later fragment, or happens to have the
      bytes of the new ports and checksum where these are written. */
  lemma DataKept(frame: seq<byte>, t: Target)
    requires Well(frame, t)
    ensures var l, s := LayoutOf(Payload(frame)).value, SegmentOf(frame);
            Data(Rewrite(frame, t)) == Data(frame)
            <==> FragmentOffset(frame) == 0
                 || SameFields(Pseudo(l.v4, HeaderOf(Rewrite(frame, t)), l.proto, |s|), s, FieldAt(l.proto), t)
  {
    hide Checksum, PutBE16, Seal, PutPorts, PutAddresses, Rewrite, NewHeader, Pseudo, SameFields;
    hide HeaderOf, SegmentOf, LayoutOf, ParseIp, Well, FragmentOffset;
    WellShape(frame, t);
    var l := LayoutOf(Payload(frame)).value;
    var h, s := NewHeader(HeaderOf(frame), l, t), SegmentOf(frame);
    RewriteSplit(frame, t);
    RewriteKeepsOffset(frame, t);
    var pre := Pseudo(l.v4, h, l.proto, |s|);
    SegmentRewritten(pre, s, l.proto, t);
    SegmentSame(pre, s, FieldAt(l.proto), t);
    var r, k := Seal(pre, PutPorts(s, t), FieldAt(l.proto)), FieldAt(l.proto);
    assert r[4..k] == s[4..k] && r[k + 2..] == s[k + 2..];
  }

  lemma RewriteKeepsOffset(frame: seq<byte>, t: Target)
    requires Well(frame, t)
    ensures FragmentOffset(Rewrite(frame, t)) == FragmentOffset(frame)
  {
    hide Checksum, PutBE16, Seal, PutPorts, PutAddresses, Rewrite, NewHeader, Pseudo;
    var l := LayoutOf(Payload(frame)).value;
    var h, s := NewHeader(HeaderOf(frame), l, t), SegmentOf(frame);
    RewriteParts(frame, t);
    HeaderRewritten(HeaderOf(frame), l, t);
    SplitParts(Rewrite(frame, t), frame[..14], l, h, Seal(Pseudo(l.v4, h, l.proto, |s|), PutPorts(s, t), FieldAt(l.proto)));
    assert forall i :: 0 <= i < 8 ==> Payload(frame)[i] == HeaderOf(frame)[i];
    assert forall i :: 0 <= i < 8 ==> Payload(Rewrite(frame, t))[i] == h[i];
  }

  lemma SegmentSame(pre: seq<byte>, s: seq<byte>, k: nat, t: Target)
    requires |pre| <= 40 && |pre| % 2 == 0 && 4 <= k && k % 2 == 0 && k + 2 <= |s| < 0x1_0000
    requires t.sport.Some? && t.dport.Some? && t.PortsFit()
    ensures Seal(pre, PutPorts(s, t), k) == s <==> SameFields(pre, s, k, t)
  {
    hide Checksum, Seal, PutBE16, PutPorts;
    PortsSame(s, t);
    var q := PutPorts(s, t);
    Sealed(pre, q, k);
    var r := Seal(pre, q, k);
    assert r[..k] == q[..k];
    if r == s {
      assert q[..4] == q[..k][..4] == s[..k][..4] == s[..4];
    }
    if q == s {
      FieldSame(s, k, Checksum(pre + (s[..k] + [0, 0] + s[k + 2..])));
    }
  }

  lemma PortsSame(s: seq<byte>, t: Target)
    requires t.sport.Some? && t.dport.Some? && t.PortsFit() && |s| >= 4
    ensures var q := PutPorts(s, t);
            && |q| == |s| && (q[..4] == s[..4] ==> q == s)
            && (q == s <==> Some(BE16(s, 0)) == t.sport && Some(BE16(s, 2)) == t.dport)
  {
    hide PutBE16;
    PortsPut(s, t);
    var q := PutPorts(s, t);
    FieldBytes(s, 0, BE16(s, 0));
    FieldBytes(s, 2, BE16(s, 2));
    assert s == s[0..2] + s[2..4] + s[4..] && q[..4] + q[4..] == q && q[4..] == s[4..] && s[..4] + s[4..] == s;
    assert q[0..2] == PutBE16(t.sport.value) && q[2..4] == PutBE16(t.dport.value);
    assert BE16(q, 0) == BE16(q[0..2], 0) && BE16(q, 2) == BE16(q[2..4], 0);
  }

  lemma FieldSame(s: seq<byte>, k: nat, c: nat)
    requires k + 2 <= |s| && c < 0x1_0000
    ensures s[..k] + PutBE16(c) + s[k + 2..] == s <==> BE16(s, k) == c
  {
    hide PutBE16;
    var r := s[..k] + PutBE16(c) + s[k + 2..];
    assert BE16(r, k) == BE16(PutBE16(c), 0);
    FieldBytes(s, k, BE16(s, k));
    assert s == s[..k] + s[k..k + 2] + s[k + 2..];
  }

  lemma FieldBytes(s: seq<byte>, k: nat, w: nat)
    requires k + 2 <= |s| && BE16(s, k) == w
    ensures s[k..k + 2] == PutBE16(w)
  {
  }

  /** A later fragment of a UDP datagram, at offset 1480. */
  function LateFragment(): seq<byte> {
    [0, 0, 0, 0, 0, 1, 0, 0, 0, 0, 0, 2, 8, 0] + [69, 0, 0, 30, 0, 0, 0, 185, 64, 17, 0, 0, 10, 0, 0, 7, 10, 0, 0, 8]
    + [104, 101, 108, 108, 111, 111, 111, 111, 111, 111]
  }

  lemma LateFragmentWell(t: Target)
    requires t.src.Some? && t.dst.Some? && t.Only(4) && t.sport.Some? && t.dport.Some? && t.PortsFit()
    ensures Well(LateFragment(), t) && FragmentOffset(LateFragment()) == 185
    ensures LayoutOf(Payload(LateFragment())) == Some(Layout(true, 20, 12, 4, UDP))
    ensures SegmentOf(LateFragment()) == [104, 101, 108, 108, 111, 111, 111, 111, 111, 111]
  {
    hide ParseIp, HeaderOf, SegmentOf;
    var eth: seq<byte> := [0, 0, 0, 0, 0, 1, 0, 0, 0, 0, 0, 2, 8, 0];
    var h: seq<byte> := [69, 0, 0, 30, 0, 0, 0, 185, 64, 17, 0, 0, 10, 0, 0, 7, 10, 0, 0, 8];
    var s: seq<byte> := [104, 101, 108, 108, 111, 111, 111, 111, 111, 111];
    SplitParts(LateFragment(), eth, Layout(true, 20, 12, 4, UDP), h, s);
    assert Payload(LateFragment()) == h + s;
  }

  lemma NotSameFields(pre: seq<byte>, s: seq<byte>, t: Target)
    requires |s| == 10 && s[0] == 104 && t.sport == Some(1)
    ensures !SameFields(pre, s, 6, t)
  {
    assert BE16(s, 0) != 1;
  }

  /** Rewritten, its data are overwritten. */
  lemma FragmentOverwritten() returns (frame: seq<byte>, t: Target)
    ensures Well(frame, t) && FragmentOffset(frame) == 185 && Data(Rewrite(frame, t)) != Data(frame)
  {
    hide Rewrite, Data, Checksum, Pseudo, SameFields;
    frame, t := LateFragment(), Target(Some([10, 0, 0, 1]), Some([10, 0, 0, 2]), Some(1), Some(2));
    LateFragmentWell(t);
    DataKept(frame, t);
    NotSameFields(Pseudo(true, HeaderOf(Rewrite(frame, t)), UDP, 10), SegmentOf(frame), t);
  }

  /** A first fragment of even length, as fragments are, is sealed as if it were the whole datagram. With the
      rest `r` of the datagram behind it a receiver accepts it exactly when length and sum of the rest
      are a multiple of 65535 together. */
  lemma {:induction false} ReassembledVerifies(frame: seq<byte>, t: Target, r: seq<byte>)
    requires Well(frame, t) && |SegmentOf(frame)| % 2 == 0 && |SegmentOf(frame)| + |r| < 0x1_0000
    ensures var l, n := LayoutOf(Payload(frame)).value, |SegmentOf(frame)| + |r|;
            var out := Rewrite(frame, t);
            Accepted(PseudoFor(l, HeaderOf(out), n), SegmentOf(out) + r, n) <==> (|r| + WordSum(r)) % 0xFFFF == 0
  {
    hide Checksum, PutBE16, Seal, PutPorts, PutAddresses, Rewrite, NewHeader, Pseudo, WordSum;
    var l := LayoutOf(Payload(frame)).value;
    var h, s := NewHeader(HeaderOf(frame), l, t), SegmentOf(frame);
    RewriteSplit(frame, t);
    var pre := Pseudo(l.v4, h, l.proto, |s|);
    SegmentRewritten(pre, s, l.proto, t);
    var s' := Seal(pre, PutPorts(s, t), FieldAt(l.proto));
    assert (s' + r)[..|s| + |r|] == s' + r;
    Lengthened(l, h, s', r);
  }

  lemma Lengthened(l: Layout, h: seq<byte>, s: seq<byte>, r: seq<byte>)
    requires |h| >= 40 || (l.v4 && |h| >= 20)
    requires l.proto > 0 && |s| % 2 == 0 && |s| + |r| < 0x1_0000
    requires Checksum(Pseudo(l.v4, h, l.proto, |s|) + s) == 0
    ensures Checksum(Pseudo(l.v4, h, l.proto, |s| + |r|) + (s + r)) == 0 <==> (|r| + WordSum(r)) % 0xFFFF == 0
  {
    hide Checksum, WordSum, Pseudo;
    var p, q := Pseudo(l.v4, h, l.proto, |s|), Pseudo(l.v4, h, l.proto, |s| + |r|);
    PseudoSum(l.v4, h, l.proto, |s|);
    PseudoSum(l.v4, h, l.proto, |s| + |r|);
    PseudoLength(l.v4, h, l.proto, |s|);
    PseudoLength(l.v4, h, l.proto, |s| + |r|);
    WordSumAppend(p, s);
    WordSumAppend(q, s + r);
    WordSumAppend(s, r);
    ChecksumCorrect(p + s);
    ChecksumCorrect(q + (s + r));
    MoreSum(WordSum(p + s), |r| + WordSum(r));
  }

  lemma MoreSum(a: nat, x: nat)
    requires Residue(a) == 0xFFFF
    ensures Residue(a + x) == 0xFFFF <==> x % 0xFFFF == 0
  {
    assert a % 0xFFFF == 0;
    assert (a + x) % 0xFFFF == x % 0xFFFF;
  }

  // ------------------------------------------------------------- where the checksums are not those of the standards

  /** The UDP field is written as zero, which RFC 768 reserves for "no checksum", exactly when the sum of
      everything else is 65535; 65535, which it asks for instead, would verify as well. */
  lemma {:induction false} UdpZeroField(pre: seq<byte>, s: seq<byte>)
    requires |pre| <= 40 && |pre| % 2 == 0 && 8 <= |s| < 0x1_0000
    ensures BE16(Seal(pre, s, 6), 6) == 0 <==> OnesSum(pre + (s[..6] + [0, 0] + s[8..])) == 0xFFFF
    ensures BE16(Seal(pre, s, 6), 6) == 0 ==> Checksum(pre + (s[..6] + [255, 255] + s[8..])) == 0
  {
    hide Checksum, OnesSum, PutBE16, Seal;
    var z := s[..6] + [0, 0] + s[8..];
    Sealed(pre, s, 6);
    ChecksumCorrect(pre + z);
    assert pre + z == (pre + s[..6]) + [0, 0] + s[8..];
    FieldVerifies(pre + s[..6], s[8..], 0xFFFF);
    OnesField();
    assert pre + (s[..6] + [255, 255] + s[8..]) == (pre + s[..6]) + PutBE16(0xFFFF) + s[8..];
  }

  lemma OnesField()
    ensures PutBE16(0xFFFF) == [255, 255]
  {
  }

  /** A frame and a target for which that happens. */
  lemma ZeroUdpFrame() returns (frame: seq<byte>, t: Target)
    ensures Well(frame, t) && Holds(SegmentOf(Rewrite(frame, t)), 6, 0)
  {
    hide Checksum, PutBE16, Seal, SealInPlace, Rewrite, NewHeader, WordSum, OnesSum, Pseudo;
    var eth: seq<byte> := [0, 0, 0, 0, 0, 1, 0, 0, 0, 0, 0, 2, 8, 0];
    var h: seq<byte> := [69, 0, 0, 30, 0, 0, 0, 0, 64, 17, 0, 0, 10, 0, 0, 7, 10, 0, 0, 8];
    var s: seq<byte> := [0, 9, 0, 9, 0, 10, 0, 0, 0xEB, 0xD4];
    frame := eth + h + s;
    t := Target(Some([10, 0, 0, 1]), Some([10, 0, 0, 2]), Some(1), Some(2));
    var l := Layout(true, 20, 12, 4, 17);
    SplitParts(frame, eth, l, h, s);
    assert |Payload(frame)| == 30;
    RewriteParts(frame, t);
    HeaderRewritten(h, l, t);
    var n := NewHeader(h, l, t);
    var pre := Pseudo(true, n, 17, 10);
    SegmentRewritten(pre, s, 17, t);
    SplitParts(Rewrite(frame, t), eth, l, n, Seal(pre, PutPorts(s, t), 6));
    ZeroUdpField(n, s, t);
  }

  lemma ZeroUdpField(n: seq<byte>, s: seq<byte>, t: Target)
    requires |n| == 20 && n[12..16] == [10, 0, 0, 1] && n[16..20] == [10, 0, 0, 2]
    requires s == [0, 9, 0, 9, 0, 10, 0, 0, 0xEB, 0xD4]
    requires t == Target(Some([10, 0, 0, 1]), Some([10, 0, 0, 2]), Some(1), Some(2))
    ensures Holds(Seal(Pseudo(true, n, 17, 10), PutPorts(s, t), 6), 6, 0)
  {
    hide Checksum, PutBE16, Seal, WordSum, OnesSum;
    var pre, ports := Pseudo(true, n, 17, 10), PutPorts(s, t);
    PortsPut(s, t);
    SmallField(1);
    SmallField(2);
    SmallField(10);
    assert pre == [10, 0, 0, 1, 10, 0, 0, 2, 0, 17, 0, 10] by {
      assert n[12..16] + n[16..20] == Slice(n, 12, 20);
    }
    assert ports == [0, 1, 0, 2, 0, 10, 0, 0, 0xEB, 0xD4];
    ZeroUdpSum();
    assert ports[..6] + [0, 0] + ports[8..] == ports;
    UdpZeroField(pre, ports);
  }

  lemma SmallField(n: byte)
    ensures PutBE16(n) == [0, n]
  {
  }

  lemma ZeroUdpSum()
    ensures OnesSum([10, 0, 0, 1, 10, 0, 0, 2, 0, 17, 0, 10] + [0, 1, 0, 2, 0, 10, 0, 0, 0xEB, 0xD4]) == 0xFFFF
  {
    hide WordSum, OnesSum;
    var x: seq<byte> := [10, 0, 0, 1, 10, 0, 0, 2, 0, 17, 0, 10];
    var y: seq<byte> := [0, 1, 0, 2, 0, 10, 0, 0, 0xEB, 0xD4];
    OnesSumIsResidue(x + y);
    WordSumAppend(x, y);
    SumBytes(x);
    SumBytes(x[4..]);
    SumBytes(x[8..]);
    SumBytes(y);
    SumBytes(y[4..]);
    SumBytes(y[8..]);
  }

  /** The sum of the first two words, and the rest. */
  lemma SumBytes(s: seq<byte>)
    ensures WordSum([]) == 0
    ensures |s| == 2 ==> WordSum(s) == BE16(s, 0)
    ensures |s| >= 4 ==> WordSum(s) == BE16(s, 0) + BE16(s, 2) + WordSum(s[4..])
  {
    if |s| >= 4 {
      assert s[2..][2..] == s[4..];
    } else if |s| == 2 {
      assert s[2..] == [];
    }
  }

  // ------------------------------------------------------------- ICMP and ICMPv6

  /** An untagged ICMP or ICMPv6 frame with a complete IP header, and addresses of its own version. */
  predicate WellIcmp(frame: seq<byte>, t: Target) {
    var p := Payload(frame);
    var l := LayoutOf(p);
    && |frame| >= 14 && l.Some? && (l.value.v4 ==> l.value.hdr >= 20) && l.value.hdr <= |p|
    && l.value.proto == (if l.value.v4 then ICMP else ICMP6)
    && t.Has(l.value.alen) && t.Only(l.value.alen)
  }

  lemma AddressesLength(h: seq<byte>, l: Layout, t: Target)
    requires t.Only(l.alen) && l.at + 2 * l.alen <= |h|
    ensures |PutAddresses(h, l, t)| == |h|
    ensures forall i :: 0 <= i < |h| && !(l.at <= i < l.at + 2 * l.alen) ==> PutAddresses(h, l, t)[i] == h[i]
  {
  }

  lemma IcmpParts(frame: seq<byte>, t: Target)
    requires WellIcmp(frame, t)
    ensures var l := LayoutOf(Payload(frame)).value;
            var h := NewHeader(HeaderOf(frame), l, t);
            && |h| == l.hdr == |HeaderOf(frame)|
            && (forall i :: 0 <= i < l.hdr && !(l.at <= i < l.at + 2 * l.alen) && !(l.v4 && 10 <= i < 12) ==> h[i] == HeaderOf(frame)[i])
            && Rewrite(frame, t) == frame[..14] + h + SealInPlace(SegmentOf(frame), 2)
  {
    hide Checksum, PutBE16, Seal, SealInPlace, PutAddresses;
    var l := LayoutOf(Payload(frame)).value;
    AddressesLength(HeaderOf(frame), l, t);
    if l.v4 {
      var a := PutAddresses(HeaderOf(frame), l, t);
      SealedInPlace(a, 10);
      SealTouches([], a, 10);
    }
  }

  lemma SealedLength(s: seq<byte>)
    ensures |SealInPlace(s, 2)| == |s| <==> |s| >= 4 && |s| % 2 == 0
    ensures |s| >= 4 ==> |SealInPlace(s, 2)| == |s| + |s| % 2
  {
    hide Checksum;
  }

  /** A rewritten ICMP message keeps its length if and only if it is even and has a checksum field: an odd
      one goes out one byte longer, because `checksum` lengthens the byte array it is given. */
  lemma IcmpLength(frame: seq<byte>, t: Target)
    requires WellIcmp(frame, t)
    ensures var n := |SegmentOf(frame)|;
            && (|Rewrite(frame, t)| == |frame| <==> n >= 4 && n % 2 == 0)
            && (n >= 4 ==> |Rewrite(frame, t)| == |frame| + n % 2)
  {
    hide SealInPlace, NewHeader, Rewrite, LayoutOf;
    IcmpParts(frame, t);
    SealedLength(SegmentOf(frame));
  }

  /** Apart from that byte, which is zero, only addresses and checksums change, and the message verifies. */
  lemma IcmpRewritten(frame: seq<byte>, t: Target)
    requires WellIcmp(frame, t) && 4 <= |SegmentOf(frame)| <= 131074
    ensures ResealedIcmp(SegmentOf(Rewrite(frame, t)), SegmentOf(frame))
    ensures SameButIcmp(Rewrite(frame, t), frame, LayoutOf(Payload(frame)).value)
  {
    hide SealInPlace, Seal, Checksum, NewHeader, Rewrite, PutBE16, SegmentOf, HeaderOf, LayoutOf;
    var l := LayoutOf(Payload(frame)).value;
    var s := SegmentOf(frame);
    IcmpParts(frame, t);
    IcmpSegment(frame, t);
    MessageSealed(s);
    FrameParts(frame);
  }

  /** The message `m` is `s` with a new checksum, lengthened to even length by a zero byte, and it verifies
      with and without that byte. */
  predicate ResealedIcmp(m: seq<byte>, s: seq<byte>) {
    && |m| == |s| + |s| % 2 && (|s| % 2 == 1 ==> m[|s|] == 0)
    && Checksum(m) == 0 && Checksum(m[..|s|]) == 0
    && forall i :: 0 <= i < |s| && !(2 <= i < 4) ==> m[i] == s[i]
  }

  /** Outside addresses and checksums the bytes of `frame` are those of `out`. */
  predicate SameButIcmp(out: seq<byte>, frame: seq<byte>, l: Layout) {
    |frame| <= |out| && forall i :: 0 <= i < |frame| && !TouchedIcmp(l, i) ==> out[i] == frame[i]
  }

  lemma FrameParts(frame: seq<byte>)
    requires |frame| >= 14 && LayoutOf(Payload(frame)).Some? && LayoutOf(Payload(frame)).value.hdr <= |Payload(frame)|
    ensures frame == frame[..14] + HeaderOf(frame) + SegmentOf(frame)
  {
  }

  predicate TouchedIcmp(l: Layout, i: int) {
    || 14 + l.at <= i < 14 + l.at + 2 * l.alen
    || (l.v4 && 24 <= i < 26)
    || 14 + l.hdr + 2 <= i < 14 + l.hdr + 4
  }

  lemma MessageSealed(s: seq<byte>)
    requires 4 <= |s| <= 131074
    ensures var m := SealInPlace(s, 2);
            ResealedIcmp(m, s) && WordSum(m[..|s|]) == WordSum(m)
  {
    hide Checksum, Seal, SealInPlace, PutBE16, WordSum;
    var m := SealInPlace(s, 2);
    SealedInPlace(s, 2);
    SealTouches([], Padded(s), 2);
    Sealed([], Padded(s), 2);
    assert [] + m == m;
    if |s| % 2 == 1 {
      assert m == m[..|s|] + [0];
      WordSumPadded(m[..|s|]);
    } else {
      assert m[..|s|] == m;
    }
    ChecksumCorrect(m);
    ChecksumCorrect(m[..|s|]);
  }

  /** An echo request with one byte of data: rewritten, its frame is one byte longer. */
  lemma OddEchoGrows() returns (frame: seq<byte>, t: Target)
    ensures WellIcmp(frame, t) && |frame| == 43 && |Rewrite(frame, t)| == 44 && Rewrite(frame, t)[43] == 0
  {
    hide SealInPlace, Seal, Checksum, NewHeader, Rewrite;
    var eth: seq<byte> := [0, 0, 0, 0, 0, 1, 0, 0, 0, 0, 0, 2, 8, 0];
    var h: seq<byte> := [69, 0, 0, 29, 0, 0, 0, 0, 64, 1, 0, 0, 10, 0, 0, 1, 10, 0, 0, 2];
    var s: seq<byte> := [8, 0, 0, 0, 0, 1, 0, 1, 97];
    frame, t := eth + h + s, Target(Some([10, 0, 0, 9]), Some([10, 0, 0, 2]), None, None);
    SplitParts(frame, eth, Layout(true, 20, 12, 4, 1), h, s);
    assert |Payload(frame)| == 29;
    IcmpParts(frame, t);
    MessageSealed(s);
  }

  /** The ICMPv6 checksum leaves out the pseudo-header that RFC 4443 section 2.3 requires. It verifies as
      that RFC wants it exactly when the pseudo-header happens to sum to a multiple of 65535. */
  lemma Icmp6Verifies(pre: seq<byte>, s: seq<byte>)
    requires |pre| <= 40 && |pre| % 2 == 0 && 4 <= |s| < 0x1_0000
    ensures |SealInPlace(s, 2)| >= |s|
    ensures Checksum(pre + SealInPlace(s, 2)[..|s|]) == 0 <==> WordSum(pre) % 0xFFFF == 0
  {
    hide Checksum, Seal, SealInPlace, WordSum;
    MessageSealed(s);
    var r := SealInPlace(s, 2)[..|s|];
    WordSumAppend(pre, r);
    ChecksumCorrect(r);
    ChecksumCorrect(pre + r);
    SumsTo(WordSum(pre), WordSum(r));
  }

  /** The same for a frame: behind the standard's pseudo-header, a rewritten ICMPv6 message of `n` bytes
      verifies exactly when addresses, length and protocol number sum to a multiple of 65535. */
  lemma Icmp6Frame(frame: seq<byte>, t: Target)
    requires WellIcmp(frame, t) && !LayoutOf(Payload(frame)).value.v4 && 4 <= |SegmentOf(frame)| < 0xFFFF
    requires t.src.Some? && t.dst.Some?
    ensures var n := |SegmentOf(frame)|;
            Accepted(t.src.value + t.dst.value + PutBE32(n) + [0, 0, 0, ICMP6], SegmentOf(Rewrite(frame, t)), n)
            <==> (WordSum(t.src.value) + WordSum(t.dst.value) + n + 58) % 0xFFFF == 0
  {
    hide Checksum, SealInPlace, WordSum, Rewrite, NewHeader, PutBE32, SegmentOf, HeaderOf;
    var n := |SegmentOf(frame)|;
    IcmpSegment(frame, t);
    Icmp6Verifies(t.src.value + t.dst.value + PutBE32(n) + [0, 0, 0, ICMP6], SegmentOf(frame));
    PseudoWords(t.src.value, t.dst.value, n);
  }

  lemma IcmpSegment(frame: seq<byte>, t: Target)
    requires WellIcmp(frame, t)
    ensures SegmentOf(Rewrite(frame, t)) == SealInPlace(SegmentOf(frame), 2)
  {
    hide SealInPlace, Rewrite;
    var l := LayoutOf(Payload(frame)).value;
    IcmpParts(frame, t);
    SplitParts(Rewrite(frame, t), frame[..14], l, NewHeader(HeaderOf(frame), l, t), SealInPlace(SegmentOf(frame), 2));
  }

  lemma PseudoWords(src: seq<byte>, dst: seq<byte>, n: nat)
    requires |src| == |dst| == 16 && n < 0x1_0000
    ensures WordSum(src + dst + PutBE32(n) + [0, 0, 0, ICMP6]) == WordSum(src) + WordSum(dst) + n + 58
  {
    hide WordSum, PutBE32;
    WordSumAppend(src + dst + PutBE32(n), [0, 0, 0, ICMP6]);
    WordSumAppend(src + dst, PutBE32(n));
    WordSumAppend(src, dst);
    LengthWords(n);
    SumBytes([0, 0, 0, ICMP6]);
    assert [0, 0, 0, ICMP6][4..] == [];
  }

  lemma LengthWords(n: nat)
    requires n < 0x1_0000
    ensures |PutBE32(n)| == 4 && WordSum(PutBE32(n)) == n
  {
    assert PutBE32(n) == [0, 0] + PutBE16(n);
    SumBytes(PutBE32(n));
    assert PutBE32(n)[4..] == [];
  }

  /** An ICMPv6 echo request of 8 bytes. */
  function Echo6(src: seq<byte>, dst: seq<byte>): seq<byte> {
    [0, 0, 0, 0, 0, 1, 0, 0, 0, 0, 0, 2, 0x86, 0xDD] + ([96, 0, 0, 0, 0, 8, 58, 64] + src + dst) + [128, 0, 0, 0, 0, 1, 0, 1]
  }

  lemma Echo6Well(src: seq<byte>, dst: seq<byte>)
    requires |src| == |dst| == 16
    ensures WellIcmp(Echo6(src, dst), Target(Some(src), Some(dst), None, None))
    ensures !LayoutOf(Payload(Echo6(src, dst))).value.v4 && |SegmentOf(Echo6(src, dst))| == 8
  {
    var eth: seq<byte> := [0, 0, 0, 0, 0, 1, 0, 0, 0, 0, 0, 2, 0x86, 0xDD];
    SplitParts(Echo6(src, dst), eth, Layout(false, 40, 8, 16, 58), [96, 0, 0, 0, 0, 8, 58, 64] + src + dst,
               [128, 0, 0, 0, 0, 1, 0, 1]);
    assert |Payload(Echo6(src, dst))| == 48;
  }

  /** Sent from ::1 to ::2, no receiver accepts it after the rewrite. */
  lemma Icmp6EchoRefused() returns (src: seq<byte>, dst: seq<byte>)
    ensures |src| == |dst| == 16
    ensures var t := Target(Some(src), Some(dst), None, None);
            && WellIcmp(Echo6(src, dst), t)
            && !Accepted(src + dst + PutBE32(8) + [0, 0, 0, ICMP6], SegmentOf(Rewrite(Echo6(src, dst), t)), 8)
  {
    hide WordSum, Rewrite, PutBE32, Accepted, Echo6, SegmentOf, LayoutOf, WellIcmp;
    src := [0, 0, 0, 0, 0, 0, 0, 0, 0, 0, 0, 0, 0, 0, 0, 1];
    dst := [0, 0, 0, 0, 0, 0, 0, 0, 0, 0, 0, 0, 0, 0, 0, 2];
    Echo6Well(src, dst);
    Icmp6Frame(Echo6(src, dst), Target(Some(src), Some(dst), None, None));
    LastWord(1);
    LastWord(2);
  }

  lemma LastWord(x: byte)
    ensures WordSum([0, 0, 0, 0, 0, 0, 0, 0, 0, 0, 0, 0, 0, 0, 0, x]) == x
  {
    hide WordSum;
    var zeros: seq<byte> := [0, 0, 0, 0, 0, 0, 0, 0, 0, 0, 0, 0, 0, 0];
    WordSumZeros(zeros);
    WordSumAppend(zeros, [0, x]);
    assert zeros + [0, x] == [0, 0, 0, 0, 0, 0, 0, 0, 0, 0, 0, 0, 0, 0, 0, x];
    SumBytes([0, x]);
  }

  lemma SumsTo(a: nat, b: nat)
    requires Residue(b) == 0xFFFF
    ensures Residue(a + b) == 0xFFFF <==> a % 0xFFFF == 0
  {
    assert b % 0xFFFF == 0;
    assert (a + b) % 0xFFFF == a % 0xFFFF;
  }

  // ------------------------------------------------------------- direction

  /** Exchange two adjacent blocks of `n` bytes at `i`. */
  function SwapAt(s: seq<byte>, i: nat, n: nat): (r: seq<byte>)
    requires i + 2 * n <= |s|
    ensures |r| == |s|
    ensures forall j :: 0 <= j < |s| ==>
              r[j] == s[if i <= j < i + n then j + n else if i + n <= j < i + 2 * n then j - n else j]
  {
    s[..i] + s[i + n..i + 2 * n] + s[i..i + n] + s[i + 2 * n..]
  }

  /** The frame as the other side would send it: MAC addresses, IP addresses and ports exchanged. */
  function Reverse(frame: seq<byte>): seq<byte> {
    var l := LayoutOf(Payload(frame));
    if |frame| < 14 || l.None? || |HeaderOf(frame)| < l.value.at + 2 * l.value.alen || |SegmentOf(frame)| < 4 then frame
    else SwapAt(frame[..14], 0, 6) + SwapAt(HeaderOf(frame), l.value.at, l.value.alen) + SwapAt(SegmentOf(frame), 0, 2)
  }

  lemma SwapSum(s: seq<byte>, i: nat, n: nat)
    requires i + 2 * n <= |s| && i % 2 == 0 && n % 2 == 0
    ensures WordSum(SwapAt(s, i, n)) == WordSum(s)
  {
    hide WordSum, SwapAt;
    var a, x, y, b := s[..i], s[i..i + n], s[i + n..i + 2 * n], s[i + 2 * n..];
    SwapParts(s, i, n);
    FourSum(a, x, y, b);
    FourSum(a, y, x, b);
  }

  lemma SwapParts(s: seq<byte>, i: nat, n: nat)
    requires i + 2 * n <= |s|
    ensures s == s[..i] + s[i..i + n] + s[i + n..i + 2 * n] + s[i + 2 * n..]
    ensures SwapAt(s, i, n) == s[..i] + s[i + n..i + 2 * n] + s[i..i + n] + s[i + 2 * n..]
  {
  }

  lemma {:induction false} FourSum(a: seq<byte>, x: seq<byte>, y: seq<byte>, b: seq<byte>)
    requires |a| % 2 == 0 && |x| % 2 == 0 && |y| % 2 == 0
    ensures WordSum(a + x + y + b) == WordSum(a) + WordSum(x) + WordSum(y) + WordSum(b)
  {
    hide WordSum;
    WordSumAppend(a + x + y, b);
    WordSumAppend(a + x, y);
    WordSumAppend(a, x);
  }

  /** Exchanging aligned blocks before the field commutes with sealing it. */
  lemma {:induction false} SealSwap(pre: seq<byte>, pre': seq<byte>, s: seq<byte>, k: nat, i: nat, n: nat)
    requires |pre| % 2 == 0 && |pre'| == |pre| && WordSum(pre') == WordSum(pre)
    requires i % 2 == 0 && n % 2 == 0 && k % 2 == 0 && k + 2 <= |s| && |pre| + |s| <= 131076
    requires i + 2 * n <= |s| && (i + 2 * n <= k || k + 2 <= i)
    ensures Seal(pre', SwapAt(s, i, n), k) == SwapAt(Seal(pre, s, k), i, n)
  {
    hide Checksum, WordSum, PutBE16;
    var z := Splice(s, k, k + 2, [0, 0]);
    var z' := Splice(SwapAt(s, i, n), k, k + 2, [0, 0]);
    SpliceSwap(s, k, i, n, [0, 0]);
    SwapSum(z, i, n);
    WordSumAppend(pre, z);
    WordSumAppend(pre', z');
    ChecksumCorrect(pre + z);
    ChecksumCorrect(pre' + z');
    var c := PutBE16(Checksum(pre + z));
    assert Checksum(pre + z) == Checksum(pre' + z');
    SealSplice(s, k, c);
    SealSplice(SwapAt(s, i, n), k, c);
    SpliceSwap(s, k, i, n, c);
  }

  lemma SealSplice(s: seq<byte>, k: nat, c: seq<byte>)
    requires k + 2 <= |s| && |c| == 2
    ensures Splice(Splice(s, k, k + 2, [0, 0]), k, k + 2, c) == s[..k] + c + s[k + 2..]
  {
  }

  /** Writing a two-byte field commutes with exchanging blocks beside it. */
  lemma SpliceSwap(s: seq<byte>, k: nat, i: nat, n: nat, c: seq<byte>)
    requires i + 2 * n <= |s| && (i + 2 * n <= k || k + 2 <= i) && k + 2 <= |s| && |c| == 2
    ensures SwapAt(s, i, n)[..k] + c + SwapAt(s, i, n)[k + 2..] == SwapAt(s[..k] + c + s[k + 2..], i, n)
  {
    hide SwapAt;
    var x, y := SwapAt(s, i, n)[..k] + c + SwapAt(s, i, n)[k + 2..], SwapAt(s[..k] + c + s[k + 2..], i, n);
    forall j | 0 <= j < |s|
      ensures x[j] == y[j]
    {
    }
  }

  lemma ReverseWell(frame: seq<byte>, t: Target)
    requires Well(frame, t)
    ensures Well(Reverse(frame), t.Swap())
    ensures var l := LayoutOf(Payload(frame)).value;
            && LayoutOf(Payload(Reverse(frame))) == Some(l)
            && Reverse(frame)[..14] == SwapAt(frame[..14], 0, 6)
            && HeaderOf(Reverse(frame)) == SwapAt(HeaderOf(frame), l.at, l.alen)
            && SegmentOf(Reverse(frame)) == SwapAt(SegmentOf(frame), 0, 2)
  {
    var l := LayoutOf(Payload(frame)).value;
    FrameParts(frame);
    ReverseParts(frame, frame[..14], l, HeaderOf(frame), SegmentOf(frame));
  }

  /** Rewriting the reversed frame to the exchanged target is reversing the rewritten frame. */
  lemma RewriteReversed(frame: seq<byte>, t: Target)
    requires Well(frame, t)
    ensures Well(Reverse(frame), t.Swap())
    ensures Rewrite(Reverse(frame), t.Swap()) == Reverse(Rewrite(frame, t))
  {
    hide Checksum, PutBE16, Seal, PutPorts, PutAddresses, Rewrite, NewHeader, Pseudo, SwapAt, Reverse;
    var l := LayoutOf(Payload(frame)).value;
    var h, s := HeaderOf(frame), SegmentOf(frame);
    ReverseWell(frame, t);
    RewriteParts(frame, t);
    RewriteParts(Reverse(frame), t.Swap());
    NewHeaderReversed(h, l, t);
    HeaderRewritten(h, l, t);
    var n := NewHeader(h, l, t);
    PseudoReversed(n, l, |s|);
    var pre, pre' := Pseudo(l.v4, n, l.proto, |s|), Pseudo(l.v4, SwapAt(n, l.at, l.alen), l.proto, |s|);
    SegmentReversed(pre, pre', s, l.proto, t);
    ReverseParts(Rewrite(frame, t), frame[..14], l, n, Seal(pre, PutPorts(s, t), FieldAt(l.proto)));
  }

  /** How a frame in three parts is reversed. */
  lemma ReverseParts(frame: seq<byte>, eth: seq<byte>, l: Layout, h: seq<byte>, s: seq<byte>)
    requires frame == eth + h + s && |eth| == 14 && |h| == l.hdr >= 20 && |s| >= 4
    requires if l.v4 then l.at == 12 && l.alen == 4 && h[0] / 16 == 4 && h[0] % 16 * 4 == l.hdr && h[9] == l.proto
             else l.at == 8 && l.alen == 16 && l.hdr == 40 && h[0] / 16 == 6 && h[6] == l.proto
    ensures LayoutOf(Payload(frame)) == LayoutOf(Payload(Reverse(frame))) == Some(l)
    ensures Reverse(frame) == SwapAt(eth, 0, 6) + SwapAt(h, l.at, l.alen) + SwapAt(s, 0, 2)
    ensures HeaderOf(frame) == h && SegmentOf(frame) == s
    ensures HeaderOf(Reverse(frame)) == SwapAt(h, l.at, l.alen) && SegmentOf(Reverse(frame)) == SwapAt(s, 0, 2)
  {
    hide SwapAt;
    SplitParts(frame, eth, l, h, s);
    SplitParts(Reverse(frame), SwapAt(eth, 0, 6), l, SwapAt(h, l.at, l.alen), SwapAt(s, 0, 2));
  }

  lemma NewHeaderReversed(h: seq<byte>, l: Layout, t: Target)
    requires l == Layout(true, |h|, 12, 4, l.proto) || l == Layout(false, 40, 8, 16, l.proto)
    requires l.hdr == |h| >= 20 && |h| <= 60 && |h| % 2 == 0
    requires t.src.Some? && t.dst.Some? && t.Only(l.alen)
    ensures |NewHeader(h, l, t)| == |h|
    ensures NewHeader(SwapAt(h, l.at, l.alen), l, t.Swap()) == SwapAt(NewHeader(h, l, t), l.at, l.alen)
  {
    hide Checksum, PutBE16, Seal, SealInPlace, SwapAt, PutAddresses;
    AddressesReversed(h, l, t);
    if l.v4 {
      SealedInPlace(PutAddresses(h, l, t), 10);
      SealedInPlace(SwapAt(PutAddresses(h, l, t), l.at, l.alen), 10);
      SealSwap([], [], PutAddresses(h, l, t), 10, l.at, l.alen);
      SealTouches([], PutAddresses(h, l, t), 10);
    }
  }

  lemma AddressesReversed(h: seq<byte>, l: Layout, t: Target)
    requires t.src.Some? && t.dst.Some? && t.Only(l.alen) && l.at + 2 * l.alen <= |h|
    ensures |PutAddresses(h, l, t)| == |h|
    ensures PutAddresses(SwapAt(h, l.at, l.alen), l, t.Swap()) == SwapAt(PutAddresses(h, l, t), l.at, l.alen)
  {
    hide PutAddresses, SwapAt;
    AddressesPut(h, l, t);
    AddressesPut(SwapAt(h, l.at, l.alen), l, t.Swap());
    SwapParts(h, l.at, l.alen);
    SwapMiddle(h[..l.at], t.src.value, t.dst.value, h[l.at + 2 * l.alen..]);
    SwapAround(h, l.at, l.alen);
  }

  lemma SwapMiddle(a: seq<byte>, x: seq<byte>, y: seq<byte>, b: seq<byte>)
    requires |x| == |y|
    ensures SwapAt(a + x + y + b, |a|, |x|) == a + y + x + b
  {
    var s := a + x + y + b;
    assert s[..|a|] == a && s[|a|..|a| + |x|] == x && s[|a| + |x|..|a| + 2 * |x|] == y && s[|a| + 2 * |x|..] == b;
  }

  lemma SwapAround(s: seq<byte>, i: nat, n: nat)
    requires i + 2 * n <= |s|
    ensures SwapAt(s, i, n)[..i] == s[..i] && SwapAt(s, i, n)[i + 2 * n..] == s[i + 2 * n..]
  {
  }

  lemma PseudoReversed(h: seq<byte>, l: Layout, n: nat)
    requires l == Layout(true, |h|, 12, 4, l.proto) || l == Layout(false, 40, 8, 16, l.proto)
    requires l.hdr == |h| >= 20 && n < 0x1_0000
    ensures var p, p' := Pseudo(l.v4, h, l.proto, n), Pseudo(l.v4, SwapAt(h, l.at, l.alen), l.proto, n);
            |p| % 2 == 0 && |p'| == |p| <= 40 && WordSum(p') == WordSum(p)
  {
    hide WordSum, PutBE16, PutBE32, SwapAt;
    var p, p' := Pseudo(l.v4, h, l.proto, n), Pseudo(l.v4, SwapAt(h, l.at, l.alen), l.proto, n);
    assert p' == SwapAt(p, 0, l.alen);
    SwapSum(p, 0, l.alen);
  }

  lemma SegmentReversed(pre: seq<byte>, pre': seq<byte>, s: seq<byte>, proto: byte, t: Target)
    requires proto == TCP || proto == UDP
    requires |pre| % 2 == 0 && |pre'| == |pre| <= 40 && WordSum(pre') == WordSum(pre)
    requires FieldAt(proto) + 2 <= |s| < 0x1_0000
    requires t.sport.Some? && t.dport.Some? && t.PortsFit()
    ensures |Seal(pre, PutPorts(s, t), FieldAt(proto))| == |s|
    ensures Seal(pre', PutPorts(SwapAt(s, 0, 2), t.Swap()), FieldAt(proto))
         == SwapAt(Seal(pre, PutPorts(s, t), FieldAt(proto)), 0, 2)
  {
    hide WordSum, PutBE16, Seal;
    PortsPut(s, t);
    PortsPut(SwapAt(s, 0, 2), t.Swap());
    assert PutPorts(SwapAt(s, 0, 2), t.Swap()) == SwapAt(PutPorts(s, t), 0, 2);
    SealSwap(pre, pre', PutPorts(s, t), FieldAt(proto), 0, 2);
  }
}
