/** Putting back the 802.1Q tag that the kernel strips from a captured frame (IEEE 802.1Q clause 9). */
module Vlan {
  import opened Bytes

  const SOL_PACKET: nat := 263
  const PACKET_AUXDATA: nat := 8
  const TPID_DEFAULT: nat := 0x8100

  /** One control message of a received packet. */
  datatype Cmsg = Cmsg(level: nat, kind: nat, data: seq<byte>)

  /** The VLAN part of `tpacket_auxdata`: the two status bits and the two 16-bit fields. */
  datatype Aux = Aux(vlanValid: bool, tpidValid: bool, tci: nat, tpid: nat)

  function LE16(s: seq<byte>, i: nat): (w: nat)
    requires i + 2 <= |s|
    ensures w < 0x1_0000
  {
    s[i] as int + s[i + 1] as int * 0x100
  }

  /** The first auxdata message, if it is long enough to be decoded. */
  function AuxOf(anc: seq<Cmsg>): (a: Option<Aux>)
    ensures a.Some? ==> a.value.tci < 0x1_0000 && a.value.tpid < 0x1_0000
  {
    if anc == [] then None
    else if anc[0].level == SOL_PACKET && anc[0].kind == PACKET_AUXDATA then
      var aux := anc[0].data;
      if |aux| < 20 then None
      else Some(Aux(LE32(aux, 0) / 0x10 % 2 == 1, LE32(aux, 0) / 0x40 % 2 == 1, LE16(aux, 16), LE16(aux, 18)))
    else AuxOf(anc[1..])
  }

  predicate HasVlan(a: Aux) {
    a.tci != 0 || a.vlanValid
  }

  function Tpid(a: Aux): nat {
    if a.tpid != 0 || a.tpidValid then a.tpid else TPID_DEFAULT
  }

  /** `_restore_vlan`. */
  function Restore(data: seq<byte>, anc: seq<Cmsg>): seq<byte> {
    match AuxOf(anc)
    case None => data
    case Some(a) =>
      if !HasVlan(a) || |data| < 12 then data
      else data[..12] + PutBE16(Tpid(a)) + PutBE16(a.tci) + data[12..]
  }

  /** What the kernel does to a tagged frame before handing it out. */
  function Strip(frame: seq<byte>): seq<byte>
    requires |frame| >= 16
  {
    frame[..12] + frame[16..]
  }

  /** Restoring inverts stripping exactly when the auxiliary data announces the tag, which a zero TCI only
      does through the status bit, and gives or implies the frame's own tag protocol. */
  lemma {:induction false} RestoreInverts(frame: seq<byte>, anc: seq<Cmsg>)
    requires |frame| >= 16 && AuxOf(anc).Some? && AuxOf(anc).value.tci == BE16(frame, 14)
    ensures Restore(Strip(frame), anc) == frame
       <==> HasVlan(AuxOf(anc).value) && Tpid(AuxOf(anc).value) == BE16(frame, 12)
  {
    var a := AuxOf(anc).value;
    var s := Strip(frame);
    assert s[..12] == frame[..12] && s[12..] == frame[16..];
    if HasVlan(a) {
      var r := Restore(s, anc);
      assert r == frame[..12] + PutBE16(Tpid(a)) + PutBE16(a.tci) + frame[16..];
      assert BE16(r, 12) == Tpid(a);
      if Tpid(a) == BE16(frame, 12) {
        assert PutBE16(Tpid(a)) == frame[12..14] && PutBE16(a.tci) == frame[14..16];
        assert frame == frame[..12] + frame[12..14] + frame[14..16] + frame[16..];
      }
    } else {
      assert |Restore(s, anc)| == |frame| - 4;
    }
  }

  /** `struct tpacket_auxdata` as the kernel fills it. */
  function KernelAux(status: nat, len: nat, snaplen: nat, mac: nat, net: nat, tci: nat, tpid: nat): seq<byte>
    requires status < 0x1_0000_0000 && len < 0x1_0000_0000 && snaplen < 0x1_0000_0000
    requires mac < 0x1_0000 && net < 0x1_0000 && tci < 0x1_0000 && tpid < 0x1_0000
  {
    PutLE32(status) + PutLE32(len) + PutLE32(snaplen) + PutLE16(mac) + PutLE16(net) + PutLE16(tci) + PutLE16(tpid)
  }

  function PutLE16(w: nat): (s: seq<byte>)
    requires w < 0x1_0000
    ensures |s| == 2 && LE16(s, 0) == w
  {
    [w % 0x100, w / 0x100]
  }

  lemma {:induction false} AuxBehindOthers(pre: seq<Cmsg>, aux: seq<byte>, post: seq<Cmsg>)
    requires forall m :: m in pre ==> !(m.level == SOL_PACKET && m.kind == PACKET_AUXDATA)
    ensures AuxOf(pre + [Cmsg(SOL_PACKET, PACKET_AUXDATA, aux)] + post) == AuxOf([Cmsg(SOL_PACKET, PACKET_AUXDATA, aux)])
    decreases |pre|
  {
    var all := pre + [Cmsg(SOL_PACKET, PACKET_AUXDATA, aux)] + post;
    if pre != [] {
      assert all[0] == pre[0] && pre[0] in pre;
      assert all[1..] == pre[1..] + [Cmsg(SOL_PACKET, PACKET_AUXDATA, aux)] + post;
      AuxBehindOthers(pre[1..], aux, post);
    }
  }

  /** A kernel that marks tag and tag protocol as valid loses nothing: every tagged frame, a zero TCI
      included, comes back whole, whatever other control messages are delivered with it. */
  lemma RestoreFromKernel(frame: seq<byte>, pre: seq<Cmsg>, post: seq<Cmsg>, status: nat, len: nat, snaplen: nat,
                          mac: nat, net: nat)
    requires |frame| >= 16
    requires forall m :: m in pre ==> !(m.level == SOL_PACKET && m.kind == PACKET_AUXDATA)
    requires status < 0x1_0000_0000 && status / 0x10 % 2 == 1 && status / 0x40 % 2 == 1
    requires len < 0x1_0000_0000 && snaplen < 0x1_0000_0000 && mac < 0x1_0000 && net < 0x1_0000
    ensures var aux := KernelAux(status, len, snaplen, mac, net, BE16(frame, 14), BE16(frame, 12));
            Restore(Strip(frame), pre + [Cmsg(SOL_PACKET, PACKET_AUXDATA, aux)] + post) == frame
  {
    var tci, tpid := BE16(frame, 14), BE16(frame, 12);
    var aux := KernelAux(status, len, snaplen, mac, net, tci, tpid);
    AuxBehindOthers(pre, aux, post);
    AuxDecoded(status, len, snaplen, mac, net, tci, tpid);
    RestoreInverts(frame, pre + [Cmsg(SOL_PACKET, PACKET_AUXDATA, aux)] + post);
  }

  lemma AuxDecoded(status: nat, len: nat, snaplen: nat, mac: nat, net: nat, tci: nat, tpid: nat)
    requires status < 0x1_0000_0000 && len < 0x1_0000_0000 && snaplen < 0x1_0000_0000
    requires mac < 0x1_0000 && net < 0x1_0000 && tci < 0x1_0000 && tpid < 0x1_0000
    ensures AuxOf([Cmsg(SOL_PACKET, PACKET_AUXDATA, KernelAux(status, len, snaplen, mac, net, tci, tpid))])
         == Some(Aux(status / 0x10 % 2 == 1, status / 0x40 % 2 == 1, tci, tpid))
  {
    hide PutLE32, PutLE16;
    var a, c, d := PutLE32(status), PutLE16(tci), PutLE16(tpid);
    var aux := KernelAux(status, len, snaplen, mac, net, tci, tpid);
    assert aux[0] == a[0] && aux[1] == a[1] && aux[2] == a[2] && aux[3] == a[3];
    assert aux[16] == c[0] && aux[17] == c[1] && aux[18] == d[0] && aux[19] == d[1];
  }

  /** The bytes of that structure: little-endian, the status in front, TCI and TPID at the end. */
  lemma KernelBytes(status: nat, len: nat, snaplen: nat, mac: nat, net: nat, tci: nat, tpid: nat)
    requires status < 0x1_0000_0000 && len < 0x1_0000_0000 && snaplen < 0x1_0000_0000
    requires mac < 0x1_0000 && net < 0x1_0000 && tci < 0x1_0000 && tpid < 0x1_0000
    ensures var aux := KernelAux(status, len, snaplen, mac, net, tci, tpid);
            && |aux| == 20 && aux[0] == status % 0x100
            && aux[16..] == [tci % 0x100, tci / 0x100, tpid % 0x100, tpid / 0x100]
  {
  }

  /** What becomes of a captured frame, by what the kernel says of it: without a TCI and without the status bit
      for one it had no tag and comes back as it is, as does what is shorter than two addresses; any other
      gets a tag, of protocol 0x8100 where the kernel names none. */
  lemma RestoreDecides(data: seq<byte>, pre: seq<Cmsg>, post: seq<Cmsg>, status: nat, len: nat, snaplen: nat,
                       mac: nat, net: nat, tci: nat, tpid: nat)
    requires forall m :: m in pre ==> !(m.level == 263 && m.kind == 8)
    requires status < 0x1_0000_0000 && len < 0x1_0000_0000 && snaplen < 0x1_0000_0000
    requires mac < 0x1_0000 && net < 0x1_0000 && tci < 0x1_0000 && tpid < 0x1_0000
    ensures var r := Restore(data, pre + [Cmsg(263, 8, KernelAux(status, len, snaplen, mac, net, tci, tpid))] + post);
            && (|data| < 12 || (tci == 0 && status / 16 % 2 == 0) ==> r == data)
            && (|data| >= 12 && (tci != 0 || status / 16 % 2 == 1) ==>
                  r == data[..12]
                       + (if tpid == 0 && status / 64 % 2 == 0 then [0x81, 0x00] else [tpid / 256, tpid % 256])
                       + [tci / 256, tci % 256] + data[12..])
  {
    hide KernelAux, AuxOf;
    AuxBehindOthers(pre, KernelAux(status, len, snaplen, mac, net, tci, tpid), post);
    AuxDecoded(status, len, snaplen, mac, net, tci, tpid);
  }

  /** Without such a message, or when it is cut short, the frame is not touched. */
  lemma {:induction false} RestoreWithout(data: seq<byte>, anc: seq<Cmsg>, i: nat)
    requires i <= |anc| && forall k :: 0 <= k < i ==> !(anc[k].level == 263 && anc[k].kind == 8)
    requires i < |anc| ==> anc[i].level == 263 && anc[i].kind == 8 && |anc[i].data| < 20
    ensures Restore(data, anc) == data
  {
    if i > 0 {
      RestoreWithout(data, anc[1..], i - 1);
    }
  }
}
