/** Byte strings, substring search and the fixed-width integers the formats use. */
module Bytes {

  type byte = b: int | 0 <= b < 256

  datatype Option<+T> = None | Some(value: T)

  /** `p` occurs in `s` at position `i`. */
  predicate At(s: seq<byte>, p: seq<byte>, i: int) {
    0 <= i && i + |p| <= |s| && s[i..i + |p|] == p
  }

  /** `s.find(p, from)`: the first occurrence at or after `from`. */
  function Find(s: seq<byte>, p: seq<byte>, from: nat): (r: Option<nat>)
    ensures r.Some? ==> from <= r.value && r.value + |p| <= |s| && At(s, p, r.value)
    ensures r.Some? ==> forall k :: from <= k < r.value ==> !At(s, p, k)
    ensures r.None? ==> forall k :: from <= k ==> !At(s, p, k)
    decreases |s| - from
  {
    if from + |p| > |s| then None
    else if At(s, p, from) then Some(from)
    else Find(s, p, from + 1)
  }

  /** An occurrence in `t` is an occurrence, shifted by `|a|`, in `a + t + z`, and conversely if it fits. */
  lemma AtShift(a: seq<byte>, t: seq<byte>, z: seq<byte>, p: seq<byte>, i: int)
    requires 0 <= i && i + |p| <= |t|
    ensures At(t, p, i) <==> At(a + t + z, p, |a| + i)
  {
    assert (a + t + z)[|a| + i..|a| + i + |p|] == t[i..i + |p|];
  }

  /** `s` is an ASCII text. */
  predicate Spells(s: seq<byte>, text: string) {
    |s| == |text| && forall i :: 0 <= i < |s| ==> s[i] as int == text[i] as int
  }

  predicate Begins(s: seq<byte>, text: string) {
    |text| <= |s| && Spells(s[..|text|], text)
  }

  lemma BeginsWith(s: seq<byte>, m: seq<byte>, text: string)
    requires Spells(m, text)
    ensures m <= s <==> Begins(s, text)
  {
  }

  function Min(a: int, b: int): int { if a < b then a else b }

  function BE16(s: seq<byte>, i: nat): (w: nat)
    requires i + 2 <= |s|
    ensures w < 0x1_0000
  {
    s[i] as int * 0x100 + s[i + 1] as int
  }

  function PutBE16(w: nat): (s: seq<byte>)
    requires w < 0x1_0000
    ensures |s| == 2 && BE16(s, 0) == w
  {
    [w / 256, w % 256]
  }

  function LE32(s: seq<byte>, i: nat): (w: nat)
    requires i + 4 <= |s|
    ensures w < 0x1_0000_0000
  {
    s[i] as int + 0x100 * s[i + 1] as int + 0x1_0000 * s[i + 2] as int + 0x100_0000 * s[i + 3] as int
  }

  function PutLE32(w: nat): (s: seq<byte>)
    requires w < 0x1_0000_0000
    ensures |s| == 4 && LE32(s, 0) == w
  {
    var q := w / 0x100;
    var r := q / 0x100;
    var t := r / 0x100;
    assert w == 0x100 * q + w % 0x100 && q == 0x100 * r + q % 0x100 && r == 0x100 * t + r % 0x100;
    [w % 0x100, q % 0x100, r % 0x100, t]
  }

  /** `PutLE32` and `LE32` are inverse bijections. */
  lemma LE32Injective(s: seq<byte>)
    requires |s| == 4
    ensures PutLE32(LE32(s, 0)) == s
  {
    var a, b, c, d: int := s[0], s[1], s[2], s[3];
    Digit(a, b + 0x100 * (c + 0x100 * d));
    Digit(b, c + 0x100 * d);
    Digit(c, d);
  }

  lemma Digit(a: int, q: int)
    requires 0 <= a < 0x100
    ensures (a + 0x100 * q) / 0x100 == q && (a + 0x100 * q) % 0x100 == a
  {
  }

  function Reverse4(s: seq<byte>): (r: seq<byte>)
    requires |s| == 4
    ensures |r| == 4 && (forall k :: 0 <= k < 4 ==> r[k] == s[3 - k])
  {
    [s[3], s[2], s[1], s[0]]
  }

  /** Which byte of a word is which. */
  lemma WordBytes(a: byte, b: byte, c: byte, d: byte)
    ensures BE16([a, b], 0) == 256 * a as int + b as int
    ensures LE32([a, b, c, d], 0) == a as int + 256 * b as int + 65536 * c as int + 16777216 * d as int
    ensures PutBE16(256 * a as int + b as int) == [a, b]
    ensures PutLE32(a as int + 256 * b as int + 65536 * c as int + 16777216 * d as int) == [a, b, c, d]
  {
    LE32Injective([a, b, c, d]);
  }
}
