/** The Internet checksum (RFC 1071 section 1) as the replayer computes it: one big sum, two folds. */
module InternetChecksum {
  import opened Bytes

  /** The sum of the big-endian 16-bit words; a last odd byte counts as the high half of a word. */
  function WordSum(s: seq<byte>): (t: nat)
    ensures t <= (|s| + 1) / 2 * 0xFFFF
    decreases |s|
  {
    if |s| == 0 then 0
    else if |s| == 1 then s[0] as int * 0x100
    else BE16(s, 0) + WordSum(s[2..])
  }

  /** One's-complement addition: a carry out of the top bit is added in at the bottom. */
  function CarryAdd(a: nat, b: nat): (c: nat)
    requires a < 0x1_0000 && b < 0x1_0000
    ensures c < 0x1_0000
  {
    if a + b < 0x1_0000 then a + b else a + b - 0xFFFF
  }

  /** The reference: the one's-complement sum, word by word. */
  function OnesSum(s: seq<byte>): (t: nat)
    ensures t < 0x1_0000
    decreases |s|
  {
    if |s| == 0 then 0
    else if |s| == 1 then s[0] as int * 0x100
    else CarryAdd(BE16(s, 0), OnesSum(s[2..]))
  }

  /** The bytes that are summed, which is also what becomes of a byte array handed to `checksum`: an odd one
      is lengthened in place, by a zero byte. */
  function Padded(data: seq<byte>): (r: seq<byte>)
    ensures |r| % 2 == 0 && data <= r
  {
    if |data| % 2 == 1 then data + [0] else data
  }

  /** The result of `checksum`. */
  function Checksum(data: seq<byte>): (c: nat)
    ensures c < 0x1_0000
  {
    var s := WordSum(Padded(data));
    var s1 := s / 0x1_0000 + s % 0x1_0000;
    var s2 := s1 + s1 / 0x1_0000;
    0xFFFF - s2 % 0x1_0000
  }

  /** `checksum` on a byte array, and what it leaves of that array. */
  method ChecksumInPlace(data: seq<byte>) returns (c: nat, left: seq<byte>)
    ensures c == Checksum(data) && left == Padded(data) && Checksum(left) == c
  {
    left := data;
    if |data| % 2 == 1 {
      left := left + [0];
    }
    var s := WordSum(left);
    s := s / 0x1_0000 + s % 0x1_0000;
    s := s + s / 0x1_0000;
    c := 0xFFFF - s % 0x1_0000;
  }

  /** The representative of `t` modulo 65535, with 65535 and not 0 for a positive multiple. */
  function Residue(t: nat): nat {
    if t == 0 then 0 else (t - 1) % 0xFFFF + 1
  }

  lemma {:induction false} OnesSumIsResidue(s: seq<byte>)
    ensures OnesSum(s) == Residue(WordSum(s))
    decreases |s|
  {
    hide Residue, CarryAdd;
    if |s| >= 2 {
      OnesSumIsResidue(s[2..]);
      ResidueAdd(BE16(s, 0), WordSum(s[2..]));
    } else {
      SmallResidue(WordSum(s));
    }
  }

  lemma SmallResidue(t: nat)
    requires t <= 0xFFFF
    ensures Residue(t) == t
  {
  }

  lemma ResidueAdd(w: nat, t: nat)
    requires w < 0x1_0000
    ensures CarryAdd(w, Residue(t)) == Residue(w + t)
  {
    if t > 0 {
      var q := (t - 1) / 0xFFFF;
      assert t == q * 0xFFFF + Residue(t);
      ResidueOf(w + t, q, w + Residue(t));
    }
  }

  /** Multiples of 65535 do not matter. */
  lemma ResidueOf(t: nat, q: nat, r: nat)
    requires t == q * 0xFFFF + r && 0 < r <= 2 * 0xFFFF
    ensures Residue(t) == if r <= 0xFFFF then r else r - 0xFFFF
  {
    if r <= 0xFFFF {
      assert (t - 1) == q * 0xFFFF + (r - 1);
    } else {
      assert (t - 1) == (q + 1) * 0xFFFF + (r - 0xFFFF - 1);
    }
  }

  /** Two folds suffice as long as one fold leaves at most one carry. */
  lemma TwoFolds(s: nat)
    requires s / 0x1_0000 + s % 0x1_0000 <= 0x1_FFFE
    ensures var s1 := s / 0x1_0000 + s % 0x1_0000;
            (s1 + s1 / 0x1_0000) % 0x1_0000 == Residue(s)
  {
    var q, r := s / 0x1_0000, s % 0x1_0000;
    assert s == q * 0xFFFF + (q + r);
    if q + r > 0 {
      ResidueOf(s, q, q + r);
    }
  }

  lemma {:induction false} WordSumAppend(a: seq<byte>, b: seq<byte>)
    requires |a| % 2 == 0
    ensures WordSum(a + b) == WordSum(a) + WordSum(b)
    decreases |a|
  {
    if a == [] {
      assert a + b == b;
    } else {
      assert (a + b)[2..] == a[2..] + b;
      WordSumAppend(a[2..], b);
    }
  }

  /** Padding an odd input changes nothing. */
  lemma {:induction false} WordSumPadded(s: seq<byte>)
    requires |s| % 2 == 1
    ensures WordSum(s + [0]) == WordSum(s) && OnesSum(s + [0]) == OnesSum(s)
    decreases |s|
  {
    if |s| > 1 {
      assert (s + [0])[2..] == s[2..] + [0];
      WordSumPadded(s[2..]);
    } else {
      assert (s + [0])[2..] == [];
    }
  }

  /** Up to 131076 bytes the checksum is the complement of the one's-complement sum. */
  lemma {:induction false} ChecksumCorrect(data: seq<byte>)
    requires |data| <= 131076
    ensures Checksum(data) == 0xFFFF - OnesSum(data)
    ensures Checksum(data) == 0xFFFF - Residue(WordSum(data))
  {
    hide WordSum, OnesSum, Residue;
    if |data| % 2 == 1 {
      WordSumPadded(data);
    }
    OnesSumIsResidue(data);
    TwoFolds(WordSum(data));
  }

  lemma {:induction false} WordSumZeros(s: seq<byte>)
    requires forall i :: 0 <= i < |s| ==> s[i] == 0
    ensures WordSum(s) == 0
    decreases |s|
  {
    if |s| >= 2 {
      WordSumZeros(s[2..]);
    }
  }

  lemma {:induction false} WordSumOnes(n: nat)
    ensures WordSum(seq(2 * n, _ => 255 as byte)) == n * 0xFFFF
  {
    if n > 0 {
      assert seq(2 * n, _ => 255 as byte)[2..] == seq(2 * (n - 1), _ => 255 as byte);
      WordSumOnes(n - 1);
    }
  }

  /** An input of 131077 bytes for which two folds are not enough. */
  lemma ThirdFoldNeeded() returns (data: seq<byte>)
    ensures |data| == 131077 && Checksum(data) != 0xFFFF - OnesSum(data)
  {
    var ones := seq(2 * 65537, _ => 255 as byte);
    data := ones + [255, 0, 1];
    WordSumOnes(65537);
    WordSumAppend(ones, [255, 0, 1]);
    assert [255, 0, 1][2..] == [1 as byte];
    assert WordSum([255, 0, 1]) == 0xFF00 + 0x100;
    assert WordSum(data) == 0x1_0000_FFFF;
    WordSumPadded(data);
    OnesSumIsResidue(data);
  }

  /** The exact range of the two-fold checksum. */
  lemma ChecksumRange(n: nat)
    ensures (forall data: seq<byte> | |data| <= n :: Checksum(data) == 0xFFFF - OnesSum(data)) <==> n <= 131076
  {
    if n <= 131076 {
      forall data: seq<byte> | |data| <= n
        ensures Checksum(data) == 0xFFFF - OnesSum(data)
      {
        ChecksumCorrect(data);
      }
    } else {
      var data := ThirdFoldNeeded();
      assert |data| <= n;
    }
  }

  /** Which values of a 16-bit field make a message verify, when the checksum of the message with a
      zero field is `c`: `c` itself and, should `c` be zero, also 65535. */
  lemma FieldVerifies(a: seq<byte>, b: seq<byte>, f: nat)
    requires |a| % 2 == 0 && |a| + 2 + |b| <= 131076 && f < 0x1_0000
    ensures var c := Checksum(a + [0, 0] + b);
            Checksum(a + PutBE16(f) + b) == 0 <==> f == c || (c == 0 && f == 0xFFFF)
  {
    hide Checksum, WordSum, Residue, PutBE16, OnesSum;
    var t := WordSum(a) + WordSum(b);
    FieldSum(a, b, 0);
    FieldSum(a, b, f);
    ZeroField();
    ChecksumCorrect(a + [0, 0] + b);
    ChecksumCorrect(a + PutBE16(f) + b);
    ResidueAdd(f, t);
  }

  lemma ZeroField()
    ensures PutBE16(0) == [0, 0]
  {
  }

  lemma FieldSum(a: seq<byte>, b: seq<byte>, f: nat)
    requires |a| % 2 == 0 && f < 0x1_0000
    ensures WordSum(a + PutBE16(f) + b) == f + WordSum(a) + WordSum(b)
  {
    WordSumAppend(a + PutBE16(f), b);
    WordSumAppend(a, PutBE16(f));
    assert PutBE16(f)[2..] == [];
  }
}
