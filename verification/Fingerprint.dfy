/** The fingerprint which the file reader keeps of the start of a file: FNV-1a with 64 bits. */
module Fingerprint {
  import opened Bytes

  /** FNV-1a, 64 bit. */
  function Fnv(s: bytes): bv64 {
    if s == [] then 14695981039346656037 else FnvStep(Fnv(s[..|s| - 1]), s[|s| - 1])
  }

  function FnvStep(h: bv64, c: byte): bv64 {
    TimesPrime(Xor(h, Octet(c)))
  }

  function Xor(h: bv64, b: bv8): bv64 {
    h ^ b as bv64
  }

  function TimesPrime(x: bv64): bv64 {
    x * 1099511628211
  }

  /** Bit n of a number. */
  function Bit(c: nat, n: nat): bool {
    if n == 0 then c % 2 == 1 else Bit(c / 2, n - 1)
  }

  function Octet(c: byte): bv8 {
    Bits(Bit(c, 0), Bit(c, 1), Bit(c, 2), Bit(c, 3), Bit(c, 4), Bit(c, 5), Bit(c, 6), Bit(c, 7))
  }

  function Bits(b0: bool, b1: bool, b2: bool, b3: bool, b4: bool, b5: bool, b6: bool, b7: bool): bv8 {
    (if b0 then 1 else 0) | (if b1 then 2 else 0) | (if b2 then 4 else 0) | (if b3 then 8 else 0)
    | (if b4 then 16 else 0) | (if b5 then 32 else 0) | (if b6 then 64 else 0) | (if b7 then 128 else 0)
  }

  function HashBytes(s: bytes): (h: nat)
    ensures h < 0x1_0000_0000_0000_0000
  {
    Fnv(s) as nat
  }

  lemma BitsAreInjective(a0: bool, a1: bool, a2: bool, a3: bool, a4: bool, a5: bool, a6: bool, a7: bool,
                         b0: bool, b1: bool, b2: bool, b3: bool, b4: bool, b5: bool, b6: bool, b7: bool)
    requires Bits(a0, a1, a2, a3, a4, a5, a6, a7) == Bits(b0, b1, b2, b3, b4, b5, b6, b7)
    ensures a0 == b0 && a1 == b1 && a2 == b2 && a3 == b3 && a4 == b4 && a5 == b5 && a6 == b6 && a7 == b7
  {
  }

  function Power2(k: nat): nat {
    if k == 0 then 1 else 2 * Power2(k - 1)
  }

  lemma {:induction false} SameBitsSameNumber(a: nat, b: nat, k: nat)
    requires a < Power2(k) && b < Power2(k) && forall n :: 0 <= n < k ==> Bit(a, n) == Bit(b, n)
    ensures a == b
  {
    if k > 0 {
      forall n | 0 <= n < k - 1 ensures Bit(a / 2, n) == Bit(b / 2, n) {
        assert Bit(a, n + 1) == Bit(b, n + 1);
      }
      SameBitsSameNumber(a / 2, b / 2, k - 1);
      assert Bit(a, 0) == Bit(b, 0);
    }
  }

  lemma OctetIsInjective(a: byte, b: byte)
    ensures Octet(a) == Octet(b) ==> a == b
  {
    hide Bits, Bit, Power2;
    if Octet(a) == Octet(b) {
      SameOctetSameBits(a, b);
      PowerOf8();
      SameBitsSameNumber(a, b, 8);
    }
  }

  lemma SameOctetSameBits(a: byte, b: byte)
    requires Octet(a) == Octet(b)
    ensures forall n :: 0 <= n < 8 ==> Bit(a, n) == Bit(b, n)
  {
    hide Bits, Bit;
    BitsAreInjective(Bit(a, 0), Bit(a, 1), Bit(a, 2), Bit(a, 3), Bit(a, 4), Bit(a, 5), Bit(a, 6), Bit(a, 7),
                     Bit(b, 0), Bit(b, 1), Bit(b, 2), Bit(b, 3), Bit(b, 4), Bit(b, 5), Bit(b, 6), Bit(b, 7));
  }

  lemma PowerOf8()
    ensures Power2(8) == 256
  {
    assert Power2(3) == 8 && Power2(6) == 64;
  }

  /** The inverse of the prime modulo 2 to the 64. */
  function TimesInverse(x: bv64): bv64 {
    x * 14886173955864302971
  }

  lemma InverseOfProduct(x: bv64)
    ensures TimesInverse(x * 1099511628211) == x
  {
  }

  lemma TimesPrimeIsUndone(x: bv64)
    ensures TimesInverse(TimesPrime(x)) == x
  {
    hide TimesInverse;
    InverseOfProduct(x);
  }

  lemma XorIsInjective(x: bv64, y: bv64, p: bv8, q: bv8)
    ensures Xor(x, p) == Xor(y, p) ==> x == y
    ensures Xor(x, p) == Xor(x, q) ==> p == q
  {
  }

  /** No step of the hash loses what was there before, or the byte. */
  lemma StepIsInjective(x: bv64, y: bv64, a: byte, b: byte)
    ensures FnvStep(x, a) == FnvStep(y, a) ==> x == y
    ensures FnvStep(x, a) == FnvStep(x, b) ==> a == b
  {
    hide Octet, Xor, TimesPrime, TimesInverse;
    var p, q := Octet(a), Octet(b);
    TimesPrimeIsUndone(Xor(x, p));
    TimesPrimeIsUndone(Xor(y, p));
    TimesPrimeIsUndone(Xor(x, q));
    XorIsInjective(x, y, p, q);
    OctetIsInjective(a, b);
  }

  lemma NumberOfBits(x: bv64)
    ensures (x as nat) as bv64 == x
  {
  }

  lemma {:induction false} OneByteIsSeen(s: bytes, t: bytes, i: nat)
    requires |s| == |t| && i < |s| && s[i] != t[i] && s[..i] == t[..i] && s[i + 1..] == t[i + 1..]
    ensures Fnv(s) != Fnv(t)
  {
    hide FnvStep;
    var n := |s| - 1;
    StepIsInjective(Fnv(s[..n]), Fnv(t[..n]), s[n], t[n]);
    if i < n {
      assert s[n] == s[i + 1..][n - i - 1] == t[n];
      assert s[..n][..i] == s[..i] && t[..n][..i] == t[..i];
      assert s[..n][i + 1..] == s[i + 1..][..n - i - 1] && t[..n][i + 1..] == t[i + 1..][..n - i - 1];
      OneByteIsSeen(s[..n], t[..n], i);
    }
  }

  /** Two texts which differ in one byte alone have different hashes. */
  lemma OneByteChangesTheHash(s: bytes, t: bytes, i: nat)
    requires |s| == |t| && i < |s| && s[i] != t[i] && s[..i] == t[..i] && s[i + 1..] == t[i + 1..]
    ensures HashBytes(s) != HashBytes(t)
  {
    hide Fnv;
    OneByteIsSeen(s, t, i);
    NumberOfBits(Fnv(s));
    NumberOfBits(Fnv(t));
  }

  /** The published value of the hash for the text "a". */
  lemma HashOfA()
    ensures Fnv([97]) == 12638187200555641996
  {
    assert Octet(97) == 97 by {
      OctetOfA();
    }
    assert Fnv([97]) == FnvStep(Fnv([]), 97);
  }

  lemma OctetOfA()
    ensures Octet(97) == 97
  {
    assert Bit(97, 0) && !Bit(48, 0) && !Bit(24, 0) && !Bit(12, 0) && !Bit(6, 0) && Bit(3, 0) && Bit(1, 0) && !Bit(0, 0);
    assert !Bit(97, 1) && !Bit(97, 2) && !Bit(97, 3) && !Bit(97, 4);
    assert Bit(97, 5) == Bit(48, 4) == Bit(24, 3);
    assert Bit(97, 6) == Bit(48, 5) == Bit(24, 4);
    assert Bit(97, 7) == Bit(48, 6) == Bit(24, 5) == Bit(12, 4);
  }
}
