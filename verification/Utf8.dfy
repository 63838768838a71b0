/** The repair of text which may not be UTF-8. */
module Utf8 {
  import opened Bytes

  /** U+FFFD */
  const REPLACEMENT: bytes := [0xEF, 0xBF, 0xBD]

  predicate IsTail(b: byte) {
    0x80 <= b < 0xC0
  }

  predicate Tails(s: bytes, from: nat, to: nat) {
    to <= |s| && forall k :: from <= k < to ==> IsTail(s[k])
  }

  /** The length of the character at the front of s, by the syntax of section 4 of RFC 3629; 0 if there is none. */
  function CharLen(s: bytes): (n: nat)
    ensures n <= 4 && n <= |s|
  {
    if s == [] then 0
    else if s[0] < 0x80 then 1
    else if |s| < 2 then 0
    else if 0xC2 <= s[0] <= 0xDF then (if Tails(s, 1, 2) then 2 else 0)
    else if s[0] == 0xE0 then (if 0xA0 <= s[1] <= 0xBF && Tails(s, 2, 3) then 3 else 0)
    else if 0xE1 <= s[0] <= 0xEC then (if Tails(s, 1, 3) then 3 else 0)
    else if s[0] == 0xED then (if 0x80 <= s[1] <= 0x9F && Tails(s, 2, 3) then 3 else 0)
    else if 0xEE <= s[0] <= 0xEF then (if Tails(s, 1, 3) then 3 else 0)
    else if s[0] == 0xF0 then (if 0x90 <= s[1] <= 0xBF && Tails(s, 2, 4) then 4 else 0)
    else if 0xF1 <= s[0] <= 0xF3 then (if Tails(s, 1, 4) then 4 else 0)
    else if s[0] == 0xF4 then (if 0x80 <= s[1] <= 0x8F && Tails(s, 2, 4) then 4 else 0)
    else 0
  }

  predicate WellFormed(s: bytes)
    decreases |s|
  {
    s == [] || (CharLen(s) > 0 && WellFormed(s[CharLen(s)..]))
  }

  /* --- What a character is, by its number (section 3 of RFC 3629) --- */

  predicate IsScalar(v: nat) {
    v <= 0x10FFFF && !(0xD800 <= v <= 0xDFFF)
  }

  function EncodeScalar(v: nat): bytes
    requires IsScalar(v)
  {
    if v < 0x80 then [v]
    else if v < 0x800 then [0xC0 + v / 64, 0x80 + v % 64]
    else if v < 0x10000 then [0xE0 + v / 4096, 0x80 + v / 64 % 64, 0x80 + v % 64]
    else [0xF0 + v / 262144, 0x80 + v / 4096 % 64, 0x80 + v / 64 % 64, 0x80 + v % 64]
  }

  /** The number which the bits of n bytes say. */
  function Join(n: nat, a: int, b: int, c: int, d: int): int {
    if n == 1 then a
    else if n == 2 then (a - 0xC0) * 64 + (b - 0x80)
    else if n == 3 then (a - 0xE0) * 4096 + (b - 0x80) * 64 + (c - 0x80)
    else (a - 0xF0) * 262144 + (b - 0x80) * 4096 + (c - 0x80) * 64 + (d - 0x80)
  }

  function ByteAt(s: bytes, i: nat): int {
    if i < |s| then s[i] else 0
  }

  function ScalarOf(s: bytes): int {
    Join(CharLen(s), ByteAt(s, 0), ByteAt(s, 1), ByteAt(s, 2), ByteAt(s, 3))
  }

  /** The syntax accepts exactly the encodings of the characters: no surrogate, nothing too large, nothing longer than needed. */
  lemma CharIsScalar(s: bytes)
    requires CharLen(s) > 0
    ensures 0 <= ScalarOf(s) && IsScalar(ScalarOf(s)) && EncodeScalar(ScalarOf(s)) == s[..CharLen(s)]
  {
    hide CharLen, Join, EncodeScalar, Tails, IsTail;
    var n := CharLen(s);
    CharBytes(s);
    if n == 1 {
      OneByte(s[0]);
      assert s[..1] == [s[0]];
    } else if n == 2 {
      TwoBytes(s[0], s[1]);
      assert s[..2] == [s[0], s[1]];
    } else if n == 3 {
      ThreeBytes(s[0], s[1], s[2]);
      assert s[..3] == [s[0], s[1], s[2]];
    } else {
      FourBytes(s[0], s[1], s[2], s[3]);
      assert s[..4] == [s[0], s[1], s[2], s[3]];
    }
  }

  lemma CharBytes(s: bytes)
    requires CharLen(s) > 0
    ensures CharLen(s) == 1 ==> s[0] < 0x80
    ensures CharLen(s) == 2 ==> 0xC2 <= s[0] <= 0xDF && IsTail(s[1])
    ensures CharLen(s) == 3 ==> 0xE0 <= s[0] <= 0xEF && IsTail(s[1]) && IsTail(s[2])
                                && (s[0] == 0xE0 ==> s[1] >= 0xA0) && (s[0] == 0xED ==> s[1] < 0xA0)
    ensures CharLen(s) == 4 ==> 0xF0 <= s[0] <= 0xF4 && IsTail(s[1]) && IsTail(s[2]) && IsTail(s[3])
                                && (s[0] == 0xF0 ==> s[1] >= 0x90) && (s[0] == 0xF4 ==> s[1] < 0x90)
  {
  }

  lemma OneByte(a: byte)
    requires a < 0x80
    ensures var v := Join(1, a, 0, 0, 0); IsScalar(v) && EncodeScalar(v) == [a]
    ensures forall b, c, d :: Join(1, a, b, c, d) == a
  {
  }

  lemma TwoBytes(a: byte, b: byte)
    requires 0xC2 <= a <= 0xDF && 0x80 <= b < 0xC0
    ensures forall c, d :: 0 <= Join(2, a, b, c, d) && IsScalar(Join(2, a, b, c, d)) && EncodeScalar(Join(2, a, b, c, d)) == [a, b]
  {
    var x: int, y: int := a - 0xC0, b - 0x80;
    assert (x * 64 + y) / 64 == x && (x * 64 + y) % 64 == y;
  }

  lemma ThreeBytes(a: byte, b: byte, c: byte)
    requires 0xE0 <= a <= 0xEF && 0x80 <= b < 0xC0 && 0x80 <= c < 0xC0
    requires (a == 0xE0 ==> b >= 0xA0) && (a == 0xED ==> b < 0xA0)
    ensures forall d :: 0 <= Join(3, a, b, c, d) && IsScalar(Join(3, a, b, c, d)) && EncodeScalar(Join(3, a, b, c, d)) == [a, b, c]
  {
    ThreeDigits(a - 0xE0, (b as int) - 0x80, (c as int) - 0x80);
  }

  lemma FourBytes(a: byte, b: byte, c: byte, d: byte)
    requires 0xF0 <= a <= 0xF4 && 0x80 <= b < 0xC0 && 0x80 <= c < 0xC0 && 0x80 <= d < 0xC0
    requires (a == 0xF0 ==> b >= 0x90) && (a == 0xF4 ==> b < 0x90)
    ensures 0 <= Join(4, a, b, c, d) && IsScalar(Join(4, a, b, c, d)) && EncodeScalar(Join(4, a, b, c, d)) == [a, b, c, d]
  {
    FourDigits(a - 0xF0, (b as int) - 0x80, (c as int) - 0x80, (d as int) - 0x80);
  }

  lemma ThreeDigits(a: nat, b: nat, c: nat)
    requires b < 64 && c < 64
    ensures var v := a * 4096 + b * 64 + c; v / 4096 == a && v / 64 % 64 == b && v % 64 == c
  {
    assert (a * 4096 + b * 64 + c) / 64 == a * 64 + b;
  }

  lemma FourDigits(a: nat, b: nat, c: nat, d: nat)
    requires b < 64 && c < 64 && d < 64
    ensures var v := a * 262144 + b * 4096 + c * 64 + d; v / 262144 == a && v / 4096 % 64 == b && v / 64 % 64 == c && v % 64 == d
  {
    var v := a * 262144 + b * 4096 + c * 64 + d;
    assert v / 64 == a * 4096 + b * 64 + c;
    assert v / 4096 == a * 64 + b;
  }

  /** The encoding of a character is taken as one character, whatever follows it. */
  lemma ScalarIsChar(v: nat, t: bytes)
    requires IsScalar(v)
    ensures CharLen(EncodeScalar(v) + t) == |EncodeScalar(v)|
  {
    var e, s := EncodeScalar(v), EncodeScalar(v) + t;
    hide CharLen, Tails;
    assert forall k :: 0 <= k < |e| ==> s[k] == e[k];
    EncodedBytes(v);
    LongEnough(s, |e|);
  }

  lemma EncodedBytes(v: nat)
    requires IsScalar(v)
    ensures var e := EncodeScalar(v); IsChar(e, |e|)
  {
  }

  /** The first n bytes are a character. */
  predicate IsChar(s: bytes, n: nat) {
    && 0 < n <= |s| && n <= 4
    && (n == 1 ==> s[0] < 0x80)
    && (n == 2 ==> 0xC2 <= s[0] <= 0xDF && IsTail(s[1]))
    && (n == 3 ==> 0xE0 <= s[0] <= 0xEF && IsTail(s[1]) && IsTail(s[2]) && (s[0] == 0xE0 ==> s[1] >= 0xA0) && (s[0] == 0xED ==> s[1] < 0xA0))
    && (n == 4 ==> 0xF0 <= s[0] <= 0xF4 && IsTail(s[1]) && IsTail(s[2]) && IsTail(s[3])
                   && (s[0] == 0xF0 ==> s[1] >= 0x90) && (s[0] == 0xF4 ==> s[1] < 0x90))
  }

  lemma LongEnough(s: bytes, n: nat)
    requires IsChar(s, n)
    ensures CharLen(s) == n
  {
  }

  /* --- The repair --- */

  /** Every byte which does not start a character becomes U+FFFD. */
  function Repaired(s: bytes): bytes
    decreases |s|
  {
    if s == [] then []
    else if CharLen(s) > 0 then s[..CharLen(s)] + Repaired(s[CharLen(s)..])
    else REPLACEMENT + Repaired(s[1..])
  }

  /** Replaces what is not UTF-8. */
  method ToValidUtf8(input: bytes) returns (out: bytes)
    ensures out == Repaired(input)
  {
    hide CharLen, Repaired;
    out := [];
    var i := 0;
    var n := |input|;
    assert input[0..] == input && [] + Repaired(input) == Repaired(input);
    while i < n
      invariant i <= n && out + Repaired(input[i..]) == Repaired(input)
    {
      var good, len := Check(input, i);
      Step(input, i, if good then len else 0, out);
      if good {
        out := out + input[i..i + len];
        i := i + len;
      } else {
        out := out + REPLACEMENT;
        i := i + 1;
      }
    }
    NothingLeft(input[i..]);
  }

  lemma NothingLeft(s: bytes)
    ensures s == [] ==> Repaired(s) == []
  {
  }

  /** The length which the first byte at i says, and whether there is such a character. */
  method Check(input: bytes, i: nat) returns (good: bool, len: nat)
    requires i < |input|
    ensures CharLen(input[i..]) == if good then len else 0
    ensures good ==> 0 < len && i + len <= |input|
  {
    hide CharLen;
    var c := input[i];
    len := 0;
    if c < 0x80 {
      len := 1;
    } else if c >= 0xC2 && c <= 0xDF {
      len := 2;
    } else if c >= 0xE0 && c <= 0xEF {
      len := 3;
    } else if c >= 0xF0 && c <= 0xF4 {
      len := 4;
    }
    assert len == LeadLen(c);
    good := len > 0 && i + len <= |input|;
    var k := 1;
    while good && k < len
      invariant good ==> len > 0 && i + len <= |input| && 1 <= k <= len && Tails(input, i + 1, i + k)
      invariant !good ==> !(len > 0 && i + len <= |input| && Tails(input, i + 1, i + len))
    {
      if input[i + k] < 0x80 || input[i + k] >= 0xC0 {
        good := false;
      }
      k := k + 1;
    }
    if good && len == 3 {
      var c1 := input[i + 1];
      if c == 0xE0 && c1 < 0xA0 {
        good := false;
      }
      if c == 0xED && c1 >= 0xA0 {
        good := false;
      }
    }
    if good && len == 4 {
      var c1 := input[i + 1];
      if c == 0xF0 && c1 < 0x90 {
        good := false;
      }
      if c == 0xF4 && c1 >= 0x90 {
        good := false;
      }
    }
    TailsShift(input, i, len);
    CheckIsSyntax(input[i..]);
  }

  /** The length of a character by its first byte alone. */
  function LeadLen(c: byte): nat {
    if c < 0x80 then 1 else if 0xC2 <= c <= 0xDF then 2 else if 0xE0 <= c <= 0xEF then 3 else if 0xF0 <= c <= 0xF4 then 4 else 0
  }

  /** Two of the four lead bytes which need more than a tail byte behind them refuse low ones, and two refuse high ones. */
  predicate SecondFits(c: byte, c1: byte) {
    && (c == 0xE0 ==> c1 >= 0xA0) && (c == 0xED ==> c1 < 0xA0)
    && (c == 0xF0 ==> c1 >= 0x90) && (c == 0xF4 ==> c1 < 0x90)
  }

  lemma CheckIsSyntax(s: bytes)
    requires s != []
    ensures var n := LeadLen(s[0]);
            CharLen(s) == if 0 < n <= |s| && Tails(s, 1, n) && (n > 2 ==> SecondFits(s[0], s[1])) then n else 0
  {
  }

  lemma TailsShift(s: bytes, i: nat, len: nat)
    requires i <= |s|
    ensures forall a, b :: a <= b && i + b <= |s| ==> (Tails(s[i..], a, b) <==> Tails(s, i + a, i + b))
  {
  }

  lemma Step(s: bytes, i: nat, len: nat, out: bytes)
    requires i < |s| && CharLen(s[i..]) == len
    ensures len > 0 ==> out + Repaired(s[i..]) == out + s[i..i + len] + Repaired(s[i + len..])
    ensures len == 0 ==> out + Repaired(s[i..]) == out + REPLACEMENT + Repaired(s[i + 1..])
  {
    hide CharLen;
    if len > 0 {
      assert s[i..][..len] == s[i..i + len] && s[i..][len..] == s[i + len..];
    } else {
      assert s[i..][1..] == s[i + 1..];
    }
  }

  /* --- What the repair promises --- */

  lemma {:induction false} RepairedIsWellFormed(s: bytes)
    ensures WellFormed(Repaired(s)) && |Repaired(s)| <= 3 * |s|
    decreases |s|
  {
    hide CharLen;
    if s != [] {
      var n := CharLen(s);
      if n > 0 {
        RepairedIsWellFormed(s[n..]);
        CharInFront(s[..n], Repaired(s[n..]), s);
      } else {
        RepairedIsWellFormed(s[1..]);
        ReplacementIsAChar(Repaired(s[1..]));
        assert (REPLACEMENT + Repaired(s[1..]))[3..] == Repaired(s[1..]);
      }
    }
  }

  lemma ReplacementIsAChar(t: bytes)
    ensures CharLen(REPLACEMENT + t) == 3
  {
  }

  /** What follows a character does not change it. */
  lemma CharInFront(c: bytes, t: bytes, s: bytes)
    requires CharLen(s) > 0 && c == s[..CharLen(s)]
    ensures CharLen(c + t) == |c| && (c + t)[|c|..] == t
  {
    assert forall k :: 0 <= k < |c| ==> (c + t)[k] == s[k];
  }

  /** Text which is UTF-8 stays as it is, and only that. */
  lemma {:induction false} RepairedIsSameIff(s: bytes)
    ensures Repaired(s) == s <==> WellFormed(s)
    decreases |s|
  {
    if WellFormed(s) {
      GoodStaysGood(s);
    } else {
      RepairedIsWellFormed(s);
    }
  }

  lemma {:induction false} GoodStaysGood(s: bytes)
    requires WellFormed(s)
    ensures Repaired(s) == s
    decreases |s|
  {
    hide CharLen;
    if s != [] {
      GoodStaysGood(s[CharLen(s)..]);
      assert s[..CharLen(s)] + s[CharLen(s)..] == s;
    }
  }

  /** Behind well-formed text a byte which starts no character becomes the replacement, and the repair goes on behind it. */
  lemma {:induction false} BadByteIsReplaced(a: bytes, b: bytes)
    requires WellFormed(a) && b != [] && CharLen(b) == 0
    ensures Repaired(a + b) == a + REPLACEMENT + Repaired(b[1..])
    decreases |a|
  {
    hide CharLen;
    if a == [] {
      assert a + b == b;
    } else {
      var n := CharLen(a);
      CharInFront(a[..n], a[n..] + b, a);
      assert a + b == a[..n] + (a[n..] + b) && a == a[..n] + a[n..];
      BadByteIsReplaced(a[n..], b);
      assert a[..n] + (a[n..] + REPLACEMENT + Repaired(b[1..])) == a + REPLACEMENT + Repaired(b[1..]);
    }
  }

  lemma RepairIsIdempotent(s: bytes)
    ensures Repaired(Repaired(s)) == Repaired(s)
  {
    RepairedIsWellFormed(s);
    RepairedIsSameIff(Repaired(s));
  }
}
