/** The times of records which arrive as JSON: what is taken is never negative, so a payload with such times can be converted. */
module UnixTime {
  import opened Bytes
  import opened StateFile
  import opened OtlpWire
  import opened OtlpJson

  const DOT: byte := 46
  const MAX_SECONDS: nat := 9_000_000_000
  const NANOS: nat := 1_000_000_000

  /** A string as C code sees it. */
  function CText(t: bytes): (c: bytes)
    ensures c <= t && NUL !in c && (|c| < |t| ==> t[|c|] == NUL)
  {
    t[..Find(t, NUL, 0)]
  }

  /** How many digits there are from i on. */
  function DigitsFrom(t: bytes, i: nat): (n: nat)
    requires i <= |t|
    ensures i + n <= |t| && AllDigits(t[i..i + n]) && (i + n < |t| ==> !IsDigit(t[i + n]))
    decreases |t| - i
  {
    if i == |t| || !IsDigit(t[i]) then 0 else
    var n := DigitsFrom(t, i + 1);
    assert t[i..i + 1 + n] == [t[i]] + t[i + 1..i + 1 + n];
    n + 1
  }

  lemma OneMoreDigit(t: bytes, from: nat, i: nat)
    requires from <= i < |t| && AllDigits(t[from..i]) && IsDigit(t[i])
    ensures AllDigits(t[from..i + 1]) && NumberValue(t[from..i + 1]) == NumberValue(t[from..i]) * 10 + (t[i] - ZERO)
  {
    assert t[from..i + 1][..i - from] == t[from..i];
  }

  /** More digits never make a smaller number. */
  lemma {:induction false} PrefixIsSmaller(s: bytes, k: nat)
    requires AllDigits(s) && k <= |s|
    ensures AllDigits(s[..k]) && NumberValue(s[..k]) <= NumberValue(s)
    decreases |s|
  {
    if k < |s| {
      var t := s[..|s| - 1];
      PrefixIsSmaller(t, k);
      assert t[..k] == s[..k];
    } else {
      assert s[..k] == s;
    }
  }

  /** The digits end where DigitsFrom says. */
  lemma {:induction false} DigitsEnd(t: bytes, from: nat, end: nat)
    requires from <= end <= |t| && AllDigits(t[from..end]) && (end < |t| ==> !IsDigit(t[end]))
    ensures DigitsFrom(t, from) == end - from
    decreases |t| - from
  {
    if from < end {
      assert t[from] == t[from..end][0];
      assert t[from + 1..end] == t[from..end][1..];
      DigitsEnd(t, from + 1, end);
    }
  }

  /* --- Nanoseconds --- */

  /** Decimal text or a number, and not more than an int64_t holds. */
  function NanosOfJson(v: Json): (n: Option<int64>)
    ensures n.Some? ==> n.value >= 0
  {
    match v
    case Number(Some(n), _) => if 0 <= n < INT64_LIMIT then Some(n) else None
    case Text(t) =>
      (match StateFile.Number(CText(t))
       case Some(n) => if n < INT64_LIMIT then Some(n) else None
       case None => None)
    case _ => None
  }

  /** A number is taken as it is, and a text if it is the digits of the number, perhaps with zeros in front: exactly if it is not
      negative and below the limit. */
  lemma NanosAreRead(n: whole, double: uint64, zeros: bytes)
    requires forall i :: 0 <= i < |zeros| ==> zeros[i] == ZERO
    ensures NanosOfJson(Number(Some(n), double)) == if 0 <= n < INT64_LIMIT then Some(n) else None
    ensures n >= 0 ==> NanosOfJson(Text(zeros + Digits(n))) == if n < INT64_LIMIT then Some(n) else None
    ensures n < 0 ==> NanosOfJson(Text([MINUS] + Digits(-n))) == None
  {
    if n >= 0 {
      NumberOfDigits(n);
      ZerosInFront(zeros, Digits(n));
      FindNothing(zeros + Digits(n));
    } else {
      FindNothing([MINUS] + Digits(-n));
    }
  }

  lemma {:induction false} ZerosInFront(zeros: bytes, d: bytes)
    requires AllDigits(d) && forall i :: 0 <= i < |zeros| ==> zeros[i] == ZERO
    ensures AllDigits(zeros + d) && NumberValue(zeros + d) == NumberValue(d)
  {
    if d == [] {
      assert zeros + d == zeros;
      OnlyZeros(zeros);
    } else {
      ZerosInFront(zeros, d[..|d| - 1]);
      assert (zeros + d)[..|zeros + d| - 1] == zeros + d[..|d| - 1];
    }
  }

  lemma {:induction false} OnlyZeros(zeros: bytes)
    requires forall i :: 0 <= i < |zeros| ==> zeros[i] == ZERO
    ensures AllDigits(zeros) && NumberValue(zeros) == 0
  {
    if zeros != [] {
      OnlyZeros(zeros[..|zeros| - 1]);
    }
  }

  method GetUnixNanoFromJson(v: Json) returns (ok: bool, n: int64)
    ensures ok == NanosOfJson(v).Some?
    ensures ok ==> n == NanosOfJson(v).value >= 0
  {
    ok, n := false, 0;
    match v
    case Text(t) =>
      var some, value := ReadDecimal(CText(t));
      if some && value < INT64_LIMIT {
        ok, n := true, value;
      }
    case Number(exact, _) =>
      if exact.Some? && 0 <= exact.value < INT64_LIMIT {
        ok, n := true, exact.value;
      }
    case _ =>
  }

  /** The loop over the digits. The number never wraps around: the test comes before the multiplication. */
  method ReadDecimal(s: bytes) returns (some: bool, n: uint64)
    ensures some == StateFile.Number(s).Some?
    ensures some ==> n == StateFile.Number(s).value
  {
    some, n := false, 0;
    if s == [] {
      return;
    }
    for p := 0 to |s|
      invariant AllDigits(s[0..p]) && NumberValue(s[0..p]) == n
    {
      if !IsDigit(s[p]) {
        return;
      }
      OneMoreDigit(s, 0, p);
      if n > (OtlpWire.UINT64_SPAN - 1 - (s[p] - ZERO)) / 10 {
        assert s[0..p + 1] == s[..p + 1];
        if AllDigits(s) {
          PrefixIsSmaller(s, p + 1);
        }
        return;
      }
      n := n * 10 + (s[p] - ZERO);
    }
    assert s[0..|s|] == s;
    some := true;
  }

  /* --- Seconds with a fraction --- */

  /** Digits, and perhaps a dot and more digits behind it. */
  predicate IsSeconds(t: bytes) {
    var n := DigitsFrom(t, 0);
    n > 0 && (n == |t| || (t[n] == DOT && n + 1 + DigitsFrom(t, n + 1) == |t|))
  }

  function Whole(t: bytes): (w: bytes)
    ensures AllDigits(w)
  {
    t[0..DigitsFrom(t, 0)]
  }

  function Fraction(t: bytes): (f: bytes)
    ensures AllDigits(f)
  {
    var n := DigitsFrom(t, 0);
    if n < |t| then t[n + 1..n + 1 + DigitsFrom(t, n + 1)] else []
  }

  /** The first nine digits of a fraction, and zeros up to nine. */
  function Billionths(f: bytes): nat
    requires AllDigits(f)
  {
    NumberValue(Front(f)) * Power10(9 - |Front(f)|)
  }

  function Front(f: bytes): (r: bytes)
    ensures |r| <= 9 && (AllDigits(f) ==> AllDigits(r))
  {
    if |f| <= 9 then f else f[..9]
  }

  lemma {:induction false} NumberBound(s: bytes)
    requires AllDigits(s)
    ensures NumberValue(s) < Power10(|s|)
  {
    if s != [] {
      NumberBound(s[..|s| - 1]);
    }
  }

  lemma BillionthsBound(f: bytes)
    requires AllDigits(f)
    ensures Billionths(f) < NANOS
  {
    var r := Front(f);
    assert Power10(9) == NANOS;
    NumberBound(r);
    PowerSplits(|r|, 9 - |r|);
    MulLess(NumberValue(r), Power10(|r|), Power10(9 - |r|));
  }

  /** What is read of a fraction is what it is worth, rounded down to nanoseconds. */
  lemma BillionthsIsFloor(f: bytes)
    requires AllDigits(f)
    ensures Billionths(f) * Power10(|f|) <= NumberValue(f) * NANOS < (Billionths(f) + 1) * Power10(|f|)
  {
    hide NumberValue, Power10;
    if |f| <= 9 {
      FractionIsShort(f);
    } else {
      FractionIsLong(f);
    }
  }

  lemma FractionIsShort(f: bytes)
    requires AllDigits(f) && |f| <= 9
    ensures Billionths(f) * Power10(|f|) <= NumberValue(f) * NANOS < (Billionths(f) + 1) * Power10(|f|)
  {
    hide NumberValue, Power10;
    TenTo9();
    PowerSplits(|f|, 9 - |f|);
    PowerSplits(0, |f|);
    FloorOfShort(NumberValue(f), Power10(|f|), Power10(9 - |f|));
  }

  lemma FractionIsLong(f: bytes)
    requires AllDigits(f) && |f| > 9
    ensures Billionths(f) * Power10(|f|) <= NumberValue(f) * NANOS < (Billionths(f) + 1) * Power10(|f|)
  {
    hide NumberValue, Power10;
    var high, low := f[..9], f[9..];
    assert f == high + low;
    ValueSplits(high, low);
    NumberBound(low);
    TenTo9();
    PowerSplits(9, |low|);
    FloorOfLong(NumberValue(high), NumberValue(low), Power10(|low|));
    BillionthsOfLong(f);
  }

  lemma TenTo9()
    ensures Power10(9) == NANOS && Power10(0) == 1
  {
  }

  lemma BillionthsOfLong(f: bytes)
    requires AllDigits(f) && |f| > 9
    ensures Billionths(f) == NumberValue(f[..9])
  {
    hide NumberValue;
  }

  lemma FloorOfShort(v: nat, p: nat, q: nat)
    requires p * q == NANOS && 0 < p
    ensures v * q * p <= v * NANOS < (v * q + 1) * p
  {
    assert v * q * p == v * NANOS;
  }

  lemma FloorOfLong(r: nat, low: nat, p: nat)
    requires low < p
    ensures r * (NANOS * p) <= (r * p + low) * NANOS < (r + 1) * (NANOS * p)
  {
    assert (r * p + low) * NANOS == r * (NANOS * p) + low * NANOS;
    assert (r + 1) * (NANOS * p) == r * (NANOS * p) + NANOS * p;
    MulLess(low, p, NANOS);
  }

  lemma {:induction false} ValueSplits(a: bytes, b: bytes)
    requires AllDigits(a) && AllDigits(b)
    ensures NumberValue(a + b) == NumberValue(a) * Power10(|b|) + NumberValue(b)
  {
    if b == [] {
      assert a + b == a;
      TimesOne(NumberValue(a));
    } else {
      var front := b[..|b| - 1];
      ValueSplits(a, front);
      assert (a + b)[..|a + b| - 1] == a + front;
      TimesTen(NumberValue(a), Power10(|front|), NumberValue(front));
    }
  }

  lemma TimesOne(a: nat)
    ensures a * Power10(0) == a
  {
  }

  lemma TimesTen(a: nat, p: nat, b: nat)
    ensures (a * p + b) * 10 == a * (10 * p) + b * 10
  {
  }

  lemma MulLess(a: nat, b: nat, c: nat)
    requires a < b && 0 < c
    ensures a * c < b * c
  {
  }

  lemma {:induction false} PowerSplits(a: nat, b: nat)
    ensures Power10(a + b) == Power10(a) * Power10(b) && 0 < Power10(b)
    decreases b
  {
    if b > 0 {
      PowerSplits(a, b - 1);
      assert Power10(a + b) == 10 * Power10(a + (b - 1));
    } else {
      assert a + b == a;
    }
  }

  datatype Seconds = SecondsText(text: bytes) | SecondsNumber(value: real) | NoSeconds

  function NanosOfSeconds(v: Seconds): Option<int>
  {
    match v
    case SecondsText(text) =>
      var t := CText(text);
      if IsSeconds(t) && NumberValue(Whole(t)) <= MAX_SECONDS
      then Some(NumberValue(Whole(t)) * NANOS + Billionths(Fraction(t))) else None
    case SecondsNumber(d) =>
      if 0.0 < d <= MAX_SECONDS as real then Some((d * NANOS as real).Floor) else None
    case NoSeconds => None
  }

  /** Whatever is taken is a time which is not negative, and fits. */
  lemma SecondsFit(v: Seconds)
    ensures NanosOfSeconds(v).Some? ==> 0 <= NanosOfSeconds(v).value <= MAX_SECONDS * NANOS + NANOS - 1 < INT64_LIMIT
  {
    if v.SecondsText? {
      BillionthsBound(Fraction(CText(v.text)));
    }
  }

  /** A number is printed with its digits and any fraction: what is read is the number and the first nine digits. */
  lemma WrittenSecondsAreRead(s: nat, f: bytes)
    requires AllDigits(f)
    ensures NanosOfSeconds(SecondsText(Digits(s) + [DOT] + f)) == if s <= MAX_SECONDS then Some(s * NANOS + Billionths(f)) else None
    ensures NanosOfSeconds(SecondsText(Digits(s))) == if s <= MAX_SECONDS then Some(s * NANOS) else None
  {
    hide IsSeconds, Whole, Fraction, DigitsFrom, Digits, NumberValue, Find, CText;
    NumberOfDigits(s);
    Parts(Digits(s), f);
    WholeAlone(Digits(s));
    NothingBehind();
  }

  /** A whole number of seconds is the same time as a number and as a text. Only 0 is taken as a text and not as a number. */
  lemma SecondsAgree(s: nat)
    ensures NanosOfSeconds(SecondsNumber(s as real)) == if s == 0 then None else NanosOfSeconds(SecondsText(Digits(s)))
    ensures NanosOfSeconds(SecondsText(Digits(0))) == Some(0)
  {
    hide NanosOfSeconds;
    WrittenSecondsAreRead(s, []);
    WrittenSecondsAreRead(0, []);
    WholeNumber(s);
  }

  lemma WholeNumber(s: nat)
    ensures NanosOfSeconds(SecondsNumber(s as real)) == if 0 < s <= MAX_SECONDS then Some(s * NANOS) else None
  {
    assert s as real * NANOS as real == (s * NANOS) as real;
  }

  lemma NothingBehind()
    ensures Billionths([]) == 0
  {
  }

  lemma Parts(w: bytes, f: bytes)
    requires AllDigits(w) && AllDigits(f) && w != []
    ensures var t := w + [DOT] + f; CText(t) == t && IsSeconds(t) && Whole(t) == w && Fraction(t) == f
  {
    var t := w + [DOT] + f;
    assert t[0..|w|] == w && t[|w|] == DOT && t[|w| + 1..|t|] == f;
    DigitsEnd(t, 0, |w|);
    DigitsEnd(t, |w| + 1, |t|);
    FindNothing(t);
  }

  lemma WholeAlone(w: bytes)
    requires AllDigits(w) && w != []
    ensures CText(w) == w && IsSeconds(w) && Whole(w) == w && Fraction(w) == []
  {
    assert w[0..|w|] == w;
    DigitsEnd(w, 0, |w|);
    FindNothing(w);
  }

  method GetUnixNanoFromSeconds(v: Seconds) returns (ok: bool, n: int64)
    ensures ok == NanosOfSeconds(v).Some?
    ensures ok ==> n == NanosOfSeconds(v).value >= 0
  {
    SecondsFit(v);
    ok, n := false, 0;
    match v
    case SecondsText(text) =>
      var t := CText(text);
      var some, whole, p := ReadWhole(t);
      if !some {
        return;
      }
      var end, frac := ReadFraction(t, p);
      if end < |t| || whole > MAX_SECONDS {
        return;
      }
      ok, n := true, whole * NANOS + frac;
    case SecondsNumber(d) =>
      if d <= 0.0 || d > MAX_SECONDS as real {
        return;
      }
      var sec := d.Floor;
      var frac := ((d - sec as real) * NANOS as real).Floor;
      FloorSplits(d);
      ok, n := true, sec * NANOS + frac;
    case NoSeconds =>
  }

  lemma FloorSplits(d: real)
    ensures (d * NANOS as real).Floor == d.Floor * NANOS + ((d - d.Floor as real) * NANOS as real).Floor
  {
    var r := (d - d.Floor as real) * NANOS as real;
    assert d * NANOS as real == (d.Floor * NANOS) as real + r;
  }

  /** The digits in front of the dot. A number which is too large already ends the loop, so nothing wraps around. */
  method ReadWhole(t: bytes) returns (some: bool, n: nat, p: nat)
    ensures some ==> p == DigitsFrom(t, 0) > 0 && n == NumberValue(Whole(t)) && n <= 10 * MAX_SECONDS + 9
    ensures !some ==> DigitsFrom(t, 0) == 0 || NumberValue(Whole(t)) > MAX_SECONDS
  {
    n, p := 0, 0;
    while p < |t| && IsDigit(t[p])
      invariant p <= DigitsFrom(t, 0) && AllDigits(t[0..p]) && n == NumberValue(t[0..p]) <= 10 * MAX_SECONDS + 9
    {
      WholeStarts(t, p);
      if n > MAX_SECONDS {
        return false, n, p;
      }
      OneMoreDigit(t, 0, p);
      n := n * 10 + (t[p] - ZERO);
      p := p + 1;
    }
    DigitsEnd(t, 0, p);
    some := p > 0;
  }

  lemma WholeStarts(t: bytes, p: nat)
    requires p <= DigitsFrom(t, 0)
    ensures AllDigits(t[0..p]) && NumberValue(t[0..p]) <= NumberValue(Whole(t))
    ensures p < |t| && IsDigit(t[p]) ==> p < DigitsFrom(t, 0)
  {
    assert Whole(t)[..p] == t[0..p];
    PrefixIsSmaller(Whole(t), p);
  }

  /** The digits behind the dot, if there is one: nine of them count. */
  method ReadFraction(t: bytes, start: nat) returns (p: nat, frac: nat)
    requires start == DigitsFrom(t, 0) > 0
    ensures p <= |t| && (p == |t| <==> IsSeconds(t))
    ensures p == |t| ==> frac == Billionths(Fraction(t))
  {
    hide IsSeconds, Fraction, DigitsFrom, NumberValue, Front, Power10;
    p, frac := start, 0;
    var count: nat := 0;
    FrontStarts();
    if p < |t| && t[p] == DOT {
      p, frac, count := ReadNine(t, start + 1);
      DotIsThere(t, start, p);
    } else {
      NoDot(t, start);
    }
    frac := Padded(frac, count);
  }

  lemma DotIsThere(t: bytes, start: nat, p: nat)
    requires start == DigitsFrom(t, 0) > 0 && start < |t| && t[start] == DOT && p == start + 1 + DigitsFrom(t, start + 1)
    ensures IsSeconds(t) <==> p == |t|
    ensures Fraction(t) == t[start + 1..p]
  {
  }

  lemma NoDot(t: bytes, start: nat)
    requires start == DigitsFrom(t, 0) > 0 && (start < |t| ==> t[start] != DOT)
    ensures IsSeconds(t) <==> start == |t|
    ensures start == |t| ==> Fraction(t) == []
  {
  }

  method ReadNine(t: bytes, from: nat) returns (p: nat, frac: nat, count: nat)
    requires from <= |t|
    ensures p == from + DigitsFrom(t, from) && count == |Front(t[from..p])| && frac == NumberValue(Front(t[from..p]))
  {
    hide NumberValue, DigitsFrom, Front;
    p, frac, count := from, 0, 0;
    FrontStarts();
    assert t[from..from] == [];
    while p < |t| && IsDigit(t[p])
      invariant from <= p <= |t| && AllDigits(t[from..p])
      invariant count == |Front(t[from..p])| && frac == NumberValue(Front(t[from..p]))
    {
      FrontGrows(t[from..p], t[p]);
      assert t[from..p + 1] == t[from..p] + [t[p]];
      if count < 9 {
        frac := frac * 10 + (t[p] - ZERO);
        count := count + 1;
      }
      p := p + 1;
    }
    DigitsEnd(t, from, p);
  }

  lemma FrontGrows(f: bytes, c: byte)
    requires AllDigits(f) && IsDigit(c)
    ensures var g := f + [c];
            if |f| < 9 then Front(g) == Front(f) + [c] && NumberValue(Front(g)) == NumberValue(Front(f)) * 10 + (c - ZERO)
            else Front(g) == Front(f)
    ensures |Front(f)| == (if |f| < 9 then |f| else 9) && AllDigits(f + [c])
  {
    var g := f + [c];
    assert g[..|g| - 1] == f;
  }

  lemma FrontStarts()
    ensures Front([]) == [] && NumberValue([]) == 0
  {
  }

  /** Zeros up to nine digits. */
  method Padded(digits: nat, read: nat) returns (frac: nat)
    requires read <= 9
    ensures frac == digits * Power10(9 - read)
  {
    frac := digits;
    var count := read;
    while count < 9
      invariant read <= count <= 9 && frac == digits * Power10(count - read)
    {
      MulTen(digits, Power10(count - read));
      frac, count := frac * 10, count + 1;
    }
  }

  lemma MulTen(a: nat, b: nat)
    ensures a * b * 10 == a * (10 * b)
  {
  }
}
