/** JSON as the mail log writes it, without blanks, and a parser for it by RFC 8259. Printing and parsing are inverse. */
module MailJson {
  import opened Bytes
  import StateFile
  import Utf8

  datatype Node = Str(text: bytes) | Num(number: nat) | Flag(flag: bool) | Arr(items: seq<Node>) | Obj(pairs: seq<Pair>)

  datatype Pair = Pair(key: bytes, value: Node)

  const QUOTE: byte := 34
  const COMMA: byte := 44
  const SLASH: byte := 47
  const COLON: byte := 58
  const OPEN_ARRAY: byte := 91
  const BACKSLASH: byte := 92
  const CLOSE_ARRAY: byte := 93
  const OPEN_OBJECT: byte := 123
  const CLOSE_OBJECT: byte := 125
  const SPACE: byte := 32
  const TRUE_TEXT: bytes := [116, 114, 117, 101]
  const FALSE_TEXT: bytes := [102, 97, 108, 115, 101]

  /* --- Printing --- */

  function HexDigit(n: nat): byte
    requires n < 16
  {
    if n < 10 then 48 + n else 87 + n
  }

  /** Section 7 of RFC 8259: quotes, backslashes and control characters are escaped. */
  function EscapedByte(c: byte): (e: bytes)
    ensures e != [] && forall i :: 0 <= i < |e| ==> e[i] >= SPACE
  {
    if c == QUOTE || c == BACKSLASH then [BACKSLASH, c]
    else if c == 8 then [BACKSLASH, 98]
    else if c == 12 then [BACKSLASH, 102]
    else if c == 10 then [BACKSLASH, 110]
    else if c == 13 then [BACKSLASH, 114]
    else if c == 9 then [BACKSLASH, 116]
    else if c < SPACE then [BACKSLASH, 117, 48, 48, HexDigit(c / 16), HexDigit(c % 16)]
    else [c]
  }

  function Escaped(text: bytes): bytes {
    if text == [] then [] else EscapedByte(text[0]) + Escaped(text[1..])
  }

  function PrintString(text: bytes): bytes {
    [QUOTE] + Escaped(text) + [QUOTE]
  }

  function Print(n: Node): (p: bytes)
    ensures p != []
    decreases n, 1
  {
    match n
    case Str(text) => PrintString(text)
    case Num(k) => StateFile.Digits(k)
    case Flag(b) => if b then TRUE_TEXT else FALSE_TEXT
    case Arr(items) => [OPEN_ARRAY] + PrintItems(items) + [CLOSE_ARRAY]
    case Obj(pairs) => [OPEN_OBJECT] + PrintPairs(pairs) + [CLOSE_OBJECT]
  }

  function PrintItems(items: seq<Node>): bytes
    decreases items, 0
  {
    if items == [] then [] else if |items| == 1 then Print(items[0]) else Print(items[0]) + [COMMA] + PrintItems(items[1..])
  }

  function PrintPair(p: Pair): (t: bytes)
    decreases p, 0
  {
    PrintString(p.key) + [COLON] + Print(p.value)
  }

  function PrintPairs(pairs: seq<Pair>): bytes
    decreases pairs, 0
  {
    if pairs == [] then [] else if |pairs| == 1 then PrintPair(pairs[0]) else PrintPair(pairs[0]) + [COMMA] + PrintPairs(pairs[1..])
  }

  /* --- Parsing --- */

  datatype Result<+T> = Ok(value: T, rest: bytes) | Bad

  function HexValue(c: byte): Option<nat> {
    if 48 <= c <= 57 then Some(c - 48) else if 97 <= c <= 102 then Some(c - 87) else if 65 <= c <= 70 then Some(c - 55) else None
  }

  function HexNumber(s: bytes): Option<nat>
    requires |s| >= 4
  {
    match (HexValue(s[0]), HexValue(s[1]), HexValue(s[2]), HexValue(s[3]))
    case (Some(a), Some(b), Some(c), Some(d)) => Some(a * 4096 + b * 256 + c * 16 + d)
    case _ => None
  }

  /** The characters of a string up to its closing quote. */
  function ParseChars(s: bytes): (r: Result<bytes>)
    ensures r.Ok? ==> |r.rest| < |s|
    decreases |s|
  {
    if s == [] || s[0] < SPACE then Bad
    else if s[0] == QUOTE then Ok([], s[1..])
    else if s[0] != BACKSLASH then Before([s[0]], ParseChars(s[1..]))
    else if |s| < 2 then Bad
    else if s[1] == QUOTE || s[1] == BACKSLASH || s[1] == SLASH then Before([s[1]], ParseChars(s[2..]))
    else if s[1] == 98 then Before([8], ParseChars(s[2..]))
    else if s[1] == 102 then Before([12], ParseChars(s[2..]))
    else if s[1] == 110 then Before([10], ParseChars(s[2..]))
    else if s[1] == 114 then Before([13], ParseChars(s[2..]))
    else if s[1] == 116 then Before([9], ParseChars(s[2..]))
    else if s[1] == 117 && |s| >= 6 then
      match HexNumber(s[2..])
      case None => Bad
      case Some(v) => if Utf8.IsScalar(v) then Before(Utf8.EncodeScalar(v), ParseChars(s[6..])) else Bad
    else Bad
  }

  function Before(b: bytes, r: Result<bytes>): Result<bytes> {
    match r
    case Bad => Bad
    case Ok(text, rest) => Ok(b + text, rest)
  }

  function ParseString(s: bytes): (r: Result<bytes>)
    ensures r.Ok? ==> |r.rest| < |s|
  {
    if s == [] || s[0] != QUOTE then Bad else ParseChars(s[1..])
  }

  function DigitCount(s: bytes): (n: nat)
    ensures n <= |s| && StateFile.AllDigits(s[..n]) && (n < |s| ==> !StateFile.IsDigit(s[n]))
  {
    if s == [] || !StateFile.IsDigit(s[0]) then 0 else
    var n := DigitCount(s[1..]);
    assert s[..n + 1] == [s[0]] + s[1..][..n];
    n + 1
  }

  function ParseValue(s: bytes): (r: Result<Node>)
    ensures r.Ok? ==> |r.rest| < |s|
    decreases |s|, 1
  {
    if s == [] then Bad
    else if s[0] == QUOTE then (match ParseString(s) case Bad => Bad case Ok(t, rest) => Ok(Str(t), rest))
    else if s[0] == OPEN_ARRAY then (match ParseArray(s[1..]) case Bad => Bad case Ok(items, rest) => Ok(Arr(items), rest))
    else if s[0] == OPEN_OBJECT then (match ParseObject(s[1..]) case Bad => Bad case Ok(pairs, rest) => Ok(Obj(pairs), rest))
    else if StateFile.IsDigit(s[0]) then Ok(Num(StateFile.NumberValue(s[..DigitCount(s)])), s[DigitCount(s)..])
    else if TRUE_TEXT <= s then Ok(Flag(true), s[4..])
    else if FALSE_TEXT <= s then Ok(Flag(false), s[5..])
    else Bad
  }

  function ParseArray(s: bytes): (r: Result<seq<Node>>)
    ensures r.Ok? ==> |r.rest| < |s|
    decreases |s|, 3
  {
    if s != [] && s[0] == CLOSE_ARRAY then Ok([], s[1..]) else ParseItems(s)
  }

  function ParseItems(s: bytes): (r: Result<seq<Node>>)
    ensures r.Ok? ==> |r.rest| < |s|
    decreases |s|, 2
  {
    match ParseValue(s)
    case Bad => Bad
    case Ok(v, t) =>
      if t == [] then Bad
      else if t[0] == CLOSE_ARRAY then Ok([v], t[1..])
      else if t[0] == COMMA then (match ParseItems(t[1..]) case Bad => Bad case Ok(items, rest) => Ok([v] + items, rest))
      else Bad
  }

  function ParseObject(s: bytes): (r: Result<seq<Pair>>)
    ensures r.Ok? ==> |r.rest| < |s|
    decreases |s|, 3
  {
    if s != [] && s[0] == CLOSE_OBJECT then Ok([], s[1..]) else ParsePairs(s)
  }

  function ParsePairs(s: bytes): (r: Result<seq<Pair>>)
    ensures r.Ok? ==> |r.rest| < |s|
    decreases |s|, 2
  {
    match ParseString(s)
    case Bad => Bad
    case Ok(key, t) =>
      if t == [] || t[0] != COLON then Bad else
      match ParseValue(t[1..])
      case Bad => Bad
      case Ok(v, u) =>
        if u == [] then Bad
        else if u[0] == CLOSE_OBJECT then Ok([Pair(key, v)], u[1..])
        else if u[0] == COMMA then (match ParsePairs(u[1..]) case Bad => Bad case Ok(pairs, rest) => Ok([Pair(key, v)] + pairs, rest))
        else Bad
  }

  /* --- Parsing undoes printing --- */

  lemma EscapedByteParses(c: byte, t: bytes)
    ensures ParseChars(EscapedByte(c) + t) == Before([c], ParseChars(t))
  {
    var e := EscapedByte(c);
    if |e| == 6 {
      HexParses(c, t);
    } else if |e| == 2 {
      assert (e + t)[2..] == t && (e + t)[0] == e[0] && (e + t)[1] == e[1];
    } else {
      assert (e + t)[1..] == t && (e + t)[0] == e[0];
    }
  }

  lemma HexParses(c: byte, t: bytes)
    requires c < SPACE
    ensures ParseChars([BACKSLASH, 117, 48, 48, HexDigit(c / 16), HexDigit(c % 16)] + t) == Before([c], ParseChars(t))
  {
    var e := [BACKSLASH, 117, 48, 48, HexDigit(c / 16), HexDigit(c % 16)];
    var s := e + t;
    assert s[0] == BACKSLASH && s[1] == 117 && s[6..] == t;
    assert s[2..][0] == 48 && s[2..][1] == 48 && s[2..][2] == e[4] && s[2..][3] == e[5];
    HexDigitValue(c / 16);
    HexDigitValue(c % 16);
    hide HexDigit, HexValue;
    assert HexNumber(s[2..]) == Some(c);
  }

  lemma HexDigitValue(n: nat)
    requires n < 16
    ensures HexValue(HexDigit(n)) == Some(n) && HexValue(48) == Some(0)
  {
  }

  lemma {:induction false} StringParses(text: bytes, t: bytes)
    ensures ParseString(PrintString(text) + t) == Ok(text, t)
  {
    hide EscapedByte, ParseChars;
    CharsParse(text, t);
    assert (PrintString(text) + t)[1..] == Escaped(text) + ([QUOTE] + t);
  }

  lemma {:induction false} CharsParse(text: bytes, t: bytes)
    ensures ParseChars(Escaped(text) + ([QUOTE] + t)) == Ok(text, t)
  {
    hide EscapedByte, ParseChars;
    if text == [] {
      assert Escaped(text) + ([QUOTE] + t) == [QUOTE] + t;
      QuoteParses(t);
    } else {
      var rest := Escaped(text[1..]) + ([QUOTE] + t);
      assert Escaped(text) + ([QUOTE] + t) == EscapedByte(text[0]) + rest;
      EscapedByteParses(text[0], rest);
      CharsParse(text[1..], t);
      assert [text[0]] + text[1..] == text;
    }
  }

  lemma QuoteParses(t: bytes)
    ensures ParseChars([QUOTE] + t) == Ok([], t)
  {
    assert ([QUOTE] + t)[1..] == t;
  }

  lemma {:induction false} DigitsCount(d: bytes, t: bytes)
    requires StateFile.AllDigits(d) && (t == [] || !StateFile.IsDigit(t[0]))
    ensures DigitCount(d + t) == |d|
  {
    if d != [] {
      DigitsCount(d[1..], t);
      assert (d + t)[1..] == d[1..] + t;
    } else {
      assert d + t == t;
    }
  }

  lemma NumberParses(k: nat, t: bytes)
    requires t == [] || !StateFile.IsDigit(t[0])
    ensures ParseValue(StateFile.Digits(k) + t) == Ok(Num(k), t)
  {
    var d := StateFile.Digits(k);
    StateFile.NumberOfDigits(k);
    DigitsCount(d, t);
    assert (d + t)[..|d|] == d && (d + t)[|d|..] == t && (d + t)[0] == d[0];
  }

  /** Any value which is printed is parsed back, with what follows it left over. */
  lemma {:induction false} ValueParses(n: Node, t: bytes)
    requires t == [] || !StateFile.IsDigit(t[0])
    ensures ParseValue(Print(n) + t) == Ok(n, t)
    decreases n, 1
  {
    hide ParseValue, ParseString, PrintString, ParseArray, ParseObject, PrintItems, PrintPairs, StateFile.Digits;
    match n
    case Str(text) =>
      StringParses(text, t);
      StartsWithQuote(text, t);
      ByFirstByte(PrintString(text) + t);
    case Num(k) => NumberParses(k, t);
    case Flag(b) => FlagParses(b, t);
    case Arr(items) =>
      ArrayParses(items, t);
      assert (Print(n) + t)[1..] == PrintItems(items) + [CLOSE_ARRAY] + t;
      ByFirstByte(Print(n) + t);
    case Obj(pairs) =>
      ObjectParses(pairs, t);
      assert (Print(n) + t)[1..] == PrintPairs(pairs) + [CLOSE_OBJECT] + t;
      ByFirstByte(Print(n) + t);
  }

  lemma ByFirstByte(s: bytes)
    requires s != []
    ensures s[0] == QUOTE && ParseString(s).Ok? ==> ParseValue(s) == Ok(Str(ParseString(s).value), ParseString(s).rest)
    ensures s[0] == OPEN_ARRAY && ParseArray(s[1..]).Ok? ==> ParseValue(s) == Ok(Arr(ParseArray(s[1..]).value), ParseArray(s[1..]).rest)
    ensures s[0] == OPEN_OBJECT && ParseObject(s[1..]).Ok? ==> ParseValue(s) == Ok(Obj(ParseObject(s[1..]).value), ParseObject(s[1..]).rest)
  {
    hide ParseString, ParseArray, ParseObject;
  }

  lemma FlagParses(b: bool, t: bytes)
    ensures ParseValue(Print(Flag(b)) + t) == Ok(Flag(b), t)
  {
    hide ParseString, ParseArray, ParseObject;
    assert (TRUE_TEXT + t)[4..] == t && (FALSE_TEXT + t)[5..] == t;
    assert (TRUE_TEXT + t)[0] == 116 && (FALSE_TEXT + t)[0] == 102;
  }

  lemma StartsWithQuote(text: bytes, t: bytes)
    ensures |PrintString(text) + t| > 0 && (PrintString(text) + t)[0] == QUOTE
  {
  }

  lemma {:induction false} ArrayParses(items: seq<Node>, t: bytes)
    ensures ParseArray(PrintItems(items) + [CLOSE_ARRAY] + t) == Ok(items, t)
    decreases items, 2
  {
    hide ParseItems, Print;
    var s := PrintItems(items) + [CLOSE_ARRAY] + t;
    if items == [] {
      assert s == [CLOSE_ARRAY] + t && s[1..] == t;
    } else {
      ItemsParse(items, t);
      FirstByte(items[0]);
      assert s[0] == Print(items[0])[0];
    }
  }

  /** A value does not start with a closing bracket. */
  lemma FirstByte(n: Node)
    ensures Print(n)[0] != CLOSE_ARRAY && Print(n)[0] != CLOSE_OBJECT
  {
  }

  lemma {:induction false} ItemsParse(items: seq<Node>, t: bytes)
    requires items != []
    ensures ParseItems(PrintItems(items) + [CLOSE_ARRAY] + t) == Ok(items, t)
    decreases items, 1
  {
    hide ParseValue, Print;
    var s := PrintItems(items) + [CLOSE_ARRAY] + t;
    if |items| == 1 {
      var u := [CLOSE_ARRAY] + t;
      assert s == Print(items[0]) + u && u[1..] == t;
      ValueParses(items[0], u);
      assert items == [items[0]];
    } else {
      var u := [COMMA] + (PrintItems(items[1..]) + [CLOSE_ARRAY] + t);
      assert s == Print(items[0]) + u;
      assert u[1..] == PrintItems(items[1..]) + [CLOSE_ARRAY] + t;
      ValueParses(items[0], u);
      ItemsParse(items[1..], t);
      assert items == [items[0]] + items[1..];
    }
  }

  lemma {:induction false} ObjectParses(pairs: seq<Pair>, t: bytes)
    ensures ParseObject(PrintPairs(pairs) + [CLOSE_OBJECT] + t) == Ok(pairs, t)
    decreases pairs, 2
  {
    hide ParsePairs, Print, PrintString;
    var s := PrintPairs(pairs) + [CLOSE_OBJECT] + t;
    if pairs == [] {
      assert s == [CLOSE_OBJECT] + t && s[1..] == t;
    } else {
      PairsParse(pairs, t);
      StartsWithQuote(pairs[0].key, []);
      assert PrintString(pairs[0].key) + [] == PrintString(pairs[0].key);
      assert s[0] == PrintString(pairs[0].key)[0];
    }
  }

  lemma {:induction false} PairsParse(pairs: seq<Pair>, t: bytes)
    requires pairs != []
    ensures ParsePairs(PrintPairs(pairs) + [CLOSE_OBJECT] + t) == Ok(pairs, t)
    decreases pairs, 1
  {
    hide ParseValue, ParseString, ParsePairs, Print, PrintString, PrintPairs;
    var p := pairs[0];
    var u := if |pairs| == 1 then [CLOSE_OBJECT] + t else [COMMA] + (PrintPairs(pairs[1..]) + [CLOSE_OBJECT] + t);
    var s, behind := PrintPairs(pairs) + [CLOSE_OBJECT] + t, [COLON] + (Print(p.value) + u);
    PairsSplit(pairs, t, u);
    StringParses(p.key, behind);
    ValueParses(p.value, u);
    assert behind[1..] == Print(p.value) + u;
    OnePair(s, p.key, behind, p.value, u);
    if |pairs| == 1 {
      assert u[1..] == t && pairs == [p];
    } else {
      assert u[1..] == PrintPairs(pairs[1..]) + [CLOSE_OBJECT] + t;
      PairsParse(pairs[1..], t);
      assert pairs == [p] + pairs[1..];
    }
  }

  lemma OnePair(s: bytes, key: bytes, t: bytes, v: Node, u: bytes)
    requires ParseString(s) == Ok(key, t) && t != [] && t[0] == COLON && ParseValue(t[1..]) == Ok(v, u) && u != []
    ensures u[0] == CLOSE_OBJECT ==> ParsePairs(s) == Ok([Pair(key, v)], u[1..])
    ensures u[0] == COMMA && ParsePairs(u[1..]).Ok? ==>
              ParsePairs(s) == Ok([Pair(key, v)] + ParsePairs(u[1..]).value, ParsePairs(u[1..]).rest)
  {
    hide ParseValue, ParseString;
  }

  lemma PairsSplit(pairs: seq<Pair>, t: bytes, u: bytes)
    requires pairs != []
    requires u == if |pairs| == 1 then [CLOSE_OBJECT] + t else [COMMA] + (PrintPairs(pairs[1..]) + [CLOSE_OBJECT] + t)
    ensures PrintPairs(pairs) + [CLOSE_OBJECT] + t == PrintString(pairs[0].key) + ([COLON] + (Print(pairs[0].value) + u))
  {
    hide Print, PrintString;
    var k, v := PrintString(pairs[0].key), Print(pairs[0].value);
    if |pairs| > 1 {
      var rest := PrintPairs(pairs[1..]);
      Associative(k + [COLON] + v, [COMMA], rest);
      Associative(k + [COLON] + v, [COMMA] + rest, [CLOSE_OBJECT]);
      Associative([COMMA], rest, [CLOSE_OBJECT]);
      Associative(k + [COLON] + v, [COMMA] + (rest + [CLOSE_OBJECT]), t);
      Associative([COMMA], rest + [CLOSE_OBJECT], t);
    } else {
      Associative(k + [COLON] + v, [CLOSE_OBJECT], t);
    }
    Associative(k + [COLON], v, u);
    Associative(k, [COLON], v + u);
  }

  /* --- A record is one line --- */

  predicate NoControl(s: bytes) {
    forall i :: 0 <= i < |s| ==> s[i] >= SPACE
  }

  lemma {:induction false} EscapedHasNoControl(text: bytes)
    ensures NoControl(PrintString(text)) && NoControl(Escaped(text))
  {
    hide EscapedByte;
    if text != [] {
      EscapedHasNoControl(text[1..]);
    }
  }

  lemma {:induction false} PrintHasNoControl(n: Node)
    ensures NoControl(Print(n))
    decreases n, 1
  {
    hide PrintString, StateFile.Digits;
    match n
    case Str(text) => EscapedHasNoControl(text);
    case Num(k) =>
    case Flag(b) =>
    case Arr(items) => ItemsHaveNoControl(items);
    case Obj(pairs) => PairsHaveNoControl(pairs);
  }

  lemma {:induction false} ItemsHaveNoControl(items: seq<Node>)
    ensures NoControl(PrintItems(items))
    decreases items, 0
  {
    hide Print;
    if items != [] {
      PrintHasNoControl(items[0]);
      ItemsHaveNoControl(items[1..]);
    }
  }

  lemma {:induction false} PairsHaveNoControl(pairs: seq<Pair>)
    ensures NoControl(PrintPairs(pairs))
    decreases pairs, 0
  {
    hide Print, PrintString;
    if pairs != [] {
      EscapedHasNoControl(pairs[0].key);
      PrintHasNoControl(pairs[0].value);
      PairsHaveNoControl(pairs[1..]);
    }
  }
}
