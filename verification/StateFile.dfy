/** The state file of the file reader: lines "name=number". What is written can be read again. */
module StateFile {
  import opened Bytes

  const EQUALS: byte := 61
  const ZERO: byte := 48
  const NUL: byte := 0
  const STATE_VERSION: nat := 1
  const STATE_MAX: nat := 4096
  const HEAD_MAX: nat := 256
  const UINT64_SPAN: nat := 0x1_0000_0000_0000_0000

  datatype SavedState = SavedState(device: nat, inode: nat, offset: nat, headLen: nat, headHash: nat)

  datatype StateResult = NoState | Invalid | Loaded(state: SavedState)

  datatype Field = Version | Device | Inode | Offset | HeadLen | HeadHash

  /** version, device, inode, offset, headlen, headhash */
  function Name(f: Field): (n: bytes)
    ensures n != [] && |n| <= 8 && EQUALS !in n && NEW_LINE !in n && NUL !in n
  {
    match f
    case Version => [118, 101, 114, 115, 105, 111, 110]
    case Device => [100, 101, 118, 105, 99, 101]
    case Inode => [105, 110, 111, 100, 101]
    case Offset => [111, 102, 102, 115, 101, 116]
    case HeadLen => [104, 101, 97, 100, 108, 101, 110]
    case HeadHash => [104, 101, 97, 100, 104, 97, 115, 104]
  }

  function FieldOf(name: bytes): Option<Field> {
    if name == Name(Version) then Some(Version)
    else if name == Name(Device) then Some(Device)
    else if name == Name(Inode) then Some(Inode)
    else if name == Name(Offset) then Some(Offset)
    else if name == Name(HeadLen) then Some(HeadLen)
    else if name == Name(HeadHash) then Some(HeadHash)
    else None
  }

  lemma FieldOfName(f: Field)
    ensures FieldOf(Name(f)) == Some(f)
  {
    var n := Name(f);
    assert n[0] in {118, 100, 105, 111, 104};
    assert Name(HeadLen)[4] != Name(HeadHash)[4];
    assert Name(Version)[0] == 118 && Name(Device)[0] == 100 && Name(Inode)[0] == 105 && Name(Offset)[0] == 111 && Name(HeadLen)[0] == 104;
  }

  /* --- Numbers --- */

  function Digits(n: nat): (d: bytes)
    ensures d != [] && AllDigits(d)
  {
    if n < 10 then [ZERO + n] else Digits(n / 10) + [ZERO + n % 10]
  }

  predicate IsDigit(c: byte) {
    ZERO <= c < ZERO + 10
  }

  predicate AllDigits(s: bytes) {
    forall i :: 0 <= i < |s| ==> IsDigit(s[i])
  }

  function NumberValue(s: bytes): nat
    requires AllDigits(s)
  {
    if s == [] then 0 else NumberValue(s[..|s| - 1]) * 10 + (s[|s| - 1] - ZERO)
  }

  /** strtoull as the reader uses it: only digits, at least one, and no more than 64 bits. */
  function Number(s: bytes): Option<nat> {
    if s != [] && AllDigits(s) && NumberValue(s) < UINT64_SPAN then Some(NumberValue(s)) else None
  }

  lemma {:induction false} NumberOfDigits(n: nat)
    ensures AllDigits(Digits(n)) && NumberValue(Digits(n)) == n
  {
    if n >= 10 {
      NumberOfDigits(n / 10);
      assert Digits(n)[..|Digits(n)| - 1] == Digits(n / 10);
    } else {
      assert Digits(n)[..0] == [];
    }
  }

  /* --- Reading --- */

  type Values = map<Field, nat>

  /** One line: a name and a number. A line without an equals sign and an unknown name are skipped, a number which is none makes
      the file invalid, and so does another version. */
  function ParseLine(line: bytes, values: Values): Option<Values> {
    var q := Find(line, EQUALS, 0);
    if q == |line| then Some(values) else
    match Number(line[q + 1..])
    case None => None
    case Some(n) =>
      match FieldOf(line[..q])
      case None => Some(values)
      case Some(f) => if f == Version && n != STATE_VERSION then None else Some(values[f := n])
  }

  function ParseLines(text: bytes, values: Values): Option<Values>
    decreases |text|
  {
    if text == [] then Some(values) else
    var p := Find(text, NEW_LINE, 0);
    var rest := if p == |text| then [] else text[p + 1..];
    match if p == 0 then Some(values) else ParseLine(text[..p], values)
    case None => None
    case Some(v) => ParseLines(rest, v)
  }

  /** Every value is there, and the fingerprint is not longer than what was read of the file. */
  function Complete(values: Values): StateResult {
    if Version in values && Device in values && Inode in values && Offset in values && HeadLen in values && HeadHash in values
       && values[HeadLen] <= HEAD_MAX && values[HeadLen] <= values[Offset]
    then Loaded(SavedState(values[Device], values[Inode], values[Offset], values[HeadLen], values[HeadHash])) else Invalid
  }

  function Load(text: bytes): StateResult {
    if |text| > STATE_MAX then Invalid else
    match ParseLines(text[..Find(text, NUL, 0)], map[])
    case None => Invalid
    case Some(values) => Complete(values)
  }

  /** strtok over the lines. */
  method ReadState(text: bytes) returns (result: StateResult)
    ensures result == Load(text) && (result.Loaded? ==> Fits(result.state))
  {
    LoadedFits(text);
    if |text| > STATE_MAX {
      return Invalid;
    }
    var rest, values: Values := text[..Find(text, NUL, 0)], map[];
    ghost var all := ParseLines(rest, values);
    hide ParseLine;
    while rest != []
      invariant ParseLines(rest, values) == all
      decreases |rest|
    {
      var p := Find(rest, NEW_LINE, 0);
      if p > 0 {
        var parsed := ParseLine(rest[..p], values);
        if parsed.None? {
          return Invalid;
        }
        values := parsed.value;
      }
      rest := if p == |rest| then [] else rest[p + 1..];
    }
    result := Complete(values);
  }

  /* --- Writing --- */

  function Line(f: Field, n: nat): bytes {
    Name(f) + [EQUALS] + Digits(n) + [NEW_LINE]
  }

  function Text(s: SavedState): bytes {
    Line(Version, STATE_VERSION) + (Line(Device, s.device) + (Line(Inode, s.inode) + (Line(Offset, s.offset)
      + (Line(HeadLen, s.headLen) + Line(HeadHash, s.headHash)))))
  }

  ghost predicate Fits(s: SavedState) {
    && s.device < UINT64_SPAN && s.inode < UINT64_SPAN && s.offset < UINT64_SPAN && s.headHash < UINT64_SPAN
    && s.headLen <= HEAD_MAX && s.headLen <= s.offset
  }

  /** What is loaded is what was saved, number by number. */
  lemma LoadOfText(s: SavedState)
    requires Fits(s)
    ensures Load(Text(s)) == Loaded(s)
  {
    hide ParseLines, Name, Digits, Number, Find;
    var t5 := Line(HeadHash, s.headHash);
    var t4 := Line(HeadLen, s.headLen) + t5;
    var t3 := Line(Offset, s.offset) + t4;
    var t2 := Line(Inode, s.inode) + t3;
    var t1 := Line(Device, s.device) + t2;
    TextIsPlain(s);
    ParseField(Version, STATE_VERSION, t1, map[]);
    ParseField(Device, s.device, t2, map[Version := STATE_VERSION]);
    var v2 := map[Version := STATE_VERSION][Device := s.device];
    ParseField(Inode, s.inode, t3, v2);
    var v3 := v2[Inode := s.inode];
    ParseField(Offset, s.offset, t4, v3);
    var v4 := v3[Offset := s.offset];
    ParseField(HeadLen, s.headLen, t5, v4);
    var v5 := v4[HeadLen := s.headLen];
    ParseField(HeadHash, s.headHash, [], v5);
    assert t5 + [] == t5;
    ParseNothing(v5[HeadHash := s.headHash]);
  }

  /** Nothing which is loaded is out of range, and its fingerprint is not longer than what was read of the file. */
  lemma LoadedFits(text: bytes)
    ensures Load(text).Loaded? ==> Fits(Load(text).state)
  {
    hide ParseLines, Find;
    ParsedFit(text[..Find(text, NUL, 0)], map[]);
  }

  ghost predicate AllFit(values: Values) {
    forall f :: f in values ==> values[f] < UINT64_SPAN
  }

  lemma {:induction false} ParsedFit(text: bytes, values: Values)
    requires AllFit(values)
    ensures ParseLines(text, values).Some? ==> AllFit(ParseLines(text, values).value)
    decreases |text|
  {
    hide AllFit, ParseLine;
    if text != [] {
      var p := Find(text, NEW_LINE, 0);
      var v := if p == 0 then Some(values) else ParseLine(text[..p], values);
      LineFits(text[..p], values);
      if v.Some? {
        ParsedFit(if p == |text| then [] else text[p + 1..], v.value);
      }
    }
  }

  lemma LineFits(line: bytes, values: Values)
    requires AllFit(values)
    ensures ParseLine(line, values).Some? ==> AllFit(ParseLine(line, values).value)
  {
    hide Find, FieldOf, NumberValue;
  }

  /** A state file whose last line is missing is not used, and neither is one of another version. */
  lemma IncompleteIsInvalid(s: SavedState)
    requires Fits(s)
    ensures Load(Text(s)[..|Text(s)| - |Line(HeadHash, s.headHash)|]) == Invalid
  {
    hide ParseLines, Name, Digits, Number, Find;
    var t4 := Line(HeadLen, s.headLen);
    var t3 := Line(Offset, s.offset) + t4;
    var t2 := Line(Inode, s.inode) + t3;
    var t1 := Line(Device, s.device) + t2;
    var t := Line(Version, STATE_VERSION) + t1;
    assert Text(s) == t + Line(HeadHash, s.headHash);
    assert Text(s)[..|t|] == t;
    FrontIsPlain(Text(s), t);
    TextIsPlain(s);
    ParseField(Version, STATE_VERSION, t1, map[]);
    ParseField(Device, s.device, t2, map[Version := STATE_VERSION]);
    var v2 := map[Version := STATE_VERSION][Device := s.device];
    ParseField(Inode, s.inode, t3, v2);
    ParseField(Offset, s.offset, t4, v2[Inode := s.inode]);
    var v4 := v2[Inode := s.inode][Offset := s.offset];
    ParseField(HeadLen, s.headLen, [], v4);
    assert t4 + [] == t4;
    ParseNothing(v4[HeadLen := s.headLen]);
  }

  lemma FrontIsPlain(text: bytes, front: bytes)
    requires front <= text
    ensures NUL !in text ==> Find(front, NUL, 0) == |front| && front[..|front|] == front
  {
    if NUL !in text {
      assert forall i :: 0 <= i < |front| ==> front[i] == text[i];
      FindNothing(front);
    }
  }

  /** A line without an equals sign and a line with an unknown name change nothing. A value which is no number makes the rest of
      the file worthless. */
  lemma OtherLine(name: bytes, value: bytes, rest: bytes, values: Values)
    requires NEW_LINE !in name && EQUALS !in name && NEW_LINE !in value && name != []
    ensures ParseLines(name + [NEW_LINE] + rest, values) == ParseLines(rest, values)
    ensures Number(value).None? ==> ParseLines(name + [EQUALS] + value + [NEW_LINE] + rest, values) == None
    ensures Number(value).Some? && (forall f :: name != Name(f)) ==>
              ParseLines(name + [EQUALS] + value + [NEW_LINE] + rest, values) == ParseLines(rest, values)
  {
    hide Name, Number, Find;
    LineIsParsed(name, rest, values);
    LineIsParsed(name + [EQUALS] + value, rest, values);
    FindNone(name, EQUALS);
    var line := name + [EQUALS] + value;
    assert line[..|name|] == name && line[|name|] == EQUALS && line[|name| + 1..] == value;
    FindFirst(line, EQUALS, |name|);
  }

  lemma LineIsParsed(line: bytes, rest: bytes, values: Values)
    requires NEW_LINE !in line && line != []
    ensures ParseLines(line + [NEW_LINE] + rest, values)
            == match ParseLine(line, values) case None => None case Some(v) => ParseLines(rest, v)
  {
    hide ParseLine, Find;
    var t := line + [NEW_LINE] + rest;
    assert t[..|line|] == line && t[|line|] == NEW_LINE && t[|line| + 1..] == rest;
    FindFirst(t, NEW_LINE, |line|);
  }

  lemma FindNone(s: bytes, c: byte)
    requires c !in s
    ensures Find(s, c, 0) == |s|
  {
  }

  lemma OtherVersionIsInvalid(version: nat, rest: bytes)
    requires version != STATE_VERSION && version < UINT64_SPAN && NUL !in rest
    ensures Load(Line(Version, version) + rest) == Invalid
  {
    hide Name, Digits, NumberValue, FieldOf, Find;
    var line, t := Name(Version) + [EQUALS] + Digits(version), Line(Version, version) + rest;
    LineIsPlain(Version, version);
    FindNothing(t);
    assert t[..|line|] == line && t[|line|] == NEW_LINE;
    FindFirst(t, NEW_LINE, |line|);
    assert line[..|Name(Version)|] == Name(Version) && line[|Name(Version)|] == EQUALS && line[|Name(Version)| + 1..] == Digits(version);
    FindFirst(line, EQUALS, |Name(Version)|);
    NumberOfDigits(version);
    FieldOfName(Version);
  }

  lemma ParseNothing(values: Values)
    ensures ParseLines([], values) == Some(values)
  {
  }

  lemma ParseField(f: Field, n: nat, rest: bytes, values: Values)
    requires n < UINT64_SPAN && (f == Version ==> n == STATE_VERSION)
    ensures ParseLines(Line(f, n) + rest, values) == ParseLines(rest, values[f := n])
  {
    hide Name, Digits, NumberValue, FieldOf;
    var line, t := Name(f) + [EQUALS] + Digits(n), Line(f, n) + rest;
    assert t[..|line|] == line && t[|line|] == NEW_LINE && t[|line| + 1..] == rest;
    FindFirst(t, NEW_LINE, |line|);
    assert line[..|Name(f)|] == Name(f) && line[|Name(f)|] == EQUALS && line[|Name(f)| + 1..] == Digits(n);
    FindFirst(line, EQUALS, |Name(f)|);
    NumberOfDigits(n);
    FieldOfName(f);
  }

  lemma FindFirst(s: bytes, c: byte, p: nat)
    requires p < |s| && c !in s[..p] && s[p] == c
    ensures Find(s, c, 0) == p
  {
    forall j | 0 <= j < p ensures s[j] != c {
      assert s[..p][j] == s[j];
    }
  }

  lemma {:induction false} DigitsLength(n: nat, k: nat)
    requires 0 < k && n < Power10(k)
    ensures |Digits(n)| <= k
  {
    if n >= 10 {
      DigitsLength(n / 10, k - 1);
    }
  }

  function Power10(k: nat): nat {
    if k == 0 then 1 else 10 * Power10(k - 1)
  }

  lemma LineIsPlain(f: Field, n: nat)
    requires n < UINT64_SPAN
    ensures NUL !in Line(f, n) && |Line(f, n)| <= 30
  {
    hide Name, Digits, Power10;
    assert Power10(20) == 100000000000000000000 by {
      TenTo20();
    }
    DigitsLength(n, 20);
  }

  lemma TenTo20()
    ensures Power10(20) == 100000000000000000000
  {
    assert Power10(5) == 100000;
    assert Power10(10) == 10000000000;
    assert Power10(15) == 1000000000000000;
  }

  lemma TextIsPlain(s: SavedState)
    requires Fits(s)
    ensures NUL !in Text(s) && |Text(s)| <= STATE_MAX && Text(s)[..Find(Text(s), NUL, 0)] == Text(s)
  {
    hide Line, Find;
    LineIsPlain(Version, STATE_VERSION);
    LineIsPlain(Device, s.device);
    LineIsPlain(Inode, s.inode);
    LineIsPlain(Offset, s.offset);
    LineIsPlain(HeadLen, s.headLen);
    LineIsPlain(HeadHash, s.headHash);
    FindNothing(Text(s));
  }

  lemma FindNothing(s: bytes)
    requires NUL !in s
    ensures Find(s, NUL, 0) == |s| && s[..|s|] == s
  {
  }
}
