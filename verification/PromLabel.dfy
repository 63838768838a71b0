/** A label which is put into the name of a metric, and taken out again. */
module PromLabel {
  import opened Bytes

  const QUOTE: byte := 34
  const COMMA: byte := 44
  const EQUALS: byte := 61
  const BACKSLASH: byte := 92
  const LETTER_N: byte := 110
  const OPEN: byte := 123
  const CLOSE: byte := 125

  /** One byte of a value: two bytes for those which would end the value or the line, otherwise itself. */
  function EscapedByte(c: byte): bytes {
    if c == BACKSLASH then [BACKSLASH, BACKSLASH]
    else if c == QUOTE then [BACKSLASH, QUOTE]
    else if c == NEW_LINE then [BACKSLASH, LETTER_N]
    else [c]
  }

  function Escaped(value: bytes): bytes {
    if value == [] then [] else EscapedByte(value[0]) + Escaped(value[1..])
  }

  lemma {:induction false} EscapedConcat(a: bytes, b: bytes)
    ensures Escaped(a + b) == Escaped(a) + Escaped(b)
  {
    if a == [] {
      assert a + b == b;
    } else {
      assert (a + b)[1..] == a[1..] + b;
      EscapedConcat(a[1..], b);
      assert EscapedByte(a[0]) + (Escaped(a[1..]) + Escaped(b)) == EscapedByte(a[0]) + Escaped(a[1..]) + Escaped(b);
    }
  }

  method PromEscapeLabelValue(value: bytes) returns (result: bytes)
    ensures result == Escaped(value)
  {
    result := [];
    for i := 0 to |value|
      invariant result == Escaped(value[..i])
    {
      EscapedConcat(value[..i], [value[i]]);
      assert value[..i + 1] == value[..i] + [value[i]];
      assert [value[i]][1..] == [] && EscapedByte(value[i]) + [] == EscapedByte(value[i]);
      assert Escaped([value[i]]) == EscapedByte(value[i]) + Escaped([value[i]][1..]);
      result := result + EscapedByte(value[i]);
    }
    assert value[..|value|] == value;
  }

  /** How a reader of the metrics takes a value: a backslash and the byte behind it are one byte. */
  function Unescaped(s: bytes): bytes {
    if s == [] then []
    else if s[0] == BACKSLASH && |s| > 1 then [if s[1] == LETTER_N then NEW_LINE else s[1]] + Unescaped(s[2..])
    else [s[0]] + Unescaped(s[1..])
  }

  /** A reader gets the value back, and the escaped one is in one line. */
  lemma {:induction false} EscapedIsRead(value: bytes)
    ensures Unescaped(Escaped(value)) == value && NEW_LINE !in Escaped(value)
  {
    if value != [] {
      var c, e, rest := value[0], EscapedByte(value[0]), Escaped(value[1..]);
      EscapedIsRead(value[1..]);
      assert (e + rest)[|e|..] == rest && (e + rest)[..|e|] == e;
      assert value == [c] + value[1..];
    }
  }

  function NewLabel(key: bytes, value: bytes): bytes {
    key + [EQUALS, QUOTE] + Escaped(value) + [QUOTE]
  }

  /** The label becomes the first one inside of the braces. */
  function PromAddLabel(name: bytes, key: bytes, value: bytes): bytes {
    if key == [] || value == [] then name else
    var brace := Find(name, OPEN, 0);
    if brace == |name| then name + [OPEN] + NewLabel(key, value) + [CLOSE] else
    var base, rest := name[..brace], name[brace + 1..];
    if rest == [] then base + [OPEN] + NewLabel(key, value) + [CLOSE]
    else if rest[0] == CLOSE then base + [OPEN] + NewLabel(key, value) + rest
    else base + [OPEN] + NewLabel(key, value) + [COMMA] + rest
  }

  ghost predicate Stands(p: bytes, s: bytes, at: nat) {
    at <= |s| && p <= s[at..]
  }

  /** The text p stands at no place in s between these two. */
  ghost predicate StandsNot(p: bytes, s: bytes, from: nat, to: nat) {
    forall j :: from <= j < to ==> !Stands(p, s, j)
  }

  /** std::string::find: the first place at or behind from where p stands, |s| if there is none. */
  function FindText(s: bytes, p: bytes, from: nat): (i: nat)
    requires from <= |s| && p != []
    ensures from <= i <= |s|
    ensures i < |s| ==> p <= s[i..]
    ensures StandsNot(p, s, from, i)
    decreases |s| - from
  {
    if from == |s| || p <= s[from..] then from else FindText(s, p, from + 1)
  }

  /** The first quote from i on which has no backslash of its own, a position behind s if there is none. */
  function EndOfValue(s: bytes, i: nat): (e: nat)
    ensures e >= i
    decreases |s| - i
  {
    if i >= |s| || s[i] == QUOTE then i
    else if s[i] == BACKSLASH then EndOfValue(s, i + 2)
    else EndOfValue(s, i + 1)
  }

  /** The name without the label, and without the braces if it was the only one. */
  function Removed(name: bytes, key: bytes): bytes {
    var brace := Find(name, OPEN, 0);
    if brace == |name| || key == [] then name else
    var prefix := key + [EQUALS, QUOTE];
    var start := FindText(name, prefix, brace + 1);
    if start == |name| || (name[start - 1] != OPEN && name[start - 1] != COMMA) then name else
    var i := EndOfValue(name, start + |prefix|);
    if i >= |name| then name else CutOut(name, brace, start, i + 1)
  }

  /** The label from start to end goes, with one comma, or with the braces if it is the only one. */
  function CutOut(name: bytes, brace: nat, start: nat, end: nat): bytes
    requires brace < start < end <= |name|
  {
    if end < |name| && name[end] == COMMA then name[..start] + name[end + 1..]
    else if name[start - 1] == COMMA then name[..start - 1] + name[end..]
    else if end < |name| && name[end] == CLOSE then name[..brace] + name[end + 1..]
    else name[..start] + name[end..]
  }

  method ClosingQuote(name: bytes, from: nat) returns (i: nat)
    ensures i == EndOfValue(name, from)
  {
    i := from;
    while i < |name| && name[i] != QUOTE
      invariant EndOfValue(name, i) == EndOfValue(name, from)
      decreases |name| - i
    {
      if name[i] == BACKSLASH {
        i := i + 1;
      }
      i := i + 1;
    }
  }

  method PromRemoveLabel(name: bytes, key: bytes) returns (result: bytes)
    ensures result == Removed(name, key)
  {
    hide Find, FindText, EndOfValue, CutOut;
    var brace := Find(name, OPEN, 0);
    if brace == |name| || key == [] {
      return name;
    }
    var prefix := key + [EQUALS, QUOTE];
    var start := FindText(name, prefix, brace + 1);
    if start == |name| {
      return name;
    }
    var before := name[start - 1];
    if before != OPEN && before != COMMA {
      return name;
    }
    var i := ClosingQuote(name, start + |prefix|);
    if i >= |name| {
      return name;
    }
    result := CutOut(name, brace, start, i + 1);
  }

  /** The closing quote of an escaped value is found, whatever is in the value. */
  lemma {:induction false} EscapedValueEnds(before: bytes, value: bytes, rest: bytes)
    ensures EndOfValue(before + Escaped(value) + [QUOTE] + rest, |before|) == |before| + |Escaped(value)|
    decreases |value|
  {
    hide EndOfValue, EscapedByte;
    var s := before + Escaped(value) + [QUOTE] + rest;
    if value == [] {
      QuoteEnds(s, |before|);
    } else {
      var e := EscapedByte(value[0]);
      EscapedValueEnds(before + e, value[1..], rest);
      assert s == (before + e) + Escaped(value[1..]) + [QUOTE] + rest;
      assert s[|before|..|before| + |e|] == e;
      EscapedIsPassed(s, |before|, value[0]);
    }
  }

  lemma QuoteEnds(s: bytes, i: nat)
    requires i < |s| && s[i] == QUOTE
    ensures EndOfValue(s, i) == i
  {
  }

  lemma EscapedIsPassed(s: bytes, i: nat, c: byte)
    requires i + |EscapedByte(c)| <= |s| && s[i..i + |EscapedByte(c)|] == EscapedByte(c)
    ensures EndOfValue(s, i) == EndOfValue(s, i + |EscapedByte(c)|)
  {
    assert s[i..i + |EscapedByte(c)|][0] == s[i];
  }

  /** There is something behind the opening brace which is not the closing one, or there is no brace at all. */
  predicate HasNoEmptyBraces(name: bytes) {
    var brace := Find(name, OPEN, 0);
    brace == |name| || (brace + 1 < |name| && name[brace + 1] != CLOSE)
  }

  /** Removing a label undoes adding it if and only if the name has no empty braces and no brace at its end (those are lost). */
  lemma RemoveUndoesAddIff(name: bytes, key: bytes, value: bytes)
    requires key != [] && value != []
    ensures Removed(PromAddLabel(name, key, value), key) == name <==> HasNoEmptyBraces(name)
  {
    hide Escaped, Removed, NewLabel, PromAddLabel, Find;
    var brace := Find(name, OPEN, 0);
    var base, rest := name[..brace], BehindLabel(name);
    AddedIs(name, key, value);
    RemovedFrom(base, key, value, rest);
    if HasNoEmptyBraces(name) {
      if brace < |name| {
        assert name == base + [OPEN] + name[brace + 1..] && rest[1..] == name[brace + 1..];
      } else {
        assert base + rest[1..] == name;
      }
    } else {
      assert |base + rest[1..]| < |name|;
    }
  }

  /** What comes behind the new label. */
  function BehindLabel(name: bytes): bytes {
    var brace := Find(name, OPEN, 0);
    if brace == |name| || brace + 1 == |name| then [CLOSE]
    else if name[brace + 1] == CLOSE then name[brace + 1..]
    else [COMMA] + name[brace + 1..]
  }

  lemma AddedIs(name: bytes, key: bytes, value: bytes)
    requires key != [] && value != []
    ensures PromAddLabel(name, key, value) == name[..Find(name, OPEN, 0)] + [OPEN] + NewLabel(key, value) + BehindLabel(name)
    ensures OPEN !in name[..Find(name, OPEN, 0)]
  {
    hide Find, NewLabel;
    var brace := Find(name, OPEN, 0);
    if brace == |name| {
      assert name[..brace] == name;
    } else if brace + 1 < |name| && name[brace + 1] != CLOSE {
      var front := name[..brace] + [OPEN] + NewLabel(key, value);
      assert front + [COMMA] + name[brace + 1..] == front + ([COMMA] + name[brace + 1..]);
    }
  }

  /** The label which was added is the first one behind the brace, and a reader gets the value it was given. */
  lemma AddedIsRead(name: bytes, key: bytes, value: bytes)
    requires key != [] && value != []
    ensures var added, prefix := PromAddLabel(name, key, value), key + [EQUALS, QUOTE];
            var from := Find(added, OPEN, 0) + 1 + |prefix|;
            var end := EndOfValue(added, from);
            && Find(added, OPEN, 0) == Find(name, OPEN, 0) && from <= end < |added| && added[Find(added, OPEN, 0) + 1..from] == prefix
            && Unescaped(added[from..end]) == value
  {
    hide Escaped, Find, EndOfValue, PromAddLabel, BehindLabel, Unescaped;
    var base, rest, prefix := name[..Find(name, OPEN, 0)], BehindLabel(name), key + [EQUALS, QUOTE];
    AddedIs(name, key, value);
    BraceIs(base, NewLabel(key, value) + rest);
    assert PromAddLabel(name, key, value) == base + [OPEN] + (NewLabel(key, value) + rest);
    PrefixThere(base, key, value, rest);
    EscapedValueEnds(base + [OPEN] + prefix, value, rest);
    EscapedIsRead(value);
    var added, front := PromAddLabel(name, key, value), base + [OPEN] + prefix;
    assert added == front + Escaped(value) + [QUOTE] + rest;
    assert added[|front|..|front| + |Escaped(value)|] == Escaped(value) && added[|base| + 1..|front|] == prefix;
  }

  /** A label which is anywhere between the braces, and nowhere in front of that. It goes with one comma, or with the braces if
      it is alone, and everything else stays; what only ends like the label is none. */
  lemma RemovedAnywhere(front: bytes, key: bytes, value: bytes, rest: bytes)
    requires key != [] && Find(front, OPEN, 0) < |front|
    requires StandsNot(key + [EQUALS, QUOTE], front + NewLabel(key, value) + rest, Find(front, OPEN, 0) + 1, |front|)
    ensures front[|front| - 1] != OPEN && front[|front| - 1] != COMMA ==>
              Removed(front + NewLabel(key, value) + rest, key) == front + NewLabel(key, value) + rest
    ensures front[|front| - 1] == OPEN || front[|front| - 1] == COMMA ==>
              Removed(front + NewLabel(key, value) + rest, key) == Around(front, rest, Find(front, OPEN, 0))
  {
    hide Escaped, Find, Removed, CutOut, NewLabel, StandsNot, Around;
    var brace, text := Find(front, OPEN, 0), NewLabel(key, value);
    RemovedIsCut(front + text + rest, front, key, value, rest);
    LabelIsThere(key, value);
    CutIs(front, text, rest, brace);
  }

  /** What is left around a label: a comma behind it goes, or one in front of it, or the braces if there is nothing else. */
  ghost function Around(front: bytes, rest: bytes, brace: nat): bytes
    requires brace < |front|
  {
    if rest != [] && rest[0] == COMMA then front + rest[1..]
    else if front[|front| - 1] == COMMA then front[..|front| - 1] + rest
    else if rest != [] && rest[0] == CLOSE then front[..brace] + rest[1..]
    else front + rest
  }

  lemma LabelIsThere(key: bytes, value: bytes)
    ensures NewLabel(key, value) != []
  {
  }

  ghost predicate IsMade(name: bytes, front: bytes, text: bytes, rest: bytes) {
    name == front + text + rest
  }

  /** Where the label is cut out. */
  lemma RemovedIsCut(name: bytes, front: bytes, key: bytes, value: bytes, rest: bytes)
    requires key != [] && Find(front, OPEN, 0) < |front| && IsMade(name, front, NewLabel(key, value), rest)
    requires StandsNot(key + [EQUALS, QUOTE], name, Find(front, OPEN, 0) + 1, |front|)
    ensures Find(front, OPEN, 0) < |front| && |front| < |front| + |NewLabel(key, value)| <= |name|
    ensures front[|front| - 1] != OPEN && front[|front| - 1] != COMMA ==> Removed(name, key) == name
    ensures front[|front| - 1] == OPEN || front[|front| - 1] == COMMA ==>
              Removed(name, key) == CutOut(name, Find(front, OPEN, 0), |front|, |front| + |NewLabel(key, value)|)
  {
    hide Find, EndOfValue, FindText, CutOut, StandsNot, Stands, NewLabel, Removed, IsMade;
    BraceStays(name, front, NewLabel(key, value), rest);
    ValueEnds(name, front, key, value, rest);
    StandsAndIsCut(name, key, Find(front, OPEN, 0), |front|, |NewLabel(key, value)|);
  }

  lemma StandsAndIsCut(name: bytes, key: bytes, brace: nat, start: nat, n: nat)
    requires key != [] && brace < start && start + n <= |name| && Find(name, OPEN, 0) == brace && |key + [EQUALS, QUOTE]| < n
    requires Stands(key + [EQUALS, QUOTE], name, start) && StandsNot(key + [EQUALS, QUOTE], name, brace + 1, start)
    requires EndOfValue(name, start + |key + [EQUALS, QUOTE]|) == start + n - 1
    ensures name[start - 1] != OPEN && name[start - 1] != COMMA ==> Removed(name, key) == name
    ensures name[start - 1] == OPEN || name[start - 1] == COMMA ==> Removed(name, key) == CutOut(name, brace, start, start + n)
  {
    hide Find, EndOfValue, FindText, CutOut, StandsNot, Stands, Removed;
    FirstPlace(name, key + [EQUALS, QUOTE], brace + 1, start);
    FoundIsCut(name, key, brace, start, start + n - 1);
  }

  lemma BraceStays(name: bytes, front: bytes, text: bytes, rest: bytes)
    requires Find(front, OPEN, 0) < |front| && IsMade(name, front, text, rest)
    ensures |name| == |front| + |text| + |rest| && Find(name, OPEN, 0) == Find(front, OPEN, 0) < |front| && name[|front| - 1] == front[|front| - 1]
  {
    assert name == front + (text + rest);
    FirstBrace(front, text + rest);
  }

  lemma ValueEnds(name: bytes, front: bytes, key: bytes, value: bytes, rest: bytes)
    requires IsMade(name, front, NewLabel(key, value), rest)
    ensures |NewLabel(key, value)| > 1 && |key + [EQUALS, QUOTE]| < |NewLabel(key, value)| && Stands(key + [EQUALS, QUOTE], name, |front|)
    ensures EndOfValue(name, |front| + |key + [EQUALS, QUOTE]|) == |front| + |NewLabel(key, value)| - 1
  {
    hide Escaped, EndOfValue, NewLabel;
    PrefixStands(front, key, value, rest);
    EscapedValueEnds(front + (key + [EQUALS, QUOTE]), value, rest);
  }

  lemma FoundIsCut(name: bytes, key: bytes, brace: nat, start: nat, quote: nat)
    requires key != [] && brace < start <= quote < |name| && Find(name, OPEN, 0) == brace
    requires FindText(name, key + [EQUALS, QUOTE], brace + 1) == start && EndOfValue(name, start + |key + [EQUALS, QUOTE]|) == quote
    ensures Removed(name, key) == if name[start - 1] != OPEN && name[start - 1] != COMMA then name else CutOut(name, brace, start, quote + 1)
  {
    hide Find, EndOfValue, FindText, CutOut;
  }

  lemma PrefixStands(front: bytes, key: bytes, value: bytes, rest: bytes)
    ensures var name, prefix := front + NewLabel(key, value) + rest, key + [EQUALS, QUOTE];
            && prefix <= name[|front|..] && name == (front + prefix) + Escaped(value) + [QUOTE] + rest
            && |NewLabel(key, value)| == |prefix| + |Escaped(value)| + 1
  {
    hide Escaped;
    var name := front + NewLabel(key, value) + rest;
    assert name[|front|..] == NewLabel(key, value) + rest;
  }

  lemma CutIs(front: bytes, text: bytes, rest: bytes, brace: nat)
    requires brace < |front| && text != []
    ensures CutOut(front + text + rest, brace, |front|, |front| + |text|) == Around(front, rest, brace)
  {
    Pieces(front, text, rest, brace);
  }

  lemma Pieces(front: bytes, text: bytes, rest: bytes, brace: nat)
    requires brace < |front|
    ensures var name, end := front + text + rest, |front| + |text|;
            && name[..|front|] == front && name[..|front| - 1] == front[..|front| - 1] && name[..brace] == front[..brace]
            && name[|front| - 1] == front[|front| - 1] && name[end..] == rest && (end < |name| <==> rest != [])
            && (rest != [] ==> name[end] == rest[0] && name[end + 1..] == rest[1..])
  {
  }

  lemma FirstBrace(front: bytes, rest: bytes)
    requires Find(front, OPEN, 0) < |front|
    ensures Find(front + rest, OPEN, 0) == Find(front, OPEN, 0) < |front|
  {
    var i := Find(front, OPEN, 0);
    assert forall j :: 0 <= j < |front| ==> (front + rest)[j] == front[j];
  }

  lemma FirstPlace(s: bytes, p: bytes, from: nat, at: nat)
    requires p != [] && from <= at <= |s| && Stands(p, s, at) && StandsNot(p, s, from, at)
    ensures FindText(s, p, from) == at
  {
    assert !Stands(p, s, FindText(s, p, from)) || FindText(s, p, from) >= at;
  }

  /** m{xa="1",a="2"}: the label a is not removed, since it comes behind a name which ends like it. */
  lemma HiddenLabelStays()
    ensures var name := [109, OPEN, 120, 97, EQUALS, QUOTE, 49, QUOTE, COMMA, 97, EQUALS, QUOTE, 50, QUOTE, CLOSE];
            Removed(name, [97]) == name && [97, EQUALS, QUOTE] <= name[9..] && name[8] == COMMA
  {
    hide EndOfValue, CutOut;
    var name := [109, OPEN, 120, 97, EQUALS, QUOTE, 49, QUOTE, COMMA, 97, EQUALS, QUOTE, 50, QUOTE, CLOSE];
    var prefix := [97] + [EQUALS, QUOTE];
    assert Find(name, OPEN, 0) == 1;
    assert name[2..][0] == 120 && name[3..][..3] == prefix;
    assert FindText(name, prefix, 2) == 3;
  }

  lemma RemovedFrom(base: bytes, key: bytes, value: bytes, rest: bytes)
    requires key != [] && OPEN !in base && rest != [] && (rest[0] == COMMA || rest[0] == CLOSE)
    ensures Removed(base + [OPEN] + NewLabel(key, value) + rest, key)
            == if rest[0] == COMMA then base + [OPEN] + rest[1..] else base + rest[1..]
  {
    hide Removed, Find, NewLabel;
    var front := base + [OPEN];
    BraceIs(base, []);
    assert front == base + [OPEN] + [] && front[|front| - 1] == OPEN && front[..|base|] == base;
    RemovedAnywhere(front, key, value, rest);
  }

  lemma PrefixThere(base: bytes, key: bytes, value: bytes, rest: bytes)
    ensures var name, prefix := base + [OPEN] + NewLabel(key, value) + rest, key + [EQUALS, QUOTE];
            && prefix <= name[|base| + 1..] && name[|base|] == OPEN
            && name == (base + [OPEN] + prefix) + Escaped(value) + [QUOTE] + rest
            && |NewLabel(key, value)| == |prefix| + |Escaped(value)| + 1
  {
    hide Escaped;
    var name := base + [OPEN] + NewLabel(key, value) + rest;
    assert name[|base| + 1..] == NewLabel(key, value) + rest;
  }

  lemma BraceIs(base: bytes, rest: bytes)
    requires OPEN !in base
    ensures Find(base + [OPEN] + rest, OPEN, 0) == |base|
  {
    var s := base + [OPEN] + rest;
    assert s[|base|] == OPEN && forall j :: 0 <= j < |base| ==> s[j] == base[j];
  }
}
