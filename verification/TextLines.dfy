/** What a file of text lines says, without any regard to how it is read: the lines which end with a new line, cut to a
    maximum length, with the position behind each of them. */
module TextLines {
  import opened Bytes

  /** A line without its new line, whether it was cut, its position, and the position behind its new line. */
  datatype Item = Item(text: bytes, truncated: bool, start: nat, end: nat)

  /** A line as a reader returns it: cut to max bytes, or without the carriage return at its end. */
  function ItemOf(line: bytes, max: nat, start: nat, end: nat): Item {
    if |line| > max then Item(line[..max], true, start, end) else Item(Trim(line), false, start, end)
  }

  function Trim(line: bytes): bytes {
    if line != [] && line[|line| - 1] == CARRIAGE_RETURN then line[..|line| - 1] else line
  }

  /** The complete lines of s, where s starts at the position base of the file. */
  function LinesOf(s: bytes, max: nat, base: nat): seq<Item>
    decreases |s|
  {
    var p := Find(s, NEW_LINE, 0);
    if p == |s| then [] else [ItemOf(s[..p], max, base, base + p + 1)] + LinesOf(s[p + 1..], max, base + p + 1)
  }

  /** What is behind the last new line. */
  function TailOf(s: bytes): (tail: bytes)
    ensures |tail| <= |s|
    decreases |s|
  {
    var p := Find(s, NEW_LINE, 0);
    if p == |s| then s else TailOf(s[p + 1..])
  }

  /** What can be said now: the complete lines, and the line behind them if it is too long already. */
  function AllOf(s: bytes, max: nat, base: nat): seq<Item> {
    LinesOf(s, max, base) + if |TailOf(s)| > max then [Item(TailOf(s)[..max], true, base + |s| - |TailOf(s)|, base + |s|)] else []
  }

  /** All items, one for each line which can be told apart, without the positions. */
  function Contents(items: seq<Item>): (r: seq<(bytes, bool)>)
    ensures |r| == |items|
    ensures forall i :: 0 <= i < |r| ==> r[i] == (items[i].text, items[i].truncated)
  {
    seq(|items|, i requires 0 <= i < |items| => (items[i].text, items[i].truncated))
  }

  lemma FindIs(s: bytes, p: nat)
    requires p <= |s| && NEW_LINE !in s[..p] && (p < |s| ==> s[p] == NEW_LINE)
    ensures Find(s, NEW_LINE, 0) == p
  {
    forall j | 0 <= j < p ensures s[j] != NEW_LINE {
      assert s[..p][j] == s[j];
    }
  }

  lemma NoLine(s: bytes, max: nat, base: nat)
    requires NEW_LINE !in s
    ensures LinesOf(s, max, base) == [] && TailOf(s) == s
  {
    assert s[..|s|] == s;
    FindIs(s, |s|);
  }

  /** One line, and then what follows it. */
  lemma LineFirst(line: bytes, rest: bytes, max: nat, base: nat)
    requires NEW_LINE !in line
    ensures var s := line + [NEW_LINE] + rest;
            && LinesOf(s, max, base) == [ItemOf(line, max, base, base + |line| + 1)] + LinesOf(rest, max, base + |line| + 1)
            && TailOf(s) == TailOf(rest)
  {
    var s := line + [NEW_LINE] + rest;
    assert s[..|line|] == line && s[|line| + 1..] == rest;
    FindIs(s, |line|);
  }

  lemma FirstLineOf(s: bytes) returns (line: bytes, rest: bytes)
    requires NEW_LINE in s
    ensures s == line + [NEW_LINE] + rest && NEW_LINE !in line
  {
    var p := Find(s, NEW_LINE, 0);
    line, rest := s[..p], s[p + 1..];
  }

  /** Splitting behind a new line splits the lines. */
  lemma {:induction false} LinesConcat(a: bytes, b: bytes, max: nat, base: nat)
    requires TailOf(a) == []
    ensures LinesOf(a + b, max, base) == LinesOf(a, max, base) + LinesOf(b, max, base + |a|)
    ensures TailOf(a + b) == TailOf(b)
    decreases |a|
  {
    hide LinesOf, TailOf, Find;
    if NEW_LINE in a {
      var line, rest := FirstLineOf(a);
      assert a + b == line + [NEW_LINE] + (rest + b);
      LineFirst(line, rest, max, base);
      LineFirst(line, rest + b, max, base);
      LinesConcat(rest, b, max, base + |line| + 1);
    } else {
      NoLine(a, max, base);
      assert a + b == b;
    }
  }

  lemma OneLine(line: bytes, max: nat, base: nat)
    requires NEW_LINE !in line
    ensures LinesOf(line + [NEW_LINE], max, base) == [ItemOf(line, max, base, base + |line| + 1)]
    ensures TailOf(line + [NEW_LINE]) == []
  {
    hide LinesOf, TailOf, Find;
    assert line + [NEW_LINE] + [] == line + [NEW_LINE];
    LineFirst(line, [], max, base);
    NoLine([], max, base + |line| + 1);
  }

  /** Lines as a program writes them, with or without a carriage return in front of each new line. */
  function Written(lines: seq<bytes>, end: bytes): bytes {
    if lines == [] then [] else lines[0] + end + [NEW_LINE] + Written(lines[1..], end)
  }

  /** The line fits with its end, and has no new line in it and no carriage return at its end. */
  predicate IsPlainLine(line: bytes, end: bytes, max: nat) {
    NEW_LINE !in line && |line + end| <= max && (line != [] ==> line[|line| - 1] != CARRIAGE_RETURN)
  }

  /** Both ways to end a line are read as the same lines, each as it was written. */
  lemma {:induction false} WrittenIsRead(lines: seq<bytes>, end: bytes, max: nat, base: nat)
    requires (end == [] || end == [CARRIAGE_RETURN]) && forall i :: 0 <= i < |lines| ==> IsPlainLine(lines[i], end, max)
    ensures TailOf(Written(lines, end)) == [] && |LinesOf(Written(lines, end), max, base)| == |lines|
    ensures forall i :: 0 <= i < |lines| ==> var item := LinesOf(Written(lines, end), max, base)[i]; item.text == lines[i] && !item.truncated
  {
    hide LinesOf, TailOf, Trim, Find, IsPlainLine;
    if lines == [] {
      NoLine([], max, base);
    } else {
      var line, rest := lines[0] + end, Written(lines[1..], end);
      EndIsTrimmed(lines[0], end, max);
      WrittenIsRead(lines[1..], end, max, base + |line| + 1);
      LineFirst(line, rest, max, base);
    }
  }

  lemma EndIsTrimmed(line: bytes, end: bytes, max: nat)
    requires (end == [] || end == [CARRIAGE_RETURN]) && IsPlainLine(line, end, max)
    ensures Trim(line + end) == line && NEW_LINE !in line + end && |line + end| <= max
  {
    assert line + end == if end == [] then line else line + [CARRIAGE_RETURN];
  }

  /** Any text is complete lines and a tail. */
  lemma {:induction false} TailSplits(s: bytes) returns (a: bytes)
    ensures s == a + TailOf(s) && TailOf(a) == [] && NEW_LINE !in TailOf(s)
    decreases |s|
  {
    hide LinesOf, TailOf, Find;
    if NEW_LINE in s {
      var line, rest := FirstLineOf(s);
      LineFirst(line, rest, 0, 0);
      var front := TailSplits(rest);
      LineFirst(line, front, 0, 0);
      a := line + [NEW_LINE] + front;
    } else {
      NoLine(s, 0, 0);
      NoLine([], 0, 0);
      a := [];
    }
  }

  /** The ends of the lines go up, and they are inside what was split. */
  lemma {:induction false} EndsIncrease(s: bytes, max: nat, base: nat)
    ensures forall i :: 0 <= i < |LinesOf(s, max, base)| ==> base < LinesOf(s, max, base)[i].end <= base + |s|
    ensures forall i, j :: 0 <= i < j < |LinesOf(s, max, base)| ==> LinesOf(s, max, base)[i].end < LinesOf(s, max, base)[j].end
    decreases |s|
  {
    hide LinesOf, Find;
    if NEW_LINE in s {
      var line, rest := FirstLineOf(s);
      LineFirst(line, rest, max, base);
      EndsIncrease(rest, max, base + |line| + 1);
    } else {
      NoLine(s, max, base);
    }
  }

  /** The end of a complete line splits a file there: the lines in front of it are the lines up to it, and a reader which
      starts there gets the lines behind it. */
  lemma {:induction false} SplitAtEnd(s: bytes, max: nat, base: nat, i: nat) returns (a: bytes, b: bytes)
    requires i < |LinesOf(s, max, base)|
    ensures s == a + b && base + |a| == LinesOf(s, max, base)[i].end && TailOf(a) == []
    ensures LinesOf(a, max, base) == LinesOf(s, max, base)[..i + 1]
    ensures LinesOf(b, max, base + |a|) == LinesOf(s, max, base)[i + 1..] && TailOf(b) == TailOf(s)
    decreases |s|
  {
    hide LinesOf, TailOf, Find;
    if NEW_LINE !in s {
      NoLine(s, max, base);
    }
    var line, rest := FirstLineOf(s);
    LineFirst(line, rest, max, base);
    if i == 0 {
      a, b := line + [NEW_LINE], rest;
      OneLine(line, max, base);
    } else {
      var front;
      front, b := SplitAtEnd(rest, max, base + |line| + 1, i - 1);
      a := line + [NEW_LINE] + front;
      LineFirst(line, front, max, base);
    }
  }

  /** Where a complete line stands. */
  lemma {:induction false} LineStands(s: bytes, max: nat, base: nat, i: nat) returns (line: bytes)
    requires i < |LinesOf(s, max, base)|
    ensures var item := LinesOf(s, max, base)[i];
            && base <= item.start < item.end <= base + |s| && NEW_LINE !in line && item == ItemOf(line, max, item.start, item.end)
            && s[item.start - base..item.end - base] == line + [NEW_LINE]
    decreases |s|
  {
    hide LinesOf, TailOf, Find, ItemOf;
    if NEW_LINE !in s {
      NoLine(s, max, base);
    }
    var first, rest := FirstLineOf(s);
    LineFirst(first, rest, max, base);
    if i == 0 {
      line := first;
      ItemStands(line, max, base, base + |line| + 1);
    } else {
      line := LineStands(rest, max, base + |first| + 1, i - 1);
      ItemStands(line, max, LinesOf(s, max, base)[i].start, LinesOf(s, max, base)[i].end);
    }
  }

  lemma ItemStands(line: bytes, max: nat, start: nat, end: nat)
    ensures ItemOf(line, max, start, end).start == start && ItemOf(line, max, start, end).end == end
  {
  }

  /** A file which grows keeps what could be said of it. */
  lemma AllOfGrows(s: bytes, t: bytes, max: nat, base: nat)
    ensures LinesOf(s, max, base) <= LinesOf(s + t, max, base)
    ensures Contents(AllOf(s, max, base)) <= Contents(AllOf(s + t, max, base))
  {
    hide LinesOf, TailOf, Find;
    var a := TailSplits(s);
    var b := TailOf(s);
    assert a + b == s && a + (b + t) == s + t;
    LinesConcat(a, b, max, base);
    LinesConcat(a, b + t, max, base);
    NoLine(b, max, base + |a|);
    TailGrows(b, t, max, base + |a|);
    var now := if |b| > max then [Item(b[..max], true, base + |a|, base + |s|)] else [];
    ContentsConcat(LinesOf(a, max, base), now);
    ContentsConcat(LinesOf(a, max, base), AllOf(b + t, max, base + |a|));
    assert AllOf(s + t, max, base) == LinesOf(a, max, base) + AllOf(b + t, max, base + |a|);
    assert Contents(now) == if |b| > max then Contents([Item(b[..max], true, 0, 0)]) else [];
  }

  lemma ContentsConcat(x: seq<Item>, y: seq<Item>)
    ensures Contents(x + y) == Contents(x) + Contents(y)
  {
  }

  /** A tail which is too long already is the first line of whatever it becomes. */
  lemma TailGrows(b: bytes, t: bytes, max: nat, base: nat)
    requires NEW_LINE !in b
    ensures |b| > max ==> Contents([Item(b[..max], true, 0, 0)]) <= Contents(AllOf(b + t, max, base))
  {
    hide LinesOf, TailOf, Find;
    if NEW_LINE in t {
      var line, rest := FirstLineOf(t);
      assert b + t == (b + line) + [NEW_LINE] + rest;
      LineFirst(b + line, rest, max, base);
      assert |b| > max ==> (b + line)[..max] == b[..max];
    } else {
      NoLine(b + t, max, base);
      assert |b| > max ==> (b + t)[..max] == b[..max];
    }
  }
}
