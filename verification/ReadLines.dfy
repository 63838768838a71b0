/** What a reader which follows a file may have returned so far, said about the bytes of the file alone: the steps of the
    reader keep it, and so does a file which grows. */
module ReadLines {
  import opened Bytes
  import opened TextLines

  /** A line as it is handed out. */
  datatype Line = Line(text: bytes, generation: nat, endOffset: nat, truncated: bool)

  /** The lines which were returned of a file from the position base on: those of earlier parts of it, and those since the
      position start. A part ends where a last line without a new line was returned (the cuts), and the next one starts there.
      The line which is read now starts at lineStart. */
  datatype Log = Log(base: nat, cuts: seq<nat>, earlier: seq<Line>, start: nat, lineStart: nat, lines: seq<Line>)

  function NewLog(base: nat): Log {
    Log(base, [], [], base, base, [])
  }

  function LastCut(base: nat, cuts: seq<nat>): nat {
    if cuts == [] then base else cuts[|cuts| - 1]
  }

  /** The cuts go up, and are inside of the file. */
  ghost predicate CutsOf(c: bytes, base: nat, cuts: seq<nat>) {
    if cuts == [] then base <= |c|
    else CutsOf(c, base, cuts[..|cuts| - 1]) && LastCut(base, cuts[..|cuts| - 1]) < cuts[|cuts| - 1] <= |c|
  }

  /** The lines of a part: at its end a new line is missing. */
  function PartOf(s: bytes, max: nat, base: nat): seq<Item> {
    LinesOf(s, max, base) + [ItemOf(TailOf(s), max, base + |s| - |TailOf(s)|, base + |s|)]
  }

  function PartItems(c: bytes, base: nat, cuts: seq<nat>, max: nat): seq<Item>
    requires CutsOf(c, base, cuts)
  {
    if cuts == [] then [] else
    var front, e := cuts[..|cuts| - 1], cuts[|cuts| - 1];
    PartItems(c, base, front, max) + PartOf(c[LastCut(base, front)..e], max, LastCut(base, front))
  }

  lemma {:induction false} PartsGrow(c: bytes, d: bytes, base: nat, cuts: seq<nat>, max: nat)
    requires CutsOf(c, base, cuts) && c <= d
    ensures CutsOf(d, base, cuts) && PartItems(d, base, cuts, max) == PartItems(c, base, cuts, max)
    ensures LastCut(base, cuts) <= |c|
  {
    if cuts != [] {
      var front := cuts[..|cuts| - 1];
      PartsGrow(c, d, base, front, max);
      assert d[LastCut(base, front)..cuts[|cuts| - 1]] == c[LastCut(base, front)..cuts[|cuts| - 1]];
    }
  }

  /** The lines of the earlier parts were returned. */
  ghost predicate Parted(c: bytes, log: Log, max: nat) {
    && CutsOf(c, log.base, log.cuts) && log.start == LastCut(log.base, log.cuts)
    && Matches(log.earlier, PartItems(c, log.base, log.cuts, max))
  }

  /** All which can be said of the file from base on was returned, with these cuts. */
  ghost predicate WholeOf(c: bytes, log: Log, max: nat) {
    && CutsOf(c, log.base, log.cuts) && log.start == LastCut(log.base, log.cuts) <= |c|
    && Matches(log.earlier + log.lines, PartItems(c, log.base, log.cuts, max) + AllOf(c[log.start..], max, log.start))
  }

  /** The lines are the items. The position of a line is the one behind its new line, or the one behind what was returned of
      it, if it was cut before its end was read. */
  ghost predicate Matches(lines: seq<Line>, items: seq<Item>) {
    && |lines| == |items|
    && forall k :: 0 <= k < |lines| ==> MatchesAt(lines[k], items[k])
  }

  ghost predicate MatchesAt(line: Line, item: Item) {
    && line.text == item.text && line.truncated == item.truncated
    && (line.endOffset == item.end || (line.truncated && line.endOffset == item.start + |item.text|))
  }

  /** The positions are those of this generation, go up, and are not behind b. */
  ghost predicate Ends(log: Log, generation: nat, b: nat) {
    var all := log.earlier + log.lines;
    && (forall l :: l in all ==> l.generation == generation && 0 < l.endOffset <= b)
    && (forall i, j :: 0 <= i < j < |all| ==> all[i].endOffset < all[j].endOffset)
  }

  /** The lines up to the position b of the file c were returned. Skipping: a line was cut, and its rest is passed over. */
  ghost predicate Reading(c: bytes, log: Log, b: nat, skipping: bool, max: nat) {
    && Parted(c, log, max) && ReadingPart(c, log, b, skipping, max)
  }

  ghost predicate ReadingPart(c: bytes, log: Log, b: nat, skipping: bool, max: nat) {
    && log.start <= log.lineStart <= b <= |c|
    && TailOf(c[log.start..log.lineStart]) == []
    && if skipping then
         && log.lineStart + max <= b && log.lineStart + max < |c|
         && NEW_LINE !in c[log.lineStart..b] && c[log.lineStart + max] != NEW_LINE
         && Matches(log.lines, LinesOf(c[log.start..log.lineStart], max, log.start) + [CutItem(c, log.lineStart, max)])
       else
         && log.lineStart == b
         && Matches(log.lines, LinesOf(c[log.start..b], max, log.start))
  }

  function CutItem(c: bytes, from: nat, max: nat): Item
    requires from + max <= |c|
  {
    Item(c[from..from + max], true, from, from + max)
  }

  lemma StartsReading(c: bytes, start: nat, max: nat)
    requires start <= |c|
    ensures Reading(c, NewLog(start), start, false, max)
  {
    assert c[start..start] == [];
    NoLine([], max, start);
  }

  /** A file which grows is read the same. */
  lemma ReadingGrows(c: bytes, d: bytes, log: Log, b: nat, skipping: bool, max: nat)
    requires Reading(c, log, b, skipping, max) && c <= d
    ensures Reading(d, log, b, skipping, max)
  {
    hide LinesOf, TailOf, Find, Matches, PartItems, CutsOf;
    PartsGrow(c, d, log.base, log.cuts, max);
    assert d[log.start..log.lineStart] == c[log.start..log.lineStart];
    assert d[log.lineStart..b] == c[log.lineStart..b];
    if skipping {
      assert d[log.lineStart..log.lineStart + max] == c[log.lineStart..log.lineStart + max];
    }
  }

  /** A complete line is returned. */
  lemma ReadingTakes(c: bytes, log: Log, b: nat, q: nat, max: nat, line: Line)
    requires Reading(c, log, b, false, max) && b <= q < |c| && NEW_LINE !in c[b..q] && c[q] == NEW_LINE
    requires MatchesAt(line, ItemOf(c[b..q], max, b, q + 1))
    ensures Reading(c, log.(lineStart := q + 1, lines := log.lines + [line]), q + 1, false, max)
  {
    hide LinesOf, TailOf, Find, ItemOf, Matches, MatchesAt, Parted;
    assert Parted(c, log.(lineStart := q + 1, lines := log.lines + [line]), max) by {
      SameParts(c, log, log.(lineStart := q + 1, lines := log.lines + [line]), max);
    }
    var front, items := c[log.start..b], LinesOf(c[log.start..b], max, log.start);
    MatchesAppend(log.lines, items, line, ItemOf(c[b..q], max, b, q + 1));
    LineBehind(c, log.start, b, q);
    LinesConcat(front, c[b..q] + [NEW_LINE], max, log.start);
    OneLine(c[b..q], max, b);
  }

  lemma LineBehind(c: bytes, start: nat, b: nat, q: nat)
    requires start <= b <= q < |c| && c[q] == NEW_LINE
    ensures c[start..q + 1] == c[start..b] + (c[b..q] + [NEW_LINE]) && |c[start..b]| == b - start
  {
  }

  lemma MatchesAppend(lines: seq<Line>, items: seq<Item>, line: Line, item: Item)
    requires Matches(lines, items) && MatchesAt(line, item)
    ensures Matches(lines + [line], items + [item])
  {
  }

  lemma SameParts(c: bytes, log: Log, after: Log, max: nat)
    requires after.base == log.base && after.cuts == log.cuts && after.earlier == log.earlier && after.start == log.start
    ensures Parted(c, log, max) ==> Parted(c, after, max)
  {
  }

  /** The start of a line which is too long is returned. */
  lemma ReadingCuts(c: bytes, log: Log, b: nat, max: nat, line: Line)
    requires Reading(c, log, b, false, max) && b + max < |c| && NEW_LINE !in c[b..b + max + 1]
    requires line.text == c[b..b + max] && line.truncated && line.endOffset == b + max
    ensures Reading(c, log.(lines := log.lines + [line]), b + max, true, max)
  {
    hide LinesOf, TailOf, Find, Parted;
    SameParts(c, log, log.(lines := log.lines + [line]), max);
    assert c[b..b + max + 1][max] == c[b + max];
    assert c[b..b + max] == c[b..b + max + 1][..max];
  }

  /** More of the rest of a line which was cut is passed over. */
  lemma ReadingSkips(c: bytes, log: Log, b: nat, q: nat, max: nat)
    requires Reading(c, log, b, true, max) && b <= q <= |c| && NEW_LINE !in c[b..q]
    ensures Reading(c, log, q, true, max)
  {
    hide LinesOf, TailOf, Find, Matches;
    assert c[log.lineStart..q] == c[log.lineStart..b] + c[b..q];
  }

  /** The end of a line which was cut. */
  lemma ReadingSkipped(c: bytes, log: Log, b: nat, q: nat, max: nat)
    requires Reading(c, log, b, true, max) && b <= q < |c| && NEW_LINE !in c[b..q] && c[q] == NEW_LINE
    ensures Reading(c, log.(lineStart := q + 1), q + 1, false, max)
  {
    hide LinesOf, TailOf, Find, Parted;
    SameParts(c, log, log.(lineStart := q + 1), max);
    var from, line := log.lineStart, c[log.lineStart..q];
    assert from + max != q;
    assert line == c[from..b] + c[b..q];
    LineBehind(c, log.start, from, q);
    LinesConcat(c[log.start..from], line + [NEW_LINE], max, log.start);
    OneLine(line, max, from);
    assert |line| > max && line[..max] == c[from..from + max];
    assert LinesOf(c[log.start..q + 1], max, log.start) == LinesOf(c[log.start..from], max, log.start) + [ItemOf(line, max, from, q + 1)];
  }

  /** What is behind the last new line is returned as a line: a part ends. */
  lemma ReadingEnds(c: bytes, log: Log, b: nat, e: nat, max: nat, line: Line)
    requires Reading(c, log, b, false, max) && b < e <= |c| && NEW_LINE !in c[b..e]
    requires MatchesAt(line, ItemOf(c[b..e], max, b, e))
    ensures Reading(c, Log(log.base, log.cuts + [e], log.earlier + log.lines + [line], e, e, []), e, false, max)
  {
    hide LinesOf, TailOf, Find, ItemOf, Matches, MatchesAt, CutsOf;
    var after := Log(log.base, log.cuts + [e], log.earlier + log.lines + [line], e, e, []);
    var part := c[log.start..e];
    assert part == c[log.start..b] + c[b..e];
    LinesConcat(c[log.start..b], c[b..e], max, log.start);
    NoLine(c[b..e], max, b);
    assert PartOf(part, max, log.start) == LinesOf(c[log.start..b], max, log.start) + [ItemOf(c[b..e], max, b, e)];
    OneMoreCut(c, log.base, log.cuts, e, max);
    MatchesAppend(log.lines, LinesOf(c[log.start..b], max, log.start), line, ItemOf(c[b..e], max, b, e));
    MatchesConcat(log.earlier, PartItems(c, log.base, log.cuts, max), log.lines + [line], PartOf(part, max, log.start));
    assert log.earlier + log.lines + [line] == log.earlier + (log.lines + [line]);
    StartsReading(c, e, max);
    hide PartItems, PartOf;
    StartsPart(c, after, e, max);
  }

  lemma StartsPart(c: bytes, log: Log, e: nat, max: nat)
    requires Parted(c, log, max) && log.start == log.lineStart == e <= |c| && log.lines == []
    ensures Reading(c, log, e, false, max)
  {
    assert c[e..e] == [];
    NoLine([], max, e);
  }

  lemma OneMoreCut(c: bytes, base: nat, cuts: seq<nat>, e: nat, max: nat)
    requires CutsOf(c, base, cuts) && LastCut(base, cuts) < e <= |c|
    ensures CutsOf(c, base, cuts + [e]) && LastCut(base, cuts + [e]) == e
    ensures PartItems(c, base, cuts + [e], max)
            == PartItems(c, base, cuts, max) + PartOf(c[LastCut(base, cuts)..e], max, LastCut(base, cuts))
  {
    assert (cuts + [e])[..|cuts|] == cuts;
  }

  lemma MatchesConcat(a: seq<Line>, x: seq<Item>, b: seq<Line>, y: seq<Item>)
    requires Matches(a, x) && Matches(b, y)
    ensures Matches(a + b, x + y)
  {
  }

  /** Where nothing more can be returned of the bytes up to e, all which can be said of them was returned. */
  lemma ReadingIsAll(c: bytes, log: Log, b: nat, skipping: bool, max: nat, e: nat)
    requires Reading(c, log, b, skipping, max) && b <= e <= |c| && NEW_LINE !in c[b..e]
    requires if skipping then log.lineStart + max < e else e - b <= max
    ensures Contents(AllOf(c[log.start..e], max, log.start)) == Texts(log.lines)
    ensures Matches(log.lines, AllOf(c[log.start..e], max, log.start))
  {
    hide LinesOf, TailOf, Find, Parted, AllOf, Matches, MatchesAt;
    var from := log.lineStart;
    var front, rest := c[log.start..from], c[from..e];
    FrontAndTail(c, log.start, from, b, e);
    AllOfFront(front, rest, max, log.start);
    if skipping {
      assert rest[..max] == c[from..from + max];
      CutMatches(log.lines, LinesOf(front, max, log.start), CutItem(c, from, max), Item(rest[..max], true, from, log.start + |front + rest|));
    }
    TextsOfMatches(log.lines, AllOf(front + rest, max, log.start));
  }

  lemma FrontAndTail(c: bytes, start: nat, from: nat, b: nat, e: nat)
    requires start <= from <= b <= e <= |c| && NEW_LINE !in c[from..b] && NEW_LINE !in c[b..e]
    ensures c[start..e] == c[start..from] + c[from..e] && NEW_LINE !in c[from..e]
  {
    assert c[from..e] == c[from..b] + c[b..e];
  }

  lemma AllOfFront(front: bytes, rest: bytes, max: nat, base: nat)
    requires TailOf(front) == [] && NEW_LINE !in rest
    ensures AllOf(front + rest, max, base)
            == if |rest| > max then LinesOf(front, max, base) + [Item(rest[..max], true, base + |front|, base + |front + rest|)] else LinesOf(front, max, base)
  {
    hide LinesOf, TailOf;
    LinesConcat(front, rest, max, base);
    NoLine(rest, max, base + |front|);
    assert LinesOf(front, max, base) + [] == LinesOf(front, max, base);
  }

  /** How far a line which is cut goes does not matter. */
  lemma CutMatches(lines: seq<Line>, items: seq<Item>, a: Item, b: Item)
    requires Matches(lines, items + [a]) && b.truncated == a.truncated == true && b.text == a.text && a.end == a.start + |a.text| && b.start == a.start
    ensures Matches(lines, items + [b])
  {
  }

  /** At the end of the file that is all which can be said of it. */
  lemma ReadingIsWhole(c: bytes, log: Log, b: nat, skipping: bool, max: nat)
    requires Reading(c, log, b, skipping, max) && NEW_LINE !in c[b..]
    requires if skipping then log.lineStart + max < |c| else |c| - b <= max
    ensures WholeOf(c, log, max)
  {
    hide LinesOf, TailOf, Find, AllOf, PartItems, CutsOf, Matches;
    assert c[b..|c|] == c[b..] && c[log.start..|c|] == c[log.start..];
    ReadingIsAll(c, log, b, skipping, max, |c|);
    MatchesConcat(log.earlier, PartItems(c, log.base, log.cuts, max), log.lines, AllOf(c[log.start..], max, log.start));
  }

  function Texts(lines: seq<Line>): (r: seq<(bytes, bool)>)
    ensures |r| == |lines|
  {
    seq(|lines|, i requires 0 <= i < |lines| => (lines[i].text, lines[i].truncated))
  }

  /** However a file is read, what was returned of it is the front of what can be said of all of it, with the cuts which were
      made. */
  lemma ReadingIsPrefix(c: bytes, log: Log, b: nat, skipping: bool, max: nat)
    requires Reading(c, log, b, skipping, max)
    ensures CutsOf(c, log.base, log.cuts) && log.start == LastCut(log.base, log.cuts) <= |c|
    ensures Texts(log.lines) <= Contents(AllOf(c[log.start..], max, log.start))
    ensures Texts(log.earlier + log.lines) <= Contents(PartItems(c, log.base, log.cuts, max) + AllOf(c[log.start..], max, log.start))
  {
    hide LinesOf, TailOf, Find, AllOf, PartItems, CutsOf;
    var e := if skipping && log.lineStart + max == b then b + 1 else b;
    if e > b {
      assert c[b..e] == [c[b]];
    } else {
      assert c[b..e] == [];
    }
    ReadingIsAll(c, log, b, skipping, max, e);
    assert c[log.start..] == c[log.start..e] + c[e..];
    AllOfGrows(c[log.start..e], c[e..], max, log.start);
    PartsGrow(c, c, log.base, log.cuts, max);
    TextsOfMatches(log.earlier, PartItems(c, log.base, log.cuts, max));
    ContentsConcat(PartItems(c, log.base, log.cuts, max), AllOf(c[log.start..], max, log.start));
    assert Texts(log.earlier + log.lines) == Texts(log.earlier) + Texts(log.lines);
  }

  lemma TextsOfMatches(lines: seq<Line>, items: seq<Item>)
    requires Matches(lines, items)
    ensures Texts(lines) == Contents(items)
  {
  }

  /** Without a cut that is the plain split of the file. */
  lemma UncutIsPlain(c: bytes, log: Log, max: nat)
    requires log.cuts == [] && log.start == LastCut(log.base, log.cuts) && CutsOf(c, log.base, log.cuts)
    ensures PartItems(c, log.base, log.cuts, max) + AllOf(c[log.start..], max, log.start) == AllOf(c[log.base..], max, log.base)
  {
  }

  /* --- Restart --- */

  /** The position behind the first n lines of the last part is its start, or behind a new line. It is for each line which was
      not cut, and for each one of which the end was read when it was cut. */
  ghost predicate AtBoundary(c: bytes, log: Log, n: nat)
    requires n <= |log.lines|
  {
    n == 0 || (0 < EndOfLine(log, n) <= |c| && c[EndOfLine(log, n) - 1] == NEW_LINE)
  }

  /** The position behind the first n lines of the last part: its start, if n is 0 (there the last line of the part in front of it
      ends). A reader which starts there returns exactly the lines whose end is behind that position, if and only if it is
      behind a new line. Otherwise it is inside of a line which was cut, and the rest of that line comes first. */
  lemma RestartResumes(c: bytes, log: Log, b: nat, skipping: bool, max: nat, n: nat)
    requires Reading(c, log, b, skipping, max) && 0 < max && n <= |log.lines|
    ensures log.start <= EndOfLine(log, n) <= |c|
    ensures n > 0 && !log.lines[n - 1].truncated ==> AtBoundary(c, log, n)
    ensures AtBoundary(c, log, n) ==> n <= |LinesOf(c[log.start..], max, log.start)| && TailOf(c[log.start..EndOfLine(log, n)]) == []
    ensures n <= |LinesOf(c[log.start..], max, log.start)| ==>
              var o, items := EndOfLine(log, n), LinesOf(c[log.start..], max, log.start);
              && (LinesOf(c[o..], max, o) == items[n..] <==> AtBoundary(c, log, n))
              && (AtBoundary(c, log, n) ==> forall j :: 0 <= j < |items| ==> (items[j].end > o <==> j >= n))
              && (!AtBoundary(c, log, n) ==>
                    && 0 < n && o < items[n - 1].end <= |c|
                    && LinesOf(c[o..], max, o) == [ItemOf(c[o..items[n - 1].end - 1], max, o, items[n - 1].end)] + items[n..])
              && Matches(log.lines[..n], items[..n])
  {
    hide LinesOf, TailOf, Find, Parted, Matches, MatchesAt, ItemOf;
    var front, all := c[log.start..log.lineStart], c[log.start..];
    var items := LinesOf(all, max, log.start);
    assert all == front + c[log.lineStart..];
    LinesConcat(front, c[log.lineStart..], max, log.start);
    LinesCount(c, log, b, skipping, max);
    if n == 0 {
      assert c[log.start..log.start] == [];
      NoLine([], max, log.start);
      EndsIncrease(all, max, log.start);
      MatchesNothing(log.lines, items);
    } else if n <= |LinesOf(front, max, log.start)| {
      if skipping {
        FrontMatches(log.lines, LinesOf(front, max, log.start) + [CutItem(c, log.lineStart, max)], n);
        assert (LinesOf(front, max, log.start) + [CutItem(c, log.lineStart, max)])[..n] == LinesOf(front, max, log.start)[..n];
      } else {
        FrontMatches(log.lines, LinesOf(front, max, log.start), n);
      }
      assert items[..n] == LinesOf(front, max, log.start)[..n];
      RestartBehind(c, log, max, n);
    } else {
      CutIsInside(c, log, b, max);
      if n <= |items| {
        CutIsFirst(c, log, b, max);
        FrontMatches(log.lines, LinesOf(front, max, log.start) + [CutItem(c, log.lineStart, max)], n);
        CutAndFront(log.lines, LinesOf(front, max, log.start), CutItem(c, log.lineStart, max), items, n);
        RestartBehind(c, log, max, n);
      }
    }
  }

  lemma LinesCount(c: bytes, log: Log, b: nat, skipping: bool, max: nat)
    requires ReadingPart(c, log, b, skipping, max)
    ensures |log.lines| == |LinesOf(c[log.start..log.lineStart], max, log.start)| + if skipping then 1 else 0
  {
    hide LinesOf, TailOf;
  }

  lemma MatchesNothing(lines: seq<Line>, items: seq<Item>)
    ensures Matches(lines[..0], items[..0])
  {
  }

  lemma FrontMatches(lines: seq<Line>, items: seq<Item>, n: nat)
    requires Matches(lines, items) && n <= |items|
    ensures Matches(lines[..n], items[..n])
  {
  }

  lemma CutAndFront(lines: seq<Line>, front: seq<Item>, cut: Item, items: seq<Item>, n: nat)
    requires n == |front| + 1 <= |items| && n <= |lines| && Matches(lines[..n], (front + [cut])[..n]) && items[..n - 1] == front
    requires cut.truncated && items[n - 1].truncated && items[n - 1].text == cut.text && items[n - 1].start == cut.start
    requires cut.end == cut.start + |cut.text|
    ensures Matches(lines[..n], items[..n])
  {
    assert (front + [cut])[..n] == front + [cut] && items[..n] == front + [items[n - 1]];
    CutMatches(lines[..n], front, cut, items[n - 1]);
  }

  /** The last line was cut, and its end was not read. */
  lemma CutIsInside(c: bytes, log: Log, b: nat, max: nat)
    requires ReadingPart(c, log, b, true, max) && 0 < max
    ensures |log.lines| == |LinesOf(c[log.start..log.lineStart], max, log.start)| + 1
    ensures EndOfLine(log, |log.lines|) == log.lineStart + max <= b && c[log.lineStart + max - 1] != NEW_LINE
    ensures log.lines[|log.lines| - 1].truncated
  {
    hide LinesOf, TailOf, Find;
    var n := |log.lines|;
    assert MatchesAt(log.lines[n - 1], CutItem(c, log.lineStart, max));
    assert c[log.lineStart..b][max - 1] == c[log.lineStart + max - 1];
  }

  /** If its new line is in the file by now, it is the next line there. */
  lemma CutIsFirst(c: bytes, log: Log, b: nat, max: nat)
    requires ReadingPart(c, log, b, true, max) && LinesOf(c[log.lineStart..], max, log.lineStart) != []
    ensures var item := LinesOf(c[log.lineStart..], max, log.lineStart)[0];
            item.truncated && item.start == log.lineStart && item.text == CutItem(c, log.lineStart, max).text
  {
    hide LinesOf, TailOf, Matches, Parted;
    FirstOfLong(c, log.lineStart, b, max);
  }

  lemma FirstOfLong(c: bytes, from: nat, b: nat, max: nat)
    requires from + max <= b <= |c| && from + max < |c| && NEW_LINE !in c[from..b] && c[from + max] != NEW_LINE
    requires LinesOf(c[from..], max, from) != []
    ensures var item := LinesOf(c[from..], max, from)[0]; item.truncated && item.start == from && item.text == c[from..from + max]
  {
    var s := c[from..];
    var p := Find(s, NEW_LINE, 0);
    NoneBefore(c, from, b);
    NewLineBehind(c, from, b, p);
    assert p > max;
    assert s[..p][..max] == c[from..from + max];
  }

  lemma NewLineBehind(c: bytes, from: nat, b: nat, p: nat)
    requires from <= b <= |c| && p < |c[from..]| && c[from..][p] == NEW_LINE && forall k :: from <= k < b ==> c[k] != NEW_LINE
    ensures from + p >= b && c[from + p] == NEW_LINE
  {
    assert c[from..][p] == c[from + p];
  }

  lemma NoneBefore(c: bytes, from: nat, b: nat)
    requires from <= b <= |c| && NEW_LINE !in c[from..b]
    ensures forall k :: from <= k < b ==> c[k] != NEW_LINE
  {
    forall k | from <= k < b ensures c[k] != NEW_LINE {
      assert c[from..b][k - from] == c[k];
    }
  }

  lemma RestartBehind(c: bytes, log: Log, max: nat, n: nat)
    requires log.start <= |c| && 0 < n <= |log.lines| && 0 < max && n <= |LinesOf(c[log.start..], max, log.start)|
    requires Matches(log.lines[..n], LinesOf(c[log.start..], max, log.start)[..n])
    ensures log.start <= EndOfLine(log, n) <= |c| && (!log.lines[n - 1].truncated ==> AtBoundary(c, log, n))
    ensures var o, items := EndOfLine(log, n), LinesOf(c[log.start..], max, log.start);
            && (LinesOf(c[o..], max, o) == items[n..] <==> AtBoundary(c, log, n))
            && (AtBoundary(c, log, n) ==> TailOf(c[log.start..o]) == [] && forall j :: 0 <= j < |items| ==> (items[j].end > o <==> j >= n))
            && (!AtBoundary(c, log, n) ==>
                  && o < items[n - 1].end <= |c|
                  && LinesOf(c[o..], max, o) == [ItemOf(c[o..items[n - 1].end - 1], max, o, items[n - 1].end)] + items[n..])
  {
    hide LinesOf, TailOf, Find, ItemOf;
    var o, item := EndOfLine(log, n), LinesOf(c[log.start..], max, log.start)[n - 1];
    var line := BehindItem(c, log.start, max, n - 1);
    MatchesLast(log.lines[..n], LinesOf(c[log.start..], max, log.start)[..n], n);
    TextOfItem(line, max, item.start, item.end);
    if o != item.end {
      InsideOfLine(c, item.start, item.end, o, line, max);
    }
  }

  lemma MatchesLast(lines: seq<Line>, items: seq<Item>, n: nat)
    requires Matches(lines, items) && 0 < n == |lines|
    ensures MatchesAt(lines[n - 1], items[n - 1])
  {
  }

  /** Where line i of a part stands in the file, and what comes behind it. */
  lemma BehindItem(c: bytes, start: nat, max: nat, i: nat) returns (line: bytes)
    requires start <= |c| && i < |LinesOf(c[start..], max, start)|
    ensures var items := LinesOf(c[start..], max, start);
            && start <= items[i].start < items[i].end <= |c| && c[items[i].start..items[i].end] == line + [NEW_LINE]
            && NEW_LINE !in line && items[i] == ItemOf(line, max, items[i].start, items[i].end) && c[items[i].end - 1] == NEW_LINE
            && LinesOf(c[items[i].end..], max, items[i].end) == items[i + 1..] && TailOf(c[start..items[i].end]) == []
            && forall j :: 0 <= j < |items| ==> (items[j].end > items[i].end <==> j >= i + 1)
  {
    hide LinesOf, TailOf, Find, ItemOf;
    var all := c[start..];
    line := LineStands(all, max, start, i);
    var item := LinesOf(all, max, start)[i];
    SliceOfRest(c, start, item.start, item.end);
    assert (line + [NEW_LINE])[|line|] == c[item.end - 1];
    EndsIncrease(all, max, start);
    var x, y := SplitAtEnd(all, max, start, i);
    assert c[start..item.end] == x && c[item.end..] == y;
  }

  lemma SliceOfRest(c: bytes, start: nat, from: nat, end: nat)
    requires start <= from < end <= |c|
    ensures c[start..][from - start..end - start] == c[from..end] && c[from..end][end - from - 1] == c[end - 1]
  {
  }

  lemma TextOfItem(line: bytes, max: nat, start: nat, end: nat)
    ensures var item := ItemOf(line, max, start, end); item.truncated ==> |item.text| == max < |line|
  {
  }

  /** A position between two bytes of a line. */
  lemma InsideOfLine(c: bytes, start: nat, end: nat, o: nat, line: bytes, max: nat)
    requires start < o < end <= |c| && c[start..end] == line + [NEW_LINE] && NEW_LINE !in line
    ensures c[o - 1] != NEW_LINE
    ensures LinesOf(c[o..], max, o) == [ItemOf(c[o..end - 1], max, o, end)] + LinesOf(c[end..], max, end)
  {
    hide LinesOf, Find, ItemOf;
    assert forall k :: start <= k < end ==> c[k] == c[start..end][k - start];
    assert c[o - 1] == line[o - 1 - start];
    assert forall k :: o <= k < end - 1 ==> c[k] == line[k - start];
    assert c[o..] == c[o..end - 1] + [NEW_LINE] + c[end..];
    LineFirst(c[o..end - 1], c[end..], max, o);
  }

  function EndOfLine(log: Log, n: nat): nat
    requires n <= |log.lines|
  {
    if n == 0 then log.start else log.lines[n - 1].endOffset
  }
}
