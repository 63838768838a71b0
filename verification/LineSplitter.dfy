/** The line splitter of the socket inputs: data arrives in pieces, and lines are handled when their new line is there. */
module LineSplitters {
  import opened Bytes
  import opened TextLines

  const MAX_LINE_BYTES: nat := 1048576

  /** The lines which were handled are those of the items, in their order: every one which is not empty and not too long, and of
      those which are too long some. */
  ghost predicate Handled(lines: seq<bytes>, items: seq<Item>)
    decreases |items|
  {
    if items == [] then lines == [] else
    var last, front := items[|items| - 1], items[..|items| - 1];
    || (last.truncated && lines != [] && last.text <= lines[|lines| - 1] && Handled(lines[..|lines| - 1], front))
    || ((last.truncated || last.text == []) && Handled(lines, front))
    || (!last.truncated && last.text != [] && lines != [] && lines[|lines| - 1] == last.text && Handled(lines[..|lines| - 1], front))
  }

  function NotEmpty(items: seq<Item>): seq<bytes> {
    if items == [] then [] else
    NotEmpty(items[..|items| - 1]) + if items[|items| - 1].text != [] then [items[|items| - 1].text] else []
  }

  /** If no line is too long, exactly the lines which are not empty are handled. */
  lemma {:induction false} HandledIsAll(lines: seq<bytes>, items: seq<Item>)
    requires Handled(lines, items) && forall i :: 0 <= i < |items| ==> !items[i].truncated
    ensures lines == NotEmpty(items)
  {
    if items != [] {
      var last := items[|items| - 1];
      if last.text != [] {
        HandledIsAll(lines[..|lines| - 1], items[..|items| - 1]);
        assert lines == lines[..|lines| - 1] + [last.text];
      } else {
        HandledIsAll(lines, items[..|items| - 1]);
      }
    }
  }

  /** What is not split yet: the buffer comes behind lines which are done, or it belongs to a line which is dropped. */
  ghost predicate Splits(stream: bytes, lines: seq<bytes>, rest: bytes, discarding: bool, done: bytes, dropped: bytes) {
    && stream == done + dropped + rest && TailOf(done) == [] && Handled(lines, LinesOf(done, MAX_LINE_BYTES, 0))
    && if discarding then NEW_LINE !in dropped && |dropped| > MAX_LINE_BYTES else dropped == []
  }

  /** A connection: what was received and is not handled yet, whether a line is dropped, and the lines which were handled. */
  class IngestClient {
    var buffer: bytes
    var discarding: bool
    var lines: seq<bytes>
    ghost var stream: bytes       // everything that was received
    ghost var done: bytes
    ghost var dropped: bytes

    /** Between two calls no new line waits in the buffer, and it is not too long. */
    ghost predicate Valid()
      reads this
    {
      && Splits(stream, lines, buffer, discarding, done, dropped)
      && NEW_LINE !in buffer && |buffer| <= MAX_LINE_BYTES && (discarding ==> buffer == [])
    }

    constructor ()
      ensures Valid() && stream == [] && lines == [] && !discarding
    {
      buffer, discarding, lines := [], false, [];
      stream, done, dropped := [], [], [];
      new;
      NoLine([], MAX_LINE_BYTES, 0);
    }

    method HandleLine(line: bytes)
      modifies this`lines
      ensures lines == if Trim(line) == [] then old(lines) else old(lines) + [Trim(line)]
    {
      var text := line;
      if text != [] && text[|text| - 1] == CARRIAGE_RETURN {
        text := text[..|text| - 1];
      }
      if text == [] {
        return;
      }
      lines := lines + [text];
    }

    /** recv, with data or with the end of the connection, and what is done then. */
    method Receive(data: bytes)
      requires Valid()
      modifies this
      ensures Valid() && stream == old(stream) + data
      ensures old(lines) <= lines
    {
      hide Splits;
      MoreData(stream, lines, buffer, discarding, done, dropped, data);
      stream := stream + data;
      buffer := buffer + data;
      ProcessLines();
      LimitBuffer();
    }

    /** Handles all complete lines of the buffer. */
    method ProcessLines()
      requires Splits(stream, lines, buffer, discarding, done, dropped)
      modifies this`buffer, this`lines, this`discarding, this`done, this`dropped
      ensures Splits(stream, lines, buffer, discarding, done, dropped) && NEW_LINE !in buffer
      ensures old(lines) <= lines
    {
      hide Splits;
      var start := 0;
      assert buffer[0..] == buffer;
      var pos := Find(buffer, NEW_LINE, start);
      while pos < |buffer|
        invariant start <= pos <= |buffer| && pos == Find(buffer, NEW_LINE, start)
        invariant Splits(stream, lines, buffer[start..], discarding, done, dropped)
        invariant old(lines) <= lines
        decreases |buffer| - start
      {
        ghost var before, was := lines, discarding;
        LineAt(buffer, start, pos);
        if discarding {
          discarding := false;
        } else {
          HandleLine(buffer[start..pos]);
        }
        LineIsDone(stream, before, buffer[start..pos], buffer[pos + 1..], was, done, dropped, lines);
        done, dropped := done + dropped + buffer[start..pos] + [NEW_LINE], [];
        start := pos + 1;
        pos := Find(buffer, NEW_LINE, start);
      }
      buffer := buffer[start..];
    }

    /** What is left is no complete line. If it is too long already it is dropped, up to its new line. */
    method LimitBuffer()
      requires Splits(stream, lines, buffer, discarding, done, dropped) && NEW_LINE !in buffer
      modifies this`buffer, this`discarding, this`dropped
      ensures Valid()
    {
      if discarding {
        assert done + dropped + buffer == done + (dropped + buffer) + [];
        dropped, buffer := dropped + buffer, [];
      } else if |buffer| > MAX_LINE_BYTES {
        assert done + dropped + buffer == done + buffer + [];
        dropped, buffer, discarding := buffer, [], true;
      }
    }

    /** What is left in the buffer is handled. However the stream was cut into pieces, the
        lines which were handled are those of the stream. */
    method EndOfStream()
      requires Valid()
      modifies this
      ensures buffer == [] && stream == old(stream) && old(lines) <= lines
      ensures Handled(lines, LinesOf(stream + [NEW_LINE], MAX_LINE_BYTES, 0))
    {
      hide Splits, Handled;
      ProcessLines();
      ghost var before, line := lines, buffer;
      if !discarding && buffer != [] {
        HandleLine(buffer);
      }
      LastLine(stream, before, line, discarding, done, dropped, lines);
      buffer := [];
    }
  }

  lemma MoreData(stream: bytes, lines: seq<bytes>, rest: bytes, discarding: bool, done: bytes, dropped: bytes, data: bytes)
    requires Splits(stream, lines, rest, discarding, done, dropped)
    ensures Splits(stream + data, lines, rest + data, discarding, done, dropped)
  {
    assert done + dropped + rest + data == done + dropped + (rest + data);
  }

  lemma LineAt(buffer: bytes, start: nat, pos: nat)
    requires start <= pos < |buffer| && pos == Find(buffer, NEW_LINE, start)
    ensures NEW_LINE !in buffer[start..pos] && buffer[start..] == buffer[start..pos] + [NEW_LINE] + buffer[pos + 1..]
  {
  }

  /** A complete line: it is handled, or it is the end of one which is dropped. */
  lemma LineIsDone(stream: bytes, lines: seq<bytes>, line: bytes, rest: bytes, discarding: bool, done: bytes, dropped: bytes, after: seq<bytes>)
    requires Splits(stream, lines, line + [NEW_LINE] + rest, discarding, done, dropped) && NEW_LINE !in line
    requires after == if discarding || Trim(line) == [] then lines else lines + [Trim(line)]
    ensures Splits(stream, after, rest, false, done + dropped + line + [NEW_LINE], [])
  {
    hide LinesOf, TailOf, Handled, ItemOf, Trim, Splits;
    var whole := dropped + line;
    SplitsIs(stream, lines, line + [NEW_LINE] + rest, discarding, done, dropped);
    JoinLine(done, dropped, line, rest);
    LinesConcat(done, whole + [NEW_LINE], MAX_LINE_BYTES, 0);
    OneLine(whole, MAX_LINE_BYTES, |done|);
    WholeItem(whole, |done|);
    assert !discarding ==> whole == line;
    OneMoreItem(lines, LinesOf(done, MAX_LINE_BYTES, 0), ItemOf(whole, MAX_LINE_BYTES, |done|, |done| + |whole| + 1), whole, discarding, after);
    SplitsNow(stream, after, rest, done + dropped + line + [NEW_LINE]);
  }

  lemma SplitsIs(stream: bytes, lines: seq<bytes>, rest: bytes, discarding: bool, done: bytes, dropped: bytes)
    requires Splits(stream, lines, rest, discarding, done, dropped)
    ensures stream == done + dropped + rest && TailOf(done) == [] && Handled(lines, LinesOf(done, MAX_LINE_BYTES, 0))
    ensures NEW_LINE !in dropped && (if discarding then |dropped| > MAX_LINE_BYTES else dropped == [])
  {
    hide LinesOf, TailOf, Handled;
  }

  lemma SplitsNow(stream: bytes, lines: seq<bytes>, rest: bytes, done: bytes)
    requires stream == done + rest && TailOf(done) == [] && Handled(lines, LinesOf(done, MAX_LINE_BYTES, 0))
    ensures Splits(stream, lines, rest, false, done, [])
  {
    hide LinesOf, TailOf, Handled;
    assert done + [] + rest == done + rest;
  }

  lemma JoinLine(done: bytes, dropped: bytes, line: bytes, rest: bytes)
    ensures done + dropped + (line + [NEW_LINE] + rest) == done + dropped + line + [NEW_LINE] + rest
    ensures done + dropped + line + [NEW_LINE] == done + (dropped + line + [NEW_LINE])
  {
  }

  lemma WholeItem(line: bytes, start: nat)
    ensures var item := ItemOf(line, MAX_LINE_BYTES, start, start + |line| + 1);
            && item.truncated == (|line| > MAX_LINE_BYTES)
            && item.text == if item.truncated then line[..MAX_LINE_BYTES] else Trim(line)
  {
  }

  lemma OneMoreItem(lines: seq<bytes>, items: seq<Item>, item: Item, line: bytes, dropped: bool, after: seq<bytes>)
    requires Handled(lines, items) && item.truncated == (|line| > MAX_LINE_BYTES)
    requires item.text == if item.truncated then line[..MAX_LINE_BYTES] else Trim(line)
    requires after == if dropped || Trim(line) == [] then lines else lines + [Trim(line)]
    requires dropped ==> item.truncated
    ensures Handled(after, items + [item])
  {
    assert (items + [item])[..|items|] == items;
    if !dropped && Trim(line) != [] {
      assert after[..|after| - 1] == lines;
    }
  }

  lemma LastLine(stream: bytes, lines: seq<bytes>, line: bytes, discarding: bool, done: bytes, dropped: bytes, after: seq<bytes>)
    requires Splits(stream, lines, line, discarding, done, dropped) && NEW_LINE !in line
    requires after == if discarding || line == [] || Trim(line) == [] then lines else lines + [Trim(line)]
    ensures Handled(after, LinesOf(stream + [NEW_LINE], MAX_LINE_BYTES, 0))
  {
    hide LinesOf, TailOf, Handled;
    assert line + [NEW_LINE] + [] == line + [NEW_LINE];
    MoreData(stream, lines, line, discarding, done, dropped, [NEW_LINE]);
    LineIsDone(stream + [NEW_LINE], lines, line, [], discarding, done, dropped, after);
    assert stream + [NEW_LINE] == done + dropped + line + [NEW_LINE] + [] + [];
    assert stream + [NEW_LINE] == done + dropped + line + [NEW_LINE];
  }

  /** If no line is too long, what is handled depends on the stream alone. */
  lemma PiecesDoNotMatter(stream: bytes, a: seq<bytes>, b: seq<bytes>)
    requires var items := LinesOf(stream + [NEW_LINE], MAX_LINE_BYTES, 0);
             Handled(a, items) && Handled(b, items) && forall i :: 0 <= i < |items| ==> !items[i].truncated
    ensures a == b == NotEmpty(LinesOf(stream + [NEW_LINE], MAX_LINE_BYTES, 0))
  {
    hide LinesOf, Handled;
    HandledIsAll(a, LinesOf(stream + [NEW_LINE], MAX_LINE_BYTES, 0));
    HandledIsAll(b, LinesOf(stream + [NEW_LINE], MAX_LINE_BYTES, 0));
  }

  /** Whatever is dropped, the lines which are not too long are all there: as many as they are, in their order. */
  lemma {:induction false} NoGoodLineIsLost(lines: seq<bytes>, items: seq<Item>) returns (at: seq<nat>)
    requires Handled(lines, items)
    ensures |at| == |items|
    ensures forall i :: 0 <= i < |items| && !items[i].truncated && items[i].text != [] ==> at[i] < |lines| && lines[at[i]] == items[i].text
    ensures forall i, j :: 0 <= i < j < |items| && !items[i].truncated && items[i].text != [] && !items[j].truncated && items[j].text != []
                           ==> at[i] < at[j]
    ensures forall i :: 0 <= i < |items| ==> at[i] <= |lines|
  {
    if items == [] {
      at := [];
    } else {
      var n := |items| - 1;
      var last := items[n];
      if (last.truncated || last.text == []) && Handled(lines, items[..n]) {
        at := NoGoodLineIsLost(lines, items[..n]);
        at := at + [|lines|];
      } else {
        at := NoGoodLineIsLost(lines[..|lines| - 1], items[..n]);
        at := at + [|lines| - 1];
      }
    }
  }
}
