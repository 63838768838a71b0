/** Runs of the file reader: what comes out of any number of calls, and how a restart continues exactly behind what was
    committed. */
module FileRestart {
  import opened Bytes
  import opened TextLines
  import opened ReadLines
  import opened StateFile
  import opened Fingerprint
  import opened FileReaders

  /** The run theorem, for any state which a reader can have: the lines of this generation are a front of the plain split of
      the file behind the base, at which its parts end. If nothing is rotated, and no line may be returned without a new line,
      that is the plain split at new lines alone. */
  lemma LinesArePlain(r: FileReader)
    requires r.Valid() && r.fd.Some? && r.files.appendOnly
    ensures var c := r.files.contents[r.fd.value];
            && CutsOf(c, r.log.base, r.log.cuts) && r.log.start == LastCut(r.log.base, r.log.cuts) <= |c|
            && Texts(r.AllLines()) <= Contents(PartItems(c, r.log.base, r.log.cuts, r.maxLine) + AllOf(c[r.log.start..], r.maxLine, r.log.start))
            && (!r.files.rotates && r.incompleteSec == 0 ==> Texts(r.AllLines()) <= Contents(AllOf(c[r.log.base..], r.maxLine, r.log.base)))
  {
    hide LinesOf, TailOf, AllOf, PartItems, CutsOf, Texts, Contents, Matches, Ends;
    var c := r.files.contents[r.fd.value];
    ReadingIsPrefix(c, r.log, r.bufferStart, r.skipping, r.maxLine);
    if r.log.cuts == [] {
      UncutIsPlain(c, r.log, r.maxLine);
    }
  }

  /** Everything was returned, up to the end of c. */
  lemma AllAreReturned(r: FileReader, c: bytes)
    requires r.Valid() && r.ReturnedAll(c)
    ensures Texts(r.AllLines()) == Contents(PartItems(c, r.log.base, r.log.cuts, r.maxLine) + AllOf(c[r.log.start..], r.maxLine, r.log.start))
    ensures r.log.cuts == [] ==> r.log.base <= |c| && Texts(r.AllLines()) == Contents(AllOf(c[r.log.base..], r.maxLine, r.log.base))
  {
    hide AllOf, PartItems;
    TextsOfMatches(r.AllLines(), PartItems(c, r.log.base, r.log.cuts, r.maxLine) + AllOf(c[r.log.start..], r.maxLine, r.log.start));
    if r.log.cuts == [] {
      UncutIsPlain(c, r.log, r.maxLine);
    }
  }

  /** Any number of calls of ReadLine, with other programs which append to the file between any two steps, and no line which
      is returned without a new line. What comes out are the next lines of the plain split of the file; when a call says that
      there is nothing more, all of them came out, up to a size which the file had during the call. If nobody writes, and
      there are more calls than lines, and more rounds than bytes to read, that is what the last call says, and all lines of
      the file came out. */
  method ReadMany(r: FileReader, nows: seq<nat>, rounds: nat) returns (got: seq<Line>, atEnd: bool, ghost seen: bytes)
    requires r.Valid() && r.following && r.fd.Some? && r.files.appendOnly && !r.files.rotates && r.incompleteSec == 0
    modifies r, r.files
    ensures r.Valid() && r.fd == old(r.fd) && r.generation == old(r.generation) && r.log.base == old(r.log.base)
    ensures old(r.files.contents)[r.fd.value] <= r.files.contents[r.fd.value]
    ensures r.AllLines() == old(r.AllLines()) + got && r.committed == old(r.committed) && r.following
    ensures forall l :: l in got ==> l.generation == r.generation && r.committed < l.endOffset <= r.bufferStart
    ensures var c := r.files.contents[r.fd.value];
            r.log.base <= |c| && Texts(old(r.AllLines()) + got) <= Contents(AllOf(c[r.log.base..], r.maxLine, r.log.base))
    ensures atEnd ==> && r.log.base <= |seen| && seen <= r.files.contents[r.fd.value]
                      && Texts(old(r.AllLines()) + got) == Contents(AllOf(seen[r.log.base..], r.maxLine, r.log.base))
    ensures r.files.quiet ==> r.files.Now() == old(r.files.Now()) && (atEnd ==> seen == r.files.contents[r.fd.value])
    ensures r.files.quiet && r.files.reliable && rounds > old(r.Measure()) && old(|r.AllLines()|) + |nows| > ItemsNow(r) ==>
              atEnd && old(|r.AllLines()|) + |got| == ItemsNow(r)
  {
    hide FileReader.Valid, Meanwhile, Describes, RoundEffect, AllOf, Texts, Contents, PartItems, CutsOf, FileReader.ReturnedAll,
         FileReader.Measure, ItemsIn, FileReader.SeesAll;
    got, atEnd, seen := [], false, [];
    ghost var before, all := r.files.Now(), ItemsNow(r);
    MeanwhileNothing(before);
    OpenFileIs(r);
    for i := 0 to |nows|
      invariant r.Valid() && r.following && r.fd == old(r.fd) && r.generation == old(r.generation) && r.log.base == old(r.log.base)
      invariant r.AllLines() == old(r.AllLines()) + got && Meanwhile(before, r.files.Now())
      invariant r.fd.value < |r.files.contents| && r.committed == old(r.committed)
      invariant forall l :: l in got ==> l.generation == r.generation && r.committed < l.endOffset <= r.bufferStart
      invariant atEnd ==> r.ReturnedAll(seen) && seen <= r.files.contents[r.fd.value]
      invariant r.files.quiet ==> r.files.Now() == before && (atEnd ==> seen == r.files.contents[r.fd.value]) && ItemsNow(r) == all
      invariant r.files.quiet && r.files.reliable ==> r.Measure() <= old(r.Measure())
      invariant r.files.quiet && r.files.reliable && rounds > old(r.Measure()) ==> |got| == i || (atEnd && |r.AllLines()| == all)
    {
      ghost var v, w := r.Shown(), r.files.Now();
      OpenFileIs(r);
      var round;
      round, seen := r.ReadLine(nows[i], rounds);
      RoundLines(v, r.Shown(), round);
      StillShown(v, r.Shown(), round);
      MeanwhileTwice(before, w, r.files.Now());
      MeanwhileQuiet(w, r.files.Now());
      OpenFileIs(r);
      atEnd := round.AtEnd?;
      if round.Got? {
        got := got + [round.line];
      }
      if atEnd && r.files.quiet {
        IsFinished(r, w, seen);
        AllItems(r, seen);
      }
      AtMostAll(r);
    }
    MeanwhileAt(before, r.files.Now(), r.fd.value);
    OpenFileIs(r);
    LinesArePlain(r);
    AtMostAll(r);
    if atEnd {
      AllAreReturned(r, seen);
    }
  }

  /** A new reader of a file which nobody changes, and which the state file does not recognize, from the first call on: with more
      calls than lines, and more rounds than bytes, it returns exactly the plain split of the file. */
  method ReadWhole(files: Files, maxLine: nat, nows: seq<nat>, rounds: nat) returns (r: FileReader, got: seq<Line>)
    requires files.Valid() && files.appendOnly && files.reliable && files.quiet && !files.rotates
    requires files.path.Some? && files.path.value < |files.contents|
    requires !Recognizes(files.state, files.device, files.path.value, files.contents[files.path.value])
    requires rounds > |files.contents[files.path.value]| + 1
    requires |nows| > |AllOf(files.contents[files.path.value], if maxLine > 0 then maxLine else DEFAULT_MAX_LINE, 0)|
    modifies files
    ensures fresh(r) && r.Valid() && r.following && r.files == files && r.fd == old(files.path) && files.contents == old(files.contents)
    ensures r.maxLine == if maxLine > 0 then maxLine else DEFAULT_MAX_LINE
    ensures r.incompleteSec == 0 && r.log.base == 0 && r.AllLines() == got && r.committed == 0
    ensures Texts(got) == Contents(AllOf(files.contents[r.fd.value], r.maxLine, 0))
    ensures forall l :: l in got ==> l.generation == r.generation && 0 < l.endOffset <= r.bufferStart
  {
    hide FileReader.Valid, Files.Valid, AllOf, Texts, Contents, FileReader.Measure, ItemsIn, Describes, LoadedFrom, Recognizes,
         FileReader.About, FileReader.Resumes, Meanwhile, Window;
    ghost var w := files.Now();
    PathIsFile(files);
    r := new FileReader(files, maxLine, false, 0);
    r.Open();
    ClosedMeasure(r);
    var ok := r.OpenFile();
    MeanwhileQuiet(w, files.Now());
    StartItems(r);
    var atEnd;
    ghost var seen;
    got, atEnd, seen := ReadMany(r, nows, rounds);
    assert [] + got == got;
  }

  lemma PathIsFile(files: Files)
    requires files.Valid() && files.path.Some?
    ensures files.path.value < |files.contents|
  {
  }

  lemma ClosedMeasure(r: FileReader)
    requires r.fd.None? && r.files.path.Some? && r.files.path.value < |r.files.contents|
    ensures r.Measure() == |r.files.contents[r.files.path.value]| + 1
  {
  }

  lemma StartItems(r: FileReader)
    requires r.fd.Some? && r.fd.value < |r.files.contents| && r.log.base == 0
    ensures ItemsNow(r) == |AllOf(r.files.contents[r.fd.value], r.maxLine, 0)|
    ensures r.files.contents[r.fd.value][0..] == r.files.contents[r.fd.value]
  {
  }

  /** How many lines can be returned of the file as it is now. */
  ghost function ItemsNow(r: FileReader): nat
    reads r, r.files
  {
    ItemsIn(r.files.Now(), r.fd, r.log.base, r.maxLine)
  }

  ghost function ItemsIn(w: World, fd: Option<nat>, base: nat, max: nat): nat {
    if fd.Some? && fd.value < |w.contents| && base <= |w.contents[fd.value]| then |AllOf(w.contents[fd.value][base..], max, base)| else 0
  }

  lemma AtMostAll(r: FileReader)
    requires r.Valid() && r.fd.Some? && r.files.appendOnly && !r.files.rotates && r.incompleteSec == 0
    ensures |r.AllLines()| <= ItemsNow(r)
  {
    hide FileReader.Valid, AllOf, PartItems, CutsOf;
    OpenFileIs(r);
    LinesArePlain(r);
  }

  lemma AllItems(r: FileReader, seen: bytes)
    requires r.Valid() && r.fd.Some? && r.files.appendOnly && !r.files.rotates && r.incompleteSec == 0
    requires r.fd.value < |r.files.contents| && seen == r.files.contents[r.fd.value] && r.ReturnedAll(seen)
    ensures |r.AllLines()| == ItemsNow(r)
  {
    hide FileReader.Valid, AllOf, PartItems, CutsOf;
    OpenFileIs(r);
    AllAreReturned(r, seen);
  }

  lemma StillShown(a: View, b: View, r: Round)
    requires RoundEffect(a, b, r)
    ensures b.following == a.following
    ensures b.generation == a.generation ==> b.log.base == a.log.base && b.committed == a.committed
    ensures b.generation == a.generation && b.fd.Some? ==> b.bufferStart >= a.bufferStart
    ensures r.Got? ==> r.line.generation == b.generation && b.committed < r.line.endOffset == b.bufferStart
  {
  }

  lemma OpenFileIs(r: FileReader)
    requires r.Valid() && r.fd.Some?
    ensures r.fd.value < |r.files.contents| && (!r.files.rotates ==> !r.rotationSeen && r.files.path == r.fd)
    ensures !r.files.rotates && r.incompleteSec == 0 ==> r.log.cuts == []
  {
  }

  /** The new log starts at the position behind the first n lines of the last part of the old one. In a file c which has the
      new line of the last of them, what it can return is exactly what comes behind those lines, if and only if the position
      is behind a new line. Otherwise the rest of a line which was cut comes first. */
  ghost predicate Continues(c: bytes, log: Log, max: nat, n: nat, after: Log) {
    && n <= |log.lines| && log.start <= |c| && after == NewLog(EndOfLine(log, n)) && after.base <= |c|
    && (n > 0 && !log.lines[n - 1].truncated ==> AtBoundary(c, log, n))
    && var o, items := after.base, LinesOf(c[log.start..], max, log.start);
       && (AtBoundary(c, log, n) ==> n <= |items|)
       && (n <= |items| ==>
             && Matches(log.lines[..n], items[..n])
             && (LinesOf(c[o..], max, o) == items[n..] <==> AtBoundary(c, log, n))
             && (!AtBoundary(c, log, n) ==>
                   && 0 < n && o < items[n - 1].end <= |c|
                   && LinesOf(c[o..], max, o) == [ItemOf(c[o..items[n - 1].end - 1], max, o, items[n - 1].end)] + items[n..]))
  }

  /** The process of the reader a died behind a commit of the first n lines of the last part of its file (for n == 0 that is
      the start of the part: the last line in front of it had no new line when it was returned and committed). Other programs
      appended to the files meanwhile. If the path still leads to the same file, the new reader starts at the committed
      position. No line of a is missing then, and none is repeated, if and only if that is behind a new line. */
  method Restart(a: FileReader, ghost n: nat, startAtEnd: bool) returns (b: FileReader, ok: bool)
    requires a.Valid() && a.fd.Some? && a.files.appendOnly && a.files.reliable
    requires n <= |a.log.lines| && a.committed == EndOfLine(a.log, n)
    requires SavedAs(a.files.state, a.files.device, a.fd.value, a.committed, a.head)
    requires Describes(a.files.state, a.files.device, a.files.contents)
    modifies a.files
    ensures fresh(b) && b.Valid() && b.following && b.files == a.files && b.maxLine == a.maxLine && b.incompleteSec == a.incompleteSec
    ensures !a.files.rotates ==> ok && b.fd == a.fd
    ensures a.fd.value < |a.files.contents| && old(a.files.contents)[a.fd.value] <= a.files.contents[a.fd.value]
    ensures a.files.quiet ==> a.files.contents == old(a.files.contents)
    ensures a.files.quiet && !a.files.rotates ==> b.Measure() <= |a.files.contents[a.fd.value]|
    ensures ok && b.fd == a.fd ==> b.committed == a.committed && Continues(a.files.contents[a.fd.value], a.log, a.maxLine, n, b.log)
    ensures ok && b.fd != a.fd ==> b.log == NewLog(0)
  {
    hide Ends, Meanwhile, InStep, Reading, LinesOf, Matches, Load, HashBytes, Continues, FileReader.Measure;
    ghost var before, state := a.files.Now(), a.files.state;
    a.files.Others();
    DescribesLater(state, a.files.device, before, a.files.Now());
    b := new FileReader(a.files, a.maxLine, startAtEnd, a.incompleteSec);
    b.Open();
    ghost var restarted := a.files.Now();
    MeanwhilePath(before, restarted);
    if !a.files.rotates {
      ClosedMeasure(b);
    }
    ok := b.OpenFile();
    MeanwhileTwice(before, restarted, a.files.Now());
    MeanwhileAt(before, a.files.Now(), a.fd.value);
    MeanwhilePath(before, a.files.Now());
    MeanwhileQuiet(before, a.files.Now());
    if ok && b.fd == a.fd {
      ResumesBehind(before.contents[a.fd.value], a.files.contents[a.fd.value], a, n);
    }
  }

  /** The lines are the front of the split of c behind base, and the position o divides it: the split behind o is the rest. */
  ghost predicate Divided(c: bytes, base: nat, max: nat, lines: seq<Line>, o: nat) {
    && base <= |c| && o <= |c|
    && var items := LinesOf(c[base..], max, base);
       |lines| <= |items| && Texts(lines) == Contents(items[..|lines|]) && LinesOf(c[o..], max, o) == items[|lines|..]
  }

  /** Two processes. The first one reads lines, commits the one of index k, and dies; the second one opens the file, which
      grew. It starts with line k + 1, if and only if the position of line k is behind a new line: then the lines up to line
      k, and those which it can ever return, are together the plain split of the file. The commit happens if the state file
      can be written, and all lines are there to be committed if nobody writes and the first process reads on for long enough.
      */
  method ReadCommitRestart(a: FileReader, nows: seq<nat>, rounds: nat, k: nat, startAtEnd: bool)
    returns (got: seq<Line>, committed: bool, b: FileReader, ghost all: nat)
    requires a.Valid() && a.following && a.fd.Some? && a.files.appendOnly && a.files.reliable && !a.files.rotates && a.incompleteSec == 0
    modifies a, a.files
    ensures a.fd == old(a.fd) && a.fd.value < |a.files.contents| && a.AllLines() == old(a.AllLines()) + got
    ensures a.files.quiet && rounds > old(a.Measure()) && old(|a.AllLines()|) + |nows| > all ==> old(|a.AllLines()|) + |got| == all
    ensures a.files.quiet ==> all == old(ItemsNow(a))
    ensures a.files.stateWritable && k < |got| ==> committed
    ensures committed ==> k < |got| && fresh(b) && b.Valid() && b.following && b.files == a.files
    ensures committed ==> b.fd == a.fd && b.log == NewLog(got[k].endOffset)
    ensures committed && !got[k].truncated ==> BehindNewLine(a.files.contents[a.fd.value], got[k].endOffset)
    ensures committed ==>
              Divides(a.files.contents[a.fd.value], a.log.base, a.maxLine, old(a.AllLines()) + got[..k + 1], got[k].endOffset)
  {
    hide FileReader.Valid, Continues, Divided, Divides, ItemsIn, FileReader.Measure;
    ghost var n;
    all := ItemsNow(a);
    got, n := ReadSome(a, nows, rounds, k);
    committed, b := false, a;
    if k < |got| {
      committed, b := CommitAndRestart(a, n, got[k], startAtEnd);
      if committed {
        ContinuesIs(a.files.contents[a.fd.value], a.log, a.maxLine, n, b.log);
      }
    }
  }

  predicate BehindNewLine(c: bytes, o: nat) {
    0 < o <= |c| && c[o - 1] == NEW_LINE
  }

  /** If the lines are complete in c, the position o divides it if and only if it is behind a new line. */
  ghost predicate Divides(c: bytes, base: nat, max: nat, lines: seq<Line>, o: nat) {
    && base <= |c|
    && (BehindNewLine(c, o) ==> |lines| <= |LinesOf(c[base..], max, base)|)
    && (|lines| <= |LinesOf(c[base..], max, base)| ==> (Divided(c, base, max, lines, o) <==> BehindNewLine(c, o)))
  }

  /** The first half: n lines up to the one of index k. */
  method ReadSome(a: FileReader, nows: seq<nat>, rounds: nat, k: nat) returns (got: seq<Line>, ghost n: nat)
    requires a.Valid() && a.following && a.fd.Some? && a.files.appendOnly && !a.files.rotates && a.incompleteSec == 0
    modifies a, a.files
    ensures a.Valid() && a.following && a.fd == old(a.fd) && a.fd.Some? && a.fd.value < |a.files.contents|
    ensures a.log.start == a.log.base && a.AllLines() == old(a.AllLines()) + got && n == |old(a.AllLines())| + k + 1
    ensures k < |got| ==> n <= |a.log.lines| && a.log.lines[n - 1] == got[k] && a.log.lines[..n] == old(a.AllLines()) + got[..k + 1]
    ensures k < |got| ==> got[k].generation == a.generation && a.committed < got[k].endOffset <= a.bufferStart
    ensures a.files.quiet && a.files.reliable && rounds > old(a.Measure()) && old(|a.AllLines()|) + |nows| > old(ItemsNow(a)) ==>
              old(|a.AllLines()|) + |got| == old(ItemsNow(a))
  {
    hide FileReader.Valid, AllOf, Texts, Contents, ItemsIn, FileReader.Measure;
    ghost var lines := a.AllLines();
    var atEnd;
    ghost var seen;
    got, atEnd, seen := ReadMany(a, nows, rounds);
    n := |lines| + k + 1;
    LineIsLast(a, lines, got, k);
    assert forall i :: 0 <= i < |got| ==> got[i] in got;
  }

  lemma LineIsLast(r: FileReader, lines: seq<Line>, got: seq<Line>, k: nat)
    requires r.Valid() && r.fd.Some? && r.files.appendOnly && !r.files.rotates && r.incompleteSec == 0 && r.AllLines() == lines + got
    ensures r.log.start == r.log.base && r.fd.value < |r.files.contents|
    ensures k < |got| ==> var n := |lines| + k + 1;
                          n <= |r.log.lines| && r.log.lines[n - 1] == got[k] && r.log.lines[..n] == lines + got[..k + 1]
  {
    hide FileReader.Valid;
    OneFileIs(r);
    if k < |got| {
      LineBehindOthers(lines, got, k);
    }
  }

  lemma ContinuesIs(c: bytes, log: Log, max: nat, n: nat, after: Log)
    requires Continues(c, log, max, n, after) && 0 < n
    ensures after == NewLog(EndOfLine(log, n)) && Divides(c, log.start, max, log.lines[..n], EndOfLine(log, n))
    ensures !log.lines[n - 1].truncated ==> BehindNewLine(c, EndOfLine(log, n))
  {
    hide LinesOf, Matches, Texts, Contents;
    if n <= |LinesOf(c[log.start..], max, log.start)| {
      TextsOfMatches(log.lines[..n], LinesOf(c[log.start..], max, log.start)[..n]);
    }
  }

  /** The second half: the commit of line n - 1 of the last part, and the new process. */
  method CommitAndRestart(a: FileReader, ghost n: nat, line: Line, startAtEnd: bool) returns (committed: bool, b: FileReader)
    requires a.Valid() && a.following && a.fd.Some? && a.files.appendOnly && a.files.reliable && !a.files.rotates
    requires 0 < n <= |a.log.lines| && a.log.lines[n - 1] == line
    requires line.generation == a.generation && a.committed < line.endOffset <= a.bufferStart
    modifies a`committed, a.files
    ensures a.fd.value < |a.files.contents| && (a.files.stateWritable ==> committed)
    ensures committed ==> fresh(b) && b.Valid() && b.following && b.files == a.files && b.fd == a.fd
    ensures committed ==> Continues(a.files.contents[a.fd.value], a.log, a.maxLine, n, b.log)
  {
    hide FileReader.Valid, Describes, LinesOf, Matches, Load, SavedAs, Continues;
    committed := a.Commit(line.generation, line.endOffset);
    b := a;
    OpenFileIs(a);
    if committed {
      var ok;
      b, ok := Restart(a, n, startAtEnd);
    }
  }

  lemma LineBehindOthers(lines: seq<Line>, got: seq<Line>, k: nat)
    requires k < |got|
    ensures (lines + got)[|lines| + k] == got[k] && (lines + got)[..|lines| + k + 1] == lines + got[..k + 1]
  {
  }

  /** Without a cut all lines are those of the last part. */
  lemma OneFileIs(r: FileReader)
    requires r.Valid() && r.fd.Some? && r.files.appendOnly && !r.files.rotates && r.incompleteSec == 0
    ensures r.log.earlier == [] && r.log.start == r.log.base && r.log.lines == r.AllLines() && r.fd.value < |r.files.contents|
  {
    hide LinesOf, TailOf, AllOf, Ends;
  }

  lemma ResumesBehind(c: bytes, d: bytes, a: FileReader, n: nat)
    requires InStep(c, a.buffer, if a.pos <= |a.buffer| then a.pos else 0, a.bufferStart, a.log, a.skipping, a.maxLine) && c <= d
    requires n <= |a.log.lines| && a.committed == EndOfLine(a.log, n) && 0 < a.maxLine
    ensures Continues(d, a.log, a.maxLine, n, NewLog(a.committed))
  {
    hide Reading, LinesOf, Matches, AtBoundary;
    ReadingGrows(c, d, a.log, a.bufferStart, a.skipping, a.maxLine);
    RestartResumes(d, a.log, a.bufferStart, a.skipping, a.maxLine, n);
  }

  /* --- The same file with other content --- */

  /** The content is shorter than the first n bytes of head, or begins with n bytes of another hash. */
  ghost predicate OtherStart(head: bytes, offset: nat, content: bytes) {
    var n := if offset < |head| then offset else |head|;
    |content| < n || HashBytes(content[..n]) != HashBytes(head[..n])
  }

  /** That is so if one of these bytes alone is another one. */
  lemma OneByteIsOtherStart(head: bytes, offset: nat, content: bytes, i: nat)
    requires i < offset && i < |head| && i < |content| && content[i] != head[i]
    requires forall j :: 0 <= j < |head| && j < |content| && j != i ==> content[j] == head[j]
    ensures OtherStart(head, offset, content)
  {
    hide HashBytes;
    var n := if offset < |head| then offset else |head|;
    if n <= |content| {
      OneByteChangesTheHash(content[..n], head[..n], i);
    }
  }

  /** A run: the process of the reader a dies. The file it read is emptied and written again, so that it is still the same file
      for the operating system, and the new content has another start than the one which was saved with the position. However
      long it is, the next process starts at 0 and returns every line of it. */
  method RewrittenRestart(a: FileReader, content: bytes, nows: seq<nat>, rounds: nat) returns (b: FileReader, got: seq<Line>)
    requires a.Valid() && a.fd.Some? && a.files.appendOnly && a.files.reliable && a.files.quiet && !a.files.rotates
    requires SavedAs(a.files.state, a.files.device, a.fd.value, a.committed, a.head)
    requires |content| <= MAX_FILE && OtherStart(a.head, a.committed, content)
    requires |nows| > |AllOf(content, a.maxLine, 0)| && rounds > |content| + 1
    modifies a.files
    ensures fresh(b) && b.Valid() && b.files == a.files && b.fd == a.fd && a.fd.value < |a.files.contents|
    ensures a.files.contents == old(a.files.contents)[a.fd.value := content]
    ensures b.log.base == 0 && b.AllLines() == got && Texts(got) == Contents(AllOf(content, a.maxLine, 0))
  {
    hide AllOf, Texts, Contents, Ends, InStep, HashBytes, Load;
    a.files.contents := a.files.contents[a.fd.value := content];
    b, got := ReadWhole(a.files, a.maxLine, nows, rounds);
  }

  /* --- A commit which is refused --- */

  /** A run in which a commit of a line which was returned is refused as a position which was not read, in the steps of
      ReadLine. The line "a" is read. Then the path leads to another file, and after one more look this one is closed. Then
      there is no file at the path, so that none can be opened: the reader has no position, and its generation is still the
      one of the line. */
  method RefusedCommit() returns (r: FileReader, line: Line, accepted: bool)
    ensures fresh(r) && r.Valid() && r.following && !accepted
    ensures line in r.AllLines() && line.text == [97] && line.generation == r.generation && r.committed < line.endOffset
  {
    hide FileReader.Valid, Files.Valid, Meanwhile, Describes, Load, FileReader.Resumes, FileReader.About;
    r, line := ReadAndClosed();
    Redirect(r, None);
    ClosedIs(r);
    var _ := r.OpenFile();
    ClosedIs(r);
    accepted := r.Commit(line.generation, line.endOffset);
  }

  /** The line is read, the path leads to another file, and the reader closes the one it read. */
  method ReadAndClosed() returns (r: FileReader, line: Line)
    ensures fresh(r) && fresh(r.files) && OnlyUs(r, Some(1)) && r.fd.None? && HasRead(r, line)
  {
    hide FileReader.Valid, Files.Valid, Meanwhile, Describes, Load;
    var files := new Files(0, true, true, false, true, true, [A_LINE, []], Some(0), None);
    r := new FileReader(files, 10, false, 0);
    r.Open();
    line := ReadFirst(r);
    Redirect(r, Some(1));
    var _ := AtItsEnd(r, line);
    var _ := AtItsEnd(r, line);
  }

  const A_LINE: bytes := [97, NEW_LINE]

  /** The environment of this run: two files which only this run changes. */
  ghost predicate OnlyUs(r: FileReader, path: Option<nat>)
    reads r, r.files
  {
    && r.Valid() && r.following && r.maxLine == 10 && r.incompleteSec == 0 && !r.startAtEnd
    && r.files.appendOnly && r.files.reliable && r.files.rotates && r.files.quiet
    && r.files.contents == [A_LINE, []] && r.files.path == path
  }

  ghost predicate HasRead(r: FileReader, line: Line)
    reads r
  {
    && r.log.base == 0 && r.log.cuts == [] && r.log.earlier == [] && r.log.start == 0 && r.log.lines == [line]
    && r.generation == 1 && r.committed == 0 && line == Line([97], 1, 2, false)
  }

  method Redirect(r: FileReader, path: Option<nat>)
    requires r.Valid() && r.files.rotates && (path.Some? ==> path.value < |r.files.contents|)
    modifies r.files`path
    ensures r.Valid() && r.files.path == path
  {
    hide InStep, Ends;
    r.files.path := path;
  }

  method ReadFirst(r: FileReader) returns (line: Line)
    requires OnlyUs(r, Some(0)) && r.fd.None? && r.firstOpen && r.files.state == None && r.generation == 0 && !r.rotationSeen
    modifies r, r.files
    ensures OnlyUs(r, Some(0)) && r.fd == Some(0) && HasRead(r, line) && r.bufferStart == 2 && !r.rotationSeen
  {
    hide FileReader.Valid, Files.Valid, Describes, Load, FileReader.ReturnedAll, Ends, LinesOf, AllOf, FileReader.Follows;
    OpenFirst(r);
    FileIs(r);
    var _ := r.ExtractLine();
    var _ := r.CheckFile();
    var _ := r.FillBuffer();
    FileIs(r);
    assert Window(A_LINE, 0, CHUNK) == A_LINE;
    var first := r.ExtractLine();
    FirstLineIs(r);
    line := first.value;
  }

  method OpenFirst(r: FileReader)
    requires OnlyUs(r, Some(0)) && r.fd.None? && r.firstOpen && r.files.state == None && r.generation == 0 && !r.rotationSeen
    modifies r, r.files
    ensures OnlyUs(r, Some(0)) && r.fd == Some(0) && r.generation == 1 && !r.rotationSeen
    ensures r.log == NewLog(0) && r.buffer == [] && r.bufferStart == r.committed == 0
  {
    hide FileReader.Valid, Files.Valid, Describes, Load, RoundEffect, FileReader.ReturnedAll, Ends, FileReader.Resumes,
         FileReader.About, FileReader.SavedOffset, Recognizes, SavedAs, HashBytes, LinesOf, AllOf, FileReader.Measure, Window;
    var _ := r.OpenFile();
  }

  /** What was read is inside of the file, and nothing is pending for a file which is closed. */
  lemma FileIs(r: FileReader)
    requires r.Valid() && r.fd.Some? && r.files.appendOnly
    ensures r.fd.value < |r.files.contents| && r.bufferStart + r.Pending() <= |r.files.contents[r.fd.value]| && r.pos <= |r.buffer|
  {
    r.Inside();
  }

  lemma ClosedIs(r: FileReader)
    requires r.Valid()
    ensures r.fd.None? ==> r.bufferStart == 0
  {
  }

  lemma AllIfExhausted(r: FileReader)
    requires r.Valid() && r.fd.Some? && r.files.appendOnly && r.bufferStart + r.Pending() == |r.files.contents[r.fd.value]|
    ensures r.Exhausted() ==> r.ReturnedAll(r.files.contents[r.fd.value])
  {
    hide FileReader.Valid, FileReader.ReturnedAll;
    if r.Exhausted() {
      r.AllIsReturned();
    }
  }

  /** With the whole file in the buffer one line is returned, and not none. */
  lemma FirstLineIs(r: FileReader)
    requires OnlyUs(r, Some(0)) && r.fd == Some(0) && r.bufferStart + r.Pending() == 2 && r.log.base == 0 && r.log.cuts == []
    ensures r.log.lines == [] ==> !r.Exhausted()
    ensures |r.log.lines| == 1 ==> r.log.lines[0].text == [97] && r.log.lines[0].endOffset == 2 && !r.log.lines[0].truncated && r.bufferStart == 2
  {
    var c := r.files.contents[0];
    LineFirst([97], [], 10, 0);
    assert [97] + [NEW_LINE] + [] == A_LINE;
    NoLine([], 10, 2);
    assert c[0..2] == A_LINE && c[0..] == A_LINE;
    AllIfExhausted(r);
    if |r.log.lines| == 1 && r.bufferStart < 2 {
      NoLine(c[0..r.bufferStart], 10, 0);
    }
  }

  /** A look at the end of the file, while the path leads to another one: the first look sees that, and the second one closes
      the file. */
  method AtItsEnd(r: FileReader, line: Line) returns (round: Round)
    requires OnlyUs(r, Some(1)) && r.fd == Some(0) && HasRead(r, line) && r.bufferStart == 2
    modifies r, r.files
    ensures OnlyUs(r, Some(1)) && HasRead(r, line)
    ensures if old(r.rotationSeen) then r.fd.None? else r.fd == Some(0) && r.bufferStart == 2 && r.rotationSeen
  {
    hide FileReader.Valid, Files.Valid, Describes, Load, FileReader.ReturnedAll, Ends, LinesOf, AllOf;
    FileIs(r);
    var _ := r.ExtractLine();
    var _ := r.CheckFile();
    var _ := r.FillBuffer();
    FileIs(r);
    assert Window(A_LINE, 2, CHUNK) == [];
    round := r.EndOfFile(0);
    if r.fd.Some? {
      FileIs(r);
    }
  }

  /* --- A restart inside of a line --- */

  const CUT_FILE: bytes := [97, 98]
  const CUT_LINE: bytes := [97, 98, NEW_LINE]

  /** A run in which a line is cut, its position is committed before its end is in the file, and the process dies. The file
      has one line, which is cut to one byte. The next process starts inside of it, and returns what the first one would have
      passed over. */
  method CutRestart() returns (a: FileReader, first: seq<Line>, b: FileReader, second: seq<Line>)
    ensures fresh(a) && fresh(b) && b.Valid() && b.files == a.files && a.maxLine == b.maxLine == 1 && b.fd == a.fd == Some(0)
    ensures a.files.contents == [CUT_LINE] && Contents(AllOf(CUT_LINE, 1, 0)) == [([97], true)]
    ensures Texts(first) == [([97], true)] && a.committed == first[0].endOffset == 1 && b.log.base == 1
    ensures Texts(second) == [([98], false)]
  {
    hide FileReader.Valid, Files.Valid, AllOf, Texts, Contents, FileReader.Measure, ItemsIn, Describes, Load, SavedAs, Continues;
    CutFile();
    var files := new Files(0, true, true, true, false, true, [CUT_FILE], Some(0), None);
    a, first := ReadWhole(files, 1, [0, 0], 4);
    CutIsCommitted(a, first);
    assert first[0] in first;
    var ok := a.Commit(first[0].generation, first[0].endOffset);
    LineEnds(a);
    b, ok := Restart(a, 1, false);
    RestItems(a.log, b);
    var atEnd;
    ghost var seen;
    second, atEnd, seen := ReadMany(b, [0, 0], 4);
    assert [] + second == second;
  }

  lemma CutFile()
    ensures Contents(AllOf(CUT_FILE, 1, 0)) == Contents(AllOf(CUT_LINE, 1, 0)) == [([97], true)] && |AllOf(CUT_FILE, 1, 0)| == 1
    ensures LinesOf(CUT_LINE, 1, 0) == [Item([97], true, 0, 3)] && CUT_LINE[0..] == CUT_LINE
    ensures Contents(AllOf([98, NEW_LINE], 1, 1)) == [([98], false)] && |AllOf([98, NEW_LINE], 1, 1)| == 1
    ensures CUT_LINE[1..] == [98, NEW_LINE]
  {
    hide LinesOf, TailOf;
    NoLine(CUT_FILE, 1, 0);
    OneLine(CUT_FILE, 1, 0);
    OneLine([98], 1, 1);
    assert CUT_FILE + [NEW_LINE] == CUT_LINE && [98] + [NEW_LINE] == [98, NEW_LINE];
    assert CUT_FILE[..1] == [97];
  }

  lemma CutIsCommitted(a: FileReader, first: seq<Line>)
    requires a.Valid() && a.fd == Some(0) && a.files.appendOnly && a.files.contents == [CUT_FILE] && a.maxLine == 1
    requires !a.files.rotates && a.incompleteSec == 0 && a.log.base == 0 && a.AllLines() == first && Texts(first) == [([97], true)]
    ensures |first| == 1 && first[0].endOffset == 1 && a.log.lines == first && a.log.start == 0 && EndOfLine(a.log, 1) == 1
  {
    hide LinesOf, TailOf, Ends;
    OneFileIs(a);
    var c := CUT_FILE;
    LinesCount(c, a.log, a.bufferStart, a.skipping, 1);
    NoLine(c[0..a.log.lineStart], 1, 0);
    if a.skipping {
      CutIsInside(c, a.log, a.bufferStart, 1);
    }
  }

  /** The end of the line is written. */
  method LineEnds(a: FileReader)
    requires a.Valid() && a.fd == Some(0) && a.files.appendOnly && a.files.contents == [CUT_FILE]
    requires Describes(a.files.state, a.files.device, a.files.contents)
    modifies a.files`contents
    ensures a.Valid() && a.files.contents == [CUT_LINE]
    ensures Describes(a.files.state, a.files.device, a.files.contents)
  {
    hide Load, HashBytes, InStep, Ends;
    assert CUT_FILE <= CUT_LINE;
    a.FollowsGrown(CUT_FILE, CUT_LINE);
    ghost var state := a.files.state;
    if state.Some? && Load(state.value).Loaded? && Load(state.value).state.device == a.files.device {
      var s := Load(state.value).state;
      assert CUT_LINE[..s.headLen] == CUT_FILE[..s.headLen];
    }
    a.files.contents := [CUT_LINE];
  }

  lemma RestItems(log: Log, b: FileReader)
    requires b.fd == Some(0) && b.files.contents == [CUT_LINE] && b.maxLine == 1
    requires |log.lines| == 1 && log.start == 0 && EndOfLine(log, 1) == 1 && Continues(CUT_LINE, log, 1, 1, b.log)
    ensures b.log == NewLog(1) && ItemsNow(b) == 1 && b.AllLines() == []
  {
    hide LinesOf, AllOf;
    CutFile();
  }
}
