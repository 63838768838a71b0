/** A run of the pipeline in which a lost line is passed over: the position of a later batch is committed. */
module PipelineRuns {
  import opened Bytes
  import opened TextLines
  import opened ReadLines
  import opened FileReaders
  import opened CommitPipeline
  import opened FileRestart

  /** Two lines, "a" and "b". */
  const TWO_LINES: bytes := [97, NEW_LINE, 98, NEW_LINE]

  /** Between two batches, while nobody else does anything. */
  ghost predicate Ready(p: Pipeline)
    reads p, p.reader, p.reader.files, p.fifo, p.slot
  {
    && p.Valid() && p.push.Idle? && p.fifo.queue == [] && 0 < p.maxQueue && InFile(p.reader)
  }

  ghost predicate InFile(r: FileReader)
    reads r, r.files
  {
    && r.Valid() && r.following && r.fd == Some(0) && r.log.base == 0 && r.maxLine == 10 && r.incompleteSec == 0
    && r.files.appendOnly && r.files.reliable && r.files.stateWritable && r.files.quiet && !r.files.rotates
    && r.files.contents == [TWO_LINES] && r.files.path == Some(0) && r.Measure() <= 4
  }

  /** The run: "a" is read, and its batch is lost, since the receiver does not answer and the WAL is full. "b" is read, and
      accepted. The position behind "b" is committed, and with that "a" is not read again after a restart. */
  method LostIsPassedOver() returns (p: Pipeline, lost: Line)
    ensures fresh(p) && p.Valid() && lost in p.reader.AllLines() && lost.text == [97] && lost.endOffset < p.reader.committed
    ensures |p.tally.handled| == 2 && p.tally.handled[0] == lost && p.tally.outcomes == [Lost, Accepted] && lost in p.tally.unsafe
    ensures p.tally.waiting == [] && !p.retry
  {
    hide FileReader.Valid, Pipeline.Valid, InFile;
    var line;
    p, lost, line := TwoBatches();
    CommitLine(p, line);
  }

  /** Another run: "a" is refused for good. It is committed, and not read again after a restart. */
  method RefusedIsCommitted() returns (p: Pipeline, line: Line)
    ensures fresh(p) && p.Valid() && p.reader.AllLines() == [line] && line.text == [97] && p.reader.committed == line.endOffset
    ensures p.tally.handled == [line] && p.tally.outcomes == [Refused] && p.tally.unsafe == {} && !p.retry
  {
    hide FileReader.Valid, Pipeline.Valid, InFile;
    p := Start();
    line := OneBatch(p, Answers(Rejects, false, {}));
    CommitLine(p, line);
  }

  /** The first half: "b" is delivered, and its position is not handed over yet. */
  method TwoBatches() returns (p: Pipeline, lost: Line, line: Line)
    ensures fresh(p) && fresh(p.reader) && fresh(p.reader.files) && fresh(p.fifo) && fresh(p.slot)
    ensures Waits(p, line) && p.reader.AllLines() == [lost, line] && lost.text == [97] && lost.endOffset < line.endOffset
    ensures p.tally.handled == [lost, line] && p.tally.outcomes == [Lost, Accepted] && p.tally.unsafe == {lost} && p.tally.waiting == []
  {
    hide FileReader.Valid, Pipeline.Valid, HasMarker;
    p := Start();
    lost := OneBatch(p, Answers(Fails, false, {}));
    line := OneBatch(p, Answers(Takes, false, {}));
    GoesUp(p, lost, line);
  }

  /** The position of this line is the only one which is to be handed over. */
  ghost predicate Waits(p: Pipeline, line: Line)
    reads p, p.reader, p.reader.files, p.fifo, p.slot
  {
    && p.Valid() && InFile(p.reader) && p.push == HandingOver([FileRecord(line)]) && !p.retry
    && !p.slot.pending && p.slot.generation == 0 && p.slot.endOffset == 0
    && line.generation == p.reader.generation && p.reader.committed < line.endOffset <= p.reader.bufferStart
  }

  /** The second half: it is handed over, taken, and committed. */
  method CommitLine(p: Pipeline, line: Line)
    requires Waits(p, line)
    modifies p, p.reader`committed, p.reader.files`state, p.slot
    ensures p.Valid() && p.reader.committed == line.endOffset && !p.retry
    ensures p.tally == old(p.tally).(handed := p.tally.handed)
  {
    hide FileReader.Valid, Pipeline.Valid, FileReader.Moves, FileReader.Measure;
    p.HandOver();
    p.HandOver();
    p.TakePosition();
    MovesTo(p, line);
    p.CommitPosition();
  }

  lemma GoesUp(p: Pipeline, a: Line, b: Line)
    requires p.Valid() && p.tally.handled == [a, b] && a.generation == b.generation
    ensures a.endOffset < b.endOffset
  {
    hide FileReader.Valid;
    assert (p.tally.handled + p.tally.waiting)[0] == a && (p.tally.handled + p.tally.waiting)[1] == b;
  }

  lemma MovesTo(p: Pipeline, l: Line)
    requires p.reader.following && p.reader.fd.Some? && l.generation == p.reader.generation
    requires p.reader.committed < l.endOffset <= p.reader.bufferStart
    ensures p.reader.Moves(l.generation, l.endOffset)
  {
  }

  method Start() returns (p: Pipeline)
    ensures fresh(p) && fresh(p.reader) && fresh(p.reader.files) && fresh(p.fifo) && fresh(p.slot)
    ensures Ready(p) && p.reader.AllLines() == [] && p.tally == Tally([], [], [], {}, {}) && !p.retry
    ensures p.slot.generation == 0 && p.slot.endOffset == 0 && !p.slot.pending && p.reader.generation > 0
  {
    hide Pipeline.Valid, InFile, FileReader.Valid;
    var r := StartReader();
    var fifo := new LogFifo();
    var slot := new FileCommitSlot();
    p := new Pipeline(r, fifo, slot, 10);
  }

  method StartReader() returns (r: FileReader)
    ensures fresh(r) && fresh(r.files) && InFile(r) && r.Valid() && r.following && r.AllLines() == [] && r.generation > 0
  {
    hide FileReader.Valid, Files.Valid, FileReader.Measure, Describes, LoadedFrom, FileReader.About, FileReader.Resumes,
         SavedAs, Meanwhile;
    var files := new Files(0, true, true, true, false, true, [TWO_LINES], Some(0), None);
    ghost var w := files.Now();
    r := new FileReader(files, 10, false, 0);
    r.Open();
    NothingSaved();
    ClosedMeasure(r);
    var _ := r.OpenFile();
    MeanwhileQuiet(w, files.Now());
  }

  lemma NothingSaved()
    ensures !LoadedFrom(None).Loaded?
  {
  }

  /** One line is read, and its batch is delivered. */
  method OneBatch(p: Pipeline, answers: Answers) returns (l: Line)
    requires Ready(p) && |p.reader.AllLines()| < 2
    modifies p, p.reader, p.reader.files, p.fifo
    ensures p.Valid() && InFile(p.reader) && p.fifo.queue == [] && p.reader.AllLines() == old(p.reader.AllLines()) + [l]
    ensures l.text == [if old(|p.reader.AllLines()|) == 0 then 97 else 98] && l.generation == p.reader.generation == old(p.reader.generation)
    ensures p.reader.committed == old(p.reader.committed) < l.endOffset <= p.reader.bufferStart
    ensures p.tally.handled == old(p.tally.handled) + [l] && p.tally.outcomes == old(p.tally.outcomes) + [ForRequest(answers)]
    ensures p.tally.handed == old(p.tally.handed) && p.tally.waiting == [] && p.retry == old(p.retry)
    ensures if ForRequest(answers) == Lost then p.push == Idle && p.tally.unsafe == old(p.tally.unsafe) + {l}
            else p.push == HandingOver([FileRecord(l)]) && p.tally.unsafe == old(p.tally.unsafe)
  {
    hide FileReader.Valid, Pipeline.Valid, ForRequest, Outcomes, TextsOf;
    l := NextLine(p);
    p.TakeBatch();
    IsOneRecord(p.push.batch, p.fifo.queue, FileRecord(l));
    OneOutcome(l, answers);
    p.DeliverBatch(true, answers);
  }

  method NextLine(p: Pipeline) returns (l: Line)
    requires Ready(p) && |p.reader.AllLines()| < 2
    modifies p`tally, p.reader, p.reader.files, p.fifo
    ensures p.Valid() && InFile(p.reader) && p.fifo.queue == [FileRecord(l)] && p.reader.AllLines() == old(p.reader.AllLines()) + [l]
    ensures l.text == [if old(|p.reader.AllLines()|) == 0 then 97 else 98] && l.generation == p.reader.generation == old(p.reader.generation)
    ensures p.reader.committed == old(p.reader.committed) < l.endOffset <= p.reader.bufferStart
    ensures p.tally == old(p.tally).(waiting := p.tally.waiting)
  {
    hide FileReader.Valid, Pipeline.Valid, FileReader.Measure, RoundEffect, FileReader.Finished, Meanwhile;
    ghost var view := p.reader.Shown();
    var r := p.ReadNext(0, 5);
    ReaderIsValid(p);
    RoundLines(view, p.reader.Shown(), r);
    StillShown(view, p.reader.Shown(), r);
    AllTexts(p.reader, r);
    l := r.line;
  }

  lemma ReaderIsValid(p: Pipeline)
    requires p.Valid()
    ensures p.reader.Valid()
  {
    hide FileReader.Valid;
  }

  /** Less than two lines are not all of the file, and those which came out are its first ones. */
  lemma AllTexts(r: FileReader, round: Round)
    requires InFile(r) && (round.AtEnd? ==> r.Finished())
    ensures |r.AllLines()| < 2 ==> !round.AtEnd?
    ensures |r.AllLines()| <= 2
    ensures |r.AllLines()| > 0 ==> r.AllLines()[0].text == [97]
    ensures |r.AllLines()| > 1 ==> r.AllLines()[1].text == [98]
  {
    hide FileReader.Valid, AllOf, Texts, Contents, PartItems, CutsOf;
    TwoItems();
    LinesArePlain(r);
    TextsAre(r.AllLines());
    if round.AtEnd? {
      AllItems(r, TWO_LINES);
    }
  }

  lemma TextsAre(lines: seq<Line>)
    requires Texts(lines) <= [([97], false), ([98], false)]
    ensures |lines| <= 2 && (|lines| > 0 ==> lines[0].text == [97]) && (|lines| > 1 ==> lines[1].text == [98])
  {
    assert |lines| > 0 ==> Texts(lines)[0] == (lines[0].text, lines[0].truncated);
    assert |lines| > 1 ==> Texts(lines)[1] == (lines[1].text, lines[1].truncated);
  }

  lemma TwoItems()
    ensures Contents(AllOf(TWO_LINES, 10, 0)) == [([97], false), ([98], false)] && TWO_LINES[0..] == TWO_LINES
  {
    hide LinesOf, TailOf;
    LineFirst([97], [98, NEW_LINE], 10, 0);
    OneLine([98], 10, 2);
    assert [97] + [NEW_LINE] + [98, NEW_LINE] == TWO_LINES && [98] + [NEW_LINE] == [98, NEW_LINE];
  }

  lemma IsOneRecord(batch: seq<Record>, queue: seq<Record>, r: Record)
    requires batch + queue == [r] && batch != []
    ensures batch == [r] && queue == [] && FileLines(queue) == []
  {
    assert (batch + queue)[0] == batch[0];
  }

  lemma OneOutcome(l: Line, answers: Answers)
    requires |l.text| < |MARKER|
    ensures Outcomes([FileRecord(l)], true, answers) == [ForRequest(answers)]
    ensures FileLines([FileRecord(l)]) == [l] && LineOutcomes([FileRecord(l)], [ForRequest(answers)]) == [ForRequest(answers)]
    ensures Lost in [ForRequest(answers)] <==> ForRequest(answers) == Lost
    ensures (set x | x in [l]) == {l}
  {
    assert [FileRecord(l)][1..] == [] && [ForRequest(answers)][1..] == [];
  }
}
