/** From the file to the receiver and back: the file thread reads lines into a queue, the push thread delivers them in batches and
    hands over how far it came, and the file thread commits that. Every method below which changes the pipeline is one step
    of one thread, which no other step interrupts: a run is any sequence of steps. */
module CommitPipeline {
  import opened Bytes
  import opened ReadLines
  import opened FileReaders

  const MAX_BATCH_RECORDS: nat := 100
  const MAX_BATCH_BYTES: nat := 524288

  /** A record in the queue: a line of the file, or what came from another input. */
  datatype Record = FileRecord(line: Line) | OtherRecord(text: bytes)

  function RecordText(r: Record): bytes {
    match r
    case FileRecord(line) => line.text
    case OtherRecord(text) => text
  }

  function RecordSize(r: Record): nat {
    match r
    case FileRecord(line) => |line.text|
    case OtherRecord(text) => |text|
  }

  /** The texts of records, one behind the other. */
  ghost function TextsOf(rs: seq<Record>): bytes {
    if rs == [] then [] else TextsOf(rs[..|rs| - 1]) + RecordText(rs[|rs| - 1])
  }

  lemma {:induction false} SizeOfTexts(rs: seq<Record>)
    ensures TotalSize(rs) == |TextsOf(rs)|
  {
    if rs != [] {
      SizeOfTexts(rs[..|rs| - 1]);
    }
  }

  function TotalSize(rs: seq<Record>): nat {
    if rs == [] then 0 else TotalSize(rs[..|rs| - 1]) + RecordSize(rs[|rs| - 1])
  }

  /** The lines of the file among records. */
  function FileLines(rs: seq<Record>): seq<Line> {
    if rs == [] then [] else (if rs[0].FileRecord? then [rs[0].line] else []) + FileLines(rs[1..])
  }

  lemma {:induction false} FileLinesConcat(a: seq<Record>, b: seq<Record>)
    ensures FileLines(a + b) == FileLines(a) + FileLines(b)
  {
    if a == [] {
      assert a + b == b;
    } else {
      assert (a + b)[1..] == a[1..] + b;
      FileLinesConcat(a[1..], b);
      var first := if a[0].FileRecord? then [a[0].line] else [];
      assert first + (FileLines(a[1..]) + FileLines(b)) == first + FileLines(a[1..]) + FileLines(b);
    }
  }

  /** The queue between the input threads and the push thread. Each method runs with the mutex held. */
  class LogFifo {
    var queue: seq<Record>

    constructor ()
      ensures queue == []
    {
      queue := [];
    }

    method Push(record: Record)
      modifies this
      ensures queue == old(queue) + [record]
    {
      queue := queue + [record];
    }

    method TryPush(record: Record, maxSize: nat) returns (ok: bool)
      modifies this
      ensures ok == (|old(queue)| < maxSize)
      ensures queue == if ok then old(queue) + [record] else old(queue)
    {
      if |queue| >= maxSize {
        return false;
      }
      queue := queue + [record];
      ok := true;
    }

    /** Takes records from the front until a limit is reached: at least one, and as many as the limits allow. */
    method PopBatch(maxRecords: nat, maxBytes: nat) returns (batch: seq<Record>)
      requires 0 < maxRecords
      modifies this
      ensures batch + queue == old(queue) && (old(queue) != [] ==> batch != [])
      ensures |batch| <= maxRecords && (|batch| > 1 ==> |TextsOf(batch)| <= maxBytes)
      ensures queue == [] || |batch| == maxRecords || |TextsOf(batch + [queue[0]])| > maxBytes
    {
      hide TextsOf;
      batch := [];
      var size := 0;
      while queue != [] && |batch| < maxRecords
        invariant batch + queue == old(queue) && size == TotalSize(batch)
        invariant old(queue) != [] && batch == [] ==> queue != []
        invariant |batch| <= maxRecords && (|batch| > 1 ==> size <= maxBytes)
        decreases |queue|
      {
        size := size + RecordSize(queue[0]);
        assert (batch + [queue[0]])[..|batch|] == batch;
        if batch != [] && size > maxBytes {
          SizeOfTexts(batch);
          SizeOfTexts(batch + [queue[0]]);
          return;
        }
        batch, queue := batch + [queue[0]], queue[1..];
      }
      SizeOfTexts(batch);
    }
  }

  /** Where the push thread leaves positions which are safe, and the file thread takes the highest of them. */
  class FileCommitSlot {
    var pending: bool
    var generation: nat
    var endOffset: nat

    constructor ()
      ensures !pending && generation == 0 && endOffset == 0
    {
      pending, generation, endOffset := false, 0, 0;
    }

    /** The slot holds the maximum by generation and offset of all positions which were added. */
    method Add(g: nat, e: nat)
      modifies this
      ensures (generation, endOffset) == if g > old(generation) || (g == old(generation) && e > old(endOffset)) then (g, e)
                                         else old((generation, endOffset))
      ensures pending == (old(pending) || (generation, endOffset) != old((generation, endOffset)))
    {
      if g > generation || (g == generation && e > endOffset) {
        generation, endOffset, pending := g, e, true;
      }
    }

    method Take() returns (some: bool, g: nat, e: nat)
      modifies this
      ensures some == old(pending) && !pending && (g, e) == (generation, endOffset) == old((generation, endOffset))
    {
      some, g, e := pending, generation, endOffset;
      pending := false;
    }
  }

  predicate Higher(g: nat, e: nat, g0: nat, e0: nat) {
    g > g0 || (g == g0 && e > e0)
  }

  /** What became of a record. */
  datatype Outcome = Accepted | Refused | Stored | NoReceiver | Lost

  /** "WAL-TESTING": a record with this text goes to the WAL. */
  const MARKER: bytes := [87, 65, 76, 45, 84, 69, 83, 84, 73, 78, 71]

  predicate HasMarker(text: bytes) {
    exists i :: 0 <= i <= |text| - |MARKER| && MARKER <= text[i..]
  }

  /** What the world says to a batch: the receiver to the request, the WAL to the payload of a request which failed, and for
      which of the marked records it says yes. */
  datatype Answer = Takes | Rejects | Fails
  datatype Answers = Answers(request: Answer, wal: bool, marked: set<nat>)

  /** What becomes of record i. The records without the marker are one request, and share what becomes of it. A marked one goes to
      the WAL on its own. */
  function OutcomeOf(r: Record, i: nat, receiver: bool, answers: Answers): Outcome {
    if !receiver then NoReceiver
    else if HasMarker(RecordText(r)) then if i in answers.marked then Stored else Lost
    else ForRequest(answers)
  }

  function ForRequest(answers: Answers): Outcome {
    match answers.request
    case Takes => Accepted
    case Rejects => Refused
    case Fails => if answers.wal then Stored else Lost
  }

  /** What the outcome of record i says of the answers. */
  ghost predicate IsOutcome(outcome: Outcome, r: Record, i: nat, receiver: bool, answers: Answers) {
    var marked := HasMarker(RecordText(r));
    && (outcome == NoReceiver <==> !receiver)
    && (outcome == Accepted <==> receiver && !marked && answers.request == Takes)
    && (outcome == Refused <==> receiver && !marked && answers.request == Rejects)
    && (outcome == Stored <==> receiver && if marked then i in answers.marked else answers.request == Fails && answers.wal)
    && (outcome == Lost <==> receiver && if marked then i !in answers.marked else answers.request == Fails && !answers.wal)
  }

  /** The WAL does not take a marked record, or the others, for which no receiver answered. */
  ghost predicate LosesOne(batch: seq<Record>, receiver: bool, answers: Answers) {
    receiver && exists i :: 0 <= i < |batch| && CannotBeKept(batch[i], i, answers)
  }

  ghost predicate CannotBeKept(r: Record, i: nat, answers: Answers) {
    if HasMarker(RecordText(r)) then i !in answers.marked else answers.request == Fails && !answers.wal
  }

  lemma LostIff(batch: seq<Record>, receiver: bool, answers: Answers)
    ensures Lost in Outcomes(batch, receiver, answers) <==> LosesOne(batch, receiver, answers)
  {
    hide HasMarker, RecordText, OutcomeOf;
    var outcomes := Outcomes(batch, receiver, answers);
    if LosesOne(batch, receiver, answers) {
      var i :| 0 <= i < |batch| && CannotBeKept(batch[i], i, answers);
      assert outcomes[i] == Lost;
    }
  }

  function Outcomes(batch: seq<Record>, receiver: bool, answers: Answers): (r: seq<Outcome>)
    ensures |r| == |batch|
    ensures forall i :: 0 <= i < |r| ==> r[i] == OutcomeOf(batch[i], i, receiver, answers) && IsOutcome(r[i], batch[i], i, receiver, answers)
  {
    seq(|batch|, i requires 0 <= i < |batch| => OutcomeOf(batch[i], i, receiver, answers))
  }

  /** The push thread delivers a batch. It is safe if and only if no record of it is lost: each was accepted, was refused for
      good, or is in the WAL. Without a receiver there is nothing to do. */
  method Deliver(batch: seq<Record>, receiver: bool, answers: Answers) returns (safe: bool, outcomes: seq<Outcome>)
    ensures |outcomes| == |batch| && forall i :: 0 <= i < |batch| ==> IsOutcome(outcomes[i], batch[i], i, receiver, answers)
    ensures (safe <==> Lost !in outcomes) && (safe <==> !LosesOne(batch, receiver, answers))
    ensures outcomes == Outcomes(batch, receiver, answers)
  {
    hide HasMarker, RecordText, IsOutcome, LosesOne;
    LostIff(batch, receiver, answers);
    safe, outcomes := true, [];
    var pushed: seq<nat> := [];
    for i := 0 to |batch|
      invariant |outcomes| == i && (safe <==> Lost !in outcomes)
      invariant forall j :: j in pushed <==> 0 <= j < i && receiver && !HasMarker(RecordText(batch[j]))
      invariant forall j :: 0 <= j < i ==> outcomes[j] == if j in pushed then Accepted else OutcomeOf(batch[j], j, receiver, answers)
    {
      var outcome := NoReceiver;
      if receiver {
        if HasMarker(RecordText(batch[i])) {
          var stored := i in answers.marked;
          outcome := if stored then Stored else Lost;
          safe := safe && stored;
        } else {
          outcome := Accepted;
          pushed := pushed + [i];
        }
      }
      outcomes := outcomes + [outcome];
    }
    if pushed != [] {
      var action := ForRequest(answers);
      safe := safe && action != Lost;
      SomeIsLost(outcomes, pushed, action);
      outcomes := Overwritten(outcomes, pushed, action);
    }
  }

  function Overwritten(outcomes: seq<Outcome>, indices: seq<nat>, outcome: Outcome): (r: seq<Outcome>)
    ensures |r| == |outcomes|
    ensures forall i :: 0 <= i < |r| ==> r[i] == if i in indices then outcome else outcomes[i]
  {
    seq(|outcomes|, i requires 0 <= i < |outcomes| => if i in indices then outcome else outcomes[i])
  }

  lemma SomeIsLost(outcomes: seq<Outcome>, indices: seq<nat>, outcome: Outcome)
    requires indices != [] && forall i :: i in indices ==> i < |outcomes| && outcomes[i] != Lost
    ensures Lost in Overwritten(outcomes, indices, outcome) <==> Lost in outcomes || outcome == Lost
  {
    var r := Overwritten(outcomes, indices, outcome);
    assert indices[0] in indices && r[indices[0]] == outcome;
    if Lost in outcomes {
      var i :| 0 <= i < |outcomes| && outcomes[i] == Lost;
      assert r[i] == Lost;
    }
  }

  /** What the push thread does: nothing, it has a batch, or it hands over the positions of the rest of a batch. */
  datatype Push = Idle | Pushing(batch: seq<Record>) | HandingOver(rest: seq<Record>)

  /** The lines which the push thread is done with, in the order in which it took them, and what became of each; the lines which
      it is not done with; the lines of batches of which a record was lost; and those of which the position was handed over. */
  datatype Tally = Tally(handled: seq<Line>, outcomes: seq<Outcome>, waiting: seq<Line>, unsafe: set<Line>, handed: set<Line>)

  class Pipeline {
    const reader: FileReader
    const fifo: LogFifo
    const slot: FileCommitSlot
    const maxQueue: nat
    var push: Push
    var retry: bool               // a position which was taken is not committed yet
    var generation: nat
    var endOffset: nat
    ghost var tally: Tally

    ghost predicate Valid()
      reads this, reader, reader.files, fifo, slot
    {
      && reader.Valid() && reader.following
      && QueueIs(push, fifo.queue, tally.waiting)
      && Ordered(tally.handled + tally.waiting)
      && Known(tally, reader.AllLines(), reader.generation)
      && Covered(tally, reader.AllLines(), reader.committed)
      && PassedBy(tally.handed, reader.AllLines(), reader.committed)
      && Highest(tally.handed, slot.generation, slot.endOffset)
      && HandedOver(tally.handed, generation, endOffset)
      && IsRest(push, tally)
    }

    constructor (reader: FileReader, fifo: LogFifo, slot: FileCommitSlot, maxQueue: nat)
      requires reader.Valid() && reader.following && reader.AllLines() == [] && fifo.queue == []
      requires slot.generation == 0 && slot.endOffset == 0
      ensures Valid() && tally == Tally([], [], [], {}, {}) && push.Idle? && !retry
      ensures this.reader == reader && this.fifo == fifo && this.slot == slot && this.maxQueue == maxQueue
    {
      this.reader, this.fifo, this.slot, this.maxQueue := reader, fifo, slot, maxQueue;
      push, retry, generation, endOffset := Idle, false, 0, 0;
      tally := Tally([], [], [], {}, {});
      assert [] + fifo.queue == [];
    }

    /* --- The file thread --- */

    method TakePosition()
      requires Valid()
      modifies this`retry, this`generation, this`endOffset, slot
      ensures Valid() && !slot.pending && retry == (old(retry) || old(slot.pending))
      ensures (generation, endOffset) == if old(slot.pending) then old((slot.generation, slot.endOffset)) else old((generation, endOffset))
    {
      hide QueueIs, Ordered, Known, Covered, PassedBy, HandedOver, FileReader.Valid, IsRest;
      var some, g, e := slot.Take();
      if some {
        generation, endOffset, retry := g, e, true;
      }
    }

    /** Commits the position which was taken, and tries again in the next round if that fails. As long as the file is open it is
        never refused as a position which was not read: then only a state file which cannot be written makes it fail. */
    method CommitPosition()
      requires Valid()
      modifies this`retry, reader`committed, reader.files`state
      ensures Valid()
      ensures retry ==> old(retry)
      ensures old(retry) && !retry && old(reader.Moves(generation, endOffset)) ==> reader.committed == endOffset
      ensures !old(retry) ==> reader.committed == old(reader.committed)
      ensures old(retry) && retry && reader.fd.Some? ==> old(reader.Moves(generation, endOffset)) && reader.files.state == old(reader.files.state)
      ensures reader.fd.Some? && reader.files.stateWritable ==> !retry
    {
      hide QueueIs, Ordered, Known, Covered, PassedBy, HandedOver, Highest, FileReader.Valid, IsRest;
      if retry {
        PositionWasRead();
        var ok := reader.Commit(generation, endOffset);
        if ok {
          retry := false;
        }
      }
    }

    lemma PositionWasRead()
      requires Valid()
      ensures generation == reader.generation ==>
                endOffset == 0 || (Covered(tally, reader.AllLines(), endOffset) && PassedBy(tally.handed, reader.AllLines(), endOffset))
      ensures generation == reader.generation && reader.fd.Some? ==> endOffset <= reader.bufferStart
    {
      hide QueueIs, FileReader.Valid;
      reader.LinesAreOrdered();
      if generation == reader.generation && (generation, endOffset) != (0, 0) {
        HandledIsCovered(push, tally, reader.AllLines(), generation, endOffset);
      }
    }

    /** Reads the next line while the queue has room. An empty line is not sent. If other programs do nothing, and there are
        enough rounds, that is a line if there is one. */
    method ReadNext(now: nat, rounds: nat) returns (r: Round)
      requires Valid()
      modifies this`tally, reader, reader.files, fifo
      ensures Valid() && tally == old(tally).(waiting := tally.waiting)
      ensures if old(|fifo.queue| >= maxQueue) then r == Again && fifo.queue == old(fifo.queue) && reader.Shown() == old(reader.Shown())
              else RoundEffect(old(reader.Shown()), reader.Shown(), r)
                   && fifo.queue == if r.Got? && r.line.text != [] then old(fifo.queue) + [FileRecord(r.line)] else old(fifo.queue)
      ensures reader.StaysOpen() && (reader.files.quiet ==> reader.files.Now() == old(reader.files.Now()))
      ensures old(|fifo.queue|) < maxQueue && reader.files.quiet && reader.files.reliable ==>
                && reader.Measure() <= old(reader.Measure()) && (rounds > old(reader.Measure()) ==> r.Got? || r.AtEnd? || r.NoFileNow?)
                && (r.AtEnd? && reader.files.appendOnly ==> reader.Finished()) && (r.NoFileNow? ==> reader.files.path.None?)
    {
      hide QueueIs, Ordered, Known, Covered, PassedBy, HandedOver, Highest, FileReader.Valid, RoundEffect, Ends, IsRest,
           Meanwhile,
           Describes, FileReader.Measure, FileReader.ReturnedAll, FileReader.SeesAll;
      r := Again;
      if |fifo.queue| < maxQueue {
        ghost var before, t, w := reader.Shown(), tally, reader.files.Now();
        ghost var seen;
        r, seen := reader.ReadLine(now, rounds);
        MeanwhileQuiet(w, reader.files.Now());
        if r.AtEnd? && reader.files.quiet && reader.files.appendOnly {
          reader.FileIsThere();
          IsFinished(reader, w, seen);
        }
        reader.LinesAreOrdered();
        ReadKeeps(t, before, reader.Shown(), r, if reader.fd.Some? then reader.bufferStart else MAX_FILE);
        Shows(before, reader.Shown(), r);
        RestStays(push, t, tally.waiting + if r.Got? then [r.line] else []);
        if r.Got? && r.line.text != [] {
          QueueGrows(push, fifo.queue, tally.waiting, FileRecord(r.line));
          fifo.Push(FileRecord(r.line));
          tally := tally.(waiting := tally.waiting + [r.line]);
        }
      }
    }

    /** Another input. */
    method OtherInput(text: bytes)
      requires Valid()
      modifies fifo
      ensures Valid() && fifo.queue == old(fifo.queue) + [OtherRecord(text)]
    {
      hide QueueIs, Ordered, Known, Covered, PassedBy, HandedOver, Highest, FileReader.Valid, IsRest;
      QueueGrows(push, fifo.queue, tally.waiting, OtherRecord(text));
      fifo.Push(OtherRecord(text));
    }

    /* --- The push thread --- */

    method TakeBatch()
      requires Valid() && push.Idle?
      modifies this`push, fifo
      ensures Valid() && push.Pushing? && push.batch + fifo.queue == old(fifo.queue)
      ensures |push.batch| <= MAX_BATCH_RECORDS && (|push.batch| > 1 ==> |TextsOf(push.batch)| <= MAX_BATCH_BYTES)
      ensures (old(fifo.queue) != [] ==> push.batch != [])
              && (fifo.queue == [] || |push.batch| == MAX_BATCH_RECORDS || |TextsOf(push.batch + [fifo.queue[0]])| > MAX_BATCH_BYTES)
    {
      hide Ordered, Known, Covered, PassedBy, HandedOver, Highest, FileReader.Valid, TextsOf;
      assert [] + fifo.queue == fifo.queue;
      var batch := fifo.PopBatch(MAX_BATCH_RECORDS, MAX_BATCH_BYTES);
      push := Pushing(batch);
    }

    /** Delivers the batch. Its positions are handed over if and only if no record of it is lost. A batch without a marked record
        is handed over if the receiver takes it or refuses it for good, or if the WAL takes it. */
    method DeliverBatch(receiver: bool, answers: Answers)
      requires Valid() && push.Pushing?
      modifies this`push, this`tally
      ensures Valid()
      ensures var batch, outcomes := old(push.batch), Outcomes(old(push.batch), receiver, answers);
              && tally.handled == old(tally.handled) + FileLines(batch)
              && tally.outcomes == old(tally.outcomes) + LineOutcomes(batch, outcomes)
              && tally.handed == old(tally.handed) && tally.waiting == FileLines(fifo.queue)
              && if LosesOne(batch, receiver, answers) then push == Idle && tally.unsafe == old(tally.unsafe) + (set l | l in FileLines(batch))
                 else push == HandingOver(batch) && tally.unsafe == old(tally.unsafe)
      ensures receiver && (forall r :: r in old(push.batch) ==> !HasMarker(RecordText(r))) && (answers.request == Fails ==> answers.wal) ==>
                push == HandingOver(old(push.batch))
    {
      hide HasMarker, RecordText, Ordered, Known, Covered, PassedBy, HandedOver, Highest, FileReader.Valid, IsRest, FileLines, Outcomes;
      var batch := push.batch;
      var safe, outcomes := Deliver(batch, receiver, answers);
      Delivered(push, tally, reader.AllLines(), reader.generation, reader.committed, batch, outcomes, fifo.queue, safe);
      tally := After(tally, batch, outcomes, fifo.queue, safe);
      push := if safe then HandingOver(batch) else Idle;
      assert [] + fifo.queue == fifo.queue;
    }

    /** Hands over the position of one record. */
    method HandOver()
      requires Valid() && push.HandingOver?
      modifies this`push, this`tally, slot
      ensures Valid()
      ensures push == if old(push.rest) == [] then Idle else HandingOver(old(push.rest)[1..])
      ensures if old(push.rest) == [] || old(push.rest)[0].OtherRecord? then
                tally == old(tally) && slot.pending == old(slot.pending)
                && (slot.generation, slot.endOffset) == old((slot.generation, slot.endOffset))
              else
                var l := old(push.rest)[0].line;
                var higher := Higher(l.generation, l.endOffset, old(slot.generation), old(slot.endOffset));
                && tally == old(tally).(handed := old(tally.handed) + {l}) && slot.pending == (old(slot.pending) || higher)
                && (slot.generation, slot.endOffset) == if higher then (l.generation, l.endOffset) else old((slot.generation, slot.endOffset))
    {
      hide Ordered, Known, Covered, PassedBy, HandedOver, Highest, FileReader.Valid, FileLines, IsRest, QueueIs;
      FirstOfRest(push, tally, fifo.queue);
      if push.rest == [] {
        push := Idle;
      } else {
        var r := push.rest[0];
        push := HandingOver(push.rest[1..]);
        if r.FileRecord? {
          HandsMore(tally, reader.AllLines(), reader.committed, r.line, slot.generation, slot.endOffset, generation, endOffset);
          KnownStays(tally, reader.AllLines(), reader.generation, reader.committed, r.line);
          slot.Add(r.line.generation, r.line.endOffset);
          tally := tally.(handed := tally.handed + {r.line});
        }
      }
    }
  }

  /** The main result: in every state of every run, each non-empty line of the file which ends at or before the committed position
      was delivered: it was accepted, refused for good or kept in the WAL (or there is no receiver), unless it was in a batch of
      which a record was lost, and of which no position was handed over. */
  lemma CommittedWasDelivered(p: Pipeline, l: Line) returns (k: nat)
    requires p.Valid() && l in p.reader.AllLines() && l.text != [] && l.endOffset <= p.reader.committed
    ensures k < |p.tally.handled| && k < |p.tally.outcomes| && p.tally.handled[k] == l
    ensures p.tally.outcomes[k] != Lost || l in p.tally.unsafe
  {
    hide FileReader.Valid, QueueIs, Ordered, Known, HandedOver;
    assert l in p.tally.handled;
    k :| 0 <= k < |p.tally.handled| && p.tally.handled[k] == l;
  }

  /** A line of the current generation is passed over by the position in the slot, whatever became of it, if and only if the
      position of a line at or behind it was handed over: a line of a batch of which no record was lost. And only then it can
      be passed over by the committed position. */
  lemma PassedOverIff(p: Pipeline, l: Line)
    requires p.Valid() && l in p.reader.AllLines()
    ensures !Higher(l.generation, l.endOffset, p.slot.generation, p.slot.endOffset)
            <==> exists h :: h in p.tally.handed && h.generation == l.generation && h.endOffset >= l.endOffset
    ensures l.endOffset <= p.reader.committed ==> exists h :: h in p.tally.handed && h.generation == l.generation && h.endOffset >= l.endOffset
    ensures forall h :: h in p.tally.handed ==>
              h !in p.tally.unsafe
              && exists k :: 0 <= k < |p.tally.handled| && k < |p.tally.outcomes| && p.tally.handled[k] == h && p.tally.outcomes[k] != Lost
  {
    hide FileReader.Valid, QueueIs, Ordered, Known, Covered, PassedBy, Highest, IsRest;
    p.reader.LinesAreOrdered();
    BehindSlotIff(p.tally, p.reader.AllLines(), p.reader.generation, p.slot.generation, p.slot.endOffset, p.push, l);
    PassedIs(p.tally.handed, p.reader.AllLines(), p.reader.committed, l);
    forall h | h in p.tally.handed
      ensures h !in p.tally.unsafe
              && exists k :: 0 <= k < |p.tally.handled| && k < |p.tally.outcomes| && p.tally.handled[k] == h && p.tally.outcomes[k] != Lost
    {
      var k := WasSafe(p.push, p.tally, h);
    }
  }

  lemma BehindSlotIff(t: Tally, all: seq<Line>, current: nat, g: nat, e: nat, push: Push, l: Line)
    requires Highest(t.handed, g, e) && Known(t, all, current) && IsRest(push, t) && l.generation == current
    requires l.endOffset > 0
    ensures !Higher(l.generation, l.endOffset, g, e) <==> exists h :: h in t.handed && h.generation == l.generation && h.endOffset >= l.endOffset
  {
    if (g, e) != (0, 0) {
      var x :| x in t.handed && x.generation == g && x.endOffset == e;
      assert x in t.handled + t.waiting;
    }
  }

  lemma PassedIs(handed: set<Line>, all: seq<Line>, committed: nat, l: Line)
    requires PassedBy(handed, all, committed) && l in all
    ensures l.endOffset <= committed ==> exists h :: h in handed && h.generation == l.generation && h.endOffset >= l.endOffset
  {
  }

  lemma WasSafe(push: Push, t: Tally, h: Line) returns (k: nat)
    requires IsRest(push, t) && h in t.handed
    ensures h !in t.unsafe && k < |t.handled| && k < |t.outcomes| && t.handled[k] == h && t.outcomes[k] != Lost
  {
    k :| 0 <= k < |t.handled| && t.handled[k] == h;
  }

  /** What became of the lines of the file among records. */
  function LineOutcomes(rs: seq<Record>, outcomes: seq<Outcome>): seq<Outcome>
    requires |outcomes| == |rs|
  {
    if rs == [] then [] else (if rs[0].FileRecord? then [outcomes[0]] else []) + LineOutcomes(rs[1..], outcomes[1..])
  }

  lemma {:induction false} LineOutcomesMatch(rs: seq<Record>, outcomes: seq<Outcome>)
    requires |outcomes| == |rs|
    ensures |LineOutcomes(rs, outcomes)| == |FileLines(rs)|
    ensures Lost in LineOutcomes(rs, outcomes) ==> Lost in outcomes
  {
    if rs != [] {
      LineOutcomesMatch(rs[1..], outcomes[1..]);
    }
  }

  /** The books after a batch. */
  ghost function After(t: Tally, batch: seq<Record>, outcomes: seq<Outcome>, queue: seq<Record>, safe: bool): Tally
    requires |outcomes| == |batch|
  {
    Tally(t.handled + FileLines(batch), t.outcomes + LineOutcomes(batch, outcomes), FileLines(queue),
          if safe then t.unsafe else t.unsafe + (set l | l in FileLines(batch)), t.handed)
  }

  lemma Delivered(push: Push, t: Tally, all: seq<Line>, generation: nat, committed: nat, batch: seq<Record>,
                  outcomes: seq<Outcome>, queue: seq<Record>, safe: bool)
    requires |outcomes| == |batch| && (safe ==> Lost !in outcomes)
    requires t.waiting == FileLines(batch + queue) && Ordered(t.handled + t.waiting)
    requires Known(t, all, generation) && Covered(t, all, committed) && IsRest(push, t)
    ensures var a := After(t, batch, outcomes, queue, safe);
            && a.handled + a.waiting == t.handled + t.waiting
            && Known(a, all, generation) && Covered(a, all, committed)
            && IsRest(if safe then HandingOver(batch) else Idle, a)
  {
    FileLinesConcat(batch, queue);
    LineOutcomesMatch(batch, outcomes);
    var lines := FileLines(batch);
    hide FileLines, LineOutcomes, Ordered, Higher;
    assert t.handled + lines + FileLines(queue) == t.handled + (lines + FileLines(queue));
    forall l | l in lines ensures l !in t.handled {
      NotBoth(t.handled, t.waiting, l);
      assert l in t.waiting;
    }
    RestDelivered(push, t, batch, outcomes, queue, safe, lines, LineOutcomes(batch, outcomes));
  }

  lemma RestDelivered(push: Push, t: Tally, batch: seq<Record>, outcomes: seq<Outcome>, queue: seq<Record>, safe: bool,
                      lines: seq<Line>, fates: seq<Outcome>)
    requires |outcomes| == |batch| && lines == FileLines(batch) && fates == LineOutcomes(batch, outcomes) && |fates| == |lines|
    requires (safe ==> Lost !in fates) && IsRest(push, t) && forall l :: l in lines ==> l !in t.handled
    ensures IsRest(if safe then HandingOver(batch) else Idle, After(t, batch, outcomes, queue, safe))
  {
    hide FileLines, LineOutcomes;
    var a := After(t, batch, outcomes, queue, safe);
    forall k | 0 <= k < |a.handled| && a.outcomes[k] == Lost ensures a.handled[k] in a.unsafe {
      if k >= |t.handled| {
        assert a.handled[k] == lines[k - |t.handled|] && a.outcomes[k] == fates[k - |t.handled|];
      }
    }
  }

  /** No line is twice in lines which go up. */
  lemma NotBoth(a: seq<Line>, b: seq<Line>, l: Line)
    requires Ordered(a + b)
    ensures !(l in a && l in b)
  {
    forall i, j | 0 <= i < |a| && 0 <= j < |b| ensures a[i] != b[j] {
      var c := a + b;
      assert c[i] == a[i] && c[|a| + j] == b[j];
    }
  }

  /** One more position is handed over. */
  lemma HandsMore(t: Tally, all: seq<Line>, committed: nat, l: Line, g: nat, e: nat, g1: nat, e1: nat)
    requires Highest(t.handed, g, e) && HandedOver(t.handed, g1, e1) && PassedBy(t.handed, all, committed)
    ensures HandedOver(t.handed + {l}, g1, e1) && PassedBy(t.handed + {l}, all, committed)
    ensures if Higher(l.generation, l.endOffset, g, e) then Highest(t.handed + {l}, l.generation, l.endOffset) else Highest(t.handed + {l}, g, e)
  {
    assert t.handed <= t.handed + {l} && l in t.handed + {l};
    if (g1, e1) != (0, 0) {
      var h :| h in t.handed && h.generation == g1 && h.endOffset == e1;
      assert h in t.handed + {l};
    }
    if (g, e) != (0, 0) {
      var h :| h in t.handed && h.generation == g && h.endOffset == e;
      assert h in t.handed + {l};
    }
    forall x | x in all && x.endOffset <= committed
      ensures exists h :: h in t.handed + {l} && h.generation == x.generation && h.endOffset >= x.endOffset
    {
      var h :| h in t.handed && h.generation == x.generation && h.endOffset >= x.endOffset;
      assert h in t.handed + {l};
    }
  }

  lemma KnownStays(t: Tally, all: seq<Line>, generation: nat, committed: nat, l: Line)
    ensures Known(t.(handed := t.handed + {l}), all, generation) == Known(t, all, generation)
    ensures Covered(t.(handed := t.handed + {l}), all, committed) == Covered(t, all, committed)
  {
  }

  /** The first record of the rest is handed over, or there is none. */
  lemma FirstOfRest(push: Push, t: Tally, queue: seq<Record>)
    requires push.HandingOver? && IsRest(push, t) && QueueIs(push, queue, t.waiting)
    ensures push.rest == [] ==> IsRest(Idle, t) && QueueIs(Idle, queue, t.waiting)
    ensures push.rest != [] ==>
              var r, next := push.rest[0], HandingOver(push.rest[1..]);
              QueueIs(next, queue, t.waiting) && IsRest(next, if r.FileRecord? then t.(handed := t.handed + {r.line}) else t)
  {
    if push.rest != [] {
      var r := push.rest[0];
      FileLinesConcat([r], push.rest[1..]);
      assert push.rest == [r] + push.rest[1..];
      assert r.FileRecord? ==> FileLines([r]) == [r.line] && r.line in FileLines(push.rest);
    }
  }

  lemma RestStays(push: Push, t: Tally, waiting: seq<Line>)
    requires IsRest(push, t)
    ensures IsRest(push, t.(waiting := waiting))
  {
  }

  lemma Shows(a: View, b: View, r: Round)
    requires RoundEffect(a, b, r)
    ensures b.following == a.following
  {
  }

  lemma QueueGrows(push: Push, queue: seq<Record>, waiting: seq<Line>, r: Record)
    requires QueueIs(push, queue, waiting)
    ensures QueueIs(push, queue + [r], if r.FileRecord? then waiting + [r.line] else waiting)
  {
    var b := if push.Pushing? then push.batch else [];
    FileLinesConcat(b + queue, [r]);
    assert b + (queue + [r]) == b + queue + [r] && [r][1..] == [];
    assert FileLines([r]) == (if r.FileRecord? then [r.line] else []) + FileLines([r][1..]);
  }

  /** Every line up to a position which was handed over is handled: the lines in front of it were delivered before it. */
  lemma HandledIsCovered(push: Push, t: Tally, all: seq<Line>, g: nat, e: nat)
    requires Ordered(t.handled + t.waiting) && Known(t, all, g) && HandedOver(t.handed, g, e) && (g, e) != (0, 0) && IsRest(push, t)
    requires forall l :: l in all ==> l.generation == g
    ensures Covered(t, all, e) && PassedBy(t.handed, all, e) && exists l :: l in all && l.endOffset == e
  {
    var x :| x in t.handed && x.generation == g && x.endOffset == e;
    assert x in t.handled + t.waiting;
    var i :| 0 <= i < |t.handled| && t.handled[i] == x;
    forall j | 0 <= j < |t.waiting| ensures Higher(t.waiting[j].generation, t.waiting[j].endOffset, g, e) {
      var c := t.handled + t.waiting;
      assert c[i] == x && c[|t.handled| + j] == t.waiting[j];
    }
  }

  /** A line which is read is behind all which were read before. */
  lemma ReadKeeps(t: Tally, a: View, b: View, r: Round, bound: nat)
    requires Ordered(t.handled + t.waiting) && RoundEffect(a, b, r) && Ends(b.log, b.generation, bound)
    requires Known(t, a.log.earlier + a.log.lines, a.generation) && Covered(t, a.log.earlier + a.log.lines, a.committed)
    requires PassedBy(t.handed, a.log.earlier + a.log.lines, a.committed)
    ensures PassedBy(t.handed, b.log.earlier + b.log.lines, b.committed)
    ensures var u := if r.Got? && r.line.text != [] then t.(waiting := t.waiting + [r.line]) else t;
            && Ordered(u.handled + u.waiting)
            && Known(u, b.log.earlier + b.log.lines, b.generation) && Covered(u, b.log.earlier + b.log.lines, b.committed)
  {
    hide Ordered, Known, Covered, PassedBy, RoundEffect, Ends;
    var earlier, all := a.log.earlier + a.log.lines, b.log.earlier + b.log.lines;
    var before := if b.generation == a.generation then earlier else [];
    LinesAfter(a, b, r, bound);
    if r.Got? {
      LineKeeps(t, earlier, before, a.generation, b.generation, a.committed, b.committed, r.line);
    } else {
      NothingKeeps(t, earlier, before, a.generation, b.generation, a.committed, b.committed);
    }
  }

  lemma LinesAfter(a: View, b: View, r: Round, bound: nat)
    requires RoundEffect(a, b, r) && Ends(b.log, b.generation, bound)
    ensures var earlier, all := a.log.earlier + a.log.lines, b.log.earlier + b.log.lines;
            && all == (if b.generation == a.generation then earlier else []) + (if r.Got? then [r.line] else [])
            && (forall i, j :: 0 <= i < j < |all| ==> all[i].endOffset < all[j].endOffset)
    ensures b.generation >= a.generation && (b.generation == a.generation ==> b.committed == a.committed)
    ensures r.Got? ==> r.line.generation == b.generation && b.committed < r.line.endOffset
    ensures (if b.generation == a.generation then a.log.earlier + a.log.lines else []) + [] ==
            if b.generation == a.generation then a.log.earlier + a.log.lines else []
  {
    hide LogStep;
    RoundLines(a, b, r);
  }

  /** No line came: the generation is the same, or nothing of the new one was read. */
  lemma NothingKeeps(t: Tally, earlier: seq<Line>, before: seq<Line>, g: nat, g': nat, committed: nat, committed': nat)
    requires Known(t, earlier, g) && Covered(t, earlier, committed) && PassedBy(t.handed, earlier, committed) && g' >= g
    requires if g' == g then before == earlier && committed' == committed else before == []
    ensures Known(t, before, g') && Covered(t, before, committed') && PassedBy(t.handed, before, committed')
  {
  }

  /** A line came, whose end is behind all others of its generation. */
  lemma LineKeeps(t: Tally, earlier: seq<Line>, before: seq<Line>, g: nat, g': nat, committed: nat, committed': nat, l: Line)
    requires Ordered(t.handled + t.waiting) && Known(t, earlier, g) && Covered(t, earlier, committed) && PassedBy(t.handed, earlier, committed)
    requires g' >= g && if g' == g then before == earlier && committed' == committed else before == []
    requires l.generation == g' && committed' < l.endOffset
    requires forall i, j :: 0 <= i < j < |before + [l]| ==> (before + [l])[i].endOffset < (before + [l])[j].endOffset
    ensures PassedBy(t.handed, before + [l], committed')
    ensures var u := if l.text != [] then t.(waiting := t.waiting + [l]) else t;
            Ordered(u.handled + u.waiting) && Known(u, before + [l], g') && Covered(u, before + [l], committed')
  {
    hide Ordered, Known, Covered, PassedBy;
    NothingKeeps(t, earlier, before, g, g', committed, committed');
    LinePassedBy(t.handed, before, committed', l);
    LineKnown(t, before, g', committed', l);
    if l.text != [] {
      assert t.handled + (t.waiting + [l]) == t.handled + t.waiting + [l];
      IsHigher(t, before, g', l);
      OrderedMore(t.handled + t.waiting, l);
    }
  }

  lemma IsHigher(t: Tally, before: seq<Line>, g: nat, l: Line)
    requires Known(t, before, g) && l.generation == g
    requires forall i, j :: 0 <= i < j < |before + [l]| ==> (before + [l])[i].endOffset < (before + [l])[j].endOffset
    ensures forall x :: x in t.handled + t.waiting ==> Higher(l.generation, l.endOffset, x.generation, x.endOffset)
  {
    forall x | x in t.handled + t.waiting ensures Higher(l.generation, l.endOffset, x.generation, x.endOffset) {
      if x.generation == g {
        var i :| 0 <= i < |before| && before[i] == x;
        assert (before + [l])[i] == x && (before + [l])[|before|] == l;
      }
    }
  }

  lemma LineKnown(t: Tally, before: seq<Line>, g: nat, committed: nat, l: Line)
    requires Known(t, before, g) && Covered(t, before, committed) && l.generation == g && committed < l.endOffset
    ensures var u := if l.text != [] then t.(waiting := t.waiting + [l]) else t;
            Known(u, before + [l], g) && Covered(u, before + [l], committed)
  {
    assert t.handled + (t.waiting + [l]) == t.handled + t.waiting + [l];
  }

  lemma OrderedMore(lines: seq<Line>, l: Line)
    requires Ordered(lines) && forall x :: x in lines ==> Higher(l.generation, l.endOffset, x.generation, x.endOffset)
    ensures Ordered(lines + [l])
  {
  }

  lemma LinePassedBy(handed: set<Line>, before: seq<Line>, committed: nat, l: Line)
    requires PassedBy(handed, before, committed) && committed < l.endOffset
    ensures PassedBy(handed, before + [l], committed)
  {
  }

  /** What is handed over was handled, in a safe batch. */
  ghost predicate IsRest(push: Push, tally: Tally) {
    && |tally.outcomes| == |tally.handled|
    && (forall l :: l in tally.unsafe ==> l in tally.handled)
    && (forall l :: l in tally.handed ==> l in tally.handled && l !in tally.unsafe)
    && (forall k :: 0 <= k < |tally.handled| && tally.outcomes[k] == Lost ==> tally.handled[k] in tally.unsafe)
    && (push.HandingOver? ==> forall l :: l in FileLines(push.rest) ==> l in tally.handled && l !in tally.unsafe)
  }

  /** What is not handled is in the batch and in the queue. */
  ghost predicate QueueIs(push: Push, queue: seq<Record>, waiting: seq<Line>) {
    waiting == FileLines((if push.Pushing? then push.batch else []) + queue)
  }

  /** The lines go up: first by the generation, then by their end. */
  ghost predicate Ordered(lines: seq<Line>) {
    forall i, j :: 0 <= i < j < |lines| ==> Higher(lines[j].generation, lines[j].endOffset, lines[i].generation, lines[i].endOffset)
  }

  /** Every line which was read of this generation, and is not empty, is on its way, and nothing else of this generation is. */
  ghost predicate Known(tally: Tally, all: seq<Line>, generation: nat) {
    && (forall l :: l in all && l.text != [] ==> l in tally.handled + tally.waiting)
    && (forall l :: l in tally.handled + tally.waiting ==> l.generation <= generation && (l.generation == generation ==> l in all))
  }

  /** No line ends at or before the committed position which the push thread is not done with. */
  ghost predicate Covered(tally: Tally, all: seq<Line>, committed: nat) {
    forall l :: l in all && l.text != [] && l.endOffset <= committed ==> l in tally.handled
  }

  /** A line up to the committed position has one at or behind it of which the position was handed over. */
  ghost predicate PassedBy(handed: set<Line>, all: seq<Line>, committed: nat) {
    forall l :: l in all && l.endOffset <= committed ==> exists h :: h in handed && h.generation == l.generation && h.endOffset >= l.endOffset
  }

  /** A position is none, or one which was handed over. */
  ghost predicate HandedOver(handed: set<Line>, generation: nat, endOffset: nat) {
    (generation, endOffset) == (0, 0) || exists l :: l in handed && l.generation == generation && l.endOffset == endOffset
  }

  /** The highest position which was handed over. */
  ghost predicate Highest(handed: set<Line>, generation: nat, endOffset: nat) {
    && HandedOver(handed, generation, endOffset)
    && forall l :: l in handed ==> !Higher(l.generation, l.endOffset, generation, endOffset)
  }
}
