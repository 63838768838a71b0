/** The durable sender of domfwd: the socket sender with a WAL behind it. While the forwarder is away lines wait in the WAL,
    and a new line never overtakes one which waits. One thread calls it. */
module DurableSenders {
  import opened Bytes
  import opened WalFormat
  import opened WalDisk
  import opened SimpleWals
  import opened WalRuns
  import opened SocketSenders

  const LOW_WATER: nat := 16
  const DRAIN_MAX: nat := 200
  const UINT32_SPAN: nat := 0x1_0000_0000

  /** The lines among the records of a WAL. Another record cannot be sent: it is taken out, refused and counted. */
  function OnlyLines(rs: seq<bytes>): (lines: seq<bytes>)
    ensures ValidLines(lines)
  {
    if rs == [] then [] else (if ValidLine(rs[0]) then [rs[0]] else []) + OnlyLines(rs[1..])
  }

  lemma {:induction false} OnlyLinesConcat(a: seq<bytes>, b: seq<bytes>)
    ensures OnlyLines(a + b) == OnlyLines(a) + OnlyLines(b)
  {
    if a == [] {
      assert a + b == b;
    } else {
      assert (a + b)[1..] == a[1..] + b;
      OnlyLinesConcat(a[1..], b);
    }
  }

  lemma {:induction false} OnlyLinesOfLines(lines: seq<bytes>)
    requires ValidLines(lines)
    ensures OnlyLines(lines) == lines
  {
    if lines != [] {
      assert lines[0] in lines;
      OnlyLinesOfLines(lines[1..]);
    }
  }

  /** All lines which a sender has, in the order in which they are sent: those which left the queue, those in the queue, and
      those among the records of the WAL. */
  ghost function Kept(book: Book, records: seq<bytes>): seq<bytes> {
    book.gone + book.queue + OnlyLines(records)
  }

  class DurableSender {
    const sender: SocketSender
    const wal: SimpleWal
    const hasWal: bool            // false: there is none, and the object is not used
    var spilled: nat
    var drained: nat
    var walRefused: nat

    /** The lines which waited in the WAL at the start, and behind them all lines for which Send said true. */
    ghost var given: seq<bytes>

    ghost predicate Valid()
      reads this, sender, sender.buffer, wal, wal.disk
    {
      && Works()
      && given == Kept(sender.book, Waiting())
    }

    ghost predicate Works()
      reads this, sender, sender.buffer, wal, wal.disk
    {
      && sender.Valid() && sender.configured && sender.book.moved == []
      && (hasWal ==> WalWorks(wal))
    }

    /** The records in the WAL. */
    ghost function Waiting(): seq<bytes>
      reads this, wal, wal.disk
    {
      if hasWal then wal.Pending() else []
    }

    /** What every crash leaves in the WAL, however the process dies: the records which were stored and not taken out yet. */
    ghost function Owed(): seq<bytes>
      reads this, wal, wal.disk
    {
      if hasWal then wal.disk.owed else []
    }

    /** The oldest line in the WAL is longer than the buffer of the sender. */
    ghost predicate Blocked()
      reads this, sender, wal, wal.disk
    {
      Waiting() != [] && ValidLine(Waiting()[0]) && |Waiting()[0]| + 1 > sender.maxBytes
    }

    /** The oldest record in the WAL can leave it now: it is a line for which there is room, or no line at all. */
    ghost predicate CanMove()
      reads this, sender, wal, wal.disk
    {
      Waiting() != [] && (ValidLine(Waiting()[0]) ==> sender.HasRoom(|Waiting()[0]|))
    }

    /** A sender and a WAL which are ready, or no WAL. */
    constructor (sender: SocketSender, wal: SimpleWal, hasWal: bool)
      requires sender.Valid() && sender.configured && sender.book.gone == sender.book.queue == sender.book.moved == []
      requires hasWal ==> WalWorks(wal)
      ensures Valid() && this.sender == sender && this.wal == wal && this.hasWal == hasWal
      ensures given == if hasWal then OnlyLines(wal.Pending()) else []
    {
      this.sender, this.wal, this.hasWal := sender, wal, hasWal;
      spilled, drained, walRefused := 0, 0, 0;
      given := if hasWal then OnlyLines(wal.Pending()) else [];
    }

    /** Takes one line, and never waits. */
    method Send(line: bytes) returns (ok: bool)
      requires Valid()
      modifies this`given, this`spilled, this`walRefused, sender, sender.buffer, wal, wal.disk
      ensures Valid()
      ensures given == if ok then old(given) + [line] else old(given)
      ensures ok ==> ValidLine(line)
      ensures sender.book.delivered == old(sender.book.delivered) && sender.state == old(sender.state)
      ensures hasWal && ValidLine(line) && old(sender.state != Connected || wal.pendingReplay || !sender.HasRoom(|line|)) ==>
                && sender.book == old(sender.book)
                && Waiting() == (if ok then old(Waiting()) + [line] else old(Waiting()))
                && Owed() == (if ok then old(Owed()) + [line] else old(Owed()))
                && (wal.disk.mode == Healthy ==> ok == old(WalTakes(line)))
      ensures hasWal && ValidLine(line) && old(sender.state == Connected && !wal.pendingReplay && sender.HasRoom(|line|)) ==>
                ok && Waiting() == old(Waiting()) == [] && Queued(old(sender.book), sender.book, [line])
      ensures !hasWal || !ValidLine(line) ==>
                && ok == (ValidLine(line) && old(sender.HasRoom(|line|)))
                && Waiting() == old(Waiting()) && Owed() == old(Owed()) && Queued(old(sender.book), sender.book, if ok then [line] else [])
      ensures old(Blocked()) ==> Blocked()
    {
      hide Works, WalWorks, SocketSender.Valid, SimpleWal.Pending, Kept;
      if GoesFast(line) {
        ok := Queue(line);
      } else {
        ok := Spill(line);
      }
    }

    /** The line may overtake nothing: no record waits, the peer is connected and the buffer can hold the line. Or no WAL can
        take it. */
    predicate GoesFast(line: bytes)
      reads this, sender, wal
    {
      !hasWal || !ValidLine(line) || (sender.state == Connected && !wal.pendingReplay && sender.HasRoom(|line|))
    }

    /** Hands a line to the sender, when no line waits in the WAL (or the line is not valid). */
    method Queue(line: bytes) returns (ok: bool)
      requires Valid()
      requires hasWal && ValidLine(line) ==> !wal.pendingReplay
      modifies this`given, sender, sender.buffer
      ensures Valid()
      ensures given == if ok then old(given) + [line] else old(given)
      ensures ok == (ValidLine(line) && old(sender.HasRoom(|line|)))
      ensures Queued(old(sender.book), sender.book, if ok then [line] else []) && Waiting() == old(Waiting())
      ensures hasWal && ValidLine(line) ==> Waiting() == []
      ensures sender.state == old(sender.state)
    {
      hide WalWorks, SocketSender.Valid, SimpleWal.Pending, Kept;
      if hasWal {
        NothingWaits(wal);
      }
      assert Waiting() == [] || !ValidLine(line);
      KeptQueued(sender.book, line);
      QueuedIs(sender.book, line);
      ok := sender.Enqueue(line);
      if ok {
        given := given + [line];
      }
    }

    /** The length of the line fits into 32 bits, and its record into the WAL. */
    ghost predicate WalTakes(line: bytes)
      reads wal, wal.disk
    {
      |line| < UINT32_SPAN && wal.Fits(|wal.disk.wal|, |line|)
    }

    /** The slow way of a line: it becomes the last record which waits, or is counted as refused. */
    method Spill(line: bytes) returns (ok: bool)
      requires Valid() && hasWal && ValidLine(line)
      modifies this`given, this`spilled, this`walRefused, wal, wal.disk
      ensures Valid()
      ensures given == if ok then old(given) + [line] else old(given)
      ensures Waiting() == if ok then old(Waiting()) + [line] else old(Waiting())
      ensures Owed() == if ok then old(Owed()) + [line] else old(Owed())
      ensures wal.disk.mode == Healthy ==> ok == old(WalTakes(line))
      ensures spilled == old(spilled) + (if ok then 1 else 0) && walRefused == old(walRefused) + if ok then 0 else 1
    {
      ok := false;
      hide WalWorks, SocketSender.Valid, SimpleWal.Pending, Kept;
      KeptSpilled(sender.book, Waiting(), line);
      if |line| <= 0xFFFF_FFFF {
        ok := Store(wal, line);
      }
      if ok {
        spilled := spilled + 1;
        given := given + [line];
      } else {
        walRefused := walRefused + 1;
      }
    }

    /** One step of the loop, for any behaviour of the network. If there is a connection which takes everything, at least one
        record leaves the WAL, but for a line which is longer than the buffer of the sender: it never leaves the WAL, and no
        line behind it does. */
    method Pump(net: Network)
      requires Valid()
      modifies this`drained, sender, sender.buffer, wal, wal.disk
      ensures Valid()
      ensures old(Blocked()) ==> Waiting() == old(Waiting())
      ensures StateToSend(old(sender.state), net) != Connected ==>
                && sender.state != Connected && SameLines(old(sender.book), sender.book)
                && Waiting() == old(Waiting()) && Owed() == old(Owed())
      ensures |Waiting()| + drained == old(|Waiting()| + drained)
      ensures TakesAll(old(sender.state), |old(sender.ToSend())|, net) && old(Waiting() != [] && !Blocked()) ==>
                |Waiting()| < old(|Waiting()|)
      ensures old(sender.book.delivered) <= sender.book.delivered
      ensures drained <= old(drained) + DRAIN_MAX
      ensures sender.lines <= if old(sender.lines) > LOW_WATER then old(sender.lines) else LOW_WATER
    {
      hide Valid, Works, CanMove, TakesAll, SocketSender.ToSend, SimpleWal.Pending, StateToSend;
      PumpSender(net);
      if hasWal {
        EmptyQueueMoves();
        Drain();
      }
    }

    lemma EmptyQueueMoves()
      requires Valid() && hasWal
      ensures sender.book.queue == [] && Waiting() != [] ==> sender.lines < LOW_WATER && (CanMove() <==> !Blocked())
    {
      if Waiting() != [] {
        BlockedIff();
      }
    }

    method PumpSender(net: Network)
      requires Valid()
      modifies sender
      ensures TakesAll(old(sender.state), |old(sender.ToSend())|, net) ==> sender.state == Connected && sender.book.queue == []
      ensures Valid() && Waiting() == old(Waiting()) && Owed() == old(Owed()) && (old(Blocked()) ==> Blocked())
      ensures StateToSend(old(sender.state), net) != Connected ==> sender.state != Connected && SameLines(old(sender.book), sender.book)
      ensures old(sender.book.delivered) <= sender.book.delivered
      ensures sender.lines <= old(sender.lines)
    {
      hide WalWorks, SocketSender.Wire, SocketSender.Pumped, SocketSender.ToSend, TakesAll, StateToSend, Waiting, Owed, Passed, Kept,
           SameLines;
      ghost var before := sender.book;
      sender.Pump(net);
      KeptPassed(before, sender.book, Waiting());
    }

    /** The oldest records become the last lines of the queue, up to the limits of a call and of the queue. While there is a
        connection and a record which can leave the WAL, each call takes at least one out of it. */
    method Drain()
      requires Valid() && hasWal
      modifies this`drained, sender, sender.buffer, wal, wal.disk
      ensures Valid()
      ensures old(Blocked() || sender.state != Connected) ==> Waiting() == old(Waiting())
      ensures old(sender.state) != Connected ==> Owed() == old(Owed()) && sender.book == old(sender.book) && sender.state == old(sender.state)
      ensures |Waiting()| + drained == old(|Waiting()| + drained)
      ensures old(sender.state == Connected && sender.lines < LOW_WATER && CanMove()) ==> |Waiting()| < old(|Waiting()|)
      ensures old(sender.book.delivered) <= sender.book.delivered
      ensures drained <= old(drained) + DRAIN_MAX
      ensures sender.lines <= if old(sender.lines) > LOW_WATER then old(sender.lines) else LOW_WATER
    {
      hide Valid, Works, Waiting, CanMove, Blocked, Owed;
      var moved, over := 0, false;
      PendingIsWaiting();
      if sender.state != Connected || !wal.pendingReplay {
        return;
      }
      while moved < DRAIN_MAX && !over
        invariant Valid() && moved <= DRAIN_MAX && drained == old(drained) + moved
        invariant |Waiting()| + moved == old(|Waiting()|)
        invariant old(sender.book.delivered) <= sender.book.delivered
        invariant sender.lines <= if old(sender.lines) > LOW_WATER then old(sender.lines) else LOW_WATER
        invariant old(Blocked()) ==> Waiting() == old(Waiting()) && Blocked()
        invariant moved == 0 && old(sender.lines) < LOW_WATER && old(CanMove()) ==> !over && sender.lines < LOW_WATER && CanMove()
        decreases DRAIN_MAX - moved, !over, if sender.lines < LOW_WATER then 0 else 1
      {
        moved, over := DrainSome(moved);
      }
    }

    /** Fills the queue and sends what can be sent. Over: nothing more can be moved now, the socket is full, or the connection
        is gone. */
    method DrainSome(start: nat) returns (moved: nat, over: bool)
      requires Valid() && hasWal && start < DRAIN_MAX
      modifies this`drained, sender, sender.buffer, wal, wal.disk
      ensures Valid() && start <= moved <= DRAIN_MAX && drained == old(drained) + (moved - start)
      ensures |Waiting()| + moved == old(|Waiting()|) + start
      ensures old(sender.book.delivered) <= sender.book.delivered
      ensures old(Blocked()) ==> Waiting() == old(Waiting()) && Blocked()
      ensures old(sender.lines < LOW_WATER && CanMove()) ==> moved > start
      ensures !over ==> sender.lines < LOW_WATER && sender.state == Connected && (moved > start || old(sender.lines) >= LOW_WATER)
      ensures sender.lines <= if old(sender.lines) > LOW_WATER then old(sender.lines) else LOW_WATER
    {
      hide Valid, Works, Waiting, CanMove, Blocked;
      moved, over := Fill(start);
      var net: Network := *;
      PumpSender(net);
      over := over || sender.lines >= LOW_WATER || sender.state != Connected;
    }

    lemma PendingIsWaiting()
      requires Valid() && hasWal
      ensures Waiting() != [] ==> wal.pendingReplay
      ensures CanMove() || Blocked() ==> Waiting() != []
      ensures wal.disk.mode.Truncates()
      ensures Blocked() ==> !CanMove()
    {
    }

    /** Fills the queue up to the low water mark. Stopped: nothing more can be moved now. */
    method Fill(start: nat) returns (moved: nat, stopped: bool)
      requires Valid() && hasWal && start < DRAIN_MAX
      modifies this`drained, sender, sender.buffer, wal, wal.disk
      ensures Valid() && start <= moved <= DRAIN_MAX && drained == old(drained) + (moved - start)
      ensures |Waiting()| + moved == old(|Waiting()|) + start
      ensures sender.book.delivered == old(sender.book.delivered)
      ensures if stopped then !CanMove() else moved > start || old(sender.lines) >= LOW_WATER
      ensures !stopped ==> moved == DRAIN_MAX || sender.lines >= LOW_WATER
      ensures old(Blocked()) ==> Waiting() == old(Waiting()) && Blocked()
      ensures old(sender.lines < LOW_WATER && CanMove()) ==> moved > start
      ensures sender.lines <= if old(sender.lines) > LOW_WATER then old(sender.lines) else LOW_WATER
    {
      hide Valid, Works, OnlyLines, SimpleWal.Pending, Waiting, CanMove, Blocked, MoveEffect;
      moved, stopped := start, false;
      PendingIsWaiting();
      while moved < DRAIN_MAX && sender.lines < LOW_WATER
        invariant Valid() && start <= moved <= DRAIN_MAX && drained == old(drained) + (moved - start)
        invariant |Waiting()| + moved == old(|Waiting()|) + start
        invariant sender.book.delivered == old(sender.book.delivered)
        invariant moved == start ==> sender.lines == old(sender.lines) && (old(CanMove()) ==> CanMove())
        invariant old(Blocked()) ==> Waiting() == old(Waiting()) && moved == start && !CanMove() && Blocked()
        invariant sender.lines <= if old(sender.lines) > LOW_WATER then old(sender.lines) else LOW_WATER
      {
        var move := MoveOne();
        if !move.Moved? && !move.Dropped? {
          return moved, true;
        }
        moved := moved + 1;
      }
    }

    /** The oldest record goes from the WAL to the queue. It stays where it is if there is no room for it, and it is taken out
        and counted as rejected if it is no line. It leaves the WAL before it is queued. */
    method MoveOne() returns (move: Move)
      requires Valid() && hasWal
      modifies this`drained, sender, sender.buffer, wal, wal.disk
      ensures Valid() && MoveEffect(move, old(Waiting()), Waiting(), old(sender.book), sender.book)
      ensures |Waiting()| + drained == old(|Waiting()| + drained) && sender.book.delivered == old(sender.book.delivered)
      ensures !move.Moved? && !move.Dropped? ==> Waiting() == old(Waiting()) && (old(Blocked()) ==> Blocked())
      ensures move.Moved? || move.Dropped? ==> old(CanMove())
      ensures move.NoRoom? || move.Nothing? ==> !old(CanMove()) && !CanMove()
      ensures move.AckFailed? ==> !wal.disk.mode.Truncates()
      ensures sender.lines <= old(sender.lines) + 1
      ensures move.Moved? || sender.lines == old(sender.lines)
      ensures move.Moved? || move.Dropped? ==> drained == old(drained) + 1
      ensures !move.Moved? && !move.Dropped? ==> drained == old(drained)
      ensures sender.rejected == old(sender.rejected) + if move.Dropped? then 1 else 0
    {
      hide WalWorks, SocketSender.Valid, SimpleWal.Pending, Kept;
      var found, record := Oldest(wal);
      if !found {
        return Nothing;
      }
      var valid := ValidLine(record);
      if valid && !sender.HasRoom(|record|) {
        return NoRoom;
      }
      var acked := AckOldest(wal);
      if !acked {
        return AckFailed;
      }
      KeptMoved(sender.book, old(Waiting()));
      var queued := sender.Enqueue(record);
      drained := drained + 1;
      move := if valid then Moved else Dropped;
    }

    /** Whether the oldest line in the WAL leaves it at some time: with an empty queue it can if and only if it does not block. */
    lemma BlockedIff()
      requires Valid() && hasWal && Waiting() != []
      ensures Blocked() ==> !CanMove()
      ensures sender.book.queue == [] ==> (CanMove() <==> !Blocked())
    {
      sender.RoomInTheEndIff(|Waiting()[0]|);
    }

    /** Afterwards no line is only in memory, if the WAL takes them: each was sent, or waits behind the older records. */
    method Flush(rounds: seq<Network>) returns (done: bool)
      requires Valid() && rounds != []
      modifies this`spilled, this`walRefused, sender, wal, wal.disk
      ensures sender.Valid() && (hasWal ==> WalWorks(wal))
      ensures Flushed(old(sender.book), old(Waiting()), sender.book, Waiting())
      ensures done == (sender.book.queue == [])
      ensures done || !hasWal || walRefused == old(walRefused) + 1
      ensures old(sender.book.delivered) <= sender.book.delivered
      ensures hasWal && wal.disk.mode == Healthy && old(WalHolds(sender.book.queue)) ==> done
    {
      ghost var before := sender.book;
      hide WalWorks, SocketSender.Wire, SimpleWal.Pending, Passed, Flushed;
      done := sender.Flush(rounds);
      FlushStarts(before, sender.book, Waiting());
      RestIsShorter(before, sender.book);
      if !done && hasWal {
        done := SpillQueue(before, Waiting());
      }
    }

    /** Moves the queue to the WAL, as long as the WAL takes it. */
    method SpillQueue(ghost before: Book, ghost w: seq<bytes>) returns (done: bool)
      requires sender.Valid() && sender.configured && hasWal && WalWorks(wal)
      requires Flushed(before, w, sender.book, Waiting())
      modifies this`spilled, this`walRefused, sender`head, sender`lines, sender`sendPos, sender`tail, sender`book, wal, wal.disk
      ensures sender.Valid() && WalWorks(wal)
      ensures Flushed(before, w, sender.book, Waiting()) && sender.book.delivered == old(sender.book.delivered)
      ensures done == (sender.book.queue == [])
      ensures walRefused == old(walRefused) + if done then 0 else 1
      ensures wal.disk.mode == Healthy && old(WalHolds(sender.book.queue)) ==> done
    {
      hide WalWorks, SocketSender.Wire, SocketSender.Queued, SimpleWal.Pending, Flushed, RecordBytes, Removed;
      var line := sender.PeekUnsent();
      done := true;
      while line.Some? && done
        invariant sender.Valid() && WalWorks(wal)
        invariant Flushed(before, w, sender.book, Waiting()) && sender.book.delivered == old(sender.book.delivered)
        invariant line == if sender.book.queue != [] then Some(sender.book.queue[0]) else None
        invariant walRefused == old(walRefused) + if done then 0 else 1
        invariant !done ==> line.Some?
        invariant wal.disk.mode == Healthy && old(WalHolds(sender.book.queue)) ==> done && WalHolds(sender.book.queue)
        decreases |sender.book.queue|, done
      {
        ghost var b, w' := sender.book, Waiting();
        OldestFits(b.queue, |wal.disk.wal|);
        done := MoveToWal(line.value);
        RemovedIs(b, sender.book, done);
        FlushGoesOn(before, w, b, w', sender.book, Waiting(), done);
        line := sender.PeekUnsent();
      }
    }

    /** There is room for all these lines in the WAL. */
    ghost predicate WalHolds(lines: seq<bytes>)
      reads wal, wal.disk
    {
      var n := |wal.disk.wal| + RecordBytes(lines);
      (wal.maxSize == 0 || n <= wal.maxSize) && n <= MAX_FILE
    }

    lemma OldestFits(queue: seq<bytes>, size: nat)
      requires queue != [] && size == |wal.disk.wal|
      ensures RecordBytes(queue) == RecordSize(queue[0]) + RecordBytes(queue[1..])
      ensures WalHolds(queue) && |queue[0]| % UINT32_SPAN != 0 ==> wal.Fits(size, |queue[0]| % UINT32_SPAN)
    {
    }

    /** The oldest line of the queue goes to the end of the WAL. Its length is cut to 32 bits on the way. */
    method MoveToWal(line: bytes) returns (stored: bool)
      requires sender.Valid() && sender.configured && hasWal && WalWorks(wal)
      requires sender.book.queue != [] && line == sender.book.queue[0]
      modifies this`spilled, this`walRefused, sender`head, sender`lines, sender`sendPos, sender`tail, sender`book, wal, wal.disk
      ensures sender.Valid() && WalWorks(wal)
      ensures stored ==> Removed(old(sender.book), sender.book) && Waiting() == old(Waiting()) + AsRecord(line)
      ensures !stored ==> sender.book == old(sender.book) && Waiting() == old(Waiting())
      ensures walRefused == old(walRefused) + if stored then 0 else 1
      ensures |wal.disk.wal| == old(|wal.disk.wal|) + if stored then RecordSize(line) else 0
      ensures wal.disk.mode == Healthy ==> stored == (|line| % UINT32_SPAN == 0 || old(wal.Fits(|wal.disk.wal|, |line| % UINT32_SPAN)))
    {
      hide WalWorks, SocketSender.Valid, SimpleWal.Pending, Removed;
      stored := Store(wal, line[..|line| % UINT32_SPAN]);
      if !stored {
        walRefused := walRefused + 1;
        return;
      }
      sender.DropUnsent();
      spilled := spilled + 1;
    }
  }

  /** What a line needs in the WAL. */
  function RecordSize(line: bytes): nat {
    if |line| % UINT32_SPAN == 0 then 0 else HEADER + |line| % UINT32_SPAN
  }

  function RecordBytes(lines: seq<bytes>): nat {
    if lines == [] then 0 else RecordSize(lines[0]) + RecordBytes(lines[1..])
  }

  lemma {:induction false} RecordBytesConcat(a: seq<bytes>, b: seq<bytes>)
    ensures RecordBytes(a + b) == RecordBytes(a) + RecordBytes(b)
  {
    if a == [] {
      assert a + b == b;
    } else {
      assert (a + b)[1..] == a[1..] + b;
      RecordBytesConcat(a[1..], b);
    }
  }

  /** Lines which were sent need no room. */
  lemma RestIsShorter(a: Book, b: Book)
    requires Passed(a, b)
    ensures RecordBytes(b.queue) <= RecordBytes(a.queue)
  {
    assert a.queue == a.queue[..|a.queue| - |b.queue|] + b.queue;
    RecordBytesConcat(a.queue[..|a.queue| - |b.queue|], b.queue);
  }

  lemma RemovedIs(a: Book, b: Book, stored: bool)
    requires a.queue != [] && if stored then Removed(a, b) else b == a
    ensures stored ==> b.queue == a.queue[1..]
  {
  }

  datatype Move = Moved | Dropped | Nothing | NoRoom | AckFailed

  ghost predicate MoveEffect(move: Move, w: seq<bytes>, w': seq<bytes>, a: Book, b: Book) {
    match move
    case Moved => w != [] && ValidLine(w[0]) && w' == w[1..] && b == a.(queue := a.queue + [w[0]])
    case Dropped => w != [] && !ValidLine(w[0]) && w' == w[1..] && b == a
    case Nothing => w == w' == [] && b == a
    case NoRoom => w != [] && ValidLine(w[0]) && w' == w && b == a
    case AckFailed => w' == w && b == a
  }

  /** What a Flush leaves: a line of the queue was sent, is still in the queue, or is in the WAL, behind the lines which were
      there. The lines which were sent are the oldest ones. */
  ghost predicate Flushed(a: Book, w: seq<bytes>, b: Book, w': seq<bytes>) {
    && b.gone + b.queue == a.gone + a.queue
    && b.gone == b.delivered + b.moved
    && w' == w + AsRecords(b.moved)
  }

  lemma FlushStarts(a: Book, b: Book, w: seq<bytes>)
    requires Passed(a, b) && a.moved == [] && a.gone == a.delivered
    ensures Flushed(a, w, b, w) && a.delivered <= b.delivered
  {
    PassedKeepsOrder(a, b);
  }

  lemma FlushGoesOn(a: Book, w: seq<bytes>, b: Book, w': seq<bytes>, c: Book, w'': seq<bytes>, stored: bool)
    requires Flushed(a, w, b, w')
    requires if stored then Removed(b, c) && w'' == w' + AsRecord(b.queue[0]) else c == b && w'' == w'
    ensures Flushed(a, w, c, w'') && c.delivered == b.delivered
  {
    if stored {
      AsRecordsConcat(b.moved, [b.queue[0]]);
      assert [b.queue[0]] == [b.queue[0]] + [];
      assert b.gone + [b.queue[0]] + c.queue == b.gone + b.queue;
      assert w + AsRecords(b.moved) + AsRecord(b.queue[0]) == w + (AsRecords(b.moved) + AsRecord(b.queue[0]));
    }
  }

  /** What a line becomes in the WAL when Flush hands its length over as an uint32_t. */
  function AsRecord(line: bytes): seq<bytes> {
    var record := line[..|line| % UINT32_SPAN];
    if record == [] then [] else [record]
  }

  function AsRecords(lines: seq<bytes>): seq<bytes> {
    if lines == [] then [] else AsRecord(lines[0]) + AsRecords(lines[1..])
  }

  lemma {:induction false} AsRecordsConcat(a: seq<bytes>, b: seq<bytes>)
    ensures AsRecords(a + b) == AsRecords(a) + AsRecords(b)
  {
    if a == [] {
      assert a + b == b;
    } else {
      assert (a + b)[1..] == a[1..] + b;
      AsRecordsConcat(a[1..], b);
    }
  }

  function Total(lines: seq<bytes>): nat {
    if lines == [] then 0 else |lines[0]| + Total(lines[1..])
  }

  /** Flush writes the lines as they are if and only if each of them is shorter than 4 GB. */
  lemma {:induction false} FlushStoresWholeLinesIff(lines: seq<bytes>)
    requires ValidLines(lines)
    ensures Total(AsRecords(lines)) <= Total(lines)
    ensures AsRecords(lines) == lines <==> forall l :: l in lines ==> |l| < UINT32_SPAN
  {
    if lines != [] {
      assert lines[0] in lines && lines == [lines[0]] + lines[1..];
      FlushStoresWholeLinesIff(lines[1..]);
      TotalConcat(AsRecord(lines[0]), AsRecords(lines[1..]));
      FirstStoredWholeIff(lines[0], lines[1..], AsRecords(lines[1..]));
    }
  }

  lemma FirstStoredWholeIff(line: bytes, rest: seq<bytes>, records: seq<bytes>)
    requires line != [] && Total(records) <= Total(rest)
    ensures AsRecord(line) + records == [line] + rest <==> |line| < UINT32_SPAN && records == rest
    ensures Total(AsRecord(line)) <= |line|
  {
    if |line| < UINT32_SPAN {
      assert line[..|line|] == line;
      assert ([line] + records)[1..] == records && ([line] + rest)[1..] == rest;
    } else {
      TotalConcat(AsRecord(line), records);
      TotalConcat([line], rest);
    }
  }

  lemma {:induction false} TotalConcat(a: seq<bytes>, b: seq<bytes>)
    ensures Total(a + b) == Total(a) + Total(b)
  {
    if a == [] {
      assert a + b == b;
    } else {
      assert (a + b)[1..] == a[1..] + b;
      TotalConcat(a[1..], b);
    }
  }

  /** Whatever Flush did, each line which was given to the sender is there once: it was sent, is still in memory, or is in the
      WAL, where it may stand behind a newer line. */
  lemma FlushKeepsEveryLine(given: seq<bytes>, a: Book, w: seq<bytes>, b: Book, w': seq<bytes>)
    requires given == Kept(a, w) && Flushed(a, w, b, w') && ValidLines(b.moved)
    requires forall l :: l in b.moved ==> |l| < UINT32_SPAN
    ensures multiset(given) == multiset(b.delivered) + multiset(b.queue) + multiset(OnlyLines(w'))
    ensures b.delivered + b.moved + b.queue <= given
  {
    FlushStoresWholeLinesIff(b.moved);
    OnlyLinesConcat(w, b.moved);
    OnlyLinesOfLines(b.moved);
    assert given == b.delivered + b.moved + b.queue + OnlyLines(w);
  }

  lemma KeptPassed(a: Book, b: Book, records: seq<bytes>)
    requires Passed(a, b)
    ensures Kept(b, records) == Kept(a, records)
    ensures |b.queue| <= |a.queue| && a.delivered <= b.delivered && b.moved == a.moved
  {
    PassedKeepsOrder(a, b);
  }

  lemma KeptMoved(book: Book, records: seq<bytes>)
    requires records != []
    ensures Kept(if ValidLine(records[0]) then book.(queue := book.queue + [records[0]]) else book, records[1..]) == Kept(book, records)
  {
  }

  /** These lines are the last ones of the queue, and nothing else changed for any line. */
  ghost predicate Queued(a: Book, b: Book, lines: seq<bytes>) {
    b == a.(queue := a.queue + lines)
  }

  lemma QueuedIs(a: Book, line: bytes)
    ensures Queued(a, a.(queue := a.queue + [line]), [line]) && Queued(a, a, [])
  {
    assert a.queue + [] == a.queue;
  }

  lemma KeptQueued(book: Book, line: bytes)
    ensures Kept(book.(queue := book.queue + [line]), []) == Kept(book, []) + [line]
  {
  }

  lemma KeptSpilled(book: Book, records: seq<bytes>, line: bytes)
    requires ValidLine(line)
    ensures Kept(book, records + [line]) == Kept(book, records) + [line]
  {
    OnlyLinesConcat(records, [line]);
  }

  /** A WAL of which only the appends can fail, which is not in use by a replay, and which has no torn tail. */
  ghost predicate WalWorks(wal: SimpleWal)
    reads wal, wal.disk
  {
    wal.Valid() && wal.isOpen && !wal.replaying && wal.disk.mode.Truncates() && wal.Clean()
  }

  lemma NothingWaits(wal: SimpleWal)
    requires WalWorks(wal)
    ensures !wal.pendingReplay ==> wal.Pending() == []
  {
  }

  method Store(wal: SimpleWal, line: bytes) returns (ok: bool)
    requires WalWorks(wal) && |line| < UINT32_SPAN
    modifies wal`pendingReplay, wal.disk
    ensures WalWorks(wal)
    ensures wal.Pending() == if ok && line != [] then old(wal.Pending()) + [line] else old(wal.Pending())
    ensures wal.disk.owed == if ok && line != [] then old(wal.disk.owed) + [line] else old(wal.disk.owed)
    ensures line == [] ==> ok
    ensures |wal.disk.wal| == old(|wal.disk.wal|) + if ok && line != [] then HEADER + |line| else 0
    ensures line != [] && wal.disk.mode == Healthy ==> ok == old(wal.Fits(|wal.disk.wal|, |line|))
  {
    hide Records, Rest, First, Encode, Position, CrashSafe, PendingRecords, SimpleWal.Valid, CutOff;
    ghost var before := wal.disk.Now();
    if line != [] {
      EncodedLength(line);
    }
    ok := wal.Append(line);
    wal.FileSizeFits();
    if !ok {
      NothingCut(before.wal, wal.disk.wal, line, wal.disk.mode);
    }
  }

  lemma EncodedLength(line: bytes)
    requires 0 < |line| < UINT32_SPAN
    ensures |Encode(line)| == HEADER + |line|
  {
  }

  /** What is pending first. It stays pending. */
  method Oldest(wal: SimpleWal) returns (found: bool, record: bytes)
    requires WalWorks(wal)
    modifies wal, wal.disk
    ensures WalWorks(wal) && wal.Pending() == old(wal.Pending())
    ensures found == (wal.Pending() != [])
    ensures found ==> record == wal.Pending()[0] && wal.AckIsDue()
  {
    hide Records, First, Position, CrashSafe, PendingRecords, SimpleWal.Valid;
    NothingWaits(wal);
    found, record := wal.Peek();
  }

  method AckOldest(wal: SimpleWal) returns (ok: bool)
    requires WalWorks(wal) && wal.AckIsDue() && wal.Pending() != []
    modifies wal, wal.disk
    ensures WalWorks(wal)
    ensures wal.Pending() == if ok then old(wal.Pending())[1..] else old(wal.Pending())
    ensures !ok ==> !wal.disk.mode.Truncates()
  {
    hide Records, First, Rest, Position, CrashSafe, PendingRecords, SimpleWal.Valid, AckEffect;
    ghost var before, o, record := wal.disk.Now(), wal.peekOffset, wal.peekRecord;
    ok := wal.Ack();
    AckKeepsClean(before, wal.disk.Now(), o, record, ok);
  }

  lemma AckKeepsClean(s: Snapshot, t: Snapshot, o: nat, record: bytes, ok: bool)
    requires AckEffect(s, t, o, record, ok) && Rest(s.wal) == []
    ensures Rest(t.wal) == []
    ensures !ok ==> t.wal == s.wal
  {
  }

  lemma NothingCut(before: bytes, after: bytes, data: bytes, mode: Mode)
    requires 0 < |data| < 0x1_0000_0000 && mode.Truncates() && CutOff(before, after, data, mode)
    ensures after == before
  {
  }

  /* --- The blocked WAL --- */

  datatype Step = PumpOf(net: Network) | SendOf(line: bytes)

  /** A run: nothing waits, no call fails, and a line is sent which does not fit into the buffer of the sender. It is taken
      into the WAL. Whatever is sent and pumped then, over any network, it stays the oldest one there, and each line behind it
      waits as well. */
  method LongLineBlocks(d: DurableSender, line: bytes, steps: seq<Step>) returns (ok: bool)
    requires d.Valid() && d.hasWal && d.wal.disk.mode == Healthy && d.Waiting() == []
    requires ValidLine(line) && |line| + 1 > d.sender.maxBytes && d.WalTakes(line)
    modifies d, d.sender, d.sender.buffer, d.wal, d.wal.disk
    ensures d.Valid() && ok && d.Blocked() && d.Waiting() != [] && d.Waiting()[0] == line && d.drained == old(d.drained)
  {
    hide DurableSender.Valid, DurableSender.Waiting, SocketSender.ToSend, TakesAll;
    SenderIsValid(d);
    NoRoomAtAll(d.sender, |line|);
    ok := d.Send(line);
    for i := 0 to |steps|
      invariant d.Valid() && d.Waiting() != [] && d.Waiting()[0] == line && d.drained == old(d.drained)
    {
      match steps[i]
      case PumpOf(net) => d.Pump(net);
      case SendOf(next) =>
        var _ := d.Send(next);
    }
  }

  /** What the network does while the peer is away. */
  predicate Away(net: Network) {
    net.connect != Connected && net.poll != Connected
  }

  /** A run: the peer is away, lines are sent and the main loop goes on. Every line for which Send said true is owed by the
      WAL, in the order of the calls, and none is only in memory. If the process dies now the next one finds all of them in
      the files, behind the records which waited before. */
  method SentWhileAway(d: DurableSender, steps: seq<Step>) returns (ghost taken: seq<bytes>)
    requires d.Valid() && d.hasWal && d.sender.state != Connected
    requires forall s :: s in steps && s.PumpOf? ==> Away(s.net)
    modifies d, d.sender, d.sender.buffer, d.wal, d.wal.disk
    ensures d.Valid() && SameLines(old(d.sender.book), d.sender.book)
    ensures d.given == old(d.given) + taken && d.Owed() == old(d.Owed()) + taken && d.Waiting() == old(d.Waiting()) + taken
    ensures CrashSafe(d.wal.disk.Now()) && PendingRecords(d.wal.disk.wal, d.wal.disk.commit) == old(d.Waiting()) + taken
  {
    hide DurableSender.Valid, DurableSender.Waiting, DurableSender.Owed, CrashSafe, PendingRecords;
    taken := [];
    for i := 0 to |steps|
      invariant d.Valid() && d.sender.state != Connected && SameLines(old(d.sender.book), d.sender.book)
      invariant d.given == old(d.given) + taken && d.Owed() == old(d.Owed()) + taken && d.Waiting() == old(d.Waiting()) + taken
    {
      assert steps[i] in steps;
      ghost var more := StepAway(d, steps[i]);
      taken := taken + more;
    }
    FilesSayWaiting(d);
  }

  method StepAway(d: DurableSender, step: Step) returns (ghost more: seq<bytes>)
    requires d.Valid() && d.hasWal && d.sender.state != Connected && (step.PumpOf? ==> Away(step.net))
    modifies d, d.sender, d.sender.buffer, d.wal, d.wal.disk
    ensures d.Valid() && d.sender.state != Connected && SameLines(old(d.sender.book), d.sender.book)
    ensures d.given == old(d.given) + more && d.Owed() == old(d.Owed()) + more && d.Waiting() == old(d.Waiting()) + more
  {
    hide DurableSender.Valid, DurableSender.Waiting, DurableSender.Owed, DurableSender.Blocked, DurableSender.WalTakes,
         SocketSender.ToSend, SocketSender.HasRoom, TakesAll, StateToSend, ValidLine;
    more := [];
    match step
    case PumpOf(net) =>
      AwayStays(d.sender.state, net);
      d.Pump(net);
    case SendOf(line) =>
      var ok := d.Send(line);
      more := if ok then [line] else [];
  }

  lemma AwayStays(state: State, net: Network)
    requires state != Connected && Away(net)
    ensures StateToSend(state, net) != Connected
  {
  }

  lemma FilesSayWaiting(d: DurableSender)
    requires d.Valid() && d.hasWal
    ensures CrashSafe(d.wal.disk.Now()) && PendingRecords(d.wal.disk.wal, d.wal.disk.commit) == d.Waiting()
  {
  }

  lemma SenderIsValid(d: DurableSender)
    requires d.Valid()
    ensures d.sender.Valid()
  {
  }

  lemma NoRoomAtAll(sender: SocketSender, n: nat)
    requires sender.Valid() && n + 1 > sender.maxBytes
    ensures !sender.HasRoom(n)
  {
  }
}
