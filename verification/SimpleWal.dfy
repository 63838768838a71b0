/** The write ahead log. Every method below, except Replay, runs with the mutex held from its start to its end.
    Replay gives the mutex away in front of its first read, while the consumer runs, and behind its last read: its parameters say
    what happens in each of those windows. */
module SimpleWals {
  import opened Bytes
  import opened WalFormat
  import opened WalDisk

  const QUARANTINE_CHUNK: nat := 65536

  datatype ReadResult = ReadRecordOk | ReadEmpty | ReadDamaged | ReadChanged | ReadStop

  datatype Length = LengthOk(bytes: nat) | Unreadable | ReadFailed

  /** What other threads (or the consumer itself) call while the consumer runs. */
  datatype Call = CallAppend(data: bytes) | CallPeek | CallAck | CallReplay

  /** One window without the mutex: the calls of the others, and what the consumer says about its record. */
  datatype Answer = Accepted | Refused | Thrown
  datatype Turn = Turn(calls: seq<Call>, answer: Answer)

  /** How the loop of a Replay ends: the WAL was emptied (or should have been), it was shorter than the position, the
      consumer or a failure stopped it, or the consumer threw. */
  datatype Ending = Emptied(clearOk: bool) | Changed | Stopped | Threw

  /** What happened in a Replay: the index of the first record it read, how many the consumer accepted, what other threads
      added meanwhile, whether the WAL was emptied, and what others added behind that, before the Replay was over. Whole: no
      failing Append left a piece of its record. InTime: what others added before the last window. */
  datatype Run = Run(started: bool, start: nat, accepted: nat, grown: bytes, arrived: seq<Record>, whole: bool, emptied: bool,
                     behind: bytes, newer: seq<Record>, inTime: bytes)

  const NotStarted := Run(false, 0, 0, [], [], true, false, [], [], [])

  /** How many records a consumer accepts before it says no or throws, and what it says then. */
  function Leading(script: seq<Turn>): (n: nat)
    ensures n <= |script|
  {
    if script == [] || script[0].answer != Accepted then 0 else 1 + Leading(script[1..])
  }

  function AnswerAt(script: seq<Turn>, n: nat): Answer {
    if n < |script| then script[n].answer else Refused
  }

  lemma {:induction false} LeadingIs(script: seq<Turn>, n: nat)
    requires n <= |script| && forall k :: 0 <= k < n ==> script[k].answer == Accepted
    ensures n <= Leading(script) && (AnswerAt(script, n) != Accepted ==> Leading(script) == n)
    ensures AnswerAt(script, Leading(script)) != Accepted
    decreases |script|
  {
    if n > 0 {
      LeadingIs(script[1..], n - 1);
    } else if script != [] && script[0].answer == Accepted {
      LeadingIs(script[1..], 0);
    }
  }

  /** The end of the loop, while all which is not a write works: the consumer got one record after the other, until it did not
      accept one, or there was no record any more. */
  ghost predicate LoopIs(script: seq<Turn>, s: Snapshot, seen: seq<bytes>, run: Run, ending: Ending, mode: Mode, isOpen: bool) {
    var n, all := Leading(script), |Records(s.wal + run.grown)|;
    if run.start + n < all then
      run.accepted == n && |seen| == n + 1 && ending == if AnswerAt(script, n) == Refused then Stopped else Threw
    else
      run.start + run.accepted == all && |seen| == run.accepted && (isOpen ==> AllRead(s.wal + run.grown, ending, mode))
  }

  /** There is no record any more: the WAL is emptied, unless the ftruncate fails, or the tail cannot be moved away. */
  ghost predicate AllRead(wal: bytes, ending: Ending, mode: Mode) {
    match mode
    case Healthy => ending == Emptied(true)
    case Steady => ending == Emptied(true) || (ending == Stopped && Rest(wal) != [])
    case Stuck => ending == Emptied(false)
    case Faulty => true
  }

  /** What a Replay is for, while all which is not a write works, and what its result says: of the records which were there,
      or came in time, the consumer got exactly those up to the first one which it did not accept. If it accepted all of them
      the WAL is emptied. If it said no behind a record which it accepted, the progress is saved. */
  ghost predicate Handed(script: seq<Turn>, s: Snapshot, seen: seq<bytes>, run: Run, result: bool, mode: Mode) {
    var n, all := Leading(script), |Records(s.wal + run.inTime)|;
    && run.started && run.inTime <= run.grown
    && if run.start + n < all then
         run.accepted == n && |seen| == n + 1 && !run.emptied && result == (AnswerAt(script, n) == Refused && n > 0)
       else
         && run.start + run.accepted == all && |seen| == run.accepted
         && match mode
            case Healthy => run.emptied && result
            case Steady => (run.emptied || Rest(s.wal + run.inTime) != []) && result == (run.emptied || run.accepted > 0)
            case Stuck => !run.emptied && !result
            case Faulty => true
  }

  /** The consumer saw records in the order of the file, without a gap, from one which is not behind the first one which was
      not accepted. Everything which was there, and everything which came meanwhile, is still there or was accepted: the WAL
      was only emptied if the consumer accepted all of it, and what came behind that is in it. What could not be read was moved
      to the quarantine file. */
  ghost predicate ReplayEffect(s: Snapshot, t: Snapshot, seen: seq<bytes>, run: Run) {
    var full := s.wal + run.grown;
    var all := Records(full);
    if !run.started then t == s && seen == []
    else
      && t.discarded == s.discarded
      && (run.whole ==> run.grown == EncodeAll(run.arrived) && run.behind == EncodeAll(run.newer))
      && run.start <= s.accepted
      && run.accepted <= |seen| <= run.accepted + 1
      && run.start + |seen| <= |all|
      && seen == all[run.start..run.start + |seen|]
      && if run.emptied then
           && run.start + run.accepted == |all|
           && t.wal == run.behind && t.commit == None && t.accepted == 0 && t.corrupt == s.corrupt + Rest(full)
         else
           && t.wal == full && run.behind == [] && run.newer == []
           && t.accepted == (if s.accepted < run.start + run.accepted then run.start + run.accepted else s.accepted)
  }

  /** A Replay which says true: the progress is saved. Nothing which was accepted in it is pending any more. */
  ghost predicate Progress(s: Snapshot, t: Snapshot, run: Run) {
    && (run.emptied || run.accepted > 0)
    && run.start + run.accepted <= |Records(s.wal + run.grown)|
    && PendingRecords(t.wal, t.commit) == Records(s.wal + run.grown)[run.start + run.accepted..] + Records(run.behind)
  }

  ghost predicate Looping(s: Snapshot, t: Snapshot, seen: seq<bytes>, run: Run, offset: nat) {
    var all, j := Records(t.wal), run.start + run.accepted;
    && run.started && !run.emptied && run.behind == [] && run.newer == []
    && t.wal == s.wal + run.grown && t.commit == s.commit && t.corrupt == s.corrupt && t.discarded == s.discarded
    && (run.whole ==> run.grown == EncodeAll(run.arrived))
    && run.start <= s.accepted && IsOffset(all, j, offset)
    && seen == all[run.start..j]
    && t.accepted == if s.accepted < j then j else s.accepted
  }

  ghost predicate EndedWith(s: Snapshot, t: Snapshot, seen: seq<bytes>, run: Run, offset: nat, ending: Ending, isOpen: bool) {
    && run.started && ReplayEffect(s, t, seen, run)
    && run.emptied == (isOpen && ending == Emptied(true))
    && (!ending.Emptied? ==> IsOffset(Records(t.wal), run.start + run.accepted, offset))
  }

  /** What an Ack relies on: whether a record was peeked, and which one, the number of the position, and the position itself. */
  datatype Mark = Mark(peeked: bool, offset: nat, len: nat, record: bytes, epoch: nat, positionEpoch: nat, wal: bytes, commit: Option<bytes>)

  /** Whatever others did: nobody but Peek peeks, and a position which has still the same number is still the same, unless a
      Clear could not truncate the file. */
  ghost predicate Later(a: Mark, b: Mark, mode: Mode) {
    && a.positionEpoch <= b.positionEpoch
    && (b.peeked ==> a.peeked && b.offset == a.offset && b.len == a.len && b.record == a.record && b.epoch == a.epoch)
    && (a.positionEpoch == b.positionEpoch ==> a.wal <= b.wal && (b.commit == a.commit || (b.commit == None && !mode.Truncates())))
  }

  ghost predicate IsRecord(wal: bytes, j: nat, record: bytes) {
    j < |Records(wal)| && Records(wal)[j] == record
  }

  ghost predicate ValidCalls(calls: seq<Call>) {
    forall c :: c in calls && c.CallAppend? ==> |c.data| < 0x1_0000_0000
  }

  ghost predicate ValidScript(script: seq<Turn>) {
    forall t :: t in script ==> ValidCalls(t.calls)
  }

  class SimpleWal {
    const disk: Disk
    const maxSize: nat            // 0: no limit
    var isOpen: bool
    var pendingReplay: bool
    var commitChecked: bool
    var replaying: bool
    var peeked: bool
    var peekOffset: nat
    var peekLen: nat
    var peekEpoch: nat
    var positionEpoch: nat

    /** The record which the last Peek returned. */
    ghost var peekRecord: bytes

    ghost predicate Valid()
      reads this, disk
    {
      && disk.Safe() && disk.Settled()
      && (isOpen && disk.mode != Faulty && disk.wal != [] ==> pendingReplay)
      && (peeked ==> peekEpoch <= positionEpoch && peekLen == |peekRecord|)
      && (peeked && peekEpoch == positionEpoch ==> PeekStands())
    }

    /** The record which Peek returned still stands at peekOffset, and every record before it was accepted. */
    ghost predicate PeekStands()
      reads this, disk
    {
      && IsRecordAt(disk.wal, disk.accepted, peekOffset, peekRecord)
      && (disk.mode.Truncates() ==> peekOffset == Position(disk.wal, disk.commit))
    }

    /** The records a consumer gets, in their order. */
    ghost function Pending(): seq<Record>
      reads this, disk
    {
      PendingRecords(disk.wal, disk.commit)
    }

    ghost function Marked(): Mark
      reads this, disk
    {
      Mark(peeked, peekOffset, peekLen, peekRecord, peekEpoch, positionEpoch, disk.wal, disk.commit)
    }

    /** Every byte of the file belongs to a record. */
    ghost predicate Clean()
      reads this, disk
    {
      Rest(disk.wal) == []
    }

    constructor (disk: Disk, maxSize: nat)
      requires disk.Safe() && disk.Settled()
      ensures Valid() && this.disk == disk && this.maxSize == maxSize
      ensures !isOpen && !replaying && !peeked && !pendingReplay
    {
      this.disk, this.maxSize := disk, maxSize;
      isOpen, pendingReplay, commitChecked, replaying := false, false, false, false;
      peeked, peekOffset, peekLen, peekEpoch, positionEpoch, peekRecord := false, 0, 0, 0, 0, [];
    }

    method Init() returns (ok: bool)
      requires Valid()
      modifies this
      ensures Valid() && ok == isOpen
      ensures disk.mode != Faulty ==> ok && pendingReplay == (disk.wal != [])
      ensures !peeked && !commitChecked && replaying == old(replaying)
    {
      isOpen, commitChecked, pendingReplay, peeked := false, false, false, false;
      ok := disk.Succeeds();
      if !ok {
        return;
      }
      isOpen := true;
      var sized := disk.Succeeds();
      pendingReplay := sized && |disk.wal| > 0;
    }

    /* --- Writing --- */

    /** The loop around write(2): all of the data, or a failure with a part of it written. */
    method WriteAll(f: File, data: bytes) returns (ok: bool, ghost n: nat)
      requires disk.Safe()
      requires f == CommitFile ==> disk.commit.Some?
      requires forall n | 0 <= n <= |data| :: CrashSafe(Wrote(disk.Now(), f, data[..n]))
      modifies disk
      ensures disk.Safe()
      ensures n <= |data| && (ok <==> n == |data|)
      ensures disk.Now() == old(Wrote(disk.Now(), f, data[..n]))
      ensures disk.mode.Writes() && (f == WalFile ==> old(|disk.wal|) + |data| <= MAX_FILE) ==> ok
      ensures disk.mode != Faulty && f == CommitFile ==> ok
    {
      hide CrashSafe, Wrote, Disk.Safe, FrontsAreSafe;
      n := 0;
      var rest := data;
      ghost var start := disk.Now();
      WroteNothing(start, f);
      FrontsNow(f, data);
      while rest != []
        invariant n <= |data| && rest == data[n..]
        invariant disk.Safe()
        invariant disk.Now() == Wrote(start, f, data[..n])
        invariant f == CommitFile ==> disk.commit.Some?
        invariant disk.mode.Writes() || (disk.mode != Faulty && f == CommitFile) ==> n == 0 || n == |data| || (f == WalFile && |start.wal| + |data| > MAX_FILE)
      {
        var written := WriteSome(f, start, data, n, rest);
        if written == 0 {
          return false, n;
        }
        assert rest[written..] == data[n + written..];
        rest := rest[written..];
        n := n + written;
      }
      ok := true;
    }

    /** One write of what is left of the data. */
    method WriteSome(f: File, ghost start: Snapshot, ghost data: bytes, ghost n: nat, rest: bytes) returns (written: nat)
      requires disk.Safe() && n < |data| && rest == data[n..] && (f == CommitFile ==> disk.commit.Some?)
      requires disk.Now() == Wrote(start, f, data[..n]) && FrontsAreSafe(start, f, data)
      modifies disk
      ensures disk.Safe() && written <= |rest| && disk.Now() == Wrote(start, f, data[..n + written])
      ensures f == CommitFile ==> disk.commit.Some?
      ensures n == 0 && disk.mode.Writes() && (f == WalFile ==> |start.wal| + |data| <= MAX_FILE) ==> written == |rest|
      ensures n == 0 && disk.mode != Faulty && f == CommitFile ==> written == |rest|
    {
      hide CrashSafe;
      written := disk.Write(f, rest);
      WroteTwice(start, f, data, n, written);
    }

    lemma FrontsNow(f: File, data: bytes)
      requires f == CommitFile ==> disk.commit.Some?
      requires forall n | 0 <= n <= |data| :: CrashSafe(Wrote(disk.Now(), f, data[..n]))
      ensures FrontsAreSafe(disk.Now(), f, data)
    {
    }

    /** The length and the data, as two writes. */
    method WriteRecord(data: bytes) returns (ok: bool, ghost n: nat)
      requires disk.Safe() && 0 < |data| < 0x1_0000_0000
      modifies disk
      ensures disk.Safe()
      ensures n <= |Encode(data)| && (ok <==> n == |Encode(data)|)
      ensures disk.Now() == old(Wrote(disk.Now(), WalFile, Encode(data)[..n]))
      ensures disk.mode.Writes() && old(|disk.wal|) + HEADER + |data| <= MAX_FILE ==> ok
    {
      ghost var before := disk.Now();
      AppendsAreSafe(before, LittleEndian(|data|, HEADER));
      ok, n := WriteAll(WalFile, LittleEndian(|data|, HEADER));
      assert LittleEndian(|data|, HEADER)[..n] == Encode(data)[..n];
      if ok {
        AppendsAreSafe(disk.Now(), data);
        ghost var m;
        ok, m := WriteAll(WalFile, data);
        assert Encode(data)[HEADER..] == data;
        WroteTwice(before, WalFile, Encode(data), HEADER, m);
        n := HEADER + m;
      }
    }

    /** Takes a piece x of a record away again, which was written behind the state before. */
    method CutBack(start: nat, ghost before: Snapshot, ghost x: bytes)
      requires disk.Safe() && CrashSafe(before) && start == |before.wal|
      requires disk.Now() == Wrote(before, WalFile, x)
      requires start == 0 ==> before.accepted == 0 && before.owed == []
      modifies disk
      ensures disk.Safe()
      ensures disk.Now() == before || (!disk.mode.Truncates() && disk.Now() == Wrote(before, WalFile, x))
    {
      AppendingIsSafe(before, x);
      var cut := disk.TruncateWal(start);
      assert disk.wal[..start] == before.wal;
    }

    /** Adds one record. Len is a uint32_t. */
    method Append(data: bytes) returns (ok: bool)
      requires Valid() && |data| < 0x1_0000_0000
      modifies this`pendingReplay, disk
      ensures Valid()
      ensures disk.commit == old(disk.commit) && disk.corrupt == old(disk.corrupt) && disk.accepted == old(disk.accepted)
      ensures disk.discarded == old(disk.discarded)
      ensures data == [] ==> ok && disk.wal == old(disk.wal)
      ensures ok && data != [] ==> isOpen && pendingReplay && disk.wal == old(disk.wal) + Encode(data)
      ensures ok && data != [] && old(Clean()) ==> Clean() && Pending() == old(Pending()) + [data] && disk.owed == old(disk.owed) + [data]
      ensures !ok ==> pendingReplay == old(pendingReplay) && data != [] && CutOff(old(disk.wal), disk.wal, data, disk.mode)
      ensures disk.wal == old(disk.wal) ==> disk.owed == old(disk.owed)
      ensures maxSize > 0 && data != [] && old(|disk.wal|) + HEADER + |data| > maxSize ==> !ok && disk.wal == old(disk.wal)
      ensures disk.mode.Writes() && isOpen && old(Fits(|disk.wal|, |data|)) ==> ok
    {
      hide Records, Rest, First, CrashSafe, IsBoundary, IsRecordAt, Position, PendingRecords, LittleEndian, CutOff;
      if |data| == 0 {
        return true;
      }
      CutNothing(disk.wal, data, disk.mode);
      AppendIsPending(data);
      if !isOpen {
        return false;
      }
      var found := disk.Succeeds();
      if !found {
        return false;
      }
      var start := |disk.wal|;
      if maxSize > 0 && start + HEADER + |data| > maxSize {
        return false;
      }
      ghost var before := disk.Now();
      ghost var n;
      ok, n := WriteRecord(data);
      ghost var x := Encode(data)[..n];
      RecordsStay(before, x, peekOffset, peekRecord);
      if ok {
        assert x == Encode(data);
        pendingReplay := true;
      } else {
        if start == 0 {
          EmptyOwesNothing(before);
        }
        CutBack(start, before, x);
        CutPart(before.wal, data, disk.mode, n);
      }
      disk.Settle();
    }

    lemma AppendIsPending(r: Record)
      requires Valid()
      ensures Clean() ==> Rest(disk.wal + Encode(r)) == []
                          && PendingRecords(disk.wal + Encode(r), disk.commit) == PendingRecords(disk.wal, disk.commit) + [r]
                          && disk.accepted <= |Records(disk.wal + Encode(r))|
                          && Records(disk.wal + Encode(r))[disk.accepted..] == disk.owed + [r]
    {
      hide Records, Rest, PendingRecords, IsBoundary, Encode, PeekStands;
      if Clean() {
        AppendedIsPending(disk.Now(), r);
        DropFromConcat(Records(disk.wal), [r], disk.accepted);
      }
    }

    /* --- The commit position --- */

    method LoadCommit() returns (offset: nat)
      ensures offset == CommitValue(disk.commit) || (offset == 0 && disk.mode == Faulty)
    {
      var data := disk.ReadCommit();
      if data.Some? && |data.value| == COMMIT_SIZE {
        offset := FromLittleEndian(data.value);
      } else {
        offset := 0;
      }
    }

    /** The value of the commit file, or 0 if it is larger than the file. */
    method LoadPosition(fileSize: nat) returns (offset: nat)
      requires fileSize == |disk.wal|
      ensures offset == Position(disk.wal, disk.commit) || (offset == 0 && disk.mode == Faulty)
    {
      offset := LoadCommit();
      if offset > fileSize {
        offset := 0;
      }
    }

    method StoreCommit(offset: nat) returns (ok: bool)
      requires Valid() && offset <= MAX_FILE && IsBoundary(disk.wal, offset, disk.accepted)
      modifies this`positionEpoch, disk
      ensures Valid()
      ensures disk.Now() == old(disk.Now()).(commit := disk.commit)
      ensures ok ==> CommitValue(disk.commit) == offset && positionEpoch == old(positionEpoch) + 1
      ensures !ok ==> disk.mode == Faulty
      ensures !ok ==> || (disk.commit == old(disk.commit) && positionEpoch == old(positionEpoch))
                      || (CommitValue(disk.commit) == 0 && positionEpoch == old(positionEpoch) + 1)
    {
      NoCommitIsSafe(disk.Now(), Some([]));
      ok := disk.OpenCommitTruncated();
      if !ok {
        return;
      }
      positionEpoch := positionEpoch + 1;
      ghost var cut := disk.Now();
      ghost var n;
      forall n | 0 <= n <= COMMIT_SIZE ensures CrashSafe(Wrote(cut, CommitFile, LittleEndian(offset, COMMIT_SIZE)[..n])) {
        CommitWritesAreSafe(cut, offset, n);
      }
      ok, n := WriteAll(CommitFile, LittleEndian(offset, COMMIT_SIZE));
      CommitWritesAreSafe(cut, offset, n);
    }

    /** Follows the records from the start, reading only their lengths. */
    method IsRecordBoundary(offset: nat, fileSize: nat) returns (found: bool)
      requires fileSize == |disk.wal|
      ensures found ==> IsBoundary(disk.wal, offset, |Records(disk.wal)|)
      ensures disk.mode != Faulty ==> (found <==> IsBoundary(disk.wal, offset, |Records(disk.wal)|))
    {
      ghost var rs := Records(disk.wal);
      ghost var k := 0;
      var pos: nat := 0;
      while pos < offset
        invariant IsOffset(rs, k, pos)
        invariant k > 0 ==> Offset(rs, k - 1) < offset
        decreases |rs| - k
      {
        NextRecord(disk.wal, k);
        var header := disk.PRead(pos, HEADER);
        if header.None? {
          return false;
        }
        if k == |rs| {
          NoOffsetBehind(rs, k, offset);
        }
        assert header.value == disk.wal[pos..][..|header.value|];
        if |header.value| != HEADER {
          return false;
        }
        var len := FromLittleEndian(header.value);
        if len == 0 || len > fileSize - pos - HEADER {
          return false;
        }
        OffsetStep(rs, k);
        pos := pos + HEADER + len;
        k := k + 1;
      }
      found := pos == offset;
      if !found {
        NoOffsetBetween(rs, k, offset);
      }
    }

    /** Where reading starts. The commit position is checked against the records once, behind Init. In a WAL which is valid
        the check never has anything to say. */
    method GetReplayPosition(fileSize: nat) returns (offset: nat)
      requires fileSize == |disk.wal|
      modifies this`commitChecked
      ensures old(Valid()) ==> Valid() && IsBoundary(disk.wal, offset, disk.accepted)
      ensures old(Valid()) && disk.mode != Faulty ==> offset == Position(disk.wal, disk.commit)
      ensures disk.mode != Faulty ==> offset == if old(commitChecked) then Position(disk.wal, disk.commit)
                                                else CheckedPosition(disk.wal, disk.commit)
      ensures commitChecked
    {
      hide Records, Rest, CrashSafe, IsBoundary, Position, IsRecordAt;
      ValidPositions();
      offset := LoadPosition(fileSize);
      if !commitChecked {
        if 0 < offset < fileSize {
          var found := IsRecordBoundary(offset, fileSize);
          if !found {
            offset := 0;
          }
        }
        commitChecked := true;
      }
    }

    lemma ValidPositions()
      ensures Valid() ==> IsBoundary(disk.wal, 0, disk.accepted)
                          && IsBoundary(disk.wal, Position(disk.wal, disk.commit), disk.accepted)
                          && IsBoundary(disk.wal, Position(disk.wal, disk.commit), |Records(disk.wal)|)
    {
      if Valid() {
        PositionsOf(disk.Now());
      }
    }

    /* --- Taking records out --- */

    /** Empties the WAL: first the commit file goes, then the records. */
    method ClearInternal() returns (ok: bool)
      requires Valid()
      modifies this`pendingReplay, this`peeked, this`positionEpoch, disk
      ensures Valid() && ClearedOrNot(ok) && disk.corrupt == old(disk.corrupt)
      ensures disk.mode == Stuck && isOpen ==> !ok && disk.commit == None
      ensures !isOpen ==> disk.Now() == old(disk.Now())
    {
      hide Rest, IsBoundary, Position;
      if !isOpen {
        return true;
      }
      ghost var before := disk.Now();
      NoCommitIsSafe(before, None);
      ok := disk.UnlinkCommit();
      if !ok {
        return;
      }
      ok := disk.TruncateWal(0);
      if !ok {
        return;
      }
      EmptyIsSafe(disk.Now());
      pendingReplay, peeked := false, false;
      positionEpoch := positionEpoch + 1;
    }

    /** What ClearInternal did. A failure can leave the WAL without its commit position, and never without its records. */
    twostate predicate ClearedOrNot(ok: bool)
      reads this, disk
    {
      if ok && isOpen then
        && disk.wal == [] && disk.commit == None && disk.accepted == 0 && disk.discarded == old(disk.discarded) + old(disk.owed)
        && !pendingReplay && !peeked && positionEpoch == old(positionEpoch) + 1
      else
        && disk.wal == old(disk.wal) && disk.accepted == old(disk.accepted) && disk.discarded == old(disk.discarded)
        && (disk.commit == old(disk.commit) || (!ok && disk.commit == None))
        && pendingReplay == old(pendingReplay) && peeked == old(peeked) && positionEpoch == old(positionEpoch)
        && (ok || !disk.mode.Truncates())
    }

    method Clear() returns (ok: bool)
      requires Valid()
      modifies this`pendingReplay, this`peeked, this`positionEpoch, disk
      ensures Valid() && ClearedOrNot(ok) && disk.corrupt == old(disk.corrupt)
      ensures disk.mode == Stuck && isOpen ==> !ok && disk.commit == None
    {
      ok := ClearInternal();
    }

    /** Copies what cannot be read behind the quarantine file, in chunks. */
    method QuarantineTail(from: nat, to: nat) returns (ok: bool)
      requires Valid() && from <= to == |disk.wal|
      modifies disk
      ensures Valid()
      ensures disk.Now() == old(disk.Now()).(corrupt := disk.corrupt)
      ensures ok ==> disk.corrupt == old(disk.corrupt) + disk.wal[from..to]
      ensures disk.mode.Writes() ==> ok
    {
      hide Disk.Safe, Records, Rest, First, CrashSafe, IsBoundary, Position, IsRecordAt;
      ok := disk.Succeeds();
      if !ok {
        return;
      }
      var pos := from;
      while pos < to
        invariant from <= pos <= to
        invariant disk.Safe()
        invariant disk.Now() == old(disk.Now()).(corrupt := disk.corrupt)
        invariant disk.corrupt == old(disk.corrupt) + disk.wal[from..pos]
      {
        var n;
        ok, n := CopyChunk(pos, to);
        RangesJoin(disk.wal, from, pos, pos + n);
        Associative(old(disk.corrupt), disk.wal[from..pos], disk.wal[pos..pos + n]);
        if !ok {
          return;
        }
        pos := pos + n;
      }
    }

    method CopyChunk(pos: nat, to: nat) returns (ok: bool, n: nat)
      requires disk.Safe() && pos < to <= |disk.wal|
      modifies disk
      ensures disk.Safe() && n <= to - pos
      ensures disk.Now() == old(disk.Now()).(corrupt := disk.corrupt)
      ensures ok ==> n > 0 && disk.corrupt == old(disk.corrupt) + disk.wal[pos..pos + n]
      ensures disk.mode.Writes() ==> ok
    {
      var chunk := if to - pos < QUARANTINE_CHUNK then to - pos else QUARANTINE_CHUNK;
      var data := disk.PRead(pos, chunk);
      if data.None? || |data.value| == 0 {
        return false, 0;
      }
      ghost var m;
      ok, m := WriteAll(CorruptFile, data.value);
      assert data.value[..|data.value|] == data.value;
      n := |data.value|;
    }

    /** The length of the record at offset, as far as it fits into what remains. */
    method ReadLength(offset: nat, remaining: nat) returns (len: Length)
      requires offset + remaining == |disk.wal|
      ensures len == Unreadable ==> First(disk.wal[offset..]) == None
      ensures len.LengthOk? ==> First(disk.wal[offset..]).Some? && |First(disk.wal[offset..]).value| == len.bytes
      ensures len == ReadFailed ==> disk.mode == Faulty
    {
      var header := disk.PRead(offset, HEADER);
      if header.None? {
        return ReadFailed;
      }
      assert header.value == disk.wal[offset..][..|header.value|];
      if |header.value| != HEADER {
        return Unreadable;
      }
      var n := FromLittleEndian(header.value);
      if n == 0 || n > remaining - HEADER {
        return Unreadable;
      }
      return LengthOk(n);
    }

    method ReadData(offset: nat, len: nat) returns (data: Option<bytes>)
      requires offset <= |disk.wal| && First(disk.wal[offset..]).Some? && |First(disk.wal[offset..]).value| == len
      ensures data.Some? ==> First(disk.wal[offset..]) == data
      ensures data.None? ==> disk.mode == Faulty
    {
      var memory := disk.Succeeds();
      if !memory {
        return None;
      }
      data := disk.PRead(offset + HEADER, len);
      if data.Some? && |data.value| != len {
        return None;
      }
      if data.Some? {
        assert data.value == disk.wal[offset..][HEADER..HEADER + len];
      }
    }

    /** What cannot be read from offset on goes to the quarantine file, and the WAL is emptied. */
    method RemoveTail(offset: nat) returns (result: ReadResult, clearOk: bool)
      requires Valid() && offset < |disk.wal|
      modifies this`pendingReplay, this`peeked, this`positionEpoch, disk
      ensures Valid()
      ensures result == ReadDamaged || result == ReadStop
      ensures result == ReadDamaged ==> ClearedOrNot(clearOk) && disk.corrupt == old(disk.corrupt) + old(disk.wal)[offset..]
      ensures result == ReadStop ==> disk.Now() == old(disk.Now()).(corrupt := disk.corrupt) && SameFlags() && !disk.mode.Writes()
      ensures result == ReadDamaged ==> ClearIs(clearOk)
    {
      clearOk := true;
      assert disk.wal[offset..] == disk.wal[offset..|disk.wal|];
      var moved := QuarantineTail(offset, |disk.wal|);
      if !moved {
        return ReadStop, clearOk;
      }
      clearOk := ClearInternal();
      return ReadDamaged, clearOk;
    }

    /** What stands at offset. A piece of a record at the end is copied to the quarantine file, and the WAL is emptied. */
    method ReadRecord(offset: nat) returns (result: ReadResult, record: bytes, clearOk: bool)
      requires Valid()
      modifies this`pendingReplay, this`peeked, this`positionEpoch, disk
      ensures Valid()
      ensures result == ReadRecordOk ==> offset <= |disk.wal| && First(disk.wal[offset..]) == Some(record) && Untouched()
      ensures result == ReadEmpty ==> offset == old(|disk.wal|) && ClearedOrNot(clearOk) && disk.corrupt == old(disk.corrupt)
      ensures result == ReadDamaged ==> offset < old(|disk.wal|) && First(old(disk.wal)[offset..]) == None && ClearedOrNot(clearOk)
                                        && disk.corrupt == old(disk.corrupt) + old(disk.wal)[offset..]
      ensures result == ReadChanged ==> offset > |disk.wal| && Untouched()
      ensures result == ReadStop ==> disk.Now() == old(disk.Now()).(corrupt := disk.corrupt) && SameFlags()
      ensures result == ReadStop ==> disk.mode == Faulty
                                     || (disk.mode == Steady && offset < |disk.wal| && First(disk.wal[offset..]) == None)
      ensures result == ReadEmpty || result == ReadDamaged ==> ClearIs(clearOk)
    {
      hide Valid, Disk.Safe, Records, Rest, CrashSafe, IsBoundary, Position, IsRecordAt;
      record, clearOk := [], true;
      var sized := disk.Succeeds();
      if !sized {
        return ReadStop, record, clearOk;
      }
      var fileSize := |disk.wal|;
      if offset > fileSize {
        return ReadChanged, record, clearOk;
      }
      if fileSize - offset == 0 {
        clearOk := ClearInternal();
        return ReadEmpty, record, clearOk;
      }
      var len := ReadLength(offset, fileSize - offset);
      if len == ReadFailed {
        return ReadStop, record, clearOk;
      }
      if len == Unreadable {
        result, clearOk := RemoveTail(offset);
        return;
      }
      var data := ReadData(offset, len.bytes);
      if data.None? {
        return ReadStop, record, clearOk;
      }
      return ReadRecordOk, data.value, clearOk;
    }

    /** Whether the WAL was emptied. */
    ghost predicate ClearIs(clearOk: bool)
      reads this
    {
      (disk.mode.Truncates() ==> clearOk) && (disk.mode == Stuck && isOpen ==> !clearOk)
    }

    twostate predicate SameFlags()
      reads this
    {
      pendingReplay == old(pendingReplay) && peeked == old(peeked) && positionEpoch == old(positionEpoch)
    }

    twostate predicate Untouched()
      reads this, disk
    {
      SameFlags() && disk.Now() == old(disk.Now())
    }

    /* --- Replay --- */

    /** What other threads do while a Replay does not have the mutex. They can add records. Whole says that no failing Append left
        a piece of its record behind; it is always so if ftruncate does not fail. */
    method Others(calls: seq<Call>) returns (ghost grown: bytes, ghost arrived: seq<Record>, ghost whole: bool)
      requires Valid() && replaying && ValidCalls(calls)
      modifies this, disk
      ensures Valid() && replaying && isOpen == old(isOpen)
      ensures GrewBy(old(disk.Now()), disk.Now(), grown) && Later(old(Marked()), Marked(), disk.mode)
      ensures whole ==> grown == EncodeAll(arrived)
      ensures disk.mode.Truncates() ==> whole
      ensures calls == [] ==> grown == []
    {
      grown, arrived, whole := [], [], true;
      ghost var before, mark := disk.Now(), Marked();
      GrewByNothing(before);
      LaterAtOnce(mark, disk.mode);
      hide Valid, Disk.Safe, EncodeAll, Encode, Records, GrewBy, Later;
      for i := 0 to |calls|
        invariant Valid() && replaying && isOpen == old(isOpen)
        invariant GrewBy(before, disk.Now(), grown) && Later(mark, Marked(), disk.mode)
        invariant whole ==> grown == EncodeAll(arrived)
        invariant i == 0 ==> grown == []
        invariant disk.mode.Truncates() ==> whole
      {
        assert calls[i] in calls;
        ghost var more, one, w;
        ghost var middle, m := disk.Now(), Marked();
        more, one, w := OneCall(calls[i]);
        GrewTwice(before, middle, disk.Now(), grown, more);
        LaterTwice(mark, m, Marked(), disk.mode);
        EncodeAllConcat(arrived, one);
        grown, arrived, whole := grown + more, arrived + one, whole && w;
      }
    }

    method OneCall(call: Call) returns (ghost more: bytes, ghost arrived: seq<Record>, ghost whole: bool)
      requires Valid() && replaying && (call.CallAppend? ==> |call.data| < 0x1_0000_0000)
      modifies this, disk
      ensures Valid() && replaying && isOpen == old(isOpen)
      ensures GrewBy(old(disk.Now()), disk.Now(), more) && Later(old(Marked()), Marked(), disk.mode)
      ensures whole ==> more == EncodeAll(arrived)
      ensures disk.mode.Truncates() ==> whole
    {
      more, arrived, whole := [], [], true;
      assert disk.wal + [] == disk.wal && EncodeAll([]) == [];
      match call
      case CallAppend(data) =>
        more, arrived, whole := OtherAppend(data);
      case CallPeek =>
        var _, _ := Peek();
      case CallAck =>
        var _ := Ack();
      case CallReplay =>
        // The place is taken: the second Replay returns false at once
        assert replaying;
    }

    method OtherAppend(data: bytes) returns (ghost more: bytes, ghost arrived: seq<Record>, ghost whole: bool)
      requires Valid() && |data| < 0x1_0000_0000
      modifies this`pendingReplay, disk
      ensures Valid()
      ensures GrewBy(old(disk.Now()), disk.Now(), more)
      ensures whole ==> more == EncodeAll(arrived)
      ensures disk.mode.Truncates() ==> whole
    {
      var ok := Append(data);
      if ok && data != [] {
        EncodeOne(data);
        return Encode(data), [data], true;
      }
      if ok {
        return [], [], true;
      }
      ghost var n: nat :| n < |Encode(data)| && disk.wal == old(disk.wal) + Encode(data)[..n] && (n > 0 ==> !disk.mode.Truncates());
      return Encode(data)[..n], [], n == 0;
    }

    /** Hands the records to the consumer, one after the other, from the commit position on. Others call the WAL whenever the
        mutex is free: in front of the first read, in every turn of the script (until the consumer has said what it thinks of
        the record and the next one is read), and behind the last read. When the script is over the consumer says no. */
    method Replay(first: seq<Call>, script: seq<Turn>, last: seq<Call>) returns (result: bool, seen: seq<bytes>, ghost run: Run)
      requires Valid() && ValidCalls(first) && ValidScript(script) && ValidCalls(last)
      modifies this, disk
      ensures Valid() && isOpen == old(isOpen)
      ensures old(replaying) ==> !result && seen == [] && disk.Now() == old(disk.Now()) && replaying
      ensures !old(replaying) ==> !replaying
      ensures !old(replaying) ==> ReplayEffect(old(disk.Now()), disk.Now(), seen, run)
      ensures !old(replaying) && disk.mode != Faulty && run.started ==> Offset(Records(old(disk.wal)), run.start) == old(Position(disk.wal, disk.commit))
      ensures result ==> run.started && (isOpen ==> Progress(old(disk.Now()), disk.Now(), run))
      ensures disk.mode == Healthy && isOpen && !old(replaying) && (forall t :: t in script ==> t.answer == Accepted) ==>
                run.started && (run.accepted == |script| || (run.emptied && result))
      ensures disk.mode != Faulty && isOpen && !old(replaying) ==> Handed(script, old(disk.Now()), seen, run, result, disk.mode)
      ensures disk.mode.Truncates() ==> run.whole
      ensures NobodyCalls(first, script) && last == [] ==> run.grown == []
      ensures last == [] ==> run.behind == []
      ensures Later(old(Marked()), Marked(), disk.mode)
    {
      hide Valid, Disk.Safe, Records, Rest, First, CrashSafe, IsBoundary, Offset, Looping, EndedWith, ReplayEffect, IsOffset,
           PendingRecords, Position, Later,
           Progress, ValidCalls, ValidScript, NobodyCalls, LoopIs, Handed;
      seen, run := [], NotStarted;
      LaterAtOnce(Marked(), disk.mode);
      NothingReplayed(disk.Now());
      if replaying {
        return false, seen, run;
      }
      var ready, offset;
      ghost var start;
      ready, offset, start := BeginReplay();
      if !ready {
        return false, seen, run;
      }
      var ending, didReplay;
      ghost var before, mark := disk.Now(), Marked();
      offset, ending, didReplay, seen, run := ReplayLoop(first, script, offset, start);
      ghost var looped, loop := Marked(), run;
      InTimeIs(before, disk.Now(), seen, run, offset, ending, isOpen);
      EndedIs(before, disk.Now(), seen, run, offset, ending, isOpen);
      run := LastWindow(last, offset, ending, before, seen, run.(inTime := run.grown));
      ghost var left := Marked();
      result := EndReplay(offset, ending, didReplay, before, seen, run);
      LaterTwice(mark, looped, left, disk.mode);
      LaterTwice(mark, left, Marked(), disk.mode);
      if disk.mode != Faulty && isOpen {
        HandedIs(script, before, seen, loop, run, ending, disk.mode, result);
      }
    }

    ghost predicate NobodyCalls(first: seq<Call>, script: seq<Turn>) {
      first == [] && forall t :: t in script ==> t.calls == []
    }

    /** Takes the place of the replaying thread, and finds the position. */
    method BeginReplay() returns (ready: bool, offset: nat, ghost start: nat)
      requires Valid() && !replaying
      modifies this`replaying, this`commitChecked
      ensures Valid() && replaying == ready
      ensures disk.mode != Faulty ==> ready && offset == Position(disk.wal, disk.commit)
      ensures ready ==> start <= disk.accepted && start <= |Records(disk.wal)| && Offset(Records(disk.wal), start) == offset
    {
      ready, offset, start := false, 0, 0;
      replaying := true;
      var readable := disk.Succeeds();
      var sized := disk.Succeeds();
      if !readable || !sized {
        replaying := false;
        return;
      }
      offset := GetReplayPosition(|disk.wal|);
      start := AtBoundary(disk.wal, offset, disk.accepted);
      ready := true;
    }

    /** Between the last read and the end. */
    method LastWindow(calls: seq<Call>, offset: nat, ending: Ending, ghost s: Snapshot, ghost seen: seq<bytes>, ghost run: Run) returns (ghost run': Run)
      requires Valid() && replaying && ValidCalls(calls) && EndedWith(s, disk.Now(), seen, run, offset, ending, isOpen)
      modifies this, disk
      ensures Valid() && replaying && isOpen == old(isOpen)
      ensures EndedWith(s, disk.Now(), seen, run', offset, ending, isOpen)
      ensures run'.started == run.started && run'.start == run.start && run'.accepted == run.accepted && run'.emptied == run.emptied
      ensures disk.mode.Truncates() ==> run'.whole || !run.whole
      ensures run.grown <= run'.grown && run'.inTime == run.inTime
      ensures calls == [] ==> run'.grown == run.grown && run'.behind == run.behind
      ensures Later(old(Marked()), Marked(), disk.mode)
    {
      hide Valid, Disk.Safe, EncodeAll, Encode, Records, Rest, First, CrashSafe, Offset, EndedWith, ReplayEffect, IsOffset, Later;
      ghost var t := disk.Now();
      ghost var grown, arrived, whole;
      grown, arrived, whole := Others(calls);
      run' := EndGrows(s, t, disk.Now(), seen, run, offset, ending, isOpen, grown, arrived, whole);
    }

    /** The place of the replaying thread is given back. The position of what was accepted is saved, if the WAL was not
        emptied before. */
    method EndReplay(offset: nat, ending: Ending, didReplay: bool, ghost s: Snapshot, ghost seen: seq<bytes>, ghost run: Run) returns (result: bool)
      requires Valid() && EndedWith(s, disk.Now(), seen, run, offset, ending, isOpen)
      requires didReplay == (run.accepted > 0)
      modifies this`replaying, this`positionEpoch, disk
      ensures Valid() && !replaying
      ensures ReplayEffect(s, disk.Now(), seen, run)
      ensures result ==> run.started && (isOpen ==> Progress(s, disk.Now(), run))
      ensures run.emptied ==> result
      ensures disk.mode != Faulty ==> result == match ending case Emptied(ok) => ok case Stopped => didReplay case _ => false
      ensures Later(old(Marked()), Marked(), disk.mode)
    {
      hide Valid, Disk.Safe, Records, Rest, First, CrashSafe, IsBoundary, Offset, Position, PendingRecords, ReplayEffect,
           IsOffset, Progress, EndedWith, Later;
      LaterAtOnce(Marked(), disk.mode);
      EndedIs(s, disk.Now(), seen, run, offset, ending, isOpen);
      GiveBack();
      match ending
      case Emptied(clearOk) => result := clearOk;
      case Changed => result := false;
      case Threw => result := false;
      case Stopped =>
        result := false;
        if didReplay {
          result := SaveProgress(offset, s, seen, run);
        }
    }

    method GiveBack()
      requires Valid()
      modifies this`replaying
      ensures Valid() && !replaying
    {
      replaying := false;
    }

    /** Saves the position behind what was accepted. */
    method SaveProgress(offset: nat, ghost s: Snapshot, ghost seen: seq<bytes>, ghost run: Run) returns (result: bool)
      requires Valid() && ReplayEffect(s, disk.Now(), seen, run) && run.started && !run.emptied && run.accepted > 0
      requires IsOffset(Records(disk.wal), run.start + run.accepted, offset)
      modifies this`positionEpoch, disk
      ensures Valid() && ReplayEffect(s, disk.Now(), seen, run)
      ensures result ==> Progress(s, disk.Now(), run)
      ensures disk.mode != Faulty ==> result
      ensures Later(old(Marked()), Marked(), disk.mode)
    {
      hide Valid, Disk.Safe, Records, Rest, First, CrashSafe, IsBoundary, Offset, Position, PendingRecords, ReplayEffect,
           IsOffset, Progress;
      ghost var t := disk.Now();
      FileSizeFits();
      SavedPosition(s, t, seen, run, offset);
      result := StoreCommit(offset);
      SavedProgress(s, t, disk.commit, seen, run, offset);
    }

    lemma FileSizeFits()
      requires Valid()
      ensures |disk.wal| <= MAX_FILE
    {
    }

    method ReplayLoop(first: seq<Call>, script: seq<Turn>, startOffset: nat, ghost start: nat)
      returns (offset: nat, ending: Ending, didReplay: bool, seen: seq<bytes>, ghost run: Run)
      requires Valid() && ValidCalls(first) && ValidScript(script) && replaying
      requires start <= disk.accepted && start <= |Records(disk.wal)| && Offset(Records(disk.wal), start) == startOffset
      modifies this, disk
      ensures Valid() && isOpen == old(isOpen) && replaying
      ensures run.started && run.start == start && didReplay == (run.accepted > 0) && run.behind == []
      ensures EndedWith(old(disk.Now()), disk.Now(), seen, run, offset, ending, isOpen)
      ensures disk.mode == Healthy && (forall t :: t in script ==> t.answer == Accepted) ==>
                (isOpen ==> run.emptied) || run.accepted == |script|
      ensures disk.mode != Faulty ==> LoopIs(script, old(disk.Now()), seen, run, ending, disk.mode, isOpen)
      ensures disk.mode.Truncates() ==> run.whole
      ensures NobodyCalls(first, script) ==> run.grown == []
      ensures Later(old(Marked()), Marked(), disk.mode)
    {
      hide Valid, Disk.Safe, Records, Rest, First, CrashSafe, IsBoundary, Offset, IsRecordAt, Looping, EndedWith,
           ReplayEffect, IsOffset, Later, ValidCalls, Progress, LoopIs, AllRead, Leading;
      offset, didReplay, seen := startOffset, false, [];
      ghost var before, mark := disk.Now(), Marked();
      run := FirstWindow(first, start, startOffset);
      for turn := 0 to |script|
        invariant Valid() && isOpen == old(isOpen) && replaying
        invariant Looping(before, disk.Now(), seen, run, offset) && Later(mark, Marked(), disk.mode)
        invariant run.start == start && run.accepted == turn && didReplay == (turn > 0)
        invariant disk.mode.Truncates() ==> run.whole
        invariant NobodyCalls(first, script) ==> run.grown == []
        invariant forall k :: 0 <= k < turn ==> script[k].answer == Accepted
      {
        assert script[turn] in script;
        var ended;
        ghost var m, seen0 := Marked(), seen;
        LoopCounts(before, disk.Now(), seen, run, offset);
        ended, offset, seen, run := OneTurn(script[turn], offset, seen, before, run);
        LaterTwice(mark, m, Marked(), disk.mode);
        if ended.Some? {
          ending := ended.value;
          LoopEnds(script, turn, before, disk.Now(), seen0, seen, run, offset, ending, disk.mode, isOpen);
          EndedIs(before, disk.Now(), seen, run, offset, ending, isOpen);
          return;
        }
        didReplay := true;
      }
      ghost var m := Marked();
      offset, ending, seen, run := LastTurn(script, offset, seen, before, run);
      LaterTwice(mark, m, Marked(), disk.mode);
    }

    /** Between the start and the first read. */
    method FirstWindow(first: seq<Call>, ghost start: nat, offset: nat) returns (ghost run: Run)
      requires Valid() && ValidCalls(first) && replaying
      requires start <= disk.accepted && start <= |Records(disk.wal)| && Offset(Records(disk.wal), start) == offset
      modifies this, disk
      ensures Valid() && isOpen == old(isOpen) && replaying
      ensures Looping(old(disk.Now()), disk.Now(), [], run, offset) && Later(old(Marked()), Marked(), disk.mode)
      ensures run.start == start && run.accepted == 0 && (disk.mode.Truncates() ==> run.whole) && (first == [] ==> run.grown == [])
    {
      hide Valid, Disk.Safe, Records, Rest, First, CrashSafe, IsBoundary, Offset, IsRecordAt, Looping, IsOffset, Later, ValidCalls;
      run := Run(true, start, 0, [], [], true, false, [], [], []);
      ghost var before := disk.Now();
      LoopStarts(start, offset);
      ghost var grown, arrived, whole;
      grown, arrived, whole := Others(first);
      run := LoopWaits(before, before, disk.Now(), [], run, offset, grown, arrived, whole);
    }

    /** The script is over: the consumer says no to the next record. */
    method LastTurn(script: seq<Turn>, offset: nat, seen: seq<bytes>, ghost s: Snapshot, ghost run: Run)
      returns (offset': nat, ending: Ending, seen': seq<bytes>, ghost run': Run)
      requires Valid() && replaying && Looping(s, disk.Now(), seen, run, offset) && run.accepted == |script|
      requires forall t :: t in script ==> t.answer == Accepted
      modifies this, disk
      ensures Valid() && isOpen == old(isOpen) && replaying
      ensures run'.started && run'.start == run.start && run'.accepted == run.accepted && run'.behind == [] && run'.grown == run.grown
      ensures disk.mode.Truncates() ==> run'.whole || !run.whole
      ensures EndedWith(s, disk.Now(), seen', run', offset', ending, isOpen)
      ensures disk.mode != Faulty ==> LoopIs(script, s, seen', run', ending, disk.mode, isOpen)
      ensures Later(old(Marked()), Marked(), disk.mode)
    {
      hide Valid, Disk.Safe, Records, Rest, First, CrashSafe, IsBoundary, Offset, IsRecordAt, Looping, EndedWith,
           ReplayEffect, IsOffset, Later, Progress, LoopIs, AllRead, Leading;
      NoCallsAreValid();
      LoopCounts(s, disk.Now(), seen, run, offset);
      var ended;
      ended, offset', seen', run' := OneTurn(Turn([], Refused), offset, seen, s, run);
      ending := ended.value;
      AllAccepted(script);
      LoopEnds(script, |script|, s, disk.Now(), seen, seen', run', offset', ending, disk.mode, isOpen);
      EndedIs(s, disk.Now(), seen', run', offset', ending, isOpen);
    }

    lemma AllAccepted(script: seq<Turn>)
      requires forall t :: t in script ==> t.answer == Accepted
      ensures forall k :: 0 <= k < |script| ==> script[k].answer == Accepted
    {
    }

    lemma NoCallsAreValid()
      ensures ValidCalls([])
    {
    }

    lemma LoopStarts(start: nat, offset: nat)
      requires Valid() && start <= disk.accepted && start <= |Records(disk.wal)| && Offset(Records(disk.wal), start) == offset
      ensures Looping(disk.Now(), disk.Now(), [], Run(true, start, 0, [], [], true, false, [], [], []), offset)
    {
      StartsLooping(disk.Now(), start);
    }

    /** One record: it is read, the consumer gets it, and it says what it thinks of it. */
    method OneTurn(turn: Turn, offset: nat, seen: seq<bytes>, ghost s: Snapshot, ghost run: Run)
      returns (ended: Option<Ending>, offset': nat, seen': seq<bytes>, ghost run': Run)
      requires Valid() && replaying && ValidCalls(turn.calls) && Looping(s, disk.Now(), seen, run, offset)
      modifies this, disk
      ensures Valid() && isOpen == old(isOpen) && replaying
      ensures run'.start == run.start && (disk.mode.Truncates() ==> run'.whole || !run.whole)
      ensures turn.calls == [] ==> run'.grown == run.grown
      ensures ended.None? ==> turn.answer == Accepted && run'.accepted == run.accepted + 1
                              && Looping(s, disk.Now(), seen', run', offset')
      ensures ended.Some? ==> run'.accepted == run.accepted && EndedWith(s, disk.Now(), seen', run', offset', ended.value, isOpen)
      ensures disk.mode == Healthy && turn.answer == Accepted && ended.Some? ==> ended.value == Emptied(true)
      ensures ended.Some? ==> seen' == seen || (|seen'| == |seen| + 1 && turn.answer != Accepted
                                               && ended.value == if turn.answer == Refused then Stopped else Threw)
      ensures disk.mode != Faulty && ended.Some? && seen' == seen ==>
                run'.start + run'.accepted == |Records(s.wal + run'.grown)|
                && (isOpen ==> AllRead(s.wal + run'.grown, ended.value, disk.mode))
      ensures run'.behind == [] && Later(old(Marked()), Marked(), disk.mode)
    {
      hide Valid, Disk.Safe, Records, Rest, First, CrashSafe, IsBoundary, Offset, IsRecordAt, Looping, EndedWith,
           ReplayEffect, IsOffset, IsRecord, Later, AllRead;
      ghost var mark := Marked();
      var record;
      ended, record, run' := ReadNext(offset, s, seen, run);
      offset', seen' := offset, seen;
      if ended.Some? {
        return;
      }
      ghost var m := Marked();
      run' := Window(turn, offset, record, s, seen, run');
      LaterTwice(mark, m, Marked(), disk.mode);
      seen' := seen + [record];
      match turn.answer
      case Accepted => offset' := offset + HEADER + |record|;
      case Refused => ended := Some(Stopped);
      case Thrown => ended := Some(Threw);
    }

    /** The next record of a Replay, or its end. */
    method ReadNext(offset: nat, ghost s: Snapshot, ghost seen: seq<bytes>, ghost run: Run)
      returns (ended: Option<Ending>, record: bytes, ghost run': Run)
      requires Valid() && replaying && Looping(s, disk.Now(), seen, run, offset)
      modifies this`pendingReplay, this`peeked, this`positionEpoch, disk
      ensures Valid()
      ensures ended.None? ==> disk.Now() == old(disk.Now()) && run' == run && IsRecord(disk.wal, run.start + run.accepted, record)
      ensures ended.Some? ==> run' == run.(emptied := run'.emptied) && EndedWith(s, disk.Now(), seen, run', offset, ended.value, isOpen)
      ensures disk.mode == Healthy && ended.Some? ==> ended.value == Emptied(true)
      ensures disk.mode != Faulty && ended.Some? ==> run.start + run.accepted == |Records(s.wal + run.grown)|
                                                     && (isOpen ==> AllRead(s.wal + run.grown, ended.value, disk.mode))
      ensures run'.behind == [] && Later(old(Marked()), Marked(), disk.mode)
    {
      hide Valid, Disk.Safe, Records, Rest, First, CrashSafe, IsBoundary, Offset, IsRecordAt, Looping, EndedWith, IsOffset;
      run' := run;
      NextIs(offset, s, seen, run);
      ghost var t := disk.Now();
      var result, clearOk;
      result, record, clearOk := ReadRecord(offset);
      if result == ReadRecordOk {
        return None, record, run';
      }
      if result == ReadEmpty || result == ReadDamaged {
        ended := Some(Emptied(clearOk));
        if clearOk && isOpen {
          run' := run.(emptied := true);
          EmptiedEffect(s, t, disk.Now(), seen, run, offset);
          return;
        }
      } else {
        ended := Some(if result == ReadChanged then Changed else Stopped);
      }
      KeptEffect(s, t, disk.Now(), seen, run, offset, ended.value, isOpen);
    }

    lemma NextIs(offset: nat, s: Snapshot, seen: seq<bytes>, run: Run)
      requires Valid() && Looping(s, disk.Now(), seen, run, offset)
      ensures var j := run.start + run.accepted;
              && run.behind == [] && j <= |Records(disk.wal)| && offset <= |disk.wal|
              && First(disk.wal[offset..]) == (if j < |Records(disk.wal)| then Some(Records(disk.wal)[j]) else None)
              && (offset == |disk.wal| ==> j == |Records(disk.wal)|) && disk.wal[|disk.wal|..] == [] && disk.wal == s.wal + run.grown
              && (j == |Records(disk.wal)| && offset < |disk.wal| ==> Rest(disk.wal) != [])
      ensures disk.accepted <= |Records(disk.wal)| && disk.owed == Records(disk.wal)[disk.accepted..]
    {
      NextOf(s, disk.Now(), seen, run, offset);
    }

    /** The consumer has the record, and the mutex is free. */
    method Window(turn: Turn, offset: nat, record: bytes, ghost s: Snapshot, ghost seen: seq<bytes>, ghost run: Run) returns (ghost run': Run)
      requires Valid() && replaying && ValidCalls(turn.calls) && Looping(s, disk.Now(), seen, run, offset)
      requires IsRecord(disk.wal, run.start + run.accepted, record)
      modifies this, disk
      ensures Valid() && isOpen == old(isOpen) && replaying
      ensures run'.start == run.start && (disk.mode.Truncates() ==> run'.whole || !run.whole)
      ensures turn.calls == [] ==> run'.grown == run.grown
      ensures run'.accepted == run.accepted + if turn.answer == Accepted then 1 else 0
      ensures turn.answer == Accepted ==> Looping(s, disk.Now(), seen + [record], run', offset + HEADER + |record|)
      ensures run'.behind == [] && Later(old(Marked()), Marked(), disk.mode)
      ensures turn.answer != Accepted ==> EndedWith(s, disk.Now(), seen + [record], run', offset, Stopped, isOpen)
                                          && EndedWith(s, disk.Now(), seen + [record], run', offset, Threw, isOpen)
    {
      ghost var t := disk.Now();
      hide Valid, Disk.Safe, EncodeAll, Encode, Records, Rest, First, CrashSafe, Offset, Looping, EndedWith, ReplayEffect,
           IsOffset, IsRecord, Later;
      ghost var grown, arrived, whole;
      grown, arrived, whole := Others(turn.calls);
      run' := LoopGrows(s, t, disk.Now(), seen, run, offset, record, grown, arrived, whole);
      if turn.answer == Accepted {
        run' := ConsumerAccepts(offset, record, s, seen, run');
      } else {
        LoopRefuses(s, disk.Now(), seen, run', offset, record, isOpen);
      }
    }

    ghost method ConsumerAccepts(offset: nat, record: bytes, s: Snapshot, seen: seq<bytes>, run: Run) returns (run': Run)
      requires Valid() && Looping(s, disk.Now(), seen, run, offset) && IsRecord(disk.wal, run.start + run.accepted, record)
      modifies disk`accepted, disk`owed
      ensures Valid()
      ensures run' == run.(accepted := run.accepted + 1)
      ensures Looping(s, disk.Now(), seen + [record], run', offset + HEADER + |record|)
    {
      LoopRecord(s, disk.Now(), seen, run, offset, record);
      ghost var u := disk.Now();
      hide Disk.Safe, Records, Rest, First, CrashSafe, Position, Offset, Looping, IsOffset, IsRecord;
      disk.Accept(run.start + run.accepted);
      run' := LoopAccepts(s, u, disk.Now(), seen, run, offset, record);
    }

    ghost predicate Fits(size: nat, len: nat) {
      && (maxSize == 0 || size + HEADER + len <= maxSize)
      && size + HEADER + len <= MAX_FILE
    }

    /** The first record which is pending. Neither the file nor what is pending changes. */
    method Peek() returns (ok: bool, record: bytes)
      requires Valid()
      modifies this`pendingReplay, this`commitChecked, this`peeked, this`peekOffset, this`peekLen, this`peekEpoch, this`peekRecord,
               this`positionEpoch, disk
      ensures Valid()
      ensures ok ==> peeked && peekEpoch == positionEpoch && |record| == peekLen && peekRecord == record && disk.Now() == old(disk.Now())
                     && peekOffset <= |disk.wal| && First(disk.wal[peekOffset..]) == Some(record)
      ensures !ok ==> !peeked && record == []
      ensures old(replaying) ==> !ok && disk.Now() == old(disk.Now()) && positionEpoch == old(positionEpoch)
                                 && pendingReplay == old(pendingReplay)
      ensures disk.wal == old(disk.wal) || (disk.wal == [] && old(disk.owed) == [])
      ensures disk.discarded == old(disk.discarded)
      ensures disk.mode.Truncates() ==> Pending() == old(Pending())
      ensures disk.mode != Faulty && ok ==> Pending() != [] && record == Pending()[0] && peekOffset == Position(disk.wal, disk.commit)
      ensures disk.mode != Faulty && old(isOpen && !replaying && pendingReplay) ==> (ok <==> old(Pending()) != [])
    {
      hide Disk.Safe, Records, Rest, First, CrashSafe, IsBoundary, PendingRecords, Position, IsRecordAt;
      record, peeked := [], false;
      if !isOpen || replaying || !pendingReplay {
        return false, [];
      }
      var sized := disk.Succeeds();
      if !sized {
        return false, [];
      }
      var result, offset;
      result, offset, record := ReadOldest();
      if result != ReadRecordOk {
        return false, [];
      }
      peeked, peekOffset, peekLen, peekEpoch, peekRecord := true, offset, |record|, positionEpoch, record;
      ok := true;
    }

    lemma OwesNothing()
      requires Valid()
      ensures disk.accepted >= |Records(disk.wal)| ==> disk.owed == []
    {
    }

    /** Finds the position and reads the record there. */
    method ReadOldest() returns (result: ReadResult, offset: nat, record: bytes)
      requires Valid() && !peeked
      modifies this`pendingReplay, this`commitChecked, this`peeked, this`positionEpoch, disk
      ensures Valid() && !peeked
      ensures result == ReadRecordOk ==> disk.Now() == old(disk.Now()) && IsRecordAt(disk.wal, disk.accepted, offset, record)
                                         && offset <= |disk.wal| && First(disk.wal[offset..]) == Some(record) && SameFlags()
      ensures disk.wal == old(disk.wal) || (disk.wal == [] && old(disk.owed) == [])
      ensures disk.discarded == old(disk.discarded)
      ensures disk.mode != Faulty && result == ReadRecordOk ==>
                offset == Position(disk.wal, disk.commit) && old(Pending()) != [] && record == old(Pending())[0]
      ensures disk.mode != Faulty && result != ReadRecordOk ==> old(Pending()) == [] && (disk.mode.Truncates() ==> Pending() == [])
    {
      hide Valid, Disk.Safe, Records, Rest, First, CrashSafe, IsBoundary, Offset;
      offset := GetReplayPosition(|disk.wal|);
      ghost var before := disk.Now();
      ghost var k := AtBoundary(disk.wal, offset, disk.accepted);
      OwesNothing();
      var clearOk;
      result, record, clearOk := ReadRecord(offset);
      if result == ReadRecordOk {
        RecordIsThere(disk.wal, disk.accepted, k);
      } else if disk.mode.Truncates() {
        StillNothing(before, disk.Now());
      }
    }

    /** The record of the last Peek leaves what is pending, if it is still the oldest one. */
    method Ack() returns (ok: bool)
      requires Valid()
      modifies this`pendingReplay, this`peeked, this`positionEpoch, disk
      ensures Valid() && !peeked
      ensures !old(AckIsDue()) ==> !ok && disk.Now() == old(disk.Now()) && positionEpoch == old(positionEpoch)
      ensures old(AckIsDue()) ==> AckEffect(old(disk.Now()), disk.Now(), peekOffset, peekRecord, ok)
      ensures ok && disk.mode.Truncates() ==> old(Pending()) == [peekRecord] + Pending()
      ensures disk.mode != Faulty && old(AckIsDue()) && (disk.mode.Truncates() || peekOffset + HEADER + peekLen != old(|disk.wal|)) ==> ok
    {
      hide Disk.Safe, Disk.Settled, Records, Rest, First, IsRecordAt, Position, PendingRecords, AckEffect;
      if !peeked {
        return false;
      }
      PeekIsAtPosition();
      ghost var before := disk.Now();
      peeked := false;
      if !isOpen || replaying || peekEpoch != positionEpoch {
        return false;
      }
      ok := AckPeeked();
      AckTakesRecord(before, disk.Now(), peekOffset, peekRecord, ok);
    }

    lemma PeekIsAtPosition()
      requires Valid()
      ensures AckIsDue() && disk.mode.Truncates() ==> peekOffset == Position(disk.wal, disk.commit)
    {
    }

    method AckPeeked() returns (ok: bool)
      requires Valid() && isOpen && !peeked && IsRecordAt(disk.wal, disk.accepted, peekOffset, peekRecord) && peekLen == |peekRecord|
      modifies this`pendingReplay, this`peeked, this`positionEpoch, disk
      ensures Valid() && !peeked
      ensures AckEffect(old(disk.Now()), disk.Now(), peekOffset, peekRecord, ok)
      ensures disk.mode != Faulty && (disk.mode.Truncates() || peekOffset + HEADER + peekLen != old(|disk.wal|)) ==> ok
    {
      hide Valid, Disk.Safe, Records, Rest, First, CrashSafe, Offset, IsRecordAt, IsIndexOf, PendingRecords, Position,
           AckEffect, AckedAt;
      ghost var before := disk.Now();
      ghost var p := PeekedRecord();
      ok := Acknowledge(p);
      AckDone(before, disk.Now(), p, peekOffset, peekRecord, ok);
    }

    lemma PeekedRecord() returns (p: nat)
      requires Valid() && IsRecordAt(disk.wal, disk.accepted, peekOffset, peekRecord)
      ensures p <= disk.accepted && IsIndexOf(Records(disk.wal), p, peekOffset, peekRecord) && CrashSafe(disk.Now())
    {
      hide Records, First, Rest, IsRecordAt;
      p := PeekedIndex(disk.Now(), peekOffset, peekRecord);
    }

    ghost predicate AckIsDue()
      reads this
    {
      peeked && isOpen && !replaying && peekEpoch == positionEpoch
    }

    /** Record p, which was peeked, is accepted: the position moves behind it, or the WAL is emptied. */
    method Acknowledge(ghost p: nat) returns (ok: bool)
      requires Valid() && isOpen && !peeked && CrashSafe(disk.Now())
      requires p <= disk.accepted && IsIndexOf(Records(disk.wal), p, peekOffset, peekRecord) && peekLen == |peekRecord|
      modifies this`pendingReplay, this`peeked, this`positionEpoch, disk
      ensures Valid() && !peeked
      ensures AckedAt(old(disk.Now()), disk.Now(), p, peekOffset + HEADER + peekLen, ok)
      ensures disk.mode != Faulty && (disk.mode.Truncates() || peekOffset + HEADER + peekLen != old(|disk.wal|)) ==> ok
    {
      hide Disk.Safe, PeekStands, Records, Rest, First, CrashSafe, IsBoundary, Offset, Position, PendingRecords, AckedAt;
      ghost var before := disk.Now();
      var next := peekOffset + HEADER + peekLen;
      BehindRecord(before, p, next);
      NotAcked(before, p, next);
      var sized := disk.Succeeds();
      if !sized || next > |disk.wal| {
        return false;
      }
      ok := AcceptBehind(p, next);
    }

    method AcceptBehind(ghost p: nat, next: nat) returns (ok: bool)
      requires Valid() && isOpen && !peeked && p <= disk.accepted && p < |Records(disk.wal)| && CrashSafe(disk.Now())
      requires next == Offset(Records(disk.wal), p + 1) <= |disk.wal|
      requires IsBoundary(disk.wal, next, if p == disk.accepted then p + 1 else disk.accepted)
      requires next == |disk.wal| ==> p + 1 == |Records(disk.wal)|
      requires disk.owed == Records(disk.wal)[disk.accepted..]
      modifies this`pendingReplay, this`peeked, this`positionEpoch, disk
      ensures Valid() && !peeked
      ensures AckedAt(old(disk.Now()), disk.Now(), p, next, ok)
      ensures disk.mode != Faulty && (disk.mode.Truncates() || next != old(|disk.wal|)) ==> ok
    {
      hide Valid, Disk.Safe, Records, Rest, First, CrashSafe, IsBoundary, Offset, AckedAt, MovedBehind;
      ghost var before := disk.Now();
      NotAcked(before, p, next);
      AcceptPeeked(p);
      ghost var accepted := disk.Now();
      ok := MoveBehind(p, next);
      AckedBehind(before, accepted, disk.Now(), p, next, ok);
      if !ok {
        TakeBack(before);
      }
    }

    ghost method AcceptPeeked(p: nat)
      requires Valid() && !peeked && p <= disk.accepted && p < |Records(disk.wal)|
      modifies disk`accepted, disk`owed
      ensures Valid() && disk.Now() == AcceptedAt(old(disk.Now()), p)
    {
      hide Records, CrashSafe;
      disk.Accept(p);
    }

    ghost method TakeBack(before: Snapshot)
      requires Valid() && !peeked && CrashSafe(before) && before.owed == Records(before.wal)[before.accepted..]
      requires before.accepted <= disk.accepted && IsBoundary(disk.wal, CommitValue(disk.commit), before.accepted)
      requires disk.Now() == before.(commit := disk.commit, accepted := disk.accepted, owed := disk.owed)
      modifies disk`accepted, disk`owed
      ensures Valid() && disk.Now() == before.(commit := disk.commit)
    {
      hide Records, CrashSafe;
      disk.Unaccept(before.accepted);
    }

    method MoveBehind(ghost p: nat, next: nat) returns (ok: bool)
      requires Valid() && isOpen && !peeked && next <= |disk.wal|
      requires p + 1 <= disk.accepted && p < |Records(disk.wal)| && Offset(Records(disk.wal), p + 1) == next
      requires IsBoundary(disk.wal, next, disk.accepted)
      requires next == |disk.wal| ==> p + 1 == |Records(disk.wal)|
      modifies this`pendingReplay, this`peeked, this`positionEpoch, disk
      ensures Valid() && !peeked
      ensures MovedBehind(old(disk.Now()), disk.Now(), p, next, ok)
      ensures disk.mode != Faulty && (disk.mode.Truncates() || next != old(|disk.wal|)) ==> ok
    {
      if next == |disk.wal| {
        ok := ClearInternal();
        NothingIsPending(disk.commit);
      } else {
        ok := StoreCommit(next);
        PendingBehind(disk.wal, disk.commit, p + 1, next);
      }
    }
  }

  /** The position is behind record p, or (after a failure) where it was or at the start, and nothing else changed. */
  ghost predicate MovedBehind(s: Snapshot, t: Snapshot, p: nat, next: nat, ok: bool) {
    && p < |Records(s.wal)| && t.corrupt == s.corrupt && t.discarded == s.discarded && t.owed == s.owed
    && if ok then
         PendingRecords(t.wal, t.commit) == Records(s.wal)[p + 1..] && t.wal == (if next == |s.wal| then [] else s.wal)
       else
         t.wal == s.wal && t.accepted == s.accepted && (t.commit == s.commit || CommitValue(t.commit) == 0)
  }

  /** The same with record p accepted. */
  ghost predicate AckedAt(s: Snapshot, t: Snapshot, p: nat, next: nat, ok: bool) {
    && p < |Records(s.wal)| && t.corrupt == s.corrupt && t.discarded == s.discarded
    && if ok then
         && PendingRecords(t.wal, t.commit) == Records(s.wal)[p + 1..] && t.wal == (if next == |s.wal| then [] else s.wal)
         && t.owed == (if s.accepted == p && s.owed != [] then s.owed[1..] else s.owed)
       else
         t.wal == s.wal && t.accepted == s.accepted && t.owed == s.owed
  }

  ghost function AcceptedAt(s: Snapshot, p: nat): Snapshot {
    if p == s.accepted then s.(accepted := p + 1, owed := if s.owed != [] then s.owed[1..] else []) else s
  }

  lemma NotAcked(s: Snapshot, p: nat, next: nat)
    requires p < |Records(s.wal)|
    ensures forall c :: AckedAt(s, s.(commit := c), p, next, false)
    ensures s == s.(commit := s.commit)
  {
  }

  lemma AckedBehind(s: Snapshot, mid: Snapshot, t: Snapshot, p: nat, next: nat, ok: bool)
    requires CrashSafe(s) && p <= s.accepted && mid == AcceptedAt(s, p) && MovedBehind(mid, t, p, next, ok)
    ensures ok ==> AckedAt(s, t, p, next, true)
    ensures !ok ==> IsBoundary(s.wal, CommitValue(t.commit), s.accepted) && t == mid.(commit := t.commit)
  {
    if !ok {
      UnacceptIsSafe(s, t.commit);
    }
  }

  /** What an Ack of the record at o did. If it says true, what is pending is what was behind that record: exactly the record
      itself is gone from the front if and only if the position was at it. The record is not owed any more if it was the first
      one which was not accepted, and nothing else changes for what is owed. If it says false no record was accepted and none
      is gone. */
  ghost predicate AckEffect(s: Snapshot, t: Snapshot, o: nat, record: bytes, ok: bool) {
    var before, after, next := PendingRecords(s.wal, s.commit), PendingRecords(t.wal, t.commit), o + HEADER + |record|;
    && t.corrupt == s.corrupt && t.discarded == s.discarded
    && (!ok ==> t.wal == s.wal && t.accepted == s.accepted && t.owed == s.owed)
    && (ok ==> next <= |s.wal| && after == Records(s.wal[next..]) && t.wal == if next == |s.wal| then [] else s.wal)
    && (ok ==> (Position(s.wal, s.commit) == o <==> before == [record] + after))
    && (ok ==> t.owed == if IsOffset(Records(s.wal), s.accepted, o) && s.owed != [] then s.owed[1..] else s.owed)
  }

  lemma AckTakesRecord(s: Snapshot, t: Snapshot, o: nat, record: bytes, ok: bool)
    requires AckEffect(s, t, o, record, ok)
    ensures ok && Position(s.wal, s.commit) == o ==> PendingRecords(s.wal, s.commit) == [record] + PendingRecords(t.wal, t.commit)
  {
  }

  /** Where the first read behind Init starts: a commit position inside the file is checked against the records. */
  ghost function CheckedPosition(wal: bytes, commit: Option<bytes>): (p: nat)
  {
    var p := Position(wal, commit);
    if 0 < p < |wal| && !IsBoundary(wal, p, |Records(wal)|) then 0 else p
  }

  lemma NothingIsPending(commit: Option<bytes>)
    ensures PendingRecords([], commit) == [] && Records([]) == []
  {
  }

  lemma PendingBehind(wal: bytes, commit: Option<bytes>, k: nat, o: nat)
    requires k <= |Records(wal)| && Offset(Records(wal), k) == o
    ensures CommitValue(commit) == o ==> PendingRecords(wal, commit) == Records(wal)[k..]
  {
    ParseFrom(wal, k);
  }

  lemma UnacceptIsSafe(s: Snapshot, commit: Option<bytes>)
    requires CrashSafe(s) && (commit == s.commit || CommitValue(commit) == 0)
    ensures IsBoundary(s.wal, CommitValue(commit), s.accepted)
  {
    assert IsOffset(Records(s.wal), 0, 0);
  }

  /** The end of a record is the start of the next one, or of nothing if it is the end of the file. */
  lemma BehindRecord(s: Snapshot, p: nat, next: nat)
    requires CrashSafe(s) && p <= s.accepted && p < |Records(s.wal)|
    requires next == Offset(Records(s.wal), p) + HEADER + |Records(s.wal)[p]|
    ensures next == Offset(Records(s.wal), p + 1) <= |s.wal|
    ensures IsBoundary(s.wal, next, p + 1)
    ensures IsBoundary(s.wal, next, if p == s.accepted then p + 1 else s.accepted)
    ensures next == |s.wal| ==> p + 1 == |Records(s.wal)|
    ensures Records(s.wal[next..]) == Records(s.wal)[p + 1..]
  {
    OffsetStep(Records(s.wal), p);
    ParseFrom(s.wal, p + 1);
    assert IsOffset(Records(s.wal), p + 1, next);
  }

  lemma PeekedIndex(s: Snapshot, o: nat, record: bytes) returns (p: nat)
    requires CrashSafe(s) && IsRecordAt(s.wal, s.accepted, o, record)
    ensures p <= s.accepted && IsIndexOf(Records(s.wal), p, o, record)
    ensures o + HEADER + |record| <= |s.wal| && Records(s.wal[o + HEADER + |record|..]) == Records(s.wal)[p + 1..]
  {
    hide Records, Rest, First, CrashSafe, Offset;
    p :| p <= s.accepted && IsIndexOf(Records(s.wal), p, o, record);
    BehindRecord(s, p, o + HEADER + |record|);
  }

  lemma AtBoundary(wal: bytes, o: nat, limit: nat) returns (k: nat)
    requires IsBoundary(wal, o, limit)
    ensures k <= limit && k <= |Records(wal)| && Offset(Records(wal), k) == o <= |wal|
    ensures First(wal[o..]) == if k < |Records(wal)| then Some(Records(wal)[k]) else None
    ensures Records(wal[o..]) == Records(wal)[k..]
  {
    k :| k <= limit && IsOffset(Records(wal), k, o);
    NextRecord(wal, k);
    ParseFrom(wal, k);
  }

  lemma RecordIsThere(wal: bytes, accepted: nat, k: nat)
    requires k <= accepted && k < |Records(wal)|
    ensures IsRecordAt(wal, accepted, Offset(Records(wal), k), Records(wal)[k])
  {
    assert IsIndexOf(Records(wal), k, Offset(Records(wal), k), Records(wal)[k]);
  }

  /** If nothing is pending, and the WAL is as it was, or emptied, nothing is pending. */
  lemma StillNothing(s: Snapshot, t: Snapshot)
    requires PendingRecords(s.wal, s.commit) == []
    requires t.wal == [] || (t.wal == s.wal && t.commit == s.commit)
    ensures PendingRecords(t.wal, t.commit) == []
  {
  }

  /** A process reads from the record which the commit position says. */
  lemma PositionIsBoundary(s: Snapshot) returns (k: nat)
    requires CrashSafe(s)
    ensures k <= s.accepted && IsOffset(Records(s.wal), k, Position(s.wal, s.commit))
    ensures PendingRecords(s.wal, s.commit) == Records(s.wal)[k..]
  {
    k :| k <= s.accepted && IsOffset(Records(s.wal), k, CommitValue(s.commit));
    ParseFrom(s.wal, k);
  }

  /** Moving the position behind record p takes exactly record p from the front of what is pending if and only if the position
      was at record p. */
  lemma AckMovesOne(s: Snapshot, p: nat)
    requires CrashSafe(s) && p < |Records(s.wal)|
    ensures var rs, pending := Records(s.wal), PendingRecords(s.wal, s.commit);
            Position(s.wal, s.commit) == Offset(rs, p) <==> pending == [rs[p]] + rs[p + 1..]
    ensures s.accepted <= |Records(s.wal)|
    ensures IsOffset(Records(s.wal), s.accepted, Offset(Records(s.wal), p)) <==> s.accepted == p
  {
    var rs := Records(s.wal);
    var k := PositionIsBoundary(s);
    SameOffset(rs, k, p);
    SameOffset(rs, s.accepted, p);
    if rs[k..] == [rs[p]] + rs[p + 1..] {
      assert |rs| - k == 1 + |rs| - (p + 1);
    }
    if k == p {
      assert rs[k..] == [rs[p]] + rs[p + 1..];
    }
  }

  lemma AckDone(s: Snapshot, t: Snapshot, p: nat, o: nat, record: bytes, ok: bool)
    requires CrashSafe(s) && p <= s.accepted && IsIndexOf(Records(s.wal), p, o, record)
    requires AckedAt(s, t, p, o + HEADER + |record|, ok)
    ensures AckEffect(s, t, o, record, ok)
  {
    hide Records, Rest, First, CrashSafe, PendingRecords, Position, Offset;
    AckMovesOne(s, p);
    BehindRecord(s, p, o + HEADER + |record|);
  }

  lemma SameOffset(rs: seq<Record>, a: nat, b: nat)
    requires a <= |rs| && b <= |rs|
    ensures Offset(rs, a) == Offset(rs, b) <==> a == b
  {
    if a < b {
      OffsetIncreases(rs, a, b);
    } else if b < a {
      OffsetIncreases(rs, b, a);
    }
  }

  /** More bytes at the end of the WAL file, and more which is owed for it. Nothing else changed. */
  ghost predicate GrewBy(s: Snapshot, t: Snapshot, x: bytes) {
    t == s.(wal := s.wal + x, owed := t.owed)
  }

  lemma GrewByNothing(s: Snapshot)
    ensures GrewBy(s, s, []) && EncodeAll([]) == []
  {
    assert s.wal + [] == s.wal;
  }

  lemma GrewTwice(s: Snapshot, t: Snapshot, u: Snapshot, x: bytes, y: bytes)
    requires GrewBy(s, t, x) && GrewBy(t, u, y)
    ensures GrewBy(s, u, x + y)
  {
    assert s.wal + x + y == s.wal + (x + y);
  }

  /** This record stands at offset o, and all records before it were accepted. */
  ghost predicate IsRecordAt(wal: bytes, accepted: nat, o: nat, record: bytes) {
    exists p: nat :: p <= accepted && IsIndexOf(Records(wal), p, o, record)
  }

  ghost predicate IsIndexOf(rs: seq<Record>, p: nat, o: nat, record: bytes) {
    p < |rs| && Offset(rs, p) == o && rs[p] == record
  }

  /** Bytes behind the records move neither the commit position nor the record at a position. */
  lemma RecordsStay(s: Snapshot, x: bytes, o: nat, r: bytes)
    requires CrashSafe(s)
    ensures Position(s.wal + x, s.commit) == Position(s.wal, s.commit) == CommitValue(s.commit)
    ensures IsRecordAt(s.wal, s.accepted, o, r) ==> IsRecordAt(s.wal + x, s.accepted, o, r)
  {
    var k: nat :| k <= s.accepted && IsOffset(Records(s.wal), k, CommitValue(s.commit));
    ParseFrom(s.wal, k);
    ParseExtends(s.wal, x);
    if IsRecordAt(s.wal, s.accepted, o, r) {
      var p: nat :| p <= s.accepted && IsIndexOf(Records(s.wal), p, o, r);
      OffsetOfPrefix(Records(s.wal), Records(s.wal + x), p);
      assert IsIndexOf(Records(s.wal + x), p, o, r);
    }
  }

  lemma PositionsOf(s: Snapshot)
    requires CrashSafe(s)
    ensures IsBoundary(s.wal, 0, s.accepted) && IsBoundary(s.wal, Position(s.wal, s.commit), s.accepted)
    ensures IsBoundary(s.wal, Position(s.wal, s.commit), |Records(s.wal)|)
  {
    RecordsStay(s, [], 0, []);
    assert s.wal + [] == s.wal;
    assert IsOffset(Records(s.wal), 0, 0);
    BoundaryMonotonic(s.wal, CommitValue(s.commit), s.accepted, |Records(s.wal)|);
  }

  lemma NoOffsetBehind(rs: seq<Record>, k: nat, o: nat)
    requires k == |rs| && Offset(rs, k) < o
    ensures forall j: nat :: !IsOffset(rs, j, o)
  {
    forall j: nat ensures !IsOffset(rs, j, o) {
      if j < k {
        OffsetIncreases(rs, j, k);
      }
    }
  }

  lemma NoOffsetBetween(rs: seq<Record>, k: nat, o: nat)
    requires 0 < k <= |rs| && Offset(rs, k - 1) < o < Offset(rs, k)
    ensures forall j: nat :: !IsOffset(rs, j, o)
  {
    forall j: nat ensures !IsOffset(rs, j, o) {
      if j < k - 1 {
        OffsetIncreases(rs, j, k - 1);
      } else if k < j <= |rs| {
        OffsetIncreases(rs, k, j);
      }
    }
  }

  lemma NothingReplayed(s: Snapshot)
    ensures ReplayEffect(s, s, [], NotStarted)
  {
  }

  lemma LaterAtOnce(a: Mark, mode: Mode)
    ensures Later(a, a, mode)
  {
  }

  lemma LaterTwice(a: Mark, b: Mark, c: Mark, mode: Mode)
    requires Later(a, b, mode) && Later(b, c, mode)
    ensures Later(a, c, mode)
  {
  }

  lemma LoopCounts(s: Snapshot, t: Snapshot, seen: seq<bytes>, run: Run, offset: nat)
    requires Looping(s, t, seen, run, offset)
    ensures |seen| == run.accepted
  {
  }

  lemma LoopEnds(script: seq<Turn>, turn: nat, s: Snapshot, t: Snapshot, seen: seq<bytes>, seen': seq<bytes>, run: Run, offset: nat,
                 ending: Ending, mode: Mode, isOpen: bool)
    requires turn <= |script| && forall k :: 0 <= k < turn ==> script[k].answer == Accepted
    requires EndedWith(s, t, seen', run, offset, ending, isOpen) && |seen| == run.accepted == turn
    requires seen' == seen || (|seen'| == |seen| + 1 && AnswerAt(script, turn) != Accepted
                              && ending == if AnswerAt(script, turn) == Refused then Stopped else Threw)
    requires mode != Faulty && seen' == seen ==>
               run.start + run.accepted == |Records(s.wal + run.grown)| && (isOpen ==> AllRead(s.wal + run.grown, ending, mode))
    ensures mode != Faulty ==> LoopIs(script, s, seen', run, ending, mode, isOpen)
  {
    hide Records, Rest, AllRead;
    LeadingIs(script, turn);
  }

  lemma InTimeIs(s: Snapshot, t: Snapshot, seen: seq<bytes>, run: Run, offset: nat, ending: Ending, isOpen: bool)
    requires EndedWith(s, t, seen, run, offset, ending, isOpen)
    ensures EndedWith(s, t, seen, run.(inTime := run.grown), offset, ending, isOpen)
  {
    hide Records, Rest;
  }

  lemma HandedIs(script: seq<Turn>, s: Snapshot, seen: seq<bytes>, run: Run, run': Run, ending: Ending, mode: Mode, result: bool)
    requires run.started && LoopIs(script, s, seen, run, ending, mode, true) && run.emptied == (ending == Emptied(true))
    requires run'.started && run'.start == run.start && run'.accepted == run.accepted && run'.emptied == run.emptied
    requires run'.inTime == run.grown <= run'.grown
    requires result == match ending case Emptied(ok) => ok case Stopped => run.accepted > 0 case _ => false
    ensures Handed(script, s, seen, run', result, mode)
  {
    hide Records, Rest;
    LeadingIs(script, 0);
  }

  lemma StartsLooping(s: Snapshot, start: nat)
    requires CrashSafe(s) && start <= s.accepted && start <= |Records(s.wal)|
    ensures Looping(s, s, [], Run(true, start, 0, [], [], true, false, [], [], []), Offset(Records(s.wal), start))
  {
    assert s.wal + [] == s.wal;
  }

  lemma NextOf(s: Snapshot, t: Snapshot, seen: seq<bytes>, run: Run, offset: nat)
    requires Looping(s, t, seen, run, offset)
    ensures var j := run.start + run.accepted;
            && j <= |Records(t.wal)| && offset <= |t.wal| && IsOffset(Records(t.wal), j, offset)
            && First(t.wal[offset..]) == (if j < |Records(t.wal)| then Some(Records(t.wal)[j]) else None)
            && (j == |Records(t.wal)| ==> t.wal[offset..] == Rest(t.wal))
  {
    NextRecord(t.wal, run.start + run.accepted);
  }

  lemma EmptiedEffect(s: Snapshot, t: Snapshot, u: Snapshot, seen: seq<bytes>, run: Run, offset: nat)
    requires Looping(s, t, seen, run, offset) && run.start + run.accepted == |Records(t.wal)|
    requires u.wal == [] && u.commit == None && u.accepted == 0 && u.discarded == t.discarded + t.owed
    requires t.accepted <= |Records(t.wal)| && t.owed == Records(t.wal)[t.accepted..]
    requires offset <= |t.wal| && u.corrupt == t.corrupt + t.wal[offset..]
    ensures EndedWith(s, u, seen, run.(emptied := true), offset, Emptied(true), true)
  {
    assert EncodeAll([]) == [];
    NextOf(s, t, seen, run, offset);
  }

  lemma KeptEffect(s: Snapshot, t: Snapshot, u: Snapshot, seen: seq<bytes>, run: Run, offset: nat, ending: Ending, isOpen: bool)
    requires Looping(s, t, seen, run, offset) && u.wal == t.wal && u.accepted == t.accepted && u.discarded == t.discarded
    requires ending == Emptied(true) ==> !isOpen
    ensures EndedWith(s, u, seen, run, offset, ending, isOpen)
  {
  }

  /** What comes behind the records of a replay leaves it where it is. */
  lemma LoopWaits(s: Snapshot, t: Snapshot, u: Snapshot, seen: seq<bytes>, run: Run, offset: nat,
                  grown: bytes, arrived: seq<Record>, whole: bool) returns (run': Run)
    requires Looping(s, t, seen, run, offset) && GrewBy(t, u, grown) && (whole ==> grown == EncodeAll(arrived))
    ensures Looping(s, u, seen, run', offset)
    ensures run' == run.(grown := run.grown + grown, arrived := run.arrived + arrived, whole := run.whole && whole)
  {
    hide Records, Rest, First, EncodeAll, Encode, Offset;
    run' := run.(grown := run.grown + grown, arrived := run.arrived + arrived, whole := run.whole && whole);
    assert s.wal + run.grown + grown == s.wal + (run.grown + grown);
    assert run'.whole ==> run'.grown == EncodeAll(run'.arrived) by {
      EncodeAllConcat(run.arrived, arrived);
    }
    ParseExtends(t.wal, grown);
    OffsetOfPrefix(Records(t.wal), Records(u.wal), run.start + run.accepted);
  }

  lemma LoopGrows(s: Snapshot, t: Snapshot, u: Snapshot, seen: seq<bytes>, run: Run, offset: nat, record: bytes,
                  grown: bytes, arrived: seq<Record>, whole: bool) returns (run': Run)
    requires Looping(s, t, seen, run, offset) && IsRecord(t.wal, run.start + run.accepted, record)
    requires GrewBy(t, u, grown) && (whole ==> grown == EncodeAll(arrived))
    ensures Looping(s, u, seen, run', offset) && IsRecord(u.wal, run.start + run.accepted, record)
    ensures run' == run.(grown := run.grown + grown, arrived := run.arrived + arrived, whole := run.whole && whole)
  {
    hide Records, Rest, First, EncodeAll, Encode, Offset, Looping;
    run' := LoopWaits(s, t, u, seen, run, offset, grown, arrived, whole);
    ParseExtends(t.wal, grown);
  }

  /** What others add behind the last read is behind the file, or all of it if the WAL was emptied. */
  lemma EndGrows(s: Snapshot, t: Snapshot, u: Snapshot, seen: seq<bytes>, run: Run, offset: nat, ending: Ending, isOpen: bool,
                 grown: bytes, arrived: seq<Record>, whole: bool) returns (run': Run)
    requires EndedWith(s, t, seen, run, offset, ending, isOpen) && GrewBy(t, u, grown) && (whole ==> grown == EncodeAll(arrived))
    ensures EndedWith(s, u, seen, run', offset, ending, isOpen)
    ensures run' == if run.emptied
                    then run.(behind := run.behind + grown, newer := run.newer + arrived, whole := run.whole && whole)
                    else run.(grown := run.grown + grown, arrived := run.arrived + arrived, whole := run.whole && whole)
  {
    hide Records, Rest, First, EncodeAll, Encode, Offset;
    EncodeAllConcat(run.arrived, arrived);
    EncodeAllConcat(run.newer, arrived);
    if run.emptied {
      run' := run.(behind := run.behind + grown, newer := run.newer + arrived, whole := run.whole && whole);
    } else {
      run' := run.(grown := run.grown + grown, arrived := run.arrived + arrived, whole := run.whole && whole);
      assert s.wal + run.grown + grown == s.wal + (run.grown + grown);
      ParseExtends(t.wal, grown);
      if !ending.Emptied? {
        OffsetOfPrefix(Records(t.wal), Records(u.wal), run.start + run.accepted);
      }
    }
  }

  /** What the end of a Replay knows. */
  lemma EndedIs(s: Snapshot, t: Snapshot, seen: seq<bytes>, run: Run, offset: nat, ending: Ending, isOpen: bool)
    requires EndedWith(s, t, seen, run, offset, ending, isOpen)
    ensures run.started && ReplayEffect(s, t, seen, run) && run.emptied == (isOpen && ending == Emptied(true))
    ensures !ending.Emptied? ==> IsOffset(Records(t.wal), run.start + run.accepted, offset)
    ensures run.emptied ==> Progress(s, t, run)
  {
    if run.emptied {
      EmptiedProgress(s, t, seen, run);
    }
  }

  lemma LoopRecord(s: Snapshot, t: Snapshot, seen: seq<bytes>, run: Run, offset: nat, record: bytes)
    requires Looping(s, t, seen, run, offset) && IsRecord(t.wal, run.start + run.accepted, record)
    ensures run.start + run.accepted <= t.accepted && run.start + run.accepted < |Records(t.wal)|
  {
  }

  lemma LoopAccepts(s: Snapshot, t: Snapshot, u: Snapshot, seen: seq<bytes>, run: Run, offset: nat, record: bytes) returns (run': Run)
    requires Looping(s, t, seen, run, offset) && IsRecord(t.wal, run.start + run.accepted, record)
    requires u == t.(accepted := u.accepted, owed := u.owed)
    requires u.accepted == if t.accepted == run.start + run.accepted then t.accepted + 1 else t.accepted
    ensures run' == run.(accepted := run.accepted + 1)
    ensures Looping(s, u, seen + [record], run', offset + HEADER + |record|)
  {
    hide Records, Offset;
    run' := run.(accepted := run.accepted + 1);
    OffsetStep(Records(t.wal), run.start + run.accepted);
  }

  lemma LoopRefuses(s: Snapshot, t: Snapshot, seen: seq<bytes>, run: Run, offset: nat, record: bytes, isOpen: bool)
    requires Looping(s, t, seen, run, offset) && IsRecord(t.wal, run.start + run.accepted, record)
    ensures EndedWith(s, t, seen + [record], run, offset, Stopped, isOpen) && EndedWith(s, t, seen + [record], run, offset, Threw, isOpen)
  {
  }

  lemma EmptiedProgress(s: Snapshot, t: Snapshot, seen: seq<bytes>, run: Run)
    requires ReplayEffect(s, t, seen, run) && run.started && run.emptied
    ensures Progress(s, t, run)
  {
    hide Records, Rest;
    assert t.wal[0..] == t.wal;
    assert Records(s.wal + run.grown)[run.start + run.accepted..] == [];
  }

  lemma SavedPosition(s: Snapshot, t: Snapshot, seen: seq<bytes>, run: Run, offset: nat)
    requires ReplayEffect(s, t, seen, run) && run.started && !run.emptied
    requires IsOffset(Records(t.wal), run.start + run.accepted, offset)
    ensures IsBoundary(t.wal, offset, t.accepted) && offset <= |t.wal|
  {
    hide Records, Rest, Offset, EncodeAll;
    ParseFrom(t.wal, run.start + run.accepted);
  }

  /** The same with the position saved, or not. */
  lemma SavedProgress(s: Snapshot, t: Snapshot, commit: Option<bytes>, seen: seq<bytes>, run: Run, offset: nat)
    requires ReplayEffect(s, t, seen, run) && run.started && !run.emptied && run.accepted > 0
    requires IsOffset(Records(t.wal), run.start + run.accepted, offset)
    ensures ReplayEffect(s, t.(commit := commit), seen, run)
    ensures CommitValue(commit) == offset ==> Progress(s, t.(commit := commit), run)
  {
    ParseFrom(t.wal, run.start + run.accepted);
    NothingIsPending(None);
  }

  /** A record which is appended to a WAL without a torn tail is what is pending last. */
  lemma AppendedIsPending(s: Snapshot, r: Record)
    requires CrashSafe(s) && Rest(s.wal) == []
    ensures PendingRecords(s.wal + Encode(r), s.commit) == PendingRecords(s.wal, s.commit) + [r]
    ensures Rest(s.wal + Encode(r)) == [] && Records(s.wal + Encode(r)) == Records(s.wal) + [r]
  {
    var k := PositionIsBoundary(s);
    RecordsStay(s, Encode(r), 0, []);
    EncodeOne(r);
    CleanFileGrows(s.wal, [r]);
    OffsetOfPrefix(Records(s.wal), Records(s.wal + Encode(r)), k);
    ParseFrom(s.wal + Encode(r), k);
    DropFromConcat(Records(s.wal), [r], k);
  }

  /** What a failing Append leaves: nothing, or (only if the ftruncate behind it fails too) less than the whole record. */
  ghost predicate CutOff(before: bytes, after: bytes, data: bytes, mode: Mode)
    requires 0 < |data| < 0x1_0000_0000
  {
    exists n: nat :: n < |Encode(data)| && after == before + Encode(data)[..n] && (n > 0 ==> !mode.Truncates())
  }

  lemma CutNothing(wal: bytes, data: bytes, mode: Mode)
    requires 0 < |data| < 0x1_0000_0000
    ensures CutOff(wal, wal, data, mode)
  {
    assert wal == wal + Encode(data)[..0];
  }

  lemma EmptyOwesNothing(s: Snapshot)
    requires CrashSafe(s) && s.wal == []
    ensures s.accepted == 0 && s.owed == []
  {
  }

  lemma CutPart(wal: bytes, data: bytes, mode: Mode, n: nat)
    requires 0 < |data| < 0x1_0000_0000 && n < |Encode(data)|
    ensures !mode.Truncates() ==> CutOff(wal, wal + Encode(data)[..n], data, mode)
  {
  }

  lemma AppendsAreSafe(s: Snapshot, data: bytes)
    requires CrashSafe(s)
    ensures forall n | 0 <= n <= |data| :: CrashSafe(Wrote(s, WalFile, data[..n]))
  {
    forall n | 0 <= n <= |data| ensures CrashSafe(Wrote(s, WalFile, data[..n])) {
      AppendingIsSafe(s, data[..n]);
    }
  }

  ghost predicate FrontsAreSafe(s: Snapshot, f: File, data: bytes) {
    forall n | 0 <= n <= |data| :: CrashSafe(Wrote(s, f, data[..n]))
  }

  lemma WroteNothing(s: Snapshot, f: File)
    requires f == CommitFile ==> s.commit.Some?
    ensures Wrote(s, f, []) == s
  {
    assert s.wal + [] == s.wal && s.corrupt + [] == s.corrupt;
    if s.commit.Some? {
      assert s.commit.value + [] == s.commit.value;
    }
  }

  lemma WroteTwice(s: Snapshot, f: File, data: bytes, n: nat, m: nat)
    requires n + m <= |data|
    ensures Wrote(Wrote(s, f, data[..n]), f, data[n..][..m]) == Wrote(s, f, data[..n + m])
  {
    var x := match f { case WalFile => s.wal case CommitFile => (if s.commit.Some? then s.commit.value else []) case CorruptFile => s.corrupt };
    assert data[..n] + data[n..][..m] == data[..n + m];
    assert (x + data[..n]) + data[n..][..m] == x + data[..n + m];
  }
}
