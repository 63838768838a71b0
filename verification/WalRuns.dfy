/** What the contracts of the WAL add up to: nothing is lost and nothing overtakes in a replay, however other threads
    append meanwhile, a torn tail is repaired, and where the promises of the WAL end. */
module WalRuns {
  import opened Bytes
  import opened WalFormat
  import opened WalDisk
  import opened SimpleWals

  /** What a reader finds of bytes which came behind a file: the records themselves if the file ended with a record. */
  function Readable(wal: bytes, grown: bytes): seq<Record> {
    Records(Rest(wal) + grown)
  }

  lemma ReadableIs(wal: bytes, arrived: seq<Record>)
    ensures Rest(wal) == [] ==> Readable(wal, EncodeAll(arrived)) == arrived
    ensures Readable(wal, []) == []
  {
    hide Records, Rest, First, Encode, EncodeAll;
    ParseEncoded(arrived, []);
    NothingIsPending(None);
    assert EncodeAll(arrived) + [] == EncodeAll(arrived) == [] + EncodeAll(arrived) && Rest(wal) + [] == Rest(wal);
    NoRecordInRest(wal);
  }

  /** The consumer sees the records in the order of the file: those which were there from the start position on, and behind them
      what can be read of that which other threads append during the replay. */
  lemma ReplayIsFifo(s: Snapshot, t: Snapshot, seen: seq<bytes>, run: Run)
    requires ReplayEffect(s, t, seen, run) && run.started && s.accepted <= |Records(s.wal)|
    ensures Records(s.wal + run.grown) == Records(s.wal) + Readable(s.wal, run.grown)
    ensures seen <= Records(s.wal)[run.start..] + Readable(s.wal, run.grown)
    ensures run.whole && Rest(s.wal) == [] ==> Readable(s.wal, run.grown) == run.arrived
  {
    hide Records, Rest, EncodeAll;
    ParseExtends(s.wal, run.grown);
    ReadableIs(s.wal, run.arrived);
    DropFromConcat(Records(s.wal), Readable(s.wal, run.grown), run.start);
    assert seen == (Records(s.wal) + Readable(s.wal, run.grown))[run.start..][..|seen|];
  }

  /** What is owed before a replay, and what can be read of that which other threads store during it (in front of the moment in
      which the WAL is emptied, or behind it), is afterwards accepted in this replay or still owed, and the order of the appends
      is kept. Took are the records which were accepted for the first time. */
  lemma ReplayLosesNothing(s: Snapshot, t: Snapshot, seen: seq<bytes>, run: Run) returns (took: seq<bytes>)
    requires ReplayEffect(s, t, seen, run) && run.started
    requires s.accepted <= |Records(s.wal)| && s.owed == Records(s.wal)[s.accepted..]
    requires t.accepted <= |Records(t.wal)| && t.owed == Records(t.wal)[t.accepted..]
    ensures s.owed + Readable(s.wal, run.grown) + Records(run.behind) == took + t.owed
    ensures run.whole && Rest(s.wal) == [] ==> Readable(s.wal, run.grown) == run.arrived
    ensures run.whole ==> Records(run.behind) == run.newer
    ensures took == if run.start + run.accepted <= s.accepted then [] else seen[s.accepted - run.start..run.accepted]
    ensures t.discarded == s.discarded
  {
    hide Records, Rest, EncodeAll, First, ReplayEffect, Readable;
    var all := Records(s.wal + run.grown);
    ReplayIsFifo(s, t, seen, run);
    var e := TakenUpTo(s, t, seen, run);
    NewerIs(s, t, seen, run);
    took := TookFrom(all, run.start, run.accepted, s.accepted, seen);
    DropFromConcat(Records(s.wal), Readable(s.wal, run.grown), s.accepted);
    assert all[s.accepted..] == s.owed + Readable(s.wal, run.grown);
    assert all[s.accepted..] == took + all[e..];
    assert took + all[e..] + Records(run.behind) == took + (all[e..] + Records(run.behind));
  }

  /** What is not taken from e on is what is owed at the end. */
  lemma TakenUpTo(s: Snapshot, t: Snapshot, seen: seq<bytes>, run: Run) returns (e: nat)
    requires ReplayEffect(s, t, seen, run) && run.started && s.accepted <= |Records(s.wal)| && |Records(s.wal)| <= |Records(s.wal + run.grown)|
    requires t.accepted <= |Records(t.wal)| && t.owed == Records(t.wal)[t.accepted..]
    ensures var all := Records(s.wal + run.grown);
            && run.start <= s.accepted <= |all| && run.accepted <= |seen| && run.start + |seen| <= |all|
            && seen == all[run.start..run.start + |seen|] && t.discarded == s.discarded
            && e == (if run.start + run.accepted <= s.accepted then s.accepted else run.start + run.accepted) <= |all|
            && all[e..] + Records(run.behind) == t.owed
  {
    hide Records, Rest, EncodeAll;
    NothingIsPending(None);
    e := if run.start + run.accepted <= s.accepted then s.accepted else run.start + run.accepted;
    var all := Records(s.wal + run.grown);
    if run.emptied {
      assert e == |all|;
      assert all[e..] == [] && t.owed == Records(run.behind);
    } else {
      assert all[e..] + [] == all[e..];
    }
  }

  lemma NewerIs(s: Snapshot, t: Snapshot, seen: seq<bytes>, run: Run)
    requires ReplayEffect(s, t, seen, run) && run.started
    ensures run.whole ==> Records(run.behind) == run.newer
  {
    hide Records, Rest, EncodeAll;
    RecordsOfEncoded(run.newer);
  }

  lemma RecordsOfEncoded(rs: seq<Record>)
    ensures Records(EncodeAll(rs)) == rs
  {
    ReadableIs([], rs);
    assert Rest([]) == [] && [] + EncodeAll(rs) == EncodeAll(rs);
  }

  lemma TookFrom(all: seq<Record>, start: nat, accepted: nat, before: nat, seen: seq<bytes>) returns (took: seq<bytes>)
    requires start <= before <= |all| && accepted <= |seen| && start + |seen| <= |all| && seen == all[start..start + |seen|]
    ensures took == if start + accepted <= before then [] else seen[before - start..accepted]
    ensures all[before..] == took + all[if start + accepted <= before then before else start + accepted..]
  {
    took := if start + accepted <= before then [] else seen[before - start..accepted];
    if start + accepted > before {
      SliceOfSlice(all, start, start + |seen|, before - start, accepted);
    }
  }

  /** A record which is appended is what a reader finds behind the records before it, with nothing left over, if and only if
      the file ended with a record. Init does not repair a torn tail: the Append which comes before the replay that
      would is taken (it says true), and cannot be read. */
  lemma AppendCanBeReadIffClean(wal: bytes, r: Record)
    ensures Rest(wal) == [] <==> Records(wal + Encode(r)) == Records(wal) + [r] && Rest(wal + Encode(r)) == []
  {
    EncodeOne(r);
    if Rest(wal) == [] {
      CleanFileGrows(wal, [r]);
    }
    if Records(wal + Encode(r)) == Records(wal) + [r] && Rest(wal + Encode(r)) == [] {
      ParseSplits(wal);
      ParseSplits(wal + Encode(r));
      EncodeAllConcat(Records(wal), [r]);
      assert |wal + Encode(r)| == |EncodeAll(Records(wal))| + |Encode(r)|;
    }
  }

  /** A torn length, and a record behind it: the reader finds neither. */
  lemma AppendOnTornTailIsLost() returns (torn: bytes, r: Record)
    ensures Torn(torn) && torn != []
    ensures Records(torn + Encode(r)) == []
  {
    torn, r := [9, 9], [7];
    var x: Record := seq(2313, i => 0);
    assert LittleEndian(|x|, 4) == [9] + LittleEndian(9, 3) && LittleEndian(9, 3) == [9] + LittleEndian(0, 2);
    assert torn == Encode(x)[..|torn|];
    assert LittleEndian(|r|, 4) == [1] + LittleEndian(0, 3) && LittleEndian(0, 3) == [0] + LittleEndian(0, 2);
    assert LittleEndian(0, 2) == [0] + LittleEndian(0, 1) && LittleEndian(0, 1) == [0] + [];
    var s := torn + Encode(r);
    assert s == [9, 9, 1, 0, 0, 0, 7];
    assert s[..4] == [9, 9, 1, 0];
    assert FromLittleEndian([0]) == 0 && [1, 0][1..] == [0] && [9, 1, 0][1..] == [1, 0] && [9, 9, 1, 0][1..] == [9, 1, 0];
    assert FromLittleEndian([1, 0]) == 1;
    assert FromLittleEndian([9, 1, 0]) == 265;
    assert FromLittleEndian([9, 9, 1, 0]) == 67849;
  }

  /** What others can do between a Peek and its Ack. */
  datatype Between = AppendOf(data: bytes) | ClearAll | ReplayOf(first: seq<Call>, script: seq<Turn>, last: seq<Call>)

  ghost predicate ValidBetween(b: Between) {
    match b
    case AppendOf(data) => |data| < 0x1_0000_0000
    case ClearAll => true
    case ReplayOf(first, script, last) => ValidCalls(first) && ValidScript(script) && ValidCalls(last)
  }

  /** A Peek, anything others do, and an Ack. If the Ack says true the front of what is pending is exactly the record which Peek
      returned, and that is what goes; nobody moved the position since the Peek. If it says false after a Peek which found a
      record, it changed nothing. Appends alone do not make it say false. */
  method PeekThenAck(w: SimpleWal, between: seq<Between>) returns (found: bool, record: bytes, acked: bool, ghost at: Snapshot, ghost before: Snapshot)
    requires w.Valid() && !w.replaying && w.disk.mode.Truncates()
    requires forall b :: b in between ==> ValidBetween(b)
    modifies w, w.disk
    ensures w.Valid()
    ensures acked ==> found && PendingRecords(before.wal, before.commit) == [record] + w.Pending()
    ensures acked ==> before.commit == at.commit && at.wal <= before.wal
    ensures found ==> PendingRecords(at.wal, at.commit) != [] && record == PendingRecords(at.wal, at.commit)[0]
    ensures !acked ==> w.disk.Now() == before
    ensures found && w.isOpen && (forall b :: b in between ==> b.AppendOf?) ==> acked
  {
    hide SimpleWal.Valid, Disk.Safe, Records, Rest, First, CrashSafe, Position, PendingRecords, CutOff, ReplayEffect,
         Progress, AckEffect, ValidBetween;
    found, record := w.Peek();
    at := w.disk.Now();
    ghost var mark := w.Marked();
    LaterAtOnce(mark, w.disk.mode);
    for i := 0 to |between|
      invariant w.Valid() && !w.replaying && w.isOpen == old(w.isOpen) && Later(mark, w.Marked(), w.disk.mode)
      invariant found && (forall b :: b in between[..i] ==> b.AppendOf?) ==> w.peeked && w.peekEpoch == w.positionEpoch
    {
      assert between[i] in between && between[..i + 1] == between[..i] + [between[i]];
      ghost var m := w.Marked();
      Meanwhile(w, between[i]);
      LaterTwice(mark, m, w.Marked(), w.disk.mode);
    }
    assert between[..|between|] == between;
    before := w.disk.Now();
    acked := w.Ack();
  }

  method Meanwhile(w: SimpleWal, b: Between)
    requires w.Valid() && !w.replaying && w.disk.mode.Truncates() && ValidBetween(b)
    modifies w, w.disk
    ensures w.Valid() && !w.replaying && w.isOpen == old(w.isOpen) && Later(old(w.Marked()), w.Marked(), w.disk.mode)
    ensures b.AppendOf? ==> w.peeked == old(w.peeked) && w.peekEpoch == old(w.peekEpoch) && w.positionEpoch == old(w.positionEpoch)
  {
    hide SimpleWal.Valid, Disk.Safe, Records, Rest, First, CrashSafe, Position, PendingRecords, ReplayEffect, Progress;
    match b
    case AppendOf(data) =>
      var _ := w.Append(data);
    case ClearAll =>
      var _ := w.Clear();
    case ReplayOf(first, script, last) =>
      var _, _, _ := w.Replay(first, script, last);
  }

  /** A WAL which is any records and a piece of one more, and a consumer which accepts everything: it gets exactly the records
      which were not committed, the piece is moved to the quarantine file, and the WAL is empty. */
  method RecoverTornTail(w: SimpleWal, rs: seq<Record>, torn: bytes, script: seq<Turn>) returns (result: bool, seen: seq<bytes>)
    requires w.Valid() && w.isOpen && !w.replaying && w.disk.mode == Healthy
    requires w.disk.wal == EncodeAll(rs) + torn && Torn(torn)
    requires |script| > |rs| && forall t :: t in script ==> t == Turn([], Accepted)
    modifies w, w.disk
    ensures w.Valid() && result && seen == old(w.Pending())
    ensures exists k: nat :: k <= |rs| && seen == rs[k..] && Offset(rs, k) == old(Position(w.disk.wal, w.disk.commit))
    ensures w.disk.wal == [] && w.disk.commit == None && w.disk.corrupt == old(w.disk.corrupt) + torn
    ensures w.disk.discarded == old(w.disk.discarded)
  {
    hide Handed, Later, SimpleWal.Valid, Disk.Safe;
    ghost var s := w.disk.Now();
    ParseEncoded(rs, torn);
    TornIsRest(torn);
    assert Records(s.wal) == rs && Rest(s.wal) == torn;
    WalIsSettled(w);
    ghost var k := PositionIsBoundary(s);
    ghost var run;
    result, seen, run := w.Replay([], script, []);
    assert run.grown == [];
    assert s.wal + [] == s.wal;
    SameOffset(rs, k, run.start);
  }

  /** A receiver takes n records and refuses the next one, while all which is not a write works: it gets exactly the first n +
      1 pending records, and afterwards exactly the first n are not pending any more. */
  method DeliverSome(w: SimpleWal, n: nat) returns (result: bool, seen: seq<bytes>)
    requires w.Valid() && w.isOpen && !w.replaying && w.disk.mode != Faulty && 0 < n < |w.Pending()|
    modifies w, w.disk
    ensures w.Valid() && result && seen == old(w.Pending())[..n + 1] && w.Pending() == old(w.Pending())[n..]
    ensures w.disk.discarded == old(w.disk.discarded)
  {
    hide SimpleWal.Valid, Disk.Safe, Records, Rest, First, CrashSafe, PendingRecords, Position, Offset, ReplayEffect,
         Progress, Handed, Later;
    ghost var s := w.disk.Now();
    WalIsSettled(w);
    ghost var k := PositionIsBoundary(s);
    var script := seq(n, i => Turn([], Accepted));
    LeadingIs(script, n);
    ghost var run;
    result, seen, run := w.Replay([], script, []);
    assert run.grown == [];
    DeliveredSome(script, s, w.disk.Now(), seen, run, result, w.disk.mode, k);
  }

  lemma DeliveredSome(script: seq<Turn>, s: Snapshot, t: Snapshot, seen: seq<bytes>, run: Run, result: bool, mode: Mode, k: nat)
    requires Handed(script, s, seen, run, result, mode) && ReplayEffect(s, t, seen, run) && (result ==> Progress(s, t, run))
    requires run.grown == [] && run.behind == [] && 0 < Leading(script) == |script| && k + |script| < |Records(s.wal)|
    requires k <= s.accepted <= |Records(s.wal)| && IsOffset(Records(s.wal), k, Position(s.wal, s.commit))
    requires run.started ==> Offset(Records(s.wal), run.start) == Position(s.wal, s.commit)
    ensures result && seen == Records(s.wal)[k..][..|script| + 1]
    ensures PendingRecords(t.wal, t.commit) == Records(s.wal)[k..][|script|..] && t.discarded == s.discarded
  {
    hide Records, Rest, PendingRecords, Position, EncodeAll, ReplayEffect, Offset, Handed, Progress;
    NoneCame(script, s, seen, run, result, mode);
    SawRecords(s, t, seen, run);
    SameOffset(Records(s.wal), k, run.start);
    HandedSome(script, s, seen, run, result, mode);
    SavedSome(s, t, run);
    SomeOf(Records(s.wal), k, |script|);
  }

  lemma SavedSome(s: Snapshot, t: Snapshot, run: Run)
    requires Progress(s, t, run) && run.grown == [] && run.behind == []
    ensures run.start + run.accepted <= |Records(s.wal)| && PendingRecords(t.wal, t.commit) == Records(s.wal)[run.start + run.accepted..]
  {
    hide Records, Rest, PendingRecords;
    assert s.wal + [] == s.wal;
    NothingIsPending(None);
    var rest := Records(s.wal)[run.start + run.accepted..];
    assert rest + [] == rest;
  }

  lemma SomeOf(rs: seq<Record>, k: nat, n: nat)
    requires k + n < |rs|
    ensures rs[k..][..n + 1] == rs[k..k + (n + 1)] && rs[k..][n..] == rs[k + n..]
  {
  }

  lemma NoneCame(script: seq<Turn>, s: Snapshot, seen: seq<bytes>, run: Run, result: bool, mode: Mode)
    requires Handed(script, s, seen, run, result, mode) && run.grown == []
    ensures run.started && run.inTime == []
  {
    hide Records, Rest;
  }

  lemma SawRecords(s: Snapshot, t: Snapshot, seen: seq<bytes>, run: Run)
    requires ReplayEffect(s, t, seen, run) && run.started && run.grown == []
    ensures s.wal + [] == s.wal && run.start <= s.accepted && run.start + |seen| <= |Records(s.wal)|
    ensures seen == Records(s.wal)[run.start..run.start + |seen|] && t.discarded == s.discarded
  {
    hide Records, Rest, EncodeAll;
    assert s.wal + [] == s.wal;
  }

  lemma HandedSome(script: seq<Turn>, s: Snapshot, seen: seq<bytes>, run: Run, result: bool, mode: Mode)
    requires Handed(script, s, seen, run, result, mode) && run.inTime == [] && 0 < Leading(script) == |script|
    requires run.start + |script| < |Records(s.wal)|
    ensures result && run.accepted == |script| && |seen| == |script| + 1
  {
    hide Records, Rest;
    assert s.wal + [] == s.wal;
  }

  /* --- Where the promises end --- */

  /** For any files at all, the first read starts at a record, or at the end of the file, and the reads behind it start at the
      same place if and only if the commit position is the start of a record, or the end of the file (or behind it). The check
      is made once, and it does not change the commit file. */
  lemma FirstReadIsChecked(wal: bytes, commit: Option<bytes>)
    ensures var p := CheckedPosition(wal, commit); p == |wal| || IsBoundary(wal, p, |Records(wal)|)
    ensures CheckedPosition(wal, commit) == Position(wal, commit)
            <==> (CommitValue(commit) >= |wal| || IsBoundary(wal, CommitValue(commit), |Records(wal)|))
  {
    assert IsOffset(Records(wal), 0, 0);
  }

  /** A run in which an Ack takes two records from what is pending, while no ftruncate works: a is acknowledged and b is peeked.
      A Clear removes the commit file, cannot remove the records, and does not count as a change of the position. The Ack of b
      is taken then, and the position moves over a as well. Both were accepted, so nothing is lost. */
  method AckAfterFailedClear(w: SimpleWal, a: Record, b: Record, c: Record) returns (acked: bool, ghost before: seq<Record>)
    requires w.Valid() && w.isOpen && !w.replaying && w.disk.mode == Stuck && w.disk.wal == [] && w.disk.commit == None
    requires w.Fits(0, HEADER + |a| + HEADER + |b| + |c|)
    modifies w, w.disk
    ensures w.Valid() && acked && w.peekRecord == b
    ensures before == [a, b, c] && w.Pending() == [c]
    ensures w.disk.owed == [c] && w.disk.discarded == old(w.disk.discarded)
  {
    hide SimpleWal.Valid, Disk.Safe, Disk.Settled, HasThree, AckEffect, CrashSafe, PendingRecords, Position, First, Records, Rest;
    ThreeAppended(w, a, b, c);
    AckFirst(w, a, b, c);
    WalIsSettled(w);
    ghost var peeked := w.disk.Now();
    IsThere(peeked, a, b, c, 1);
    var _, _ := w.Peek();
    var _ := w.Clear();
    ghost var cleared := w.disk.Now();
    WalIsSettled(w);
    StillThree(peeked, cleared, a, b, c, 1);
    IsThere(cleared, a, b, c, 1);
    before := w.Pending();
    acked := w.Ack();
    WalIsSettled(w);
    AckedIs(cleared, w.disk.Now(), a, b, c, 1, w.peekOffset, w.peekRecord);
  }

  /** The WAL has these three records, the first k of them were accepted, and the others are owed. */
  ghost predicate HasThree(s: Snapshot, a: Record, b: Record, c: Record, k: nat) {
    k <= 3 && s.wal == EncodeAll([a, b, c]) && s.accepted == k && s.owed == [a, b, c][k..]
  }

  method ThreeAppended(w: SimpleWal, a: Record, b: Record, c: Record)
    requires w.Valid() && w.isOpen && !w.replaying && w.disk.mode == Stuck && w.disk.wal == [] && w.disk.commit == None
    requires w.Fits(0, HEADER + |a| + HEADER + |b| + |c|)
    modifies w`pendingReplay, w.disk
    ensures w.Valid() && HasThree(w.disk.Now(), a, b, c, 0) && w.disk.commit == None && w.disk.discarded == old(w.disk.discarded)
  {
    hide SimpleWal.Valid, Disk.Safe, Disk.Settled, CutOff, Records, Rest, First, CrashSafe, EncodeAll, Encode,
         PendingRecords, Position;
    WalIsSettled(w);
    var _ := w.Append(a);
    var _ := w.Append(b);
    var _ := w.Append(c);
    WalIsSettled(w);
    EncodedThree(a, b, c);
  }

  lemma EncodedThree(a: Record, b: Record, c: Record)
    ensures EncodeAll([a, b, c]) == [] + Encode(a) + Encode(b) + Encode(c) && Records(EncodeAll([a, b, c])) == [a, b, c]
    ensures |Encode(a)| == HEADER + |a| && |Encode(b)| == HEADER + |b| && Records([]) == []
  {
    RecordsOfEncoded([a, b, c]);
    RecordsOfEncoded([]);
    assert [a, b, c][1..] == [b, c] && [b, c][1..] == [c] && [c][1..] == [];
    hide Encode, Records;
    assert EncodeAll([c]) == Encode(c) + [];
    assert Encode(a) + (Encode(b) + (Encode(c) + [])) == [] + Encode(a) + Encode(b) + Encode(c);
  }

  lemma WalIsSettled(w: SimpleWal)
    requires w.Valid()
    ensures w.disk.accepted <= |Records(w.disk.wal)| && w.disk.owed == Records(w.disk.wal)[w.disk.accepted..]
    ensures CrashSafe(w.disk.Now()) && (w.isOpen && w.disk.mode == Stuck && w.disk.wal != [] ==> w.pendingReplay)
  {
  }

  /** a is peeked and acknowledged. */
  method AckFirst(w: SimpleWal, a: Record, b: Record, c: Record)
    requires w.Valid() && w.isOpen && !w.replaying && w.disk.mode == Stuck
    requires HasThree(w.disk.Now(), a, b, c, 0) && w.disk.commit == None
    modifies w, w.disk
    ensures w.Valid() && w.isOpen && !w.replaying && w.disk.discarded == old(w.disk.discarded)
    ensures HasThree(w.disk.Now(), a, b, c, 1) && w.Pending() == [b, c]
  {
    hide SimpleWal.Valid, Disk.Safe, Disk.Settled, HasThree, AckEffect, CrashSafe, PendingRecords, Position, First, Records, Rest;
    ghost var s := w.disk.Now();
    WalIsSettled(w);
    IsThere(s, a, b, c, 0);
    var _, _ := w.Peek();
    var _ := w.Ack();
    WalIsSettled(w);
    AckedIs(s, w.disk.Now(), a, b, c, 0, w.peekOffset, w.peekRecord);
  }

  lemma IsThere(s: Snapshot, a: Record, b: Record, c: Record, k: nat)
    requires CrashSafe(s) && HasThree(s, a, b, c, k)
    ensures s.wal != [] && Records(s.wal) == [a, b, c] && |Encode(a)| + HEADER + |b| < |s.wal| && HEADER + |a| < |s.wal|
    ensures s.commit == None ==> Position(s.wal, s.commit) == 0 && PendingRecords(s.wal, s.commit) == [a, b, c]
    ensures PendingRecords(s.wal, s.commit) == [b, c] ==> Position(s.wal, s.commit) == |Encode(a)|
  {
    hide Records, Rest, First, Encode, CrashSafe;
    EncodedThree(a, b, c);
    var o, next := ThreeRecords(a, b, c, s.wal);
    var p := PositionIsBoundary(s);
    if PendingRecords(s.wal, s.commit) == [b, c] {
      assert |[a, b, c][p..]| == 2;
      assert p == 1;
    }
  }

  lemma StillThree(s: Snapshot, t: Snapshot, a: Record, b: Record, c: Record, k: nat)
    requires HasThree(s, a, b, c, k) && t.wal == s.wal && t.accepted == s.accepted <= |Records(t.wal)|
    requires t.owed == Records(t.wal)[t.accepted..]
    ensures HasThree(t, a, b, c, k)
  {
    EncodedThree(a, b, c);
  }

  /** The Ack of record k, wherever the position was. */
  lemma AckedIs(s: Snapshot, t: Snapshot, a: Record, b: Record, c: Record, k: nat, o: nat, record: bytes)
    requires CrashSafe(s) && HasThree(s, a, b, c, k) && AckEffect(s, t, o, record, true)
    requires if k == 0 then o == 0 && record == a else k == 1 && o == |Encode(a)| && record == b
    requires t.accepted <= |Records(t.wal)| && t.owed == Records(t.wal)[t.accepted..]
    ensures HasThree(t, a, b, c, k + 1) && PendingRecords(t.wal, t.commit) == [a, b, c][k + 1..]
    ensures t.discarded == s.discarded && (k == 1 ==> t.owed == [c])
  {
    hide Rest, First, Encode, CrashSafe, PendingRecords, Position;
    EncodedThree(a, b, c);
    var _, next := ThreeRecords(a, b, c, s.wal);
    hide Records;
    IsThere(s, a, b, c, k);
    ParseFrom(s.wal, k + 1);
    assert IsOffset(Records(s.wal), k, o);
    assert |t.owed| == 3 - t.accepted;
  }

  lemma ThreeRecords(a: Record, b: Record, c: Record, wal: bytes) returns (o: nat, next: nat)
    requires wal == EncodeAll([a, b, c])
    ensures o == |Encode(a)| && next == |Encode(a)| + |Encode(b)| && 0 < o < next < |wal|
    ensures Records(wal) == [a, b, c] && Records(wal[0..]) == [a, b, c] && Records(wal[next..]) == [c]
    ensures Offset([a, b, c], 0) == 0 && Offset([a, b, c], 1) == o && Offset([a, b, c], 2) == next
  {
    hide Records, Rest, First, LittleEndian, FromLittleEndian;
    var rs := [a, b, c];
    ParseEncoded(rs, []);
    assert EncodeAll(rs) + [] == EncodeAll(rs) && rs + [] == rs;
    NothingIsPending(None);
    OffsetStep(rs, 0);
    OffsetStep(rs, 1);
    OffsetStep(rs, 2);
    o, next := |Encode(a)|, |Encode(a)| + |Encode(b)|;
    ParseFrom(wal, 0);
    ParseFrom(wal, 2);
  }
}
