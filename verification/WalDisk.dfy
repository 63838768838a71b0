/** The three files of a write ahead log as the operating system shows them to the process, one method for
    every system call. A call can fail, and a write can take any part of the data. A process can die
    between any two calls: the state behind every call is kept in Disk.trace. */
module WalDisk {
  import opened Bytes
  import opened WalFormat

  const COMMIT_SIZE: nat := 8

  /** No file gets larger than what an off_t counts. */
  const MAX_FILE: nat := 0x7FFF_FFFF_FFFF_FFFF

  datatype File = WalFile | CommitFile | CorruptFile

  /** What the environment does. Faulty: any call fails at any time. Stuck: no ftruncate works, and everything else does. Steady:
      only writes of the WAL and of the quarantine file can fail (a full disk). Healthy: nothing fails. */
  datatype Mode = Faulty | Stuck | Steady | Healthy
  {
    predicate Truncates() {
      Steady? || Healthy?
    }

    predicate Writes() {
      Stuck? || Healthy?
    }
  }

  /** The files, and what the world outside relies on: the first accepted records of the WAL were accepted by
      the consumer, and the records owed, which come right behind them, were stored and not accepted. Discarded
      are the owed records which an ftruncate took away, ever. */
  datatype Snapshot = Snapshot(wal: bytes, commit: Option<bytes>, corrupt: bytes, accepted: nat, owed: seq<Record>,
                               discarded: seq<Record>)

  /** The position in the commit file. A file of any other size than 8 bytes is not used. */
  function CommitValue(commit: Option<bytes>): nat {
    if commit.Some? && |commit.value| == COMMIT_SIZE then FromLittleEndian(commit.value) else 0
  }

  /** Where a reader starts: at the commit position, or at the start of the file if that is behind its end. */
  function Position(wal: bytes, commit: Option<bytes>): (p: nat)
    ensures p <= |wal|
  {
    if CommitValue(commit) > |wal| then 0 else CommitValue(commit)
  }

  /** The records which a reader gets from there on. */
  function PendingRecords(wal: bytes, commit: Option<bytes>): seq<Record> {
    Records(wal[Position(wal, commit)..])
  }

  ghost predicate IsBoundary(wal: bytes, o: nat, limit: nat) {
    exists k: nat :: k <= limit && IsOffset(Records(wal), k, o)
  }

  ghost predicate IsOffset(rs: seq<Record>, k: nat, o: nat) {
    k <= |rs| && Offset(rs, k) == o
  }

  /** A process which dies here loses nothing: the commit position is the start of a record, everything in front
      of it was accepted, and what is owed can be read behind what was accepted. */
  ghost predicate CrashSafe(s: Snapshot) {
    var rs := Records(s.wal);
    && s.accepted <= |rs|
    && s.owed <= rs[s.accepted..]
    && IsBoundary(s.wal, CommitValue(s.commit), s.accepted)
  }

  function Wrote(s: Snapshot, f: File, x: bytes): Snapshot {
    match f
    case WalFile => s.(wal := s.wal + x)
    case CommitFile => s.(commit := Some((if s.commit.Some? then s.commit.value else []) + x))
    case CorruptFile => s.(corrupt := s.corrupt + x)
  }

  class Disk {
    const mode: Mode
    var wal: bytes
    var commit: Option<bytes>
    var corrupt: bytes
    ghost var accepted: nat
    ghost var owed: seq<Record>
    ghost var discarded: seq<Record>
    ghost var trace: seq<Snapshot>

    /** The files as a process which died left them. */
    constructor (mode: Mode, s: Snapshot)
      requires CrashSafe(s) && |s.wal| <= MAX_FILE
      ensures Safe() && Now() == s && this.mode == mode && trace == [s]
    {
      this.mode := mode;
      wal, commit, corrupt := s.wal, s.commit, s.corrupt;
      accepted, owed, discarded := s.accepted, s.owed, s.discarded;
      trace := [s];
    }

    ghost function Now(): Snapshot
      reads this
    {
      Snapshot(wal, commit, corrupt, accepted, owed, discarded)
    }

    /** Now, and behind every system call there ever was, a process can die and nothing is lost. */
    ghost predicate Safe()
      reads this
    {
      && |wal| <= MAX_FILE
      && CrashSafe(Now())
      && forall s :: s in trace ==> CrashSafe(s)
    }

    /** write(2): any number of bytes from the front of the data, 0 for a failure. */
    method Write(f: File, data: bytes) returns (n: nat)
      requires data != []
      requires f == CommitFile ==> commit.Some?
      modifies this
      ensures n <= |data|
      ensures Now() == if n == 0 then old(Now()) else old(Wrote(Now(), f, data[..n]))
      ensures trace == old(trace) + [Now()]
      ensures old(|wal|) <= MAX_FILE ==> |wal| <= MAX_FILE
      ensures mode.Writes() && (f == WalFile ==> old(|wal|) + |data| <= MAX_FILE) ==> n == |data|
      ensures mode != Faulty && f == CommitFile ==> n == |data|
    {
      n := PickUpTo(|data|);
      if mode.Writes() || (mode == Steady && f == CommitFile) {
        n := |data|;
      }
      if f == WalFile && |wal| + |data| > MAX_FILE {
        n := 0;
      }
      if n > 0 {
        match f
        case WalFile => wal := wal + data[..n];
        case CommitFile => commit := Some(commit.value + data[..n]);
        case CorruptFile => corrupt := corrupt + data[..n];
      }
      trace := trace + [Now()];
    }

    /** ftruncate of the WAL file. A file which is empty owes nothing: what was owed is discarded. */
    method TruncateWal(size: nat) returns (ok: bool)
      requires size <= |wal|
      modifies this
      ensures ok ==> wal == old(wal)[..size]
      ensures ok && size == 0 ==> accepted == 0 && owed == [] && discarded == old(discarded) + old(owed)
      ensures ok && size > 0 ==> accepted == old(accepted) && owed == old(owed) && discarded == old(discarded)
      ensures !ok ==> !mode.Truncates() && Now() == old(Now())
      ensures mode == Stuck ==> !ok
      ensures commit == old(commit) && corrupt == old(corrupt)
      ensures trace == old(trace) + [Now()]
    {
      ok := Succeeds();
      if mode == Stuck {
        ok := false;
      }
      if ok {
        wal := wal[..size];
        if size == 0 {
          accepted, owed, discarded := 0, [], discarded + owed;
        }
      }
      trace := trace + [Now()];
    }

    /** unlink of the commit file. That there is none is no failure. */
    method UnlinkCommit() returns (ok: bool)
      modifies this
      ensures ok ==> Now() == old(Now()).(commit := None)
      ensures !ok ==> mode == Faulty && Now() == old(Now())
      ensures trace == old(trace) + [Now()]
    {
      ok := Succeeds();
      if ok {
        commit := None;
      }
      trace := trace + [Now()];
    }

    /** open of the commit file with O_CREAT and O_TRUNC. */
    method OpenCommitTruncated() returns (ok: bool)
      modifies this
      ensures ok ==> Now() == old(Now()).(commit := Some([]))
      ensures !ok ==> mode == Faulty && Now() == old(Now())
      ensures trace == old(trace) + [Now()]
    {
      ok := Succeeds();
      if ok {
        commit := Some([]);
      }
      trace := trace + [Now()];
    }

    /** open, fstat and read of the commit file: None if there is none, or if one of the calls fails. */
    method ReadCommit() returns (data: Option<bytes>)
      ensures data == commit || (data == None && mode == Faulty)
    {
      var ok := Succeeds();
      data := if ok then commit else None;
    }

    /** open or fstat, of the WAL or of the quarantine file. */
    method Succeeds() returns (ok: bool)
      ensures mode != Faulty ==> ok
    {
      ok := *;
      if mode != Faulty {
        ok := true;
      }
    }

    /** pread of the WAL: what there is of len bytes, None for a failure. */
    method PRead(offset: nat, len: nat) returns (data: Option<bytes>)
      requires offset <= |wal|
      ensures data.Some? ==> data.value == wal[offset..if offset + len <= |wal| then offset + len else |wal|]
      ensures mode != Faulty ==> data.Some?
    {
      var ok := Succeeds();
      if ok {
        data := Some(wal[offset..if offset + len <= |wal| then offset + len else |wal|]);
      } else {
        data := None;
      }
    }

    method PickUpTo(limit: nat) returns (n: nat)
      ensures n <= limit
    {
      n := *;
      if n > limit {
        n := limit;
      }
    }

    /** Between two calls of the WAL everything which can be read and was not accepted is owed. */
    ghost predicate Settled()
      reads this
    {
      accepted <= |Records(wal)| && owed == Records(wal)[accepted..]
    }

    /** The consumer accepted record j of the WAL. */
    ghost method Accept(j: nat)
      requires Safe() && Settled() && j <= accepted && j < |Records(wal)|
      modifies this`accepted, this`owed
      ensures Safe() && Settled()
      ensures accepted == if j == old(accepted) then j + 1 else old(accepted)
      ensures owed == if j == old(accepted) && old(owed) != [] then old(owed)[1..] else old(owed)
    {
      BoundaryMonotonic(wal, CommitValue(commit), accepted, j + 1);
      if j == accepted {
        accepted := j + 1;
        owed := Records(wal)[accepted..];
      }
    }

    /** An Append is over: what can be read now is owed from now on. */
    ghost method Settle()
      requires Safe()
      modifies this`owed
      ensures Safe() && Settled()
    {
      owed := Records(wal)[accepted..];
    }

    /** The consumer takes back that it accepted the records behind the first n. */
    ghost method Unaccept(n: nat)
      requires Safe() && Settled() && n <= accepted
      requires IsBoundary(wal, CommitValue(commit), n)
      modifies this`accepted, this`owed
      ensures Safe() && Settled() && accepted == n && owed == Records(wal)[n..]
    {
      accepted := n;
      owed := Records(wal)[n..];
    }
  }

  lemma BoundaryMonotonic(wal: bytes, o: nat, a: nat, b: nat)
    ensures a <= b && IsBoundary(wal, o, a) ==> IsBoundary(wal, o, b)
  {
    if a <= b && IsBoundary(wal, o, a) {
      var k: nat :| k <= a && IsOffset(Records(wal), k, o);
      assert k <= b;
    }
  }

  /** Bytes behind the records of a file change nothing which was safe. */
  lemma AppendingIsSafe(s: Snapshot, x: bytes)
    requires CrashSafe(s)
    ensures CrashSafe(Wrote(s, WalFile, x))
  {
    var rs, t := Records(s.wal), Wrote(s, WalFile, x);
    ParseExtends(s.wal, x);
    assert rs[s.accepted..] <= Records(t.wal)[s.accepted..];
    BoundaryOfExtension(s.wal, x, CommitValue(s.commit), s.accepted);
  }

  lemma BoundaryOfExtension(wal: bytes, x: bytes, o: nat, limit: nat)
    requires IsBoundary(wal, o, limit)
    ensures IsBoundary(wal + x, o, limit)
  {
    var k: nat :| k <= limit && IsOffset(Records(wal), k, o);
    ParseExtends(wal, x);
    OffsetOfPrefix(Records(wal), Records(wal + x), k);
    assert IsOffset(Records(wal + x), k, o);
  }

  lemma NoCommitIsSafe(s: Snapshot, c: Option<bytes>)
    requires CrashSafe(s) && CommitValue(c) == 0
    ensures CrashSafe(s.(commit := c))
  {
    assert IsOffset(Records(s.wal), 0, 0);
  }

  lemma EmptyIsSafe(s: Snapshot)
    requires s.wal == [] && s.accepted == 0 && s.owed == [] && CommitValue(s.commit) == 0
    ensures CrashSafe(s)
  {
    assert IsOffset(Records(s.wal), 0, 0);
  }

  /** Writing a commit position byte by byte: a part of it is not used, all of it has to be a position which may
      be used. */
  lemma CommitWritesAreSafe(s: Snapshot, o: nat, n: nat)
    requires CrashSafe(s) && s.commit == Some([]) && o <= MAX_FILE && IsBoundary(s.wal, o, s.accepted)
    requires n <= COMMIT_SIZE
    ensures CrashSafe(Wrote(s, CommitFile, LittleEndian(o, COMMIT_SIZE)[..n]))
    ensures n == COMMIT_SIZE ==> CommitValue(Wrote(s, CommitFile, LittleEndian(o, COMMIT_SIZE)[..n]).commit) == o
  {
    var b := LittleEndian(o, COMMIT_SIZE);
    var t := Wrote(s, CommitFile, b[..n]);
    assert [] + b[..n] == b[..n];
    if n == COMMIT_SIZE {
      SpanValues();
      LittleEndianRoundTrip(o, COMMIT_SIZE);
      assert b[..n] == b;
    } else {
      NoCommitIsSafe(s, t.commit);
    }
  }

  /** What a process finds which starts where another one died: it begins at a record which is not behind the first one
      which was not accepted, and from there on it reads every record, the owed ones in their order behind those which
      were accepted already. */
  lemma RestartSkipsNothing(s: Snapshot)
    requires CrashSafe(s)
    ensures exists k: nat :: k <= s.accepted && IsOffset(Records(s.wal), k, Position(s.wal, s.commit))
                             && PendingRecords(s.wal, s.commit) == Records(s.wal)[k..]
                             && s.owed <= PendingRecords(s.wal, s.commit)[s.accepted - k..]
  {
    var rs := Records(s.wal);
    var k: nat :| k <= s.accepted && IsOffset(rs, k, CommitValue(s.commit));
    ParseFrom(s.wal, k);
    assert PendingRecords(s.wal, s.commit) == rs[k..];
    assert rs[k..][s.accepted - k..] == rs[s.accepted..];
    assert IsOffset(rs, k, Position(s.wal, s.commit));
  }
}
