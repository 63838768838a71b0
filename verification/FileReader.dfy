/** The file reader: it follows a file which grows, hands out its lines one at a time, and remembers how far they were
    delivered. Other programs write to the files, rotate them and truncate them between any two system calls. */
module FileReaders {
  import opened Bytes
  import opened TextLines
  import opened ReadLines
  import opened StateFile
  import opened Fingerprint

  const CHUNK: nat := 65536
  const DEFAULT_MAX_LINE: nat := 1048576
  const MAX_FILE: nat := 0x7FFF_FFFF_FFFF_FFFF

  /** No file is removed from the disk while it is open, and none loses bytes which it had. */
  ghost predicate Grew(a: seq<bytes>, b: seq<bytes>) {
    |a| <= |b| && forall i :: 0 <= i < |a| ==> a[i] <= b[i]
  }

  datatype StateText = NoFile | Unreadable | Text(text: bytes)

  /** The files, where the path leads, and what other programs may do. */
  datatype World = World(contents: seq<bytes>, path: Option<nat>, appendOnly: bool, rotates: bool, quiet: bool)

  /** What other programs can have done between two moments. */
  ghost predicate Meanwhile(a: World, b: World) {
    && a.appendOnly == b.appendOnly && a.rotates == b.rotates && a.quiet == b.quiet
    && |a.contents| <= |b.contents|
    && (a.appendOnly ==> Grew(a.contents, b.contents))
    && (a.quiet ==> b == a)
    && (!a.rotates && a.path.Some? ==> b.path == a.path)
  }

  /** What the operating system shows: files by their identity, the one at the path, and the state file. AppendOnly: the files
      only grow. Reliable: no call fails but those which write the state file. StateWritable: those do not fail either.
      Rotates: a path which leads to a file can lead to another one later. Quiet: other programs do nothing while a call of
      the reader runs. */
  class Files {
    const device: nat
    const appendOnly: bool
    const reliable: bool
    const stateWritable: bool
    const rotates: bool
    const quiet: bool
    var contents: seq<bytes>
    var path: Option<nat>
    var state: Option<bytes>

    ghost predicate Valid()
      reads this
    {
      && device < UINT64_SPAN && |contents| <= UINT64_SPAN
      && (forall i :: 0 <= i < |contents| ==> |contents[i]| <= MAX_FILE)
      && (path.Some? ==> path.value < |contents|)
    }

    ghost function Now(): World
      reads this
    {
      World(contents, path, appendOnly, rotates, quiet)
    }

    constructor (device: nat, appendOnly: bool, reliable: bool, stateWritable: bool, rotates: bool, quiet: bool,
                 contents: seq<bytes>, path: Option<nat>, state: Option<bytes>)
      requires device < UINT64_SPAN && |contents| <= UINT64_SPAN
      requires forall i :: 0 <= i < |contents| ==> |contents[i]| <= MAX_FILE
      requires path.Some? ==> path.value < |contents|
      ensures Valid()
      ensures this.device == device && this.appendOnly == appendOnly && this.reliable == reliable
      ensures this.stateWritable == stateWritable && this.rotates == rotates && this.quiet == quiet
      ensures this.contents == contents && this.path == path && this.state == state
    {
      this.device, this.appendOnly, this.reliable := device, appendOnly, reliable;
      this.stateWritable, this.rotates, this.quiet := stateWritable, rotates, quiet;
      this.contents, this.path, this.state := contents, path, state;
    }

    /** Whatever other programs do before the next call of the reader. */
    method Others()
      requires Valid()
      modifies this`contents, this`path
      ensures Valid() && Meanwhile(old(Now()), Now())
    {
      var changes: int := *;
      for k := 0 to if changes > 0 && !quiet then changes else 0
        invariant Valid() && Meanwhile(old(Now()), Now())
      {
        OneChange();
      }
    }

    /** A program writes to a file, or truncates it, or puts another file at the path, or removes it from there. */
    method OneChange()
      requires Valid() && !quiet
      modifies this`contents, this`path
      ensures Valid() && Meanwhile(old(Now()), Now())
    {
      var i: int, x: bytes, cut: int := *, *, *;
      if 0 <= i < |contents| {
        var kept := if appendOnly || cut < 0 || cut > |contents[i]| then contents[i] else contents[i][..cut];
        if |kept| + |x| <= MAX_FILE {
          contents := contents[i := kept + x];
        }
      } else if |contents| < UINT64_SPAN && |x| <= MAX_FILE {
        contents := contents + [x];
      }
      var target: int := *;
      if rotates || path.None? {
        path := if 0 <= target < |contents| then Some(target) else None;
      }
    }

    method Succeeds() returns (ok: bool)
      ensures reliable ==> ok
    {
      ok := *;
      if reliable {
        ok := true;
      }
    }

    /** open(2) of the path: the file which is there, if there is one. */
    method Open() returns (fd: Option<nat>)
      requires Valid()
      modifies this`contents, this`path
      ensures Valid() && Meanwhile(old(Now()), Now())
      ensures fd.Some? ==> fd == path
      ensures reliable ==> fd == path
    {
      Others();
      var ok := Succeeds();
      fd := if ok then path else None;
    }

    /** stat of the path: it leads to another file than fd. */
    method PathReplaced(fd: nat) returns (replaced: bool)
      requires Valid() && fd < |contents|
      modifies this`contents, this`path
      ensures Valid() && Meanwhile(old(Now()), Now())
      ensures replaced ==> path.Some? && path.value != fd
      ensures reliable ==> replaced == (path.Some? && path.value != fd)
    {
      Others();
      var ok := Succeeds();
      replaced := ok && path.Some? && path.value != fd;
    }

    method Size(fd: nat) returns (size: Option<nat>)
      requires Valid() && fd < |contents|
      modifies this`contents, this`path
      ensures Valid() && Meanwhile(old(Now()), Now())
      ensures size.Some? ==> size.value == |contents[fd]|
      ensures reliable ==> size.Some?
    {
      Others();
      var ok := Succeeds();
      size := if ok then Some(|contents[fd]|) else None;
    }

    /** pread(2): what there is of len bytes. */
    method PRead(fd: nat, offset: nat, len: nat) returns (data: Option<bytes>)
      requires Valid() && fd < |contents|
      modifies this`contents, this`path
      ensures Valid() && Meanwhile(old(Now()), Now())
      ensures data.Some? ==> data.value == Window(contents[fd], offset, len)
      ensures data.Some? && data.value != [] ==> offset + |data.value| <= MAX_FILE
      ensures reliable ==> data.Some?
    {
      Others();
      var ok := Succeeds();
      data := if ok then Some(Window(contents[fd], offset, len)) else None;
    }

    method ReadState() returns (text: StateText)
      ensures text == match state { case None => NoFile case Some(t) => Text(t) } || (text == Unreadable && !reliable)
    {
      var ok := Succeeds();
      if !ok {
        return Unreadable;
      }
      text := match state { case None => NoFile case Some(t) => Text(t) };
    }

    /** A file of its own which is written, flushed and renamed. */
    method ReplaceState(text: bytes) returns (ok: bool)
      modifies this`state
      ensures state == if ok then Some(text) else old(state)
      ensures stateWritable ==> ok
    {
      ok := *;
      if stateWritable {
        ok := true;
      }
      if ok {
        state := Some(text);
      }
    }
  }

  function Window(c: bytes, offset: nat, len: nat): (w: bytes)
    ensures |w| <= len && (w != [] ==> offset + |w| <= |c|)
  {
    if offset >= |c| then [] else if offset + len <= |c| then c[offset..offset + len] else c[offset..]
  }

  /** What the caller of a reader can tell from its lines and its commits. Cuts: a last line without a new line can be
      returned, since the file was rotated, or since such a line may be returned after a while. */
  datatype View = View(fd: Option<nat>, generation: nat, following: bool, buffer: bytes, pos: nat, bufferStart: nat, skipping: bool,
                       committed: nat, log: Log, rotationSeen: bool, waits: bool, firstOpen: bool)

  /** What one round did for the caller: the lines of a generation come one behind the other, and a new generation starts with
      none. */
  ghost predicate RoundEffect(a: View, b: View, r: Round) {
    && b.following == a.following && b.generation >= a.generation && b.waits == a.waits
    && LogStep(if b.generation == a.generation then a.log else NewLog(b.log.base), b.log, r, a.rotationSeen || a.waits)
    && (r.Again? && b.rotationSeen ==> a.rotationSeen)
    && (r.Got? ==> b.fd.Some? && r.line.generation == b.generation && b.committed < r.line.endOffset == b.bufferStart)
    && (if b.generation == a.generation then b.committed == a.committed && b.firstOpen == a.firstOpen
        else !b.firstOpen && (!a.firstOpen ==> b.log.base == 0))
    && (b.generation == a.generation && b.fd.Some? ==> b.fd == a.fd && b.bufferStart >= a.bufferStart)
  }

  /** A line which is returned is the next one of this part, or the last one of it, which ends there. */
  ghost predicate LogStep(a: Log, b: Log, r: Round, cuts: bool) {
    && b.base == a.base
    && if b.cuts == a.cuts then
         b.start == a.start && b.earlier == a.earlier && b.lines == a.lines + if r.Got? then [r.line] else []
       else
         && cuts && r.Got? && !r.line.truncated && b.cuts == a.cuts + [r.line.endOffset]
         && b.start == r.line.endOffset && b.earlier == a.earlier + a.lines + [r.line] && b.lines == []
  }

  lemma NoRound(v: View)
    ensures RoundEffect(v, v, Again) && RoundEffect(v, v, Failed)
  {
  }

  lemma AnyRound(a: View, b: View, r: Round)
    requires RoundEffect(a, b, Again) && !r.Got?
    ensures RoundEffect(a, b, r)
  {
  }

  /** What is not returned is moved, or passed over. */
  lemma BufferRound(a: View, b: View)
    requires b == a.(buffer := b.buffer, pos := b.pos, bufferStart := b.bufferStart, skipping := b.skipping, log := b.log)
    requires SameLog(a.log, b.log) && b.bufferStart >= a.bufferStart
    ensures RoundEffect(a, b, Again)
  {
  }

  /** A line out of the buffer. */
  lemma LineRound(a: View, b: View, line: Line)
    requires b == a.(buffer := b.buffer, pos := b.pos, bufferStart := b.bufferStart, skipping := b.skipping, log := b.log)
    requires SameLog(a.log.(lines := a.log.lines + [line]), b.log) && b.bufferStart >= a.bufferStart
    requires a.fd.Some? && line.generation == b.generation && b.committed < line.endOffset == b.bufferStart
    ensures RoundEffect(a, b, Got(line))
  {
  }

  lemma EndRound(a: View, b: View)
    requires b == a.(rotationSeen := b.rotationSeen)
    ensures RoundEffect(a, b, AtEnd)
  {
  }

  lemma WaitedRound(a: View, b: View, c: View, line: Line)
    requires b == a.(rotationSeen := false) && RoundEffect(b, c, Got(line))
    ensures RoundEffect(a, c, Got(line))
  {
  }

  lemma ClosedRound(a: View, b: View)
    requires b == a.(fd := None, buffer := b.buffer, pos := b.pos, bufferStart := 0, skipping := b.skipping, rotationSeen := false)
    ensures RoundEffect(a, b, Again)
  {
  }

  lemma RestRound(a: View, b: View, line: Line)
    requires b == a.(buffer := b.buffer, pos := b.pos, bufferStart := b.bufferStart, log := b.log)
    requires b.log == Log(a.log.base, a.log.cuts + [b.bufferStart], a.log.earlier + a.log.lines + [line], b.bufferStart, b.bufferStart, [])
    requires (a.rotationSeen || a.waits) && a.fd.Some? && a.committed < b.bufferStart == line.endOffset && b.bufferStart >= a.bufferStart
    requires line.generation == a.generation && !line.truncated
    ensures RoundEffect(a, b, Got(line))
  {
  }

  /** A file was opened, or nothing was changed. */
  lemma OpenedRound(a: View, b: View, r: Round)
    requires a.fd.None? && !r.Got? && (r.Again? ==> b.rotationSeen == a.rotationSeen) && b.following == a.following && b.waits == a.waits
    requires if b == a then true
             else b.generation == a.generation + 1 && b.log == NewLog(b.bufferStart) && !b.firstOpen && (!a.firstOpen ==> b.bufferStart == 0)
    ensures RoundEffect(a, b, r)
  {
  }

  lemma RotationForgotten(a: View, b: View)
    requires RoundEffect(a, b, Again)
    ensures RoundEffect(a, b.(rotationSeen := false), Again)
  {
  }

  lemma RoundsCompose(a: View, b: View, c: View, r: Round)
    requires RoundEffect(a, b, Again) && RoundEffect(b, c, r)
    ensures RoundEffect(a, c, r)
  {
  }

  /** All lines of the generation, whatever was cut. */
  lemma RoundLines(a: View, b: View, r: Round)
    requires RoundEffect(a, b, r)
    ensures b.log.earlier + b.log.lines
            == (if b.generation == a.generation then a.log.earlier + a.log.lines else []) + (if r.Got? then [r.line] else [])
  {
    var before := if b.generation == a.generation then a.log else NewLog(b.log.base);
    if b.log.cuts == before.cuts {
      Associative(before.earlier, before.lines, if r.Got? then [r.line] else []);
    }
  }

  function LoadedFrom(state: Option<bytes>): StateResult {
    match state
    case None => NoState
    case Some(text) => Load(text)
  }

  /** The state file says this position of this file. Its fingerprint is the hash of the first bytes of the head, as many as
      there are in front of the position. */
  ghost predicate SavedAs(state: Option<bytes>, device: nat, inode: nat, offset: nat, head: bytes) {
    && state.Some?
    && var n := if offset < |head| then offset else |head|;
       Load(state.value) == Loaded(SavedState(device, inode, offset, n, HashBytes(head[..n])))
  }

  /** The file c starts as the one did which the state was saved for. */
  ghost predicate StartsAsSaved(s: SavedState, c: bytes) {
    s.headLen <= |c| && HashBytes(c[..s.headLen]) == s.headHash
  }

  /** The state file is about the file f with the content c: it names it, has a position inside of it, and it starts as it did. */
  ghost predicate Recognizes(state: Option<bytes>, device: nat, f: nat, c: bytes) {
    LoadedFrom(state).Loaded?
    && var s := LoadedFrom(state).state; s.device == device && s.inode == f && s.offset <= |c| && StartsAsSaved(s, c)
  }

  lemma WindowFromStart(c: bytes, n: nat)
    ensures |Window(c, 0, n)| == n <==> n <= |c|
    ensures n <= |c| ==> Window(c, 0, n) == c[..n]
  {
  }

  datatype Round = Got(line: Line) | AtEnd | NoFileNow | Failed | Again

  /** What was read up to this position, and begins with head, is not in the file f any more: it is shorter, or starts with
      other bytes. */
  ghost predicate IsStale(w: World, f: nat, reached: nat, head: bytes)
    requires f < |w.contents|
  {
    reached > |w.contents[f]| || !(head <= w.contents[f])
  }

  /** What is not read yet of the file, all of it if it will be read again, and of the file which comes behind it. */
  ghost function Left(w: World, fd: Option<nat>, reached: nat, head: bytes): nat {
    LeftOpen(w, fd, reached, head) + LeftBehind(w, fd)
  }

  ghost function LeftOpen(w: World, fd: Option<nat>, reached: nat, head: bytes): nat {
    if fd.None? || fd.value >= |w.contents| then 0
    else if IsStale(w, fd.value, reached, head) then 1 + |w.contents[fd.value]|
    else |w.contents[fd.value]| - reached
  }

  ghost function LeftBehind(w: World, fd: Option<nat>): nat {
    if w.path.None? || w.path == fd || w.path.value >= |w.contents| then 0
    else |w.contents[w.path.value]| + if fd.Some? then 2 else 1
  }

  lemma LeftWhenReset(w: World, f: nat, reached: nat, head: bytes, seen: bytes)
    requires f < |w.contents| && IsStale(w, f, reached, head) && seen <= w.contents[f]
    ensures Left(w, Some(f), 0, seen) < Left(w, Some(f), reached, head)
  {
  }

  lemma LeftWhenSame(w: World, f: nat, reached: nat, head: bytes, seen: bytes)
    requires f < |w.contents| && !IsStale(w, f, reached, head) && seen <= w.contents[f]
    ensures Left(w, Some(f), reached, seen) == Left(w, Some(f), reached, head) && !IsStale(w, f, reached, seen)
  {
  }

  lemma LeftWhenRead(w: World, f: nat, reached: nat, head: bytes, n: nat)
    requires f < |w.contents| && !IsStale(w, f, reached, head) && (n > 0 ==> reached + n <= |w.contents[f]|)
    ensures Left(w, Some(f), reached + n, head) + n == Left(w, Some(f), reached, head)
  {
  }

  lemma LeftWhenOpened(w: World, f: nat, reached: nat, head: bytes, offset: nat, seen: bytes)
    requires f < |w.contents| && w.path == Some(f) && offset <= |w.contents[f]| && seen <= w.contents[f]
    ensures Left(w, Some(f), offset, seen) < Left(w, None, reached, head)
  {
  }

  lemma LeftWhenClosed(w: World, f: nat, reached: nat, head: bytes)
    requires w.path.Some? && w.path.value < |w.contents| && w.path != Some(f)
    ensures Left(w, None, 0, []) < Left(w, Some(f), reached, head)
  {
  }

  /** The state file, if it is about a file which is there, has a position inside of it and the fingerprint of its start. */
  ghost predicate Describes(state: Option<bytes>, device: nat, contents: seq<bytes>) {
    state.Some? && Load(state.value).Loaded? ==>
      var s := Load(state.value).state;
      s.device == device ==> && s.inode < |contents| && s.headLen <= s.offset <= |contents[s.inode]|
                             && s.headHash == HashBytes(contents[s.inode][..s.headLen])
  }

  class FileReader {
    const files: Files
    const maxLine: nat
    const startAtEnd: bool
    const incompleteSec: nat
    var following: bool           // Open was called
    var firstOpen: bool
    var fd: Option<nat>
    var generation: nat
    var head: bytes               // at most HEAD_MAX bytes, a prefix of the file
    var buffer: bytes             // from pos on: the bytes behind bufferStart
    var pos: nat
    var bufferStart: nat          // the position of buffer[pos] in the file
    var scanFrom: nat             // buffer[pos..pos + scanFrom] is known to be without a new line
    var skipping: bool
    var rotationSeen: bool
    var incompleteSince: nat
    var committed: nat
    ghost var log: Log

    ghost predicate Valid()
      reads this, files
    {
      && files.Valid() && Structure() && Unrotated()
      && (fd.Some? ==> fd.value < |files.contents|)
      && (fd.Some? && files.appendOnly ==> Follows(files.contents[fd.value]))
    }

    /** Without rotations the path leads to the file which is read, and no part ends if no line may be returned without a new
        line. */
    ghost predicate Unrotated()
      reads this, files
    {
      !files.rotates ==> && !rotationSeen && (fd.Some? ==> files.path == fd)
                         && (incompleteSec == 0 ==> log.cuts == [])
    }

    ghost predicate Structure()
      reads this
    {
      && 0 < maxLine && Cursors()
      && Ends(log, generation, if fd.Some? then bufferStart else MAX_FILE)
      && (if fd.Some? then committed <= bufferStart && !firstOpen else bufferStart == 0 && !skipping)
    }

    ghost predicate Cursors()
      reads this
    {
      && pos <= |buffer| && scanFrom <= Pending() && |head| <= HEAD_MAX
      && NEW_LINE !in buffer[pos..pos + scanFrom]
      && bufferStart + Pending() <= MAX_FILE
    }

    /** The buffer is what comes next in the file c, and what comes before it was returned. */
    ghost predicate Follows(c: bytes)
      reads this
    {
      head <= c && InStep(c, buffer, pos, bufferStart, log, skipping, maxLine)
    }

    function Pending(): nat
      reads this
    {
      if pos <= |buffer| then |buffer| - pos else 0
    }

    constructor (files: Files, maxLine: nat, startAtEnd: bool, incompleteSec: nat)
      requires files.Valid()
      ensures Valid() && fd.None? && firstOpen && !following && log == NewLog(0)
      ensures this.files == files && this.startAtEnd == startAtEnd && this.incompleteSec == incompleteSec
      ensures this.maxLine == if maxLine > 0 then maxLine else DEFAULT_MAX_LINE
    {
      this.files, this.startAtEnd, this.incompleteSec := files, startAtEnd, incompleteSec;
      this.maxLine := if maxLine > 0 then maxLine else DEFAULT_MAX_LINE;
      following, firstOpen, fd, generation := false, true, None, 0;
      head, buffer, pos, bufferStart, scanFrom := [], [], 0, 0, 0;
      skipping, rotationSeen, incompleteSince, committed := false, false, 0, 0;
      log := NewLog(0);
    }

    /** Sets the files: starts from scratch. */
    method Open()
      requires Valid()
      modifies this
      ensures Valid() && following && firstOpen && fd.None? && generation == 0 && committed == 0 && !rotationSeen
    {
      CloseFile();
      following, firstOpen, generation, committed := true, true, 0, 0;
      log := NewLog(0);
    }

    method CloseFile()
      requires Valid()
      modifies this`fd, this`buffer, this`pos, this`scanFrom, this`bufferStart, this`skipping, this`rotationSeen,
               this`incompleteSince, this`head
      ensures Valid() && fd.None? && bufferStart == 0 && !rotationSeen && head == [] && Pending() == 0
    {
      hide Follows, Ends;
      EndsSame(log, log, generation, if fd.Some? then bufferStart else MAX_FILE, MAX_FILE);
      fd := None;
      ClearBuffer();
      bufferStart := 0;
      skipping := false;
      rotationSeen := false;
      incompleteSince := 0;
      head := [];
    }

    lemma FollowsGrown(c: bytes, d: bytes)
      requires Follows(c) && c <= d
      ensures Follows(d)
    {
      hide InStep;
      InStepGrows(c, d, buffer, pos, bufferStart, log, skipping, maxLine);
    }

    /** After a call, in which other programs did what they wanted. */
    lemma StillValid(before: World)
      requires files.Valid() && Structure() && Meanwhile(before, files.Now()) && (fd.Some? ==> fd.value < |before.contents|)
      requires !files.rotates ==> !rotationSeen && (fd.Some? ==> before.path == fd) && (incompleteSec == 0 ==> log.cuts == [])
      requires fd.Some? && files.appendOnly ==> Follows(before.contents[fd.value])
      ensures Valid()
    {
      hide Follows, Structure, Files.Valid;
      if fd.Some? && files.appendOnly {
        FollowsGrown(before.contents[fd.value], files.contents[fd.value]);
      }
    }

    /* --- Lines in the buffer --- */

    /** The buffer up to its first new line, at most maxLine bytes of it. None if no line can be made of the buffer. */
    method ExtractLine() returns (line: Option<Line>)
      requires Valid() && fd.Some?
      modifies this`buffer, this`pos, this`bufferStart, this`scanFrom, this`skipping, this`log
      ensures Valid() && bufferStart + Pending() == old(bufferStart + Pending())
      ensures line.None? ==> Exhausted() && SameLog(old(log), log)
      ensures line.None? ==> bufferStart >= old(bufferStart)
      ensures line.Some? ==> Returned(old(log), log, line.value) && line.value.endOffset == bufferStart > old(bufferStart)
    {
      hide InStep, Ends;
      while true
        invariant Valid() && bufferStart + Pending() == old(bufferStart + Pending()) && bufferStart >= old(bufferStart)
        invariant SameLog(old(log), log)
        decreases skipping
      {
        var p := Find(buffer, NEW_LINE, pos + scanFrom);
        NoLineBefore(p);
        if skipping {
          if p == |buffer| {
            SkipAll();
            return None;
          }
          SkipTo(p);
        } else if p == |buffer| {
          if Pending() > maxLine {
            var cut := CutLine();
            return Some(cut);
          }
          assert buffer[pos..pos + Pending()] == buffer[pos..p];
          scanFrom := Pending();
          return None;
        } else {
          var whole := TakeLine(p);
          return Some(whole);
        }
      }
    }

    /** Nothing more can be returned of what was read. */
    ghost predicate Exhausted()
      reads this
    {
      pos <= |buffer| && NEW_LINE !in buffer[pos..] && (if skipping then Pending() == 0 else Pending() <= maxLine)
    }

    ghost predicate Returned(before: Log, after: Log, line: Line)
      reads this
    {
      && SameLog(before.(lines := before.lines + [line]), after)
      && line.generation == generation && |line.text| <= maxLine
    }

    lemma NoLineBefore(p: nat)
      requires Cursors() && p == Find(buffer, NEW_LINE, pos + scanFrom)
      ensures NEW_LINE !in buffer[pos..p] && pos <= p <= |buffer|
    {
      assert buffer[pos..p] == buffer[pos..pos + scanFrom] + buffer[pos + scanFrom..p];
      assert NEW_LINE !in buffer[pos + scanFrom..p];
    }

    /** The bytes from pos to the new line at p become a line, and one carriage return at their end is left out. */
    method TakeLine(p: nat) returns (line: Line)
      requires Valid() && fd.Some? && !skipping
      requires pos <= p < |buffer| && buffer[p] == NEW_LINE && NEW_LINE !in buffer[pos..p]
      modifies this`pos, this`bufferStart, this`scanFrom, this`log
      ensures Valid() && bufferStart + Pending() == old(bufferStart + Pending())
      ensures Returned(old(log), log, line) && line.endOffset == bufferStart > old(bufferStart)
    {
      hide InStep, Ends;
      line := LineBefore(p);
      LineTaken(p, line);
      log := log.(lineStart := line.endOffset, lines := log.lines + [line]);
      bufferStart := bufferStart + (p + 1 - pos);
      pos := p + 1;
      scanFrom := 0;
    }

    method LineBefore(p: nat) returns (line: Line)
      requires pos <= p < |buffer|
      ensures IsLineBefore(p, line)
    {
      var len := p - pos;
      var truncated := len > maxLine;
      if truncated {
        len := maxLine;
      } else if len > 0 && buffer[pos + len - 1] == CARRIAGE_RETURN {
        len := len - 1;
      }
      line := Line(buffer[pos..pos + len], generation, bufferStart + (p + 1 - pos), truncated);
    }

    ghost predicate IsLineBefore(p: nat, line: Line)
      requires pos <= p < |buffer|
      reads this
    {
      var n := p - pos;
      var len := if n > maxLine then maxLine else if n > 0 && buffer[p - 1] == CARRIAGE_RETURN then n - 1 else n;
      line == Line(buffer[pos..pos + len], generation, bufferStart + n + 1, n > maxLine)
    }

    lemma LineTaken(p: nat, line: Line)
      requires Valid() && fd.Some? && !skipping && pos <= p < |buffer| && IsLineBefore(p, line)
      requires buffer[p] == NEW_LINE && NEW_LINE !in buffer[pos..p]
      ensures var after := log.(lineStart := line.endOffset, lines := log.lines + [line]);
              && Ends(after, generation, line.endOffset)
              && (files.appendOnly ==> InStep(files.contents[fd.value], buffer, p + 1, line.endOffset, after, false, maxLine))
      ensures line.generation == generation && |line.text| <= maxLine && line.endOffset == bufferStart + (p + 1 - pos)
    {
      hide InStep, Ends, ItemOf;
      EndsGrow(log, log.(lineStart := line.endOffset, lines := log.lines + [line]), generation, bufferStart, line);
      if files.appendOnly {
        InStepTakes(files.contents[fd.value], buffer, pos, bufferStart, log, maxLine, p - pos, |line.text|, line);
      }
    }

    /** Without a new line in the buffer: its first maxLine bytes become a line, and skipping starts. */
    method CutLine() returns (line: Line)
      requires Valid() && fd.Some? && !skipping && Pending() > maxLine && NEW_LINE !in buffer[pos..]
      modifies this`pos, this`bufferStart, this`scanFrom, this`skipping, this`log
      ensures Valid() && bufferStart + Pending() == old(bufferStart + Pending())
      ensures Returned(old(log), log, line) && line.endOffset == bufferStart > old(bufferStart)
    {
      hide InStep, Ends;
      line := Line(buffer[pos..pos + maxLine], generation, bufferStart + maxLine, true);
      if files.appendOnly {
        InStepCuts(files.contents[fd.value], buffer, pos, bufferStart, log, maxLine, line);
      }
      EndsGrow(log, log.(lines := log.lines + [line]), generation, bufferStart, line);
      log := log.(lines := log.lines + [line]);
      bufferStart := bufferStart + maxLine;
      pos := pos + maxLine;
      scanFrom := 0;
      skipping := true;
    }

    /** Skipping ends behind the new line at p. */
    method SkipTo(p: nat)
      requires Valid() && fd.Some? && skipping
      requires pos <= p < |buffer| && buffer[p] == NEW_LINE && NEW_LINE !in buffer[pos..p]
      modifies this`pos, this`bufferStart, this`scanFrom, this`skipping, this`log
      ensures Valid() && !skipping && bufferStart + Pending() == old(bufferStart + Pending()) && bufferStart > old(bufferStart)
      ensures SameLog(old(log), log)
    {
      hide InStep, Ends;
      if files.appendOnly {
        InStepSkipped(files.contents[fd.value], buffer, pos, bufferStart, log, maxLine, p - pos);
      }
      EndsSame(log, log.(lineStart := bufferStart + (p + 1 - pos)), generation, bufferStart, bufferStart + (p + 1 - pos));
      log := log.(lineStart := bufferStart + (p + 1 - pos));
      bufferStart := bufferStart + (p + 1 - pos);
      pos := p + 1;
      scanFrom := 0;
      skipping := false;
    }

    /** Skipping goes on: nothing of the buffer is returned. */
    method SkipAll()
      requires Valid() && fd.Some? && skipping && NEW_LINE !in buffer[pos..]
      modifies this`buffer, this`pos, this`bufferStart, this`scanFrom
      ensures Valid() && buffer == [] && pos == 0 && bufferStart == old(bufferStart + Pending())
    {
      hide InStep, Ends;
      if files.appendOnly {
        InStepSkips(files.contents[fd.value], buffer, pos, bufferStart, log, maxLine);
      }
      EndsSame(log, log, generation, bufferStart, bufferStart + Pending());
      bufferStart := bufferStart + Pending();
      ClearBuffer();
    }

    method ClearBuffer()
      modifies this`buffer, this`pos, this`scanFrom
      ensures buffer == [] && pos == 0 && scanFrom == 0
    {
      buffer := [];
      pos := 0;
      scanFrom := 0;
    }

    /** All bytes from pos on become a line without a new line, and a new part of the file starts behind it. */
    method EmitRemainder() returns (line: Line)
      requires Valid() && fd.Some? && !skipping && 0 < Pending() && Exhausted() && (files.rotates || incompleteSec > 0)
      modifies this`buffer, this`pos, this`bufferStart, this`scanFrom, this`incompleteSince, this`log
      ensures Valid() && bufferStart == old(bufferStart + Pending()) && Pending() == 0
      ensures line == Line(Trim(old(buffer[pos..])), generation, bufferStart, false) && committed < bufferStart
      ensures log == Log(old(log.base), old(log.cuts) + [bufferStart], old(log.earlier + log.lines) + [line], bufferStart, bufferStart, [])
    {
      hide Valid;
      line := Remainder();
      EndPart(line);
    }

    method Remainder() returns (line: Line)
      requires Valid() && 0 < Pending()
      ensures line == Line(Trim(buffer[pos..]), generation, bufferStart + Pending(), false)
    {
      hide Follows, Ends, Files.Valid;
      var len := Pending();
      if len > 0 && buffer[pos + len - 1] == CARRIAGE_RETURN {
        len := len - 1;
      }
      line := Line(buffer[pos..pos + len], generation, bufferStart + Pending(), false);
    }

    /** A part of the file ends with this line. */
    method EndPart(line: Line)
      requires Valid() && fd.Some? && !skipping && 0 < Pending() && Exhausted() && (files.rotates || incompleteSec > 0)
      requires line == Line(Trim(buffer[pos..]), generation, bufferStart + Pending(), false)
      modifies this`buffer, this`pos, this`bufferStart, this`scanFrom, this`incompleteSince, this`log
      ensures Valid() && bufferStart == old(bufferStart + Pending()) && Pending() == 0
      ensures log == Log(old(log.base), old(log.cuts) + [bufferStart], old(log.earlier + log.lines) + [line], bufferStart, bufferStart, [])
      ensures committed < bufferStart
    {
      hide InStep, Ends, Files.Valid;
      if files.appendOnly {
        InStepEmits(files.contents[fd.value], buffer, pos, bufferStart, log, maxLine, line);
      }
      assert log.earlier + (log.lines + [line]) == log.earlier + log.lines + [line] + [];
      ghost var after := Log(log.base, log.cuts + [line.endOffset], log.earlier + log.lines + [line], line.endOffset, line.endOffset, []);
      EndsGrow(log, after, generation, bufferStart, line);
      log := after;
      bufferStart := bufferStart + Pending();
      ClearBuffer();
      incompleteSince := 0;
    }

    /* --- The file --- */

    /** The buffer keeps what is not returned, and gets the bytes of the file behind that. The result is their number, None if
        pread failed. */
    method FillBuffer() returns (read: Option<nat>)
      requires Valid() && fd.Some? && Exhausted()
      modifies this`buffer, this`pos, files`contents, files`path
      ensures Valid() && Others()
      ensures files.reliable ==> read.Some?
      ensures RoundEffect(old(Shown()), Shown(), Again)
      ensures read.Some? ==> Pending() == old(Pending()) + read.value
      ensures read.Some? ==> pos == 0 && buffer == old(buffer)[old(pos)..] + Window(files.contents[fd.value], old(bufferStart + Pending()), CHUNK)
      ensures read == Some(0) ==> Exhausted() && (files.appendOnly ==> bufferStart + Pending() == |files.contents[fd.value]|)
      ensures read.Some? && read.value > 0 ==> fd.value < |files.contents| && Reached() <= |files.contents[fd.value]|
    {
      hide Valid, Files.Valid, Meanwhile, Window, RoundEffect, Exhausted;
      ghost var before, view := files.Now(), Shown();
      NoRound(view);
      InTheMiddle();
      var data := files.PRead(fd.value, bufferStart + Pending(), CHUNK);
      MeanwhileAt(before, files.Now(), fd.value);
      StillValid(before);
      if data.None? {
        return None;
      }
      AddData(data.value);
      BufferRound(view, Shown());
      read := Some(|data.value|);
    }

    /** What was read comes behind what is not returned, and that to the start of the buffer. */
    method AddData(data: bytes)
      requires Valid() && fd.Some? && Exhausted() && data == Window(files.contents[fd.value], bufferStart + Pending(), CHUNK)
      requires data != [] ==> bufferStart + Pending() + |data| <= MAX_FILE
      modifies this`buffer, this`pos
      ensures Valid() && pos == 0 && buffer == old(buffer)[old(pos)..] + data && Pending() == old(Pending()) + |data|
      ensures data == [] ==> Exhausted() && (files.appendOnly ==> bufferStart + Pending() == |files.contents[fd.value]|)
    {
      hide Valid, Files.Valid, InStep, Ends, Window;
      ghost var b, p := buffer, pos;
      InTheMiddle();
      buffer := buffer[pos..] + data;
      pos := 0;
      FillsValid(b, p, data);
    }

    /** What holds between two lines. */
    ghost predicate Between(b: bytes, p: nat)
      reads this, files
    {
      && files.Valid() && Unrotated() && fd.Some? && fd.value < |files.contents| && 0 < maxLine
      && p <= |b| && scanFrom <= |b| - p && |head| <= HEAD_MAX && NEW_LINE !in b[p..p + scanFrom] && bufferStart + |b| - p <= MAX_FILE
      && committed <= bufferStart && !firstOpen && Ends(log, generation, bufferStart)
      && (files.appendOnly ==> head <= files.contents[fd.value] && InStep(files.contents[fd.value], b, p, bufferStart, log, skipping, maxLine))
    }

    lemma InTheMiddle()
      requires Valid() && fd.Some?
      ensures Between(buffer, pos)
      ensures !files.rotates ==> !rotationSeen && files.path == fd && (incompleteSec == 0 ==> log.cuts == [])
      ensures files.appendOnly ==> Follows(files.contents[fd.value])
      ensures Structure()
    {
    }

    lemma FillsValid(b: bytes, p: nat, data: bytes)
      requires Between(b, p) && buffer == b[p..] + data && pos == 0
      requires data == Window(files.contents[fd.value], bufferStart + |b| - p, CHUNK)
      requires data != [] ==> bufferStart + |b| - p + |data| <= MAX_FILE
      ensures Valid()
      ensures NEW_LINE !in b[p..] && data == [] ==> NEW_LINE !in buffer[pos..]
      ensures data == [] && files.appendOnly ==> bufferStart + Pending() == |files.contents[fd.value]|
    {
      hide InStep, Ends, Files.Valid, Window;
      ComesNext(b, p, data);
      ScanStays(b, p, scanFrom, data);
    }

    lemma ComesNext(b: bytes, p: nat, data: bytes)
      requires Between(b, p) && data == Window(files.contents[fd.value], bufferStart + |b| - p, CHUNK)
      ensures files.appendOnly ==> InStep(files.contents[fd.value], b[p..] + data, 0, bufferStart, log, skipping, maxLine)
      ensures data == [] && files.appendOnly ==> bufferStart + |b| - p == |files.contents[fd.value]|
    {
      hide InStep, Ends, Files.Valid, Window;
      if files.appendOnly {
        InStepFills(files.contents[fd.value], b, p, bufferStart, log, skipping, maxLine, data);
      }
    }

    /** What other programs may have done meanwhile. */
    twostate predicate Others()
      reads this, files
    {
      Meanwhile(old(files.Now()), files.Now())
    }

    /** Compares head with the file. If it is a prefix of it, head becomes as long as the file allows. */
    method RefreshHead() returns (same: bool)
      requires Valid() && fd.Some?
      modifies this`head, files`contents, files`path
      ensures Valid() && Others()
      ensures files.appendOnly ==> same
      ensures files.reliable ==> same == (old(head) <= files.contents[fd.value])
      ensures files.reliable && same ==> head == Window(files.contents[fd.value], 0, HEAD_MAX) <= files.contents[fd.value]
      ensures !same ==> head == old(head)
    {
      hide InStep, Ends, Meanwhile;
      ghost var before := files.Now();
      var data := files.PRead(fd.value, 0, HEAD_MAX);
      MeanwhileAt(before, files.Now(), fd.value);
      StillValid(before);
      if data.None? {
        return true;
      }
      if |data.value| < |head| {
        return false;
      }
      if data.value[..|head|] != head {
        return false;
      }
      head := data.value;
      same := true;
    }

    /** Is this still the file which was read? If it is shorter, or starts with other bytes, a new generation starts at its
        position 0. */
    method CheckFile() returns (same: bool)
      requires Valid() && fd.Some? && Exhausted()
      modifies this, files
      ensures Valid() && Others() && fd == old(fd) && StateKept(old(files.state), old(files.contents))
      ensures files.appendOnly ==> same
      ensures same ==> Exhausted() && files.state == old(files.state) && Shown() == old(Shown())
      ensures files.reliable && same ==> old(head) <= files.contents[fd.value] && head == Window(files.contents[fd.value], 0, HEAD_MAX)
      ensures !same ==> generation == old(generation) + 1 && log == NewLog(0) && bufferStart == committed == 0 && !rotationSeen
      ensures RoundEffect(old(Shown()), Shown(), Again)
      ensures files.quiet && files.reliable ==>
                && fd.value < |files.contents|
                && if same then !IsStale(files.Now(), fd.value, Reached(), head) && Measure() == old(Measure()) else Measure() < old(Measure())
    {
      hide Valid, Meanwhile, Describes, Window, Left, IsStale;
      ghost var before, state, view := files.Now(), files.state, Shown();
      ghost var seen, reached := head, Reached();
      NoRound(view);
      StaysFirst();
      same := IsSame();
      ghost var middle := files.Now();
      DescribesLater(state, files.device, before, middle);
      if !same {
        ResetFile();
        MeanwhileQuiet(middle, files.Now());
        MeanwhileTwice(before, middle, files.Now());
      }
      FileIsThere();
      if files.quiet && files.reliable {
        Checked(files.Now(), fd.value, reached, seen, head, same);
      }
    }

    lemma StaysFirst()
      requires Valid() && fd.Some?
      ensures !firstOpen
    {
    }

    /** The file is not shorter than what was read of it, and begins as it did. What cannot be found out counts as yes. */
    method IsSame() returns (same: bool)
      requires Valid() && fd.Some?
      modifies this`head, files`contents, files`path
      ensures Valid() && Others() && (files.appendOnly ==> same) && (!same ==> head == old(head))
      ensures files.reliable && same ==> old(head) <= files.contents[fd.value] && head == Window(files.contents[fd.value], 0, HEAD_MAX)
      ensures files.reliable && same ==> head <= files.contents[fd.value]
      ensures files.quiet ==> files.Now() == old(files.Now())
      ensures files.quiet && files.reliable ==> fd.value < |files.contents| && same == !IsStale(files.Now(), fd.value, Reached(), old(head))
    {
      hide Valid, Meanwhile, Window;
      ghost var before := files.Now();
      FileIsThere();
      var shorter := IsShorter();
      MeanwhileQuiet(before, files.Now());
      if shorter.None? {
        return true;
      }
      if shorter.value {
        return false;
      }
      ghost var middle := files.Now();
      FileIsThere();
      same := RefreshHead();
      FileIsThere();
      MeanwhileQuiet(middle, files.Now());
      MeanwhileTwice(before, middle, files.Now());
    }

    lemma Checked(w: World, f: nat, reached: nat, seen: bytes, now: bytes, same: bool)
      requires f < |w.contents| && now <= w.contents[f] && same == !IsStale(w, f, reached, seen)
      ensures if same then !IsStale(w, f, reached, now) && Left(w, Some(f), reached, now) == Left(w, Some(f), reached, seen)
              else Left(w, Some(f), 0, now) < Left(w, Some(f), reached, seen)
    {
      hide Left;
      if same {
        LeftWhenSame(w, f, reached, seen, now);
      } else {
        LeftWhenReset(w, f, reached, seen, now);
      }
    }

    /** fstat: the file is shorter than what was read of it. */
    method IsShorter() returns (shorter: Option<bool>)
      requires Valid() && fd.Some?
      modifies files`contents, files`path
      ensures Valid() && Others() && (files.appendOnly && shorter.Some? ==> !shorter.value)
      ensures files.reliable ==> shorter == Some(|files.contents[fd.value]| < bufferStart + Pending())
    {
      hide InStep, Ends, Meanwhile, Files.Valid;
      ghost var before := files.Now();
      var size := files.Size(fd.value);
      MeanwhileAt(before, files.Now(), fd.value);
      StillValid(before);
      Inside();
      shorter := if size.Some? then Some(size.value < bufferStart + Pending()) else None;
    }

    /** What was read is inside of a file which only grows. */
    lemma Inside()
      requires Valid() && fd.Some?
      ensures files.appendOnly ==> bufferStart + Pending() <= |files.contents[fd.value]|
    {
      if files.appendOnly {
        InStepInside(files.contents[fd.value], buffer, pos, bufferStart, log, skipping, maxLine);
      }
    }

    /** A new generation of the file which is open: nothing of it was returned or committed. */
    method ResetFile()
      requires Valid() && fd.Some?
      modifies this, files
      ensures Valid() && Others() && fd == old(fd) && StateKept(old(files.state), old(files.contents))
      ensures generation == old(generation) + 1 && log == NewLog(0) && bufferStart == committed == 0 && !rotationSeen
      ensures following == old(following) && firstOpen == old(firstOpen)
      ensures files.stateWritable ==> SavedAs(files.state, files.device, fd.value, 0, head)
      ensures files.reliable && fd.value < |files.contents| ==> head == Window(files.contents[fd.value], 0, HEAD_MAX) <= files.contents[fd.value] && Pending() == 0
    {
      hide Follows, Structure, Meanwhile, Describes, SavedAs;
      StartOver();
      ghost var before, state := files.Now(), files.state;
      var _ := RefreshHead();
      DescribesLater(state, files.device, before, files.Now());
      var _ := SaveState();
    }

    method StartOver()
      requires Valid() && fd.Some?
      modifies this`generation, this`buffer, this`pos, this`scanFrom, this`bufferStart, this`skipping, this`rotationSeen,
               this`incompleteSince, this`head, this`committed, this`log
      ensures Valid() && generation == old(generation) + 1 && log == NewLog(0) && bufferStart == committed == 0 && !rotationSeen
      ensures head == [] && Pending() == 0
    {
      hide Valid, Structure, Follows, Files.Valid, Ends, Unrotated;
      Essentials();
      generation := generation + 1;
      ClearBuffer();
      bufferStart := 0;
      skipping := false;
      rotationSeen := false;
      incompleteSince := 0;
      head := [];
      committed := 0;
      log := NewLog(0);
      StartsValid(0);
    }

    lemma Essentials()
      requires Valid()
      ensures files.Valid() && 0 < maxLine && (fd.Some? ==> fd.value < |files.contents| && !firstOpen)
      ensures !files.rotates ==> !rotationSeen && (fd.Some? ==> files.path == fd)
    {
    }

    lemma Closed()
      requires Valid() && fd.None?
      ensures files.Valid() && 0 < maxLine && !skipping && (!files.rotates ==> !rotationSeen)
    {
    }

    /** Nothing was read yet. */
    lemma StartsValid(offset: nat)
      requires files.Valid() && 0 < maxLine && fd.Some? && fd.value < |files.contents| && offset <= MAX_FILE && |head| <= HEAD_MAX && !firstOpen
      requires !files.rotates ==> !rotationSeen && files.path == fd
      requires buffer == [] && pos == scanFrom == 0 && bufferStart == committed == offset && !skipping && log == NewLog(offset)
      requires files.appendOnly ==> offset <= |files.contents[fd.value]| && head <= files.contents[fd.value]
      ensures Valid()
    {
      hide InStep, Ends, Files.Valid;
      NoEnds(generation, offset, offset);
      if files.appendOnly {
        InStepStarts(files.contents[fd.value], offset, maxLine);
      }
    }

    /** Writes a new state file: the file which is read, and what of it is committed. */
    method SaveState() returns (ok: bool)
      requires Valid() && fd.Some?
      modifies files`state
      ensures Valid() && (ok ==> SavedAs(files.state, files.device, fd.value, committed, head))
      ensures !ok ==> files.state == old(files.state)
      ensures files.stateWritable ==> ok
      ensures ok && files.appendOnly ==> Describes(files.state, files.device, files.contents)
    {
      hide InStep, Ends, Load, HashBytes, StateFile.Text;
      var headLen := if committed < |head| then committed else |head|;
      var state := SavedState(files.device, fd.value, committed, headLen, HashBytes(head[..headLen]));
      LoadOfText(state);
      ok := files.ReplaceState(StateFile.Text(state));
      if ok && files.appendOnly {
        InStepInside(files.contents[fd.value], buffer, pos, bufferStart, log, skipping, maxLine);
        assert head[..headLen] == files.contents[fd.value][..headLen];
      }
    }

    /** What the state file says of the files stays true. */
    ghost predicate StateKept(state: Option<bytes>, contents: seq<bytes>)
      reads this, files
    {
      files.appendOnly && Describes(state, files.device, contents) ==> Describes(files.state, files.device, files.contents)
    }

    ghost function AllLines(): seq<Line>
      reads this
    {
      log.earlier + log.lines
    }

    ghost function Shown(): View
      reads this
    {
      View(fd, generation, following, buffer, pos, bufferStart, skipping, committed, log, rotationSeen, incompleteSec > 0, firstOpen)
    }

    /* --- Opening --- */

    method LoadState() returns (result: StateResult)
      ensures files.reliable ==> result == LoadedFrom(files.state)
      ensures result == LoadedFrom(files.state) || result == Invalid
    {
      var text := files.ReadState();
      match text
      case NoFile => result := NoState;
      case Unreadable => result := Invalid;
      case Text(t) => result := StateFile.ReadState(t);
    }

    /** The first position in f: the saved offset if the state names f, lies inside of it and has the hash of its first bytes.
        Otherwise the start of f, or its end if that is configured and nothing was saved. */
    method ResolveStart(f: nat, size: nat) returns (offset: nat)
      requires Valid() && fd.None? && f < |files.contents| && size == |files.contents[f]|
      modifies files`contents, files`path
      ensures Valid() && Others()
      ensures offset <= size
      ensures files.reliable && !LoadedFrom(files.state).Loaded? ==> offset == if startAtEnd then size else 0
      ensures files.reliable && LoadedFrom(files.state).Loaded? ==>
                f < |files.contents|
                && var s := LoadedFrom(files.state).state;
                   offset == if About(files.state, f) && s.offset <= size && StartsAsSaved(s, files.contents[f]) then s.offset else 0
      ensures Resumes(files.state, old(files.contents), f) ==> offset == LoadedFrom(files.state).state.offset
    {
      hide Valid, Structure, Files.Valid, Follows, Load, HashBytes, Meanwhile;
      ghost var before := files.Now();
      MeanwhileNothing(before);
      AllClosed();
      var result := LoadState();
      if !result.Loaded? {
        return if startAtEnd then size else 0;
      }
      var state := result.state;
      if state.device != files.device || state.inode != f {
        return 0;
      }
      if state.offset > size {
        return 0;
      }
      var data := files.PRead(f, 0, state.headLen);
      StillValid(before);
      MeanwhileAt(before, files.Now(), f);
      if data.None? {
        return 0;
      }
      WindowFromStart(files.contents[f], state.headLen);
      if Resumes(files.state, before.contents, f) {
        FingerprintStays(files.state, files.device, before, files.Now(), f);
      }
      if |data.value| != state.headLen || HashBytes(data.value) != state.headHash {
        return 0;
      }
      offset := state.offset;
    }

    /** The state file names the file f. */
    ghost predicate About(state: Option<bytes>, f: nat)
    {
      LoadedFrom(state).Loaded? && LoadedFrom(state).state.device == files.device && LoadedFrom(state).state.inode == f
    }

    /** The state file is about the file f, and the files only grew since it was written. */
    ghost predicate Resumes(state: Option<bytes>, contents: seq<bytes>, f: nat)
    {
      files.reliable && files.appendOnly && Describes(state, files.device, contents) && About(state, f)
    }

    /** The position at which the file f is opened. Only the first time that is the one of the state file, if the file only grew
        since it was written. With no calls which fail and nobody who writes now it is that exactly for a file which the state
        file recognizes; and without a state file it is the start, or the end if that is configured. */
    ghost predicate Positioned(first: bool, state: Option<bytes>, contents: seq<bytes>, f: nat, offset: nat)
    {
      && (!first ==> offset == 0)
      && (first && Resumes(state, contents, f) ==> offset == LoadedFrom(state).state.offset)
      && (files.reliable && LoadedFrom(state).Loaded? && !About(state, f) ==> offset == 0)
      && (first && files.reliable && files.quiet ==>
            f < |contents| && offset == if LoadedFrom(state).Loaded? then SavedOffset(state, f, contents[f]) else if startAtEnd then |contents[f]| else 0)
    }

    /** The saved position for the file f with the content c, if the state file recognizes it. */
    ghost function SavedOffset(state: Option<bytes>, f: nat, c: bytes): nat {
      if Recognizes(state, files.device, f, c) then LoadedFrom(state).state.offset else 0
    }

    /** A new generation of the file to which the path leads. Only the first call after Open looks at the saved state. */
    method OpenFile() returns (ok: bool)
      requires Valid() && fd.None?
      modifies this, files
      ensures Valid() && Others() && StateKept(old(files.state), old(files.contents))
      ensures following == old(following) && rotationSeen == old(rotationSeen)
      ensures !ok ==> Shown() == old(Shown()) && files.state == old(files.state) && (files.reliable ==> files.path.None?)
      ensures ok ==> fd.Some? && generation == old(generation) + 1 && log == NewLog(bufferStart)
                     && buffer == [] && !firstOpen && committed == bufferStart
      ensures ok ==> Positioned(old(firstOpen), old(files.state), old(files.contents), fd.value, bufferStart)
      ensures ok && files.quiet ==> fd == old(files.path)
      ensures ok && files.reliable && files.quiet ==> fd.value < |files.contents| && head == Window(files.contents[fd.value], 0, HEAD_MAX)
      ensures ok && files.stateWritable ==> SavedAs(files.state, files.device, fd.value, bufferStart, head)
      ensures files.quiet && files.reliable ==> if ok then Measure() < old(Measure()) else Measure() == old(Measure())
    {
      hide Valid, Load, HashBytes, Meanwhile, Describes, Positioned, SavedAs, Left, Window, StateKept;
      ghost var before, state := files.Now(), files.state;
      var f, offset := FindStart();
      MeanwhileQuiet(before, files.Now());
      DescribesLater(state, files.device, before, files.Now());
      KeptLater(state, before.contents);
      if f.None? {
        return false;
      }
      ghost var found := files.Now();
      OpenAt(f.value, offset);
      MeanwhileQuiet(found, files.Now());
      MeanwhileTwice(before, found, files.Now());
      MeanwhileAt(found, files.Now(), f.value);
      KeptTwice(state, before.contents, found.contents);
      ok := true;
    }

    /** Starts to read the file at this position, and saves that. */
    method OpenAt(f: nat, offset: nat)
      requires Valid() && fd.None? && !firstOpen && f < |files.contents| && offset <= MAX_FILE
      requires files.appendOnly ==> offset <= |files.contents[f]|
      requires !files.rotates ==> files.path == Some(f)
      modifies this, files
      ensures Valid() && Others() && StateKept(old(files.state), old(files.contents))
      ensures following == old(following) && rotationSeen == old(rotationSeen) && !firstOpen
      ensures fd == Some(f) && generation == old(generation) + 1 && log == NewLog(offset)
      ensures buffer == [] && pos == 0 && bufferStart == committed == offset
      ensures files.reliable && f < |files.contents| ==> head == Window(files.contents[f], 0, HEAD_MAX)
      ensures files.stateWritable ==> SavedAs(files.state, files.device, f, offset, head)
      ensures files.quiet && files.reliable && files.path == Some(f) && offset <= |old(files.contents)[f]| ==> Measure() < old(Measure())
    {
      hide Valid, Load, HashBytes, Meanwhile, Describes, SavedAs, Left, Window;
      ghost var before, state := files.Now(), files.state;
      ReadStart(f, offset);
      MeanwhileQuiet(before, files.Now());
      DescribesLater(state, files.device, before, files.Now());
      if files.quiet && files.reliable && files.path == Some(f) && offset <= |before.contents[f]| {
        FileIsThere();
        LeftWhenOpened(before, f, old(Reached()), old(head), offset, head);
      }
      var _ := SaveState();
    }

    /** What the state file said stays true for the files as they are now. */
    lemma KeptLater(state: Option<bytes>, contents: seq<bytes>)
      requires files.state == state
      requires files.appendOnly && Describes(state, files.device, contents) ==> Describes(state, files.device, files.contents)
      ensures StateKept(state, contents)
    {
    }

    lemma KeptTwice(state: Option<bytes>, before: seq<bytes>, found: seq<bytes>)
      requires files.appendOnly && Describes(state, files.device, before) ==> Describes(state, files.device, found)
      requires StateKept(state, found)
      ensures StateKept(state, before)
    {
    }

    /** The file of the path, and where to start in it. */
    method FindStart() returns (f: Option<nat>, offset: nat)
      requires Valid() && fd.None?
      modifies this`firstOpen, files`contents, files`path
      ensures Valid() && Others()
      ensures f.None? ==> firstOpen == old(firstOpen) && (files.reliable ==> files.path.None?)
      ensures f.Some? ==> !firstOpen && f.value < |files.contents| && offset <= MAX_FILE
                          && (files.appendOnly ==> offset <= |files.contents[f.value]|)
                          && (files.quiet ==> f == old(files.path) && offset <= |files.contents[f.value]|) && (!files.rotates ==> files.path == f)
      ensures f.Some? ==> Positioned(old(firstOpen), files.state, old(files.contents), f.value, offset)
    {
      hide Valid, Load, HashBytes, Meanwhile, Describes, LoadedFrom, Resumes;
      ghost var before := files.Now();
      var size;
      f, size := FindFile();
      offset := 0;
      if f.None? {
        return;
      }
      ghost var found := files.Now();
      FileFits(f.value);
      MeanwhileNothing(found);
      var first := FirstTime();
      if first {
        ResumesLater(files.state, before, found, f.value);
        offset := ResolveStart(f.value, size);
      }
      MeanwhileTwice(before, found, files.Now());
      MeanwhileAt(found, files.Now(), f.value);
      MeanwhilePath(found, files.Now());
      MeanwhilePath(before, files.Now());
    }

    method FirstTime() returns (first: bool)
      requires Valid()
      modifies this`firstOpen
      ensures Valid() && first == old(firstOpen) && !firstOpen
    {
      hide Ends, InStep, Files.Valid;
      first := firstOpen;
      firstOpen := false;
    }

    lemma ResumesLater(state: Option<bytes>, before: World, now: World, f: nat)
      requires Meanwhile(before, now) && before.appendOnly == files.appendOnly
      ensures Resumes(state, before.contents, f) ==> Resumes(state, now.contents, f)
    {
      DescribesLater(state, files.device, before, now);
    }

    /** The fingerprint, and the file is the one which is read. */
    method ReadStart(f: nat, offset: nat)
      requires Valid() && fd.None? && !firstOpen && f < |files.contents| && offset <= MAX_FILE
      requires files.appendOnly ==> offset <= |files.contents[f]|
      requires !files.rotates ==> files.path == Some(f)
      modifies this`fd, this`generation, this`buffer, this`pos, this`scanFrom, this`bufferStart, this`head, this`committed, this`log,
               files`contents, files`path
      ensures Valid() && Others() && fd == Some(f) && generation == old(generation) + 1 && log == NewLog(offset)
      ensures buffer == [] && pos == 0 && bufferStart == committed == offset
      ensures files.reliable && f < |files.contents| ==> head == Window(files.contents[f], 0, HEAD_MAX) <= files.contents[f]
    {
      hide Valid, Meanwhile, Files.Valid;
      ghost var found := files.Now();
      Closed();
      var data := files.PRead(f, 0, HEAD_MAX);
      MeanwhileAt(found, files.Now(), f);
      MeanwhilePath(found, files.Now());
      StartAt(f, offset, if data.Some? then data.value else []);
    }

    lemma FileFits(f: nat)
      requires Valid() && f < |files.contents|
      ensures |files.contents[f]| <= MAX_FILE
    {
    }

    lemma AllClosed()
      requires Valid() && fd.None?
      ensures files.Valid() && Structure() && (!files.rotates ==> !rotationSeen && (incompleteSec == 0 ==> log.cuts == []))
    {
    }

    /** open and fstat. */
    method FindFile() returns (f: Option<nat>, size: nat)
      requires Valid() && fd.None?
      modifies files`contents, files`path
      ensures Valid() && Others()
      ensures f.Some? ==> f.value < |files.contents| && size == |files.contents[f.value]|
      ensures f.None? && files.reliable ==> files.path.None?
      ensures f.Some? && (!files.rotates || files.quiet) ==> files.path == f
    {
      hide Valid, Structure, Files.Valid, Meanwhile, Follows;
      size := 0;
      ghost var before := files.Now();
      AllClosed();
      f := files.Open();
      StillValid(before);
      if f.None? {
        return;
      }
      ghost var middle := files.Now();
      var found := files.Size(f.value);
      MeanwhileTwice(before, middle, files.Now());
      StillValid(before);
      MeanwhilePath(middle, files.Now());
      MeanwhileAt(middle, files.Now(), f.value);
      if found.None? {
        return None, 0;
      }
      size := found.value;
    }

    method StartAt(f: nat, offset: nat, data: bytes)
      requires files.Valid() && 0 < maxLine && !skipping && fd.None? && !firstOpen
      requires f < |files.contents| && offset <= MAX_FILE && |data| <= HEAD_MAX
      requires files.appendOnly ==> offset <= |files.contents[f]| && data <= files.contents[f]
      requires !files.rotates ==> !rotationSeen && files.path == Some(f)
      modifies this`fd, this`generation, this`buffer, this`pos, this`scanFrom, this`bufferStart, this`head, this`committed, this`log
      ensures Valid() && fd == Some(f) && generation == old(generation) + 1 && log == NewLog(offset)
      ensures buffer == [] && pos == 0 && bufferStart == committed == offset && head == data
    {
      hide Valid, Structure, Follows, Files.Valid, Ends, Unrotated;
      fd, generation, head := Some(f), generation + 1, data;
      ClearBuffer();
      bufferStart, committed := offset, offset;
      log := NewLog(offset);
      StartsValid(offset);
    }

    /* --- Lines of the file --- */

    /** One round of ReadLine: a line, or nothing now, or another round. Seen is the content of the file when its end was read. */
    method OneRound(now: nat) returns (r: Round, ghost seen: bytes)
      requires Valid()
      modifies this, files
      ensures Valid() && Others() && StateKept(old(files.state), old(files.contents))
      ensures StaysOpen()
      ensures RoundEffect(old(Shown()), Shown(), r) && (files.reliable ==> !r.Failed?)
      ensures r.AtEnd? && files.appendOnly ==> fd.Some? && seen <= files.contents[fd.value] && ReturnedAll(seen)
                                               && SeesAll(old(files.contents), fd, seen)
      ensures r.NoFileNow? && files.reliable ==> files.path.None?
      ensures files.quiet && files.reliable ==> if r.Again? then Measure() < old(Measure()) else Measure() <= old(Measure())
    {
      hide Valid, Meanwhile, Describes, Left, RoundEffect, SeesAll, ReturnedAll;
      seen := [];
      if fd.None? {
        r := OpenRound();
      } else {
        r, seen := ReadRound(now);
      }
    }

    /** The file of the path is opened. */
    method OpenRound() returns (r: Round)
      requires Valid() && fd.None?
      modifies this, files
      ensures Valid() && Others() && StateKept(old(files.state), old(files.contents))
      ensures RoundEffect(old(Shown()), Shown(), r) && (r.Again? || r.NoFileNow?)
      ensures r.NoFileNow? && files.reliable ==> files.path.None?
      ensures files.quiet && files.reliable ==> if r.Again? then Measure() < old(Measure()) else Measure() <= old(Measure())
    {
      hide Valid, Meanwhile, Describes, Left, RoundEffect, Resumes, About, LoadedFrom, SavedAs;
      ghost var shown := Shown();
      var ok := OpenFile();
      r := if ok then Again else NoFileNow;
      OpenedRound(shown, Shown(), r);
    }

    /** A line of the file which is open, if there is one. */
    method ReadRound(now: nat) returns (r: Round, ghost seen: bytes)
      requires Valid() && fd.Some?
      modifies this, files
      ensures Valid() && Others() && StateKept(old(files.state), old(files.contents))
      ensures StaysOpen()
      ensures RoundEffect(old(Shown()), Shown(), r) && (files.reliable ==> !r.Failed?)
      ensures r.AtEnd? && files.appendOnly ==> fd.Some? && seen <= files.contents[fd.value] && ReturnedAll(seen)
                                               && SeesAll(old(files.contents), fd, seen)
      ensures r.NoFileNow? && files.reliable ==> files.path.None?
      ensures files.quiet && files.reliable ==> if r.Again? then Measure() < old(Measure()) else Measure() <= old(Measure())
    {
      hide Valid, Meanwhile, Describes, Left, RoundEffect, Exhausted, SeesAll, ReturnedAll;
      MeanwhileNothing(files.Now());
      ghost var shown := Shown();
      seen := [];
      var line := BufferedLine();
      if line.Some? {
        return Got(line.value), seen;
      }
      ghost var view := Shown();
      r, seen := ReadMore(now);
      RoundsCompose(shown, view, Shown(), r);
    }

    method BufferedLine() returns (line: Option<Line>)
      requires Valid() && fd.Some?
      modifies this`buffer, this`pos, this`bufferStart, this`scanFrom, this`skipping, this`log
      ensures Valid() && Measure() == old(Measure())
      ensures match line
              case Some(l) => RoundEffect(old(Shown()), Shown(), Got(l))
              case None => RoundEffect(old(Shown()), Shown(), Again) && Exhausted()
    {
      hide Valid, Left, RoundEffect, Exhausted;
      ghost var shown := Shown();
      CommittedIs();
      line := ExtractLine();
      if line.Some? {
        LineRound(shown, Shown(), line.value);
      } else {
        BufferRound(shown, Shown());
      }
    }

    lemma CommittedIs()
      requires Valid() && fd.Some?
      ensures committed <= bufferStart
    {
    }

    /** How much there is to do, until a round says something else than that there may be more. */
    ghost function Measure(): nat
      reads this, files
    {
      Left(files.Now(), fd, Reached(), head)
    }

    ghost function Reached(): nat
      reads this
    {
      bufferStart + Pending()
    }

    /** A file which only grows, and which nobody rotates, is read on and on. */
    twostate predicate StaysOpen()
      reads this
    {
      files.appendOnly && !files.rotates && old(fd).Some? ==> fd == old(fd) && generation == old(generation)
    }

    /** At least what the file was before. */
    ghost predicate SeesAll(before: seq<bytes>, f: Option<nat>, seen: bytes) {
      f.Some? && f.value < |before| ==> before[f.value] <= seen
    }

    lemma SeesAllOf(before: World, now: World, f: Option<nat>, seen: bytes)
      requires Meanwhile(before, now) && before.appendOnly && SeesAll(now.contents, f, seen)
      ensures SeesAll(before.contents, f, seen)
    {
    }

    /** The part of a round behind an ExtractLine which returned None. */
    method ReadMore(now: nat) returns (r: Round, ghost seen: bytes)
      requires Valid() && fd.Some? && Exhausted()
      modifies this, files
      ensures Valid() && Others() && StateKept(old(files.state), old(files.contents))
      ensures StaysOpen()
      ensures RoundEffect(old(Shown()), Shown(), r) && (files.reliable ==> !r.Failed?)
      ensures r.AtEnd? && files.appendOnly ==> fd.Some? && seen <= files.contents[fd.value] && ReturnedAll(seen)
                                               && SeesAll(old(files.contents), fd, seen)
      ensures r.NoFileNow? && files.reliable ==> files.path.None?
      ensures files.quiet && files.reliable ==> if r.Again? then Measure() < old(Measure()) else Measure() <= old(Measure())
    {
      hide Valid, Meanwhile, Describes, RoundEffect, Exhausted, ReturnedAll, Pending, IsStale, Left, Reached;
      seen := [];
      ghost var before, state, view := files.Now(), files.state, Shown();
      var same, read := CheckAndFill();
      if !same {
        return Again, seen;
      }
      if read.None? {
        AnyRound(view, Shown(), Failed);
        return Failed, seen;
      }
      if read.value > 0 {
        RotationForgotten(view, Shown());
        ForgetRotation();
        return Again, seen;
      }
      ghost var end, ended := files.Now(), Shown();
      FileIsThere();
      seen := end.contents[fd.value];
      SeesNow(before, end, fd, seen);
      r := EndOfFile(now);
      MeanwhileTwice(before, end, files.Now());
      MeanwhileAt(end, files.Now(), ended.fd.value);
      DescribesLater(files.state, files.device, end, files.Now());
      RoundsCompose(view, ended, Shown(), r);
    }

    /** Same: the file is the one which was read so far. Then more of it is read, if there is more. */
    method CheckAndFill() returns (same: bool, read: Option<nat>)
      requires Valid() && fd.Some? && Exhausted()
      modifies this, files
      ensures Valid() && Others() && fd == old(fd) && StateKept(old(files.state), old(files.contents))
      ensures files.appendOnly ==> same && generation == old(generation)
      ensures RoundEffect(old(Shown()), Shown(), Again) && (files.reliable && same ==> read.Some?)
      ensures read == Some(0) && same ==> Exhausted() && (files.appendOnly ==> bufferStart + Pending() == |files.contents[fd.value]|)
      ensures files.quiet && files.reliable ==> if same && read == Some(0) then Measure() <= old(Measure()) else Measure() < old(Measure())
    {
      hide Valid, Meanwhile, Describes, RoundEffect, Window, Left, IsStale;
      ghost var before, state, view := files.Now(), files.state, Shown();
      same := CheckFile();
      MeanwhileQuiet(before, files.Now());
      read := None;
      if same {
        ghost var middle, checked, reached := files.Now(), Shown(), Reached();
        FileIsThere();
        read := FillBuffer();
        MeanwhileQuiet(middle, files.Now());
        if files.quiet && files.reliable {
          LeftWhenRead(middle, fd.value, reached, head, read.value);
        }
        MeanwhileTwice(before, middle, files.Now());
        MeanwhileAt(middle, files.Now(), fd.value);
        DescribesLater(state, files.device, before, files.Now());
        RoundsCompose(view, checked, Shown(), Again);
      }
    }

    /** More was read: no rotation was seen, and the last line grew. */
    method ForgetRotation()
      requires Valid()
      modifies this`rotationSeen, this`incompleteSince
      ensures Valid() && !rotationSeen && Measure() == old(Measure())
    {
      hide InStep, Ends, Files.Valid, Left;
      rotationSeen := false;
      incompleteSince := 0;
    }

    lemma FileIsThere()
      requires Valid() && fd.Some?
      ensures fd.value < |files.contents|
    {
    }

    lemma SeesNow(before: World, now: World, f: Option<nat>, seen: bytes)
      requires Meanwhile(before, now) && f.Some? && f.value < |now.contents| && seen == now.contents[f.value]
      ensures before.appendOnly ==> SeesAll(before.contents, f, seen)
    {
    }

    /** The end of the file was read. If the path leads to a new file this one is finished, after one more call. */
    method EndOfFile(now: nat) returns (r: Round)
      requires Valid() && fd.Some? && Exhausted()
      requires files.appendOnly ==> bufferStart + Pending() == |files.contents[fd.value]|
      modifies this, files`contents, files`path
      ensures Valid() && Others()
      ensures generation == old(generation) && (!files.rotates ==> fd == old(fd))
      ensures RoundEffect(old(Shown()), Shown(), r) && (r.AtEnd? || r.Got? || r.Again?)
      ensures r.AtEnd? && files.appendOnly ==> fd == old(fd) && ReturnedAll(old(files.contents[fd.value]))
      ensures files.reliable ==>
                if files.path.Some? && files.path != old(fd) then
                  if !old(rotationSeen) then r.AtEnd? && rotationSeen
                  else if old(Pending() > 0 && !skipping) then r.Got? && r.line.text == Trim(old(buffer[pos..]))
                  else r.Again? && fd.None?
                else
                  && !rotationSeen && (r.Got? ==> r.line.text == Trim(old(buffer[pos..])))
                  && (r.Got? <==> old(Waits()) && old(incompleteSince) != 0 && now - old(incompleteSince) >= incompleteSec)
                  && (r.AtEnd? ==> incompleteSince == if old(Waits()) && old(incompleteSince) == 0 then now else old(incompleteSince))
      ensures files.quiet ==> if r.Again? then Measure() < old(Measure()) else Measure() <= old(Measure())
    {
      hide InStep, Ends, Files.Valid, Matches, AllOf, RoundEffect, WholeOf, Grew, Left;
      if files.appendOnly {
        AllIsReturned();
      }
      ghost var before := files.Now();
      var replaced := files.PathReplaced(fd.value);
      MeanwhileQuiet(before, files.Now());
      StillValid(before);
      if replaced {
        r := Rotated();
      } else {
        r := Incomplete(now);
      }
    }

    /** Another file is at the path. The first time that is only noted, later the rest is returned, and then the file is
        closed. */
    method Rotated() returns (r: Round)
      requires Valid() && fd.Some? && Exhausted() && files.rotates
      modifies this
      ensures Valid() && RoundEffect(old(Shown()), Shown(), r)
      ensures generation == old(generation)
      ensures r.AtEnd? ==> fd == old(fd) && log == old(log)
      ensures if !old(rotationSeen) then r.AtEnd? && rotationSeen
              else if old(Pending() > 0 && !skipping) then r.Got? && r.line.text == Trim(old(buffer[pos..]))
              else r.Again? && fd.None?
      ensures files.path.Some? && files.path != old(fd) ==> if r.Again? then Measure() < old(Measure()) else Measure() <= old(Measure())
    {
      hide Valid, Ends, Exhausted, Left, RoundEffect;
      ghost var shown := Shown();
      if !rotationSeen {
        NoteRotation();
        EndRound(shown, Shown());
        return AtEnd;
      }
      if Pending() > 0 && !skipping {
        var line := ReturnRest();
        return Got(line);
      }
      CloseReplaced();
      r := Again;
    }

    method CloseReplaced()
      requires Valid() && fd.Some?
      modifies this
      ensures Valid() && fd.None? && generation == old(generation) && RoundEffect(old(Shown()), Shown(), Again)
      ensures files.path.Some? && files.path != old(fd) ==> Measure() < old(Measure())
    {
      hide Valid, Left, RoundEffect;
      ghost var shown := Shown();
      if files.path.Some? && files.path != fd {
        PathIsThere();
        LeftWhenClosed(files.Now(), fd.value, Reached(), head);
      }
      CloseFile();
      ClosedRound(shown, Shown());
    }

    method ForgetReplaced()
      requires Valid()
      modifies this`rotationSeen
      ensures Valid() && !rotationSeen
    {
      hide InStep, Ends, Files.Valid;
      rotationSeen := false;
    }

    method StartWaiting(now: nat)
      requires Valid()
      modifies this`incompleteSince
      ensures Valid() && incompleteSince == now
    {
      hide InStep, Ends, Files.Valid;
      incompleteSince := now;
    }

    /** EmitRemainder, as its caller sees it. */
    method ReturnRest() returns (line: Line)
      requires Valid() && fd.Some? && !skipping && 0 < Pending() && Exhausted()
      requires if files.rotates then rotationSeen || incompleteSec > 0 else incompleteSec > 0
      modifies this`buffer, this`pos, this`bufferStart, this`scanFrom, this`incompleteSince, this`log
      ensures Valid() && RoundEffect(old(Shown()), Shown(), Got(line)) && line.text == Trim(old(buffer[pos..])) && Measure() == old(Measure())
    {
      hide Valid, Ends, Exhausted, Left, RoundEffect;
      ghost var shown := Shown();
      line := EmitRemainder();
      RestRound(shown, Shown(), line);
    }

    method NoteRotation()
      requires Valid() && files.rotates
      modifies this`rotationSeen
      ensures Valid() && rotationSeen
    {
      hide InStep, Ends, Files.Valid;
      rotationSeen := true;
    }

    /** There is a rest which can be returned without a new line. */
    ghost predicate Waits()
      reads this
    {
      incompleteSec > 0 && Pending() > 0 && !skipping
    }

    lemma PathIsThere()
      requires Valid() && files.path.Some?
      ensures files.path.value < |files.contents|
    {
    }

    /** The rest of the buffer is returned if incompleteSec passed since it was first seen at the end of the file. */
    method Incomplete(now: nat) returns (r: Round)
      requires Valid() && fd.Some? && Exhausted()
      modifies this
      ensures Valid() && RoundEffect(old(Shown()), Shown(), r)
      ensures generation == old(generation) && fd == old(fd)
      ensures r.AtEnd? ==> fd == old(fd) && log == old(log)
      ensures !rotationSeen && (r.AtEnd? || (r.Got? && incompleteSec > 0 && r.line.text == Trim(old(buffer[pos..]))))
      ensures r.Got? <==> old(Waits()) && old(incompleteSince) != 0 && now - old(incompleteSince) >= incompleteSec
      ensures r.AtEnd? ==> incompleteSince == if old(Waits()) && old(incompleteSince) == 0 then now else old(incompleteSince)
      ensures Measure() == old(Measure())
    {
      hide Valid, Ends, Left, RoundEffect;
      ghost var shown := Shown();
      ForgetReplaced();
      EndRound(shown, Shown());
      ghost var view := Shown();
      if incompleteSec > 0 && Pending() > 0 && !skipping {
        if incompleteSince == 0 {
          StartWaiting(now);
        } else if now - incompleteSince >= incompleteSec {
          var line := ReturnRest();
          WaitedRound(shown, view, Shown(), line);
          return Got(line);
        }
      }
      r := AtEnd;
    }

    /** All which can be said of the file was returned. */
    lemma AllIsReturned()
      requires Valid() && fd.Some? && Exhausted() && files.appendOnly && bufferStart + Pending() == |files.contents[fd.value]|
      ensures ReturnedAll(files.contents[fd.value])
    {
      hide Matches, AllOf, Ends, LinesOf, TailOf, PartItems, CutsOf;
      var c := files.contents[fd.value];
      assert c[bufferStart..] == buffer[pos..];
      ReadingIsWhole(c, log, bufferStart, skipping, maxLine);
    }

    /** The next line. Again: the given number of rounds is over, and there may be more. */
    method ReadLine(now: nat, rounds: nat) returns (r: Round, ghost seen: bytes)
      requires Valid()
      modifies this, files
      ensures Valid() && Others() && StateKept(old(files.state), old(files.contents))
      ensures StaysOpen()
      ensures RoundEffect(old(Shown()), Shown(), r) && (files.reliable && old(following) ==> !r.Failed?)
      ensures !old(following) ==> Shown() == old(Shown()) && files.state == old(files.state) && r == Failed
      ensures r.AtEnd? && files.appendOnly ==> fd.Some? && seen <= files.contents[fd.value] && ReturnedAll(seen)
                                               && SeesAll(old(files.contents), fd, seen)
      ensures r.NoFileNow? && files.reliable ==> files.path.None?
      ensures files.quiet && files.reliable ==> Measure() <= old(Measure()) && (rounds > old(Measure()) ==> !r.Again?)
    {
      hide Valid, Meanwhile, Describes, RoundEffect, ReturnedAll, SeesAll, Left, Reached;
      seen := [];
      ghost var before, state, view := files.Now(), files.state, Shown();
      MeanwhileNothing(before);
      NoRound(view);
      if !following {
        return Failed, seen;
      }
      r := Again;
      for i := 0 to rounds
        invariant Valid() && Others() && StaysOpen() && StateKept(state, before.contents) && r == Again
        invariant RoundEffect(view, Shown(), Again)
        invariant files.quiet && files.reliable ==> Measure() + i <= old(Measure())
      {
        ghost var c, v := files.Now(), Shown();
        r, seen := OneRound(now);
        MeanwhileTwice(before, c, files.Now());
        RoundsCompose(view, v, Shown(), r);
        if r.AtEnd? && files.appendOnly {
          SeesAllOf(before, c, fd, seen);
        }
        if !r.Again? {
          return;
        }
      }
    }

    /* --- Commit --- */

    /** The lines up to endOffset were delivered: saves the position. */
    method Commit(gen: nat, endOffset: nat) returns (ok: bool)
      requires Valid()
      modifies this`committed, files`state
      ensures Valid() && StateKept(old(files.state), files.contents)
      ensures old(Moves(gen, endOffset)) && ok && files.appendOnly ==> Describes(files.state, files.device, files.contents)
      ensures old(Moves(gen, endOffset)) && ok ==> committed == endOffset && SavedAs(files.state, files.device, fd.value, endOffset, head)
      ensures !(old(Moves(gen, endOffset)) && ok) ==> committed == old(committed) && files.state == old(files.state)
      ensures old(Moves(gen, endOffset)) && files.stateWritable ==> ok
      ensures !old(Moves(gen, endOffset)) ==> ok == (following && (gen != generation || endOffset <= bufferStart))
    {
      hide InStep, Ends, Describes;
      if !following {
        return false;
      }
      if gen != generation {
        return true;
      }
      if endOffset > bufferStart {
        return false;
      }
      if endOffset <= committed {
        return true;
      }
      var before := committed;
      committed := endOffset;
      ok := SaveState();
      if !ok {
        committed := before;
      }
    }

    /** The commit is about the file which is read now, and goes forward in it. */
    ghost predicate Moves(gen: nat, endOffset: nat)
      reads this
    {
      following && gen == generation && fd.Some? && committed < endOffset <= bufferStart
    }

    lemma LinesAreOrdered()
      requires Valid()
      ensures Ends(log, generation, if fd.Some? then bufferStart else MAX_FILE)
    {
    }

    /** A position which was handed out and is not committed yet can be committed if and only if the file is open. (Behind the end
        of a file which was rotated away, and while the next one cannot be opened, it is refused as a position which was not
        read.) */
    lemma CommitMovesIff(line: Line)
      requires Valid() && following && line in AllLines() && line.endOffset > committed
      ensures Moves(line.generation, line.endOffset) <==> fd.Some?
      ensures line.generation == generation && (fd.None? && line.endOffset > 0 ==> line.endOffset > bufferStart)
    {
    }

    ghost predicate ReturnedAll(c: bytes)
      reads this
    {
      WholeOf(c, log, maxLine)
    }

    /** All which can be said of the file as it is was returned. */
    ghost predicate Finished()
      reads this, files
    {
      fd.Some? && fd.value < |files.contents| && ReturnedAll(files.contents[fd.value])
    }
  }

  lemma IsFinished(r: FileReader, w: World, seen: bytes)
    requires r.files.Now() == w && r.fd.Some? && r.fd.value < |w.contents| && seen <= w.contents[r.fd.value]
    requires r.ReturnedAll(seen) && r.SeesAll(w.contents, r.fd, seen)
    ensures r.Finished() && seen == w.contents[r.fd.value]
  {
    hide WholeOf;
    var c := w.contents[r.fd.value];
    assert c <= seen && seen <= c;
    assert seen == c;
  }

  ghost predicate SameLog(a: Log, b: Log) {
    b == a.(lineStart := b.lineStart)
  }

  /** The buffer behind pos is what comes next in the file c at the position b, and what comes before it was returned. */
  ghost predicate InStep(c: bytes, buffer: bytes, pos: nat, b: nat, log: Log, skipping: bool, max: nat) {
    && pos <= |buffer| && b + |buffer| - pos <= |c|
    && buffer[pos..] == c[b..b + |buffer| - pos]
    && Reading(c, log, b, skipping, max)
    && (skipping ==> log.lineStart + max < b + |buffer| - pos)
  }

  lemma FingerprintStays(state: Option<bytes>, device: nat, a: World, b: World, f: nat)
    requires Describes(state, device, a.contents) && Meanwhile(a, b) && a.appendOnly && LoadedFrom(state).Loaded?
    requires LoadedFrom(state).state.device == device && LoadedFrom(state).state.inode == f
    ensures f < |b.contents|
    ensures var s := LoadedFrom(state).state;
            |Window(b.contents[f], 0, s.headLen)| == s.headLen && HashBytes(Window(b.contents[f], 0, s.headLen)) == s.headHash
  {
    hide Load, HashBytes;
    var n := LoadedFrom(state).state.headLen;
    assert Window(b.contents[f], 0, n) == a.contents[f][..n];
  }

  lemma InStepInside(c: bytes, buffer: bytes, pos: nat, b: nat, log: Log, skipping: bool, max: nat)
    requires InStep(c, buffer, pos, b, log, skipping, max)
    ensures b <= b + |buffer| - pos <= |c|
  {
  }

  lemma InStepStarts(c: bytes, start: nat, max: nat)
    requires start <= |c|
    ensures InStep(c, [], 0, start, NewLog(start), false, max)
  {
    hide Reading;
    StartsReading(c, start, max);
  }

  lemma InStepGrows(c: bytes, d: bytes, buffer: bytes, pos: nat, b: nat, log: Log, skipping: bool, max: nat)
    requires InStep(c, buffer, pos, b, log, skipping, max) && c <= d
    ensures InStep(d, buffer, pos, b, log, skipping, max)
  {
    hide Reading;
    ReadingGrows(c, d, log, b, skipping, max);
    assert d[b..b + |buffer| - pos] == c[b..b + |buffer| - pos];
  }

  /** What is read behind the buffer comes next. */
  lemma InStepFills(c: bytes, buffer: bytes, pos: nat, b: nat, log: Log, skipping: bool, max: nat, data: bytes)
    requires InStep(c, buffer, pos, b, log, skipping, max) && data == Window(c, b + |buffer| - pos, CHUNK)
    ensures InStep(c, buffer[pos..] + data, 0, b, log, skipping, max)
    ensures data == [] ==> b + |buffer| - pos == |c|
  {
    hide Reading;
    var e := b + |buffer| - pos;
    assert data != [] ==> data == c[e..e + |data|];
    assert c[b..e + |data|] == c[b..e] + data;
    assert (buffer[pos..] + data)[0..] == buffer[pos..] + data;
  }

  lemma ScanStays(buffer: bytes, pos: nat, scanFrom: nat, data: bytes)
    requires pos + scanFrom <= |buffer| && NEW_LINE !in buffer[pos..pos + scanFrom]
    ensures NEW_LINE !in (buffer[pos..] + data)[0..0 + scanFrom]
    ensures NEW_LINE !in buffer[pos..] && data == [] ==> NEW_LINE !in (buffer[pos..] + data)[0..]
  {
    assert (buffer[pos..] + data)[0..0 + scanFrom] == buffer[pos..pos + scanFrom];
    assert data == [] ==> (buffer[pos..] + data)[0..] == buffer[pos..];
  }

  lemma InStepTakes(c: bytes, buffer: bytes, pos: nat, b: nat, log: Log, max: nat, n: nat, len: nat, line: Line)
    requires InStep(c, buffer, pos, b, log, false, max)
    requires pos + n < |buffer| && buffer[pos + n] == NEW_LINE && NEW_LINE !in buffer[pos..pos + n] && len <= n
    requires len == if n > max then max else if n > 0 && buffer[pos + n - 1] == CARRIAGE_RETURN then n - 1 else n
    requires line.text == buffer[pos..pos + len] && line.truncated == (n > max) && line.endOffset == b + n + 1
    ensures InStep(c, buffer, pos + n + 1, b + n + 1, log.(lineStart := line.endOffset, lines := log.lines + [line]), false, max)
  {
    hide Reading, ItemOf;
    ItemOfIs(buffer, pos, n, len, max, b, line);
    Suffix(buffer, pos, c, b, n);
    Suffix(buffer, pos, c, b, n + 1);
    ReadingTakes(c, log, b, b + n, max, line);
  }

  lemma InStepCuts(c: bytes, buffer: bytes, pos: nat, b: nat, log: Log, max: nat, line: Line)
    requires InStep(c, buffer, pos, b, log, false, max)
    requires max < |buffer| - pos && NEW_LINE !in buffer[pos..]
    requires line.text == buffer[pos..pos + max] && line.truncated && line.endOffset == b + max
    ensures InStep(c, buffer, pos + max, b + max, log.(lines := log.lines + [line]), true, max)
  {
    hide Reading;
    Suffix(buffer, pos, c, b, max);
    Suffix(buffer, pos, c, b, max + 1);
    assert buffer[pos..] == buffer[pos..pos + max + 1] + buffer[pos + max + 1..];
    ReadingAt(c, log, b, max);
    ReadingCuts(c, log, b, max, line);
  }

  lemma InStepSkipped(c: bytes, buffer: bytes, pos: nat, b: nat, log: Log, max: nat, n: nat)
    requires InStep(c, buffer, pos, b, log, true, max)
    requires pos + n < |buffer| && buffer[pos + n] == NEW_LINE && NEW_LINE !in buffer[pos..pos + n]
    ensures InStep(c, buffer, pos + n + 1, b + n + 1, log.(lineStart := b + n + 1), false, max)
  {
    hide Reading;
    Suffix(buffer, pos, c, b, n);
    Suffix(buffer, pos, c, b, n + 1);
    ReadingSkipped(c, log, b, b + n, max);
  }

  lemma InStepSkips(c: bytes, buffer: bytes, pos: nat, b: nat, log: Log, max: nat)
    requires InStep(c, buffer, pos, b, log, true, max) && NEW_LINE !in buffer[pos..]
    ensures InStep(c, [], 0, b + |buffer| - pos, log, true, max)
  {
    hide Reading;
    ReadingSkips(c, log, b, b + |buffer| - pos, max);
  }

  lemma InStepEmits(c: bytes, buffer: bytes, pos: nat, b: nat, log: Log, max: nat, line: Line)
    requires InStep(c, buffer, pos, b, log, false, max)
    requires 0 < |buffer| - pos <= max && NEW_LINE !in buffer[pos..]
    requires line.text == Trim(buffer[pos..]) && !line.truncated && line.endOffset == b + |buffer| - pos
    ensures InStep(c, [], 0, line.endOffset,
                   Log(log.base, log.cuts + [line.endOffset], log.earlier + log.lines + [line], line.endOffset, line.endOffset, []), false, max)
  {
    hide Reading;
    ReadingEnds(c, log, b, line.endOffset, max, line);
  }

  lemma Suffix(buffer: bytes, pos: nat, c: bytes, b: nat, n: nat)
    requires pos + n <= |buffer| && b + |buffer| - pos <= |c| && buffer[pos..] == c[b..b + |buffer| - pos]
    ensures buffer[pos..pos + n] == c[b..b + n] && buffer[pos + n..] == c[b + n..b + |buffer| - pos]
    ensures pos + n < |buffer| ==> buffer[pos + n] == c[b + n]
  {
    assert buffer[pos..pos + n] == buffer[pos..][..n] && buffer[pos + n..] == buffer[pos..][n..];
    assert pos + n < |buffer| ==> buffer[pos..][n] == buffer[pos + n];
  }

  lemma ItemOfIs(buffer: bytes, pos: nat, n: nat, len: nat, max: nat, b: nat, line: Line)
    requires pos + n <= |buffer| && len <= n
    requires len == if n > max then max else if n > 0 && buffer[pos + n - 1] == CARRIAGE_RETURN then n - 1 else n
    requires line.text == buffer[pos..pos + len] && line.truncated == (n > max)
    ensures MatchesAt(line, ItemOf(buffer[pos..pos + n], max, b, line.endOffset))
  {
    assert buffer[pos..pos + n][..len] == buffer[pos..pos + len];
    assert n > 0 ==> buffer[pos..pos + n][n - 1] == buffer[pos + n - 1];
    assert buffer[pos..pos + n][..n] == buffer[pos..pos + n];
  }

  lemma ReadingAt(c: bytes, log: Log, b: nat, max: nat)
    requires Reading(c, log, b, false, max)
    ensures log.lineStart == b
  {
  }

  lemma NoEnds(generation: nat, start: nat, b: nat)
    ensures Ends(NewLog(start), generation, b)
  {
  }

  lemma MeanwhileNothing(a: World)
    ensures Meanwhile(a, a)
  {
  }

  lemma MeanwhileTwice(a: World, b: World, c: World)
    requires Meanwhile(a, b) && Meanwhile(b, c)
    ensures Meanwhile(a, c)
  {
  }

  lemma MeanwhileAt(a: World, b: World, i: nat)
    requires Meanwhile(a, b)
    ensures i < |a.contents| ==> i < |b.contents| && (a.appendOnly ==> |a.contents[i]| <= |b.contents[i]| && a.contents[i] <= b.contents[i])
    ensures i < |a.contents| && a.quiet ==> b.contents[i] == a.contents[i]
  {
  }

  lemma MeanwhileQuiet(a: World, b: World)
    requires Meanwhile(a, b)
    ensures a.quiet ==> b == a
  {
  }

  lemma MeanwhilePath(a: World, b: World)
    requires Meanwhile(a, b)
    ensures a.quiet || (!a.rotates && a.path.Some?) ==> b.path == a.path
  {
  }

  lemma DescribesLater(state: Option<bytes>, device: nat, a: World, b: World)
    requires Meanwhile(a, b)
    ensures a.appendOnly && Describes(state, device, a.contents) ==> Describes(state, device, b.contents)
  {
    hide Load, HashBytes;
    if a.appendOnly && Describes(state, device, a.contents) && state.Some? && Load(state.value).Loaded? && Load(state.value).state.device == device {
      var s := Load(state.value).state;
      assert b.contents[s.inode][..s.headLen] == a.contents[s.inode][..s.headLen];
    }
  }

  /** A line whose end is behind all others. */
  lemma EndsGrow(before: Log, after: Log, generation: nat, b: nat, line: Line)
    requires Ends(before, generation, b) && line.generation == generation && line.endOffset > b
    requires after.earlier + after.lines == before.earlier + (before.lines + [line])
    ensures Ends(after, generation, line.endOffset)
  {
    var all := before.earlier + before.lines;
    assert after.earlier + after.lines == all + [line];
    assert forall i :: 0 <= i < |all| ==> all[i] in all;
  }

  lemma EndsSame(before: Log, after: Log, generation: nat, b: nat, e: nat)
    requires Ends(before, generation, b) && b <= e && after.earlier == before.earlier && after.lines == before.lines
    ensures Ends(after, generation, e)
  {
  }
}
