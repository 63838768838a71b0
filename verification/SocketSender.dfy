/** The line sender of domfwd: complete lines in one buffer with three cursors, and a connection which can break
    at any time. The network is an adversary: it takes any number of bytes, or none, or closes the connection. */
module SocketSenders {
  import opened Bytes

  const SEND_CHUNK: nat := 65536

  datatype State = Disconnected | Connecting | Connected

  /** What the network does in one Pump: whether it is time for another attempt, what connect and poll say of the connection,
      whether the peer closed it, and what comes out of each send. When the answers are over a send would block. */
  datatype Network = Network(due: bool, connect: State, poll: State, closed: bool, answers: seq<SendAnswer>)
  datatype SendAnswer = TookBytes(n: int) | WouldBlock | SendError

  /** A send takes at least one byte, and at most the chunk it gets. */
  function TakenNow(unsent: nat, n: int): (t: nat)
    requires 0 < unsent
    ensures 0 < t <= unsent && t <= SEND_CHUNK && (1 <= n <= unsent && n <= SEND_CHUNK ==> t == n)
  {
    var chunk := if unsent > SEND_CHUNK then SEND_CHUNK else unsent;
    if n < 1 then 1 else if n > chunk then chunk else n
  }

  /** How many bytes of those which are not sent yet are taken, and whether the connection breaks then. */
  function Taken(unsent: nat, answers: seq<SendAnswer>): (t: nat)
    ensures t <= unsent
    decreases |answers|
  {
    if unsent == 0 || answers == [] || !answers[0].TookBytes? then 0 else
    var t := TakenNow(unsent, answers[0].n);
    t + Taken(unsent - t, answers[1..])
  }

  predicate Breaks(unsent: nat, answers: seq<SendAnswer>)
    decreases |answers|
  {
    unsent != 0 && answers != [] && match answers[0]
      case TookBytes(n) => Breaks(unsent - TakenNow(unsent, n), answers[1..])
      case WouldBlock => false
      case SendError => true
  }

  lemma {:induction false} AllTakenDoesNotBreak(unsent: nat, answers: seq<SendAnswer>)
    requires Taken(unsent, answers) == unsent
    ensures !Breaks(unsent, answers)
    decreases |answers|
  {
    if unsent != 0 && answers != [] && answers[0].TookBytes? {
      AllTakenDoesNotBreak(unsent - TakenNow(unsent, answers[0].n), answers[1..]);
    }
  }

  /** The state of the connection when it comes to sending. */
  function StateToSend(state: State, net: Network): State {
    var s := if state == Disconnected && net.due then net.connect else state;
    var t := if s == Connecting then net.poll else s;
    if t == Connected && net.closed then Disconnected else t
  }

  /** A peer which went away, a time which has not come, and an attempt which is not done: nothing can be sent. */
  lemma NotConnected(state: State, net: Network)
    ensures state == Connected && net.closed ==> StateToSend(state, net) == Disconnected
    ensures state == Disconnected && !net.due ==> StateToSend(state, net) == Disconnected
    ensures state == Connecting && net.poll != Connected ==> StateToSend(state, net) == net.poll
  {
  }

  /** What a caller may queue: at least one byte, and no new line. */
  predicate ValidLine(line: bytes) {
    line != [] && NEW_LINE !in line
  }

  predicate ValidLines(lines: seq<bytes>) {
    forall l :: l in lines ==> ValidLine(l)
  }

  /** Lines as they go over the wire. */
  function Join(lines: seq<bytes>): bytes {
    if lines == [] then [] else lines[0] + [NEW_LINE] + Join(lines[1..])
  }

  lemma {:induction false} JoinConcat(a: seq<bytes>, b: seq<bytes>)
    ensures Join(a + b) == Join(a) + Join(b)
  {
    if a == [] {
      assert a + b == b;
    } else {
      assert (a + b)[1..] == a[1..] + b;
      JoinConcat(a[1..], b);
      assert a[0] + [NEW_LINE] + (Join(a[1..]) + Join(b)) == a[0] + [NEW_LINE] + Join(a[1..]) + Join(b);
    }
  }

  lemma JoinOne(line: bytes)
    ensures Join([line]) == line + [NEW_LINE]
  {
    assert Join([line]) == line + [NEW_LINE] + Join([]);
  }

  /** The first new line of joined lines ends the first line. */
  lemma FirstLine(lines: seq<bytes>, s: bytes, n: nat)
    requires ValidLines(lines) && s == Join(lines) && n <= |s|
    ensures var p := Find(s[..n], NEW_LINE, 0);
            if p < n then lines != [] && p == |lines[0]| && s[..p] == lines[0] && s[p + 1..] == Join(lines[1..])
            else lines == [] || |lines[0]| >= n
  {
    if lines != [] {
      assert s[..|lines[0]|] == lines[0] && s[|lines[0]|] == NEW_LINE;
      assert s[|lines[0]| + 1..] == Join(lines[1..]);
      assert lines[0] in lines;
      forall j | 0 <= j < |lines[0]| ensures s[j] != NEW_LINE {
        assert s[..|lines[0]|][j] == lines[0][j];
      }
      var p := Find(s[..n], NEW_LINE, 0);
      assert p < n ==> s[..n][p] == s[p];
      assert |lines[0]| < n ==> s[..n][|lines[0]|] == NEW_LINE;
    }
  }

  /** The lines of a sender: those in its queue, those which left it, those of them which were sent, and those of them which
      DropUnsent removed. Of the connection: the lines which were sent on it, all bytes which its peer was sent, and whether
      a line was removed of which it had got a part. */
  datatype Book = Book(queue: seq<bytes>, gone: seq<bytes>, delivered: seq<bytes>, moved: seq<bytes>,
                       conn: seq<bytes>, stream: bytes, torn: bool)

  /** There is a connection, and the network takes all of n bytes. */
  predicate TakesAll(state: State, n: nat, net: Network) {
    StateToSend(state, net) == Connected && Taken(n, net.answers) == n
  }

  class SocketSender {
    const maxLines: nat
    const maxBytes: nat
    const buffer: array<byte>
    var configured: bool
    var state: State
    var head: nat                 // buffer[head..tail] are the queued lines
    var sendPos: nat              // next byte to send
    var tail: nat                 // end of the queued data
    var lines: nat
    var sent: nat
    var dropped: nat
    var rejected: nat
    var connects: nat

    ghost var book: Book

    ghost predicate Valid()
      reads this, buffer
    {
      Queued() && Wire() && NEW_LINE !in buffer[head..sendPos]
    }

    predicate Cursors()
      reads this
    {
      head <= sendPos <= tail <= maxBytes
    }

    /** The buffer from head to tail is exactly the lines of the queue. */
    ghost predicate Queued()
      reads this, buffer
    {
      && buffer.Length == maxBytes
      && Cursors()
      && 0 < maxLines && lines == |book.queue| <= maxLines && ValidLines(book.queue)
      && buffer[head..tail] == Join(book.queue)
      && sent == |book.delivered| && (book.moved == [] ==> book.gone == book.delivered)
    }

    /** The peer of this connection was sent the lines which were done since it is there, and what is behind them up to
        sendPos: its stream began with the oldest line that was not sent completely then. */
    ghost predicate Wire()
      reads this, buffer
      requires Cursors() && maxBytes == buffer.Length
    {
      && (state != Connected ==> sendPos == head)
      && (state == Connected && !book.torn ==> book.stream == Join(book.conn) + buffer[head..sendPos])
      && |book.conn| <= |book.delivered| && book.conn == book.delivered[|book.delivered| - |book.conn|..]
    }

    /** What the peer of a connection was sent begins with the oldest line that was not sent completely when the connection came
        up, and goes on with the lines behind it, in their order: a line is sent again from its beginning, and none is left
        out. */
    lemma StreamIsPrefix()
      requires Valid() && state == Connected && !book.torn
      ensures book.stream <= Join(book.conn + book.queue)
      ensures |book.conn| <= |book.delivered| && book.conn == book.delivered[|book.delivered| - |book.conn|..]
    {
      hide Join, ValidLines;
      JoinConcat(book.conn, book.queue);
      assert buffer[head..tail] == buffer[head..sendPos] + buffer[sendPos..tail];
    }

    constructor (maxLines: nat, maxBytes: nat)
      requires 0 < maxLines && 1024 <= maxBytes
      ensures Valid() && configured && state == Disconnected && fresh(buffer)
      ensures book == Book([], [], [], [], [], [], false)
      ensures this.maxLines == maxLines && this.maxBytes == maxBytes
    {
      hide Valid, Queued, Wire, Cursors;
      this.maxLines, this.maxBytes := maxLines, maxBytes;
      buffer := new byte[maxBytes];
      configured, state := true, Disconnected;
      head, sendPos, tail, lines := 0, 0, 0, 0;
      sent, dropped, rejected, connects := 0, 0, 0, 0;
      book := Book([], [], [], [], [], [], false);
      new;
      EmptyIsValid();
    }

    lemma EmptyIsValid()
      requires book == Book([], [], [], [], [], [], false) && state == Disconnected && 0 < maxLines && buffer.Length == maxBytes
      requires head == sendPos == tail == lines == sent == 0
      ensures Valid()
    {
    }

    predicate HasRoom(len: nat)
      reads this
    {
      configured && lines < maxLines && tail - head + len + 1 <= maxBytes
    }

    /** A line finds room at some time, which is when everything before it was sent, if and only if it fits into the
        buffer at all. */
    lemma RoomInTheEndIff(len: nat)
      requires Valid() && configured
      ensures HasRoom(len) <==> |book.queue| < maxLines && |Join(book.queue)| + len + 1 <= maxBytes
      ensures book.queue == [] ==> (HasRoom(len) <==> len + 1 <= maxBytes)
      ensures HasRoom(len) ==> len + 1 <= maxBytes
    {
      assert |buffer[head..tail]| == tail - head;
      assert book.queue == [] ==> Join(book.queue) == [] && |buffer[head..tail]| == tail - head;
    }

    /** Queues one line, with a new line behind it. */
    method Enqueue(line: bytes) returns (ok: bool)
      requires Valid()
      modifies this`head, this`sendPos, this`tail, this`lines, this`dropped, this`rejected, this`book, buffer
      ensures Valid()
      ensures ok == old(configured && ValidLine(line) && HasRoom(|line|))
      ensures book == if ok then old(book).(queue := old(book).queue + [line]) else old(book)
      ensures lines == old(lines) + if ok then 1 else 0
      ensures dropped == old(dropped) + if old(configured) && ValidLine(line) && !ok then 1 else 0
      ensures rejected == old(rejected) + if old(configured) && !ValidLine(line) then 1 else 0
    {
      hide Join;
      if !configured {
        return false;
      }
      if |line| == 0 || Find(line, NEW_LINE, 0) < |line| {
        rejected := rejected + 1;
        return false;
      }
      if lines >= maxLines || tail - head + |line| + 1 > maxBytes {
        dropped := dropped + 1;
        return false;
      }
      if tail + |line| + 1 > maxBytes {
        MoveToStart();
      }
      Store(line);
      ok := true;
    }

    /** All queued bytes go to the front of the buffer, in place, and the cursors with them. */
    method MoveToStart()
      requires Valid()
      modifies this`head, this`sendPos, this`tail, buffer
      ensures Valid() && head == 0 && tail == old(tail - head)
    {
      hide Valid, Queued, Wire;
      ghost var before, at := State();
      MoveBytes(head, tail - head);
      sendPos := sendPos - head;
      tail := tail - head;
      head := 0;
      StateBack(before, at);
    }

    /** What is in the buffer from head on, and how much of it was sent, is all that counts. */
    ghost predicate Holds(pending: bytes, at: nat)
      reads this
    {
      && at <= |pending| <= maxBytes && buffer.Length == maxBytes
      && 0 < maxLines && lines == |book.queue| <= maxLines && ValidLines(book.queue) && pending == Join(book.queue)
      && sent == |book.delivered| && (book.moved == [] ==> book.gone == book.delivered)
      && (state != Connected ==> at == 0)
      && (state == Connected && !book.torn ==> book.stream == Join(book.conn) + pending[..at])
      && |book.conn| <= |book.delivered| && book.conn == book.delivered[|book.delivered| - |book.conn|..]
      && NEW_LINE !in pending[..at]
    }

    lemma State() returns (pending: bytes, at: nat)
      requires Valid()
      ensures Holds(pending, at) && Cursors() && pending == buffer[head..tail] && at == sendPos - head
    {
      hide Join, ValidLines;
      pending, at := buffer[head..tail], sendPos - head;
      assert buffer[head..sendPos] == buffer[head..tail][..sendPos - head];
    }

    lemma StateBack(pending: bytes, at: nat)
      requires Holds(pending, at) && Cursors() && pending == buffer[head..tail] && at == sendPos - head
      ensures Valid()
    {
      hide Join, ValidLines;
      assert buffer[head..sendPos] == buffer[head..tail][..sendPos - head];
    }

    /** memmove of n bytes to the start of the buffer. */
    method MoveBytes(from: nat, n: nat)
      requires from + n <= buffer.Length
      modifies buffer
      ensures buffer[..n] == old(buffer[from..from + n])
    {
      forall i | 0 <= i < n {
        buffer[i] := buffer[from + i];
      }
    }

    method Store(line: bytes)
      requires Valid() && ValidLine(line) && lines < maxLines && tail + |line| + 1 <= maxBytes
      modifies this`tail, this`lines, this`book, buffer
      ensures Valid() && book == old(book).(queue := old(book).queue + [line])
    {
      hide Valid, Queued, Wire;
      ghost var before, at := State();
      HoldsMore(before, at, line);
      WriteLine(line);
      tail := tail + |line| + 1;
      lines := lines + 1;
      book := book.(queue := book.queue + [line]);
      StateBack(before + (line + [NEW_LINE]), at);
    }

    /** The bytes of the line and its new line come behind the tail. */
    method WriteLine(line: bytes)
      requires Cursors() && buffer.Length == maxBytes && tail + |line| + 1 <= maxBytes
      modifies buffer
      ensures buffer[head..tail + |line| + 1] == old(buffer[head..tail]) + (line + [NEW_LINE])
    {
      ghost var pending := buffer[head..tail];
      var at := tail;
      forall i | 0 <= i < |line| {
        buffer[at + i] := line[i];
      }
      buffer[at + |line|] := NEW_LINE;
      assert buffer[head..at] == pending && buffer[at..at + |line|] == line && buffer[at + |line|..at + |line| + 1] == [NEW_LINE];
      JoinRanges(buffer, head, at, at + |line|, at + |line| + 1);
      assert pending + line + [NEW_LINE] == pending + (line + [NEW_LINE]);
    }

    lemma HoldsMore(pending: bytes, at: nat, line: bytes)
      requires Holds(pending, at) && ValidLine(line) && lines < maxLines && |pending| + |line| + 1 <= maxBytes
      ensures var all, queue := pending + (line + [NEW_LINE]), book.queue + [line];
              all == Join(queue) && ValidLines(queue) && all[..at] == pending[..at]
    {
      JoinConcat(book.queue, [line]);
      JoinOne(line);
    }

    lemma JoinRanges(b: array<byte>, i: nat, j: nat, k: nat, n: nat)
      requires i <= j <= k <= n <= b.Length
      ensures b[i..n] == b[i..j] + b[j..k] + b[k..n]
    {
    }

    /** The bytes from head up to the first new line, if a line is queued. */
    method PeekUnsent() returns (line: Option<bytes>)
      requires Valid()
      ensures line == if configured && book.queue != [] then Some(book.queue[0]) else None
    {
      if !configured || lines == 0 {
        return None;
      }
      var nl := NextNewLine(tail);
      if nl == tail {
        return None;
      }
      return Some(buffer[head..nl]);
    }

    /** memchr over the buffer from head up to limit: the end of the oldest line, or limit. */
    method NextNewLine(limit: nat) returns (nl: nat)
      requires Queued() && head <= limit <= tail
      ensures head <= nl <= limit && NEW_LINE !in buffer[head..nl]
      ensures nl < limit ==> book.queue != [] && buffer[head..nl] == book.queue[0] && buffer[nl + 1..tail] == Join(book.queue[1..])
      ensures nl == limit ==> book.queue == [] || |book.queue[0]| >= limit - head
      ensures nl < limit ==> buffer[nl] == NEW_LINE
    {
      hide Join, Find, ValidLines;
      ghost var s := buffer[..tail];
      assert s[head..tail] == buffer[head..tail] && s[..limit] == buffer[..limit];
      FirstLineIn(s, book.queue, head, limit);
      nl := Find(buffer[..limit], NEW_LINE, head);
      assert s[head..nl] == buffer[head..nl];
      if nl < limit {
        assert s[nl + 1..] == buffer[nl + 1..tail];
      }
    }

    /** The oldest line leaves the queue, and is not counted as sent. */
    method DropUnsent()
      requires Valid()
      modifies this`head, this`lines, this`sendPos, this`tail, this`book
      ensures Valid()
      ensures old(configured && book.queue != []) ==> Removed(old(book), book)
      ensures !old(configured && book.queue != []) ==> book == old(book)
      ensures old(sendPos == head) ==> book.torn == old(book).torn
      ensures configured == old(configured)
    {
      if !configured || lines == 0 {
        return;
      }
      var nl := NextNewLine(tail);
      if nl == tail {
        return;
      }
      RemoveFirst(nl);
      ResetIfEmpty();
    }

    method RemoveFirst(nl: nat)
      requires Valid() && head <= nl < tail && NEW_LINE !in buffer[head..nl] && buffer[nl] == NEW_LINE
      requires book.queue != [] && buffer[nl + 1..tail] == Join(book.queue[1..])
      modifies this`head, this`lines, this`sendPos, this`book
      ensures Valid()
      ensures Removed(old(book), book)
      ensures old(sendPos == head) ==> book.torn == old(book).torn
    {
      assert sendPos <= nl by {
        assert NEW_LINE !in buffer[head..sendPos];
      }
      hide Join;
      assert ValidLines(book.queue[1..]);
      book := book.(queue := book.queue[1..], gone := book.gone + [book.queue[0]], moved := book.moved + [book.queue[0]],
                    torn := book.torn || sendPos > head);
      head := nl + 1;
      lines := lines - 1;
      if sendPos < head {
        sendPos := head;
      }
      assert buffer[head..sendPos] == [] && old(buffer[head..head]) == [];
    }

    method ResetIfEmpty()
      requires Valid()
      modifies this`head, this`sendPos, this`tail
      ensures Valid() && tail - sendPos == old(tail - sendPos)
    {
      if head == tail {
        JoinEmpty(book.queue);
        assert buffer[head..sendPos] == [] == buffer[0..0];
        head, sendPos, tail := 0, 0, 0;
      }
    }

    /* --- The connection --- */

    /** The next connection starts at head: the queue is as it was, and no byte of it counts as sent. */
    method Disconnect()
      requires Valid()
      modifies this`state, this`sendPos
      ensures Valid() && state == Disconnected
    {
      state := Disconnected;
      sendPos := head;
    }

    method BecomeConnected()
      requires Valid() && state != Connected
      modifies this`state, this`connects, this`book
      ensures Valid() && state == Connected && book == old(book).(conn := [], stream := [], torn := false)
    {
      state := Connected;
      connects := connects + 1;
      book := book.(conn := [], stream := [], torn := false);
    }

    /** socket, fcntl and connect: connected at once, later, or not at all. */
    method StartConnect(result: State)
      requires Valid() && state == Disconnected
      modifies this`state, this`connects, this`book, this`sendPos
      ensures Valid() && SameLines(old(book), book) && state == result && ToSend() == old(ToSend())
      ensures state == Connected ==> book.stream == []
    {
      match result
      case Connected => BecomeConnected();
      case Connecting => state := Connecting;
      case Disconnected => Disconnect();
    }

    /** poll and getsockopt: still waiting, refused, or connected. */
    method CheckConnect(result: State)
      requires Valid() && state == Connecting
      modifies this`state, this`connects, this`book, this`sendPos
      ensures Valid() && SameLines(old(book), book) && state == result && ToSend() == old(ToSend())
      ensures state == Connected ==> book.stream == []
    {
      match result
      case Connected => BecomeConnected();
      case Connecting =>
      case Disconnected => Disconnect();
    }

    method CheckPeerClosed(closed: bool)
      requires Valid() && state == Connected
      modifies this`state, this`sendPos
      ensures Valid() && state == if closed then Disconnected else Connected
      ensures !closed ==> ToSend() == old(ToSend())
    {
      if closed {
        Disconnect();
      }
    }

    /** Lines whose new line was taken by the socket leave the queue, and are counted. */
    method CompleteSentLines()
      requires Queued() && Wire()
      modifies this`head, this`sendPos, this`tail, this`sent, this`lines, this`book
      ensures Valid()
      ensures Passed(old(book), book) && book.stream == old(book).stream
      ensures Unsent() == old(Unsent())
    {
      hide Passed, PassedLine, Join;
      var searching := true;
      PassedNothing(book, book);
      while searching
        invariant Queued() && Wire()
        invariant Passed(old(book), book)
        invariant !searching ==> NEW_LINE !in buffer[head..sendPos]
        invariant tail == old(tail) && sendPos == old(sendPos) && book.stream == old(book).stream
        decreases searching, lines
      {
        var nl := NextNewLine(sendPos);
        searching := head < sendPos && nl < sendPos;
        if searching {
          ghost var before := book;
          CompleteLine(nl);
          PassedOne(before, book);
          PassedTwice(old(book), before, book);
        }
      }
      ResetIfEmpty();
    }

    method CompleteLine(nl: nat)
      requires Queued() && Wire() && head <= nl < sendPos && buffer[nl] == NEW_LINE
      requires book.queue != [] && buffer[head..nl] == book.queue[0] && buffer[nl + 1..tail] == Join(book.queue[1..])
      modifies this`head, this`sent, this`lines, this`book
      ensures Queued() && Wire() && lines < old(lines)
      ensures PassedLine(old(book), book) && book.stream == old(book).stream
    {
      hide Join;
      ghost var line := book.queue[0];
      ghost var rest := buffer[nl + 1..sendPos];
      LineSent(book.conn, line, rest);
      assert buffer[head..sendPos] == line + [NEW_LINE] + rest;
      assert ValidLines(book.queue[1..]);
      head := nl + 1;
      sent := sent + 1;
      lines := lines - 1;
      book := book.(queue := book.queue[1..], gone := book.gone + [line], delivered := book.delivered + [line], conn := book.conn + [line]);
    }

    /** What was not sent yet on this connection. */
    ghost function Unsent(): bytes
      reads this, buffer
    {
      if sendPos <= tail <= buffer.Length then buffer[sendPos..tail] else []
    }

    /** Sends until nothing is left, the socket is full, or the connection breaks. The peer gets exactly the bytes which are
        taken. */
    method SendQueued(answers: seq<SendAnswer>)
      requires Valid() && state == Connected
      modifies this`head, this`sendPos, this`tail, this`sent, this`lines, this`book, this`state
      ensures Valid() && Passed(old(book), book)
      ensures state == if Breaks(|old(Unsent())|, answers) then Disconnected else Connected
      ensures book.stream == old(book).stream + old(Unsent())[..Taken(|old(Unsent())|, answers)]
      ensures state == Connected ==> Unsent() == old(Unsent())[Taken(|old(Unsent())|, answers)..]
    {
      hide Passed, Valid, Queued, Wire, Unsent, TakenNow, Taken, Breaks, Sending;
      PassedNothing(book, book);
      UnsentIs();
      ghost var unsent := Unsent();
      ghost var done: nat := SendingStarts(book.stream, unsent, answers);
      var i := 0;
      while sendPos < tail && i < |answers|
        invariant Valid() && state == Connected && Passed(old(book), book) && i <= |answers|
        invariant |Unsent()| == tail - sendPos
        invariant Sending(old(book).stream, unsent, answers, i, done, book.stream, Unsent())
        decreases |answers| - i
      {
        ghost var before, rest := book, Unsent();
        SendOnce(answers[i]);
        PassedTwice(old(book), before, book);
        done := SendingStep(old(book).stream, unsent, answers, i, done, before.stream, rest);
        if !answers[i].TookBytes? {
          return;
        }
        UnsentIs();
        i := i + 1;
      }
      SendingEnds(old(book).stream, unsent, answers, i, done, book.stream, Unsent());
    }

    /** One send of at most one chunk. */
    method SendOnce(answer: SendAnswer)
      requires Valid() && state == Connected && sendPos < tail && Unsent() != []
      modifies this`head, this`sendPos, this`tail, this`sent, this`lines, this`book, this`state
      ensures Valid() && Passed(old(book), book)
      ensures state == if answer.SendError? then Disconnected else Connected
      ensures var n := if answer.TookBytes? then TakenNow(|old(Unsent())|, answer.n) else 0;
              && book.stream == old(book).stream + old(Unsent())[..n]
              && (state == Connected ==> Unsent() == old(Unsent())[n..])
    {
      hide Passed, Valid, Queued, Wire, Unsent;
      PassedNothing(book, book);
      UnsentIs();
      var chunk := if tail - sendPos > SEND_CHUNK then SEND_CHUNK else tail - sendPos;
      match answer
      case TookBytes(k) =>
        var n := if k < 1 then 1 else if k > chunk then chunk else k;
        Sent(n);
      case WouldBlock =>
      case SendError =>
        Disconnect();
    }

    lemma UnsentIs()
      requires Valid()
      ensures sendPos <= tail <= buffer.Length && Unsent() == buffer[sendPos..tail] && |Unsent()| == tail - sendPos
      ensures state == Connected ==> ToSend() == Unsent()
    {
    }

    lemma UnsentSplits(n: nat)
      requires Valid() && n <= |Unsent()|
      ensures sendPos + n <= tail <= buffer.Length
      ensures buffer[sendPos..sendPos + n] == Unsent()[..n] && buffer[sendPos + n..tail] == Unsent()[n..]
    {
    }

    lemma UnsentFrom()
      requires Queued()
      ensures sendPos <= tail <= buffer.Length && Unsent() == buffer[sendPos..tail]
    {
    }

    /** The connection took n bytes. */
    method Sent(n: nat)
      requires Valid() && state == Connected && n <= |Unsent()|
      modifies this`head, this`sendPos, this`tail, this`sent, this`lines, this`book
      ensures Valid() && Passed(old(book), book)
      ensures Unsent() == old(Unsent())[n..] && book.stream == old(book).stream + old(Unsent())[..n]
    {
      hide Valid, Passed, Queued, Wire, Unsent;
      UnsentIs();
      UnsentSplits(n);
      PeerGot(n);
      UnsentFrom();
      ghost var before := book;
      PassedNothing(old(book), before);
      CompleteSentLines();
      PassedTwice(old(book), before, book);
    }

    /** Every line is sent when every byte is. */
    lemma AllIsSent()
      requires Valid() && Unsent() == []
      ensures book.queue == []
    {
      HasNewLine(book.queue);
      assert sendPos == tail;
    }

    method PeerGot(n: nat)
      requires Valid() && state == Connected && sendPos + n <= tail
      modifies this`sendPos, this`book
      ensures Queued() && Wire() && sendPos == old(sendPos) + n
      ensures book == old(book).(stream := old(book).stream + buffer[old(sendPos)..sendPos])
    {
      hide Join, ValidLines;
      ghost var more, got := buffer[sendPos..sendPos + n], buffer[head..sendPos + n];
      OnWire(n);
      SendMore(n, more);
      assert buffer[head..sendPos] == got;
    }

    lemma OnWire(n: nat)
      requires Valid() && sendPos + n <= tail && state == Connected
      ensures !book.torn ==> book.stream + buffer[sendPos..sendPos + n] == Join(book.conn) + buffer[head..sendPos + n]
    {
      hide Join, ValidLines;
      Associative(Join(book.conn), buffer[head..sendPos], buffer[sendPos..sendPos + n]);
      assert buffer[head..sendPos] + buffer[sendPos..sendPos + n] == buffer[head..sendPos + n];
    }

    method SendMore(n: nat, ghost more: bytes)
      requires sendPos + n <= tail
      modifies this`sendPos, this`book
      ensures sendPos == old(sendPos) + n && book == old(book).(stream := old(book).stream + more)
    {
      book := book.(stream := book.stream + more);
      sendPos := sendPos + n;
    }

    /** What comes next on the wire: what was not sent yet on this connection, or all of the queue on a new one. */
    ghost function ToSend(): bytes
      reads this, buffer
    {
      if state == Connected then Unsent() else if head <= tail <= buffer.Length then buffer[head..tail] else []
    }

    /** One step, for any behaviour of the network: what the state becomes and which bytes go out. */
    method Pump(net: Network)
      requires Valid()
      modifies this`head, this`sendPos, this`tail, this`sent, this`lines, this`book, this`state, this`connects
      ensures Valid() && Passed(old(book), book)
      ensures Pumped(net)
      ensures configured && TakesAll(old(state), |old(ToSend())|, net) ==> state == Connected && book.queue == []
      ensures configured && StateToSend(old(state), net) != Connected ==> state == StateToSend(old(state), net) && SameLines(old(book), book)
      ensures configured && old(state) == Connected && net.closed ==> state == Disconnected && SameLines(old(book), book)
      ensures configured && old(state) == Disconnected && !net.due ==> state == Disconnected && SameLines(old(book), book)
      ensures configured && old(state) == Connecting && net.poll != Connected ==> state == net.poll && SameLines(old(book), book)
    {
      hide Passed, Valid, Queued, Wire, Taken, Breaks, StateToSend, ToSend, Unsent;
      NotConnected(state, net);
      PassedNothing(book, book);
      if !configured {
        return;
      }
      Connect(net);
      ghost var before := book;
      PassedNothing(old(book), before);
      if state == Connected {
        UnsentIs();
        SendQueued(net.answers);
        PassedTwice(old(book), before, book);
        if Taken(|old(ToSend())|, net.answers) == |old(ToSend())| {
          AllTakenDoesNotBreak(|old(ToSend())|, net.answers);
          assert Unsent() == old(ToSend())[|old(ToSend())|..];
          AllIsSent();
        }
      }
    }

    /** What a Pump does, for everything the network can do: the state of the connection, and exactly the bytes which go out
        behind those which its peer got. */
    twostate predicate Pumped(net: Network)
      reads this, buffer
    {
      var next, toSend := StateToSend(old(state), net), old(ToSend());
      var taken := Taken(|toSend|, net.answers);
      && (!configured ==> book == old(book) && state == old(state))
      && (configured ==> state == if next == Connected && Breaks(|toSend|, net.answers) then Disconnected else next)
      && (configured && next != Connected ==> SameLines(old(book), book))
      && (configured && next == Connected ==>
            book.stream == (if old(state) == Connected then old(book).stream else []) + toSend[..taken])
    }

    /** Everything in front of sending: a new attempt, the end of an attempt, and a peer which went away. */
    method Connect(net: Network)
      requires Valid()
      modifies this`state, this`sendPos, this`connects, this`book
      ensures Valid() && SameLines(old(book), book) && state == StateToSend(old(state), net)
      ensures state == Connected ==> ToSend() == old(ToSend())
                                     && book.stream == if old(state) == Connected then old(book).stream else []
    {
      hide Valid, Queued, Wire, ToSend, Unsent;
      if state == Disconnected && net.due {
        StartConnect(net.connect);
      }
      if state == Connecting {
        CheckConnect(net.poll);
      }
      if state == Connected {
        CheckPeerClosed(net.closed);
      }
    }

    /** Tries to send the remaining lines until the time is over, which is after the given rounds. If the network takes all of
        them at once, all of them are sent. */
    method Flush(rounds: seq<Network>) returns (empty: bool)
      requires Valid() && rounds != []
      modifies this`head, this`sendPos, this`tail, this`sent, this`lines, this`book, this`state, this`connects
      ensures Valid() && Passed(old(book), book)
      ensures empty == (book.queue == [])
      ensures configured && TakesAll(old(state), |old(ToSend())|, rounds[0]) ==> empty
    {
      hide Passed, Join, TakesAll, Pumped, ToSend, Unsent, Wire;
      PassedNothing(book, book);
      for i := 0 to |rounds|
        invariant Valid() && Passed(old(book), book)
        invariant i == 0 ==> book == old(book) && state == old(state) && ToSend() == old(ToSend())
        invariant i > 0 ==> book.queue != []
        invariant i > 0 ==> !(configured && TakesAll(old(state), |old(ToSend())|, rounds[0]))
      {
        ghost var before := book;
        Pump(rounds[i]);
        PassedTwice(old(book), before, book);
        if lines == 0 {
          return true;
        }
      }
      empty := false;
    }
  }

  /** After i answers done bytes are on the wire, and the rest is not sent. */
  ghost predicate Sending(start: bytes, unsent: bytes, answers: seq<SendAnswer>, i: nat, done: nat, stream: bytes, rest: bytes) {
    && i <= |answers| && done <= |unsent| && rest == unsent[done..] && stream == start + unsent[..done]
    && Taken(|unsent|, answers) == done + Taken(|unsent| - done, answers[i..])
    && Breaks(|unsent|, answers) == Breaks(|unsent| - done, answers[i..])
  }

  lemma SendingStarts(start: bytes, unsent: bytes, answers: seq<SendAnswer>) returns (done: nat)
    ensures done == 0 && Sending(start, unsent, answers, 0, done, start, unsent)
  {
    done := 0;
    assert answers[0..] == answers && unsent[0..] == unsent && start + unsent[..0] == start;
  }

  lemma SendingStep(start: bytes, unsent: bytes, answers: seq<SendAnswer>, i: nat, done: nat, stream: bytes, rest: bytes) returns (next: nat)
    requires Sending(start, unsent, answers, i, done, stream, rest) && i < |answers| && rest != []
    ensures var n := if answers[i].TookBytes? then TakenNow(|rest|, answers[i].n) else 0;
            Sending(start, unsent, answers, i + 1, next, stream + rest[..n], rest[n..]) || !answers[i].TookBytes?
    ensures !answers[i].TookBytes? ==> Taken(|unsent|, answers) == |unsent| - |rest| && Breaks(|unsent|, answers) == answers[i].SendError?
                                       && stream == start + unsent[..|unsent| - |rest|] && rest == unsent[|unsent| - |rest|..]
  {
    assert answers[i..][1..] == answers[i + 1..];
    var n := if answers[i].TookBytes? then TakenNow(|rest|, answers[i].n) else 0;
    next := done + n;
    StreamGrows(unsent, done, n);
    assert stream + rest[..n] == start + (unsent[..done] + rest[..n]);
  }

  lemma SendingEnds(start: bytes, unsent: bytes, answers: seq<SendAnswer>, i: nat, done: nat, stream: bytes, rest: bytes)
    requires Sending(start, unsent, answers, i, done, stream, rest) && (i == |answers| || rest == [])
    ensures Taken(|unsent|, answers) == |unsent| - |rest| && !Breaks(|unsent|, answers)
    ensures stream == start + unsent[..|unsent| - |rest|] && rest == unsent[|unsent| - |rest|..]
  {
  }

  lemma StreamGrows(unsent: bytes, done: nat, n: nat)
    requires done + n <= |unsent|
    ensures unsent[..done] + unsent[done..][..n] == unsent[..done + n] && unsent[done..][n..] == unsent[done + n..]
  {
  }

  /** Lines went from the front of the queue to the receiver, in their order, and no line was lost or moved. */
  ghost predicate Passed(a: Book, b: Book) {
    && |b.queue| <= |a.queue| && b.queue == a.queue[|a.queue| - |b.queue|..]
    && b.gone == a.gone + a.queue[..|a.queue| - |b.queue|]
    && b.delivered == a.delivered + a.queue[..|a.queue| - |b.queue|]
    && b.moved == a.moved
  }

  ghost predicate PassedLine(a: Book, b: Book) {
    && a.queue != [] && b.queue == a.queue[1..] && b.moved == a.moved
    && b.gone == a.gone + [a.queue[0]] && b.delivered == a.delivered + [a.queue[0]]
  }

  ghost predicate Removed(a: Book, b: Book) {
    && a.queue != [] && b.queue == a.queue[1..] && b.delivered == a.delivered
    && b.gone == a.gone + [a.queue[0]] && b.moved == a.moved + [a.queue[0]]
  }

  ghost predicate SameLines(a: Book, b: Book) {
    b == a.(conn := b.conn, stream := b.stream, torn := b.torn)
  }

  lemma PassedNothing(a: Book, b: Book)
    requires SameLines(a, b)
    ensures Passed(a, b)
  {
    assert a.gone + [] == a.gone && a.delivered + [] == a.delivered;
  }

  lemma PassedOne(a: Book, b: Book)
    requires PassedLine(a, b)
    ensures Passed(a, b)
  {
    assert a.queue[..1] == [a.queue[0]];
  }

  lemma PassedTwice(a: Book, b: Book, c: Book)
    requires Passed(a, b) && Passed(b, c)
    ensures Passed(a, c)
  {
    var i, j := |a.queue| - |b.queue|, |a.queue| - |c.queue|;
    FrontsJoin(a.queue, i, j);
    Associative(a.gone, a.queue[..i], b.queue[..j - i]);
    Associative(a.delivered, a.queue[..i], b.queue[..j - i]);
  }

  /** Passing lines on keeps all lines in their order. */
  lemma PassedKeepsOrder(a: Book, b: Book)
    requires Passed(a, b)
    ensures b.gone + b.queue == a.gone + a.queue
  {
    var i := |a.queue| - |b.queue|;
    assert a.queue[..i] + a.queue[i..] == a.queue;
    assert a.gone + a.queue[..i] + b.queue == a.gone + (a.queue[..i] + b.queue);
  }

  /** A line is sent to its end: the peer was sent one line more, and what is behind it. */
  lemma LineSent(conn: seq<bytes>, line: bytes, rest: bytes)
    ensures Join(conn) + (line + [NEW_LINE] + rest) == Join(conn + [line]) + rest
  {
    JoinConcat(conn, [line]);
    JoinOne(line);
  }

  lemma HasNewLine(lines: seq<bytes>)
    ensures lines != [] ==> NEW_LINE in Join(lines)
  {
    if lines != [] {
      assert Join(lines)[|lines[0]|] == NEW_LINE;
    }
  }

  lemma JoinEmpty(lines: seq<bytes>)
    ensures Join(lines) == [] ==> lines == []
  {
  }

  lemma FirstLineIn(s: bytes, queue: seq<bytes>, head: nat, limit: nat)
    requires head <= limit <= |s| && s[head..] == Join(queue) && ValidLines(queue)
    ensures var p := Find(s[..limit], NEW_LINE, head);
            && head <= p <= limit && NEW_LINE !in s[head..p]
            && (p == limit ==> queue == [] || |queue[0]| >= limit - head)
            && (p < limit ==> s[p] == NEW_LINE && queue != [] && s[head..p] == queue[0] && s[p + 1..] == Join(queue[1..]))
  {
    hide Join;
    var p := Find(s[..limit], NEW_LINE, head);
    FirstLine(queue, s[head..], limit - head);
    FindShifted(s[..limit], head);
    assert s[..limit][head..] == s[head..][..limit - head];
    assert forall j :: head <= j < p ==> s[j] == s[..limit][j];
    if p < limit {
      assert s[head..][..p - head] == s[head..p] && s[head..][p - head + 1..] == s[p + 1..];
    }
  }

  /** Looking from an index on is looking in what is behind it. */
  lemma {:induction false} FindShifted(s: bytes, from: nat)
    requires from <= |s|
    ensures Find(s, NEW_LINE, from) == from + Find(s[from..], NEW_LINE, 0)
  {
    var i, j := Find(s, NEW_LINE, from), Find(s[from..], NEW_LINE, 0);
    assert i < |s| ==> s[from..][i - from] == NEW_LINE;
    assert j < |s| - from ==> s[from + j] == NEW_LINE;
    assert forall k :: 0 <= k < j ==> s[from..][k] == s[from + k];
  }
}
