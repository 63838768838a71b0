# Verified model of the log forwarder

A model in Dafny of the parts of the forwarder which decide whether a line is lost, doubled or reordered, with proofs.

To verify:

    dafny verify dfyconfig.toml

Code which changes state step by step is a class with the same fields, and the same steps, branches and constants; its methods
are proved against functions and predicates over plain values (records of a file, lines of a stream, fields of a message), and
the theorems are lemmas about those.

## Parts

* **Write ahead log.** `WalFormat` (records in a file, for any bytes), `WalDisk` (the files as the operating system shows them),
  `SimpleWal` (the class), `WalRuns` (what its contracts add up to). One method of `Disk` is one system call. It can fail, a
  write can take any front of its data, and the state behind *every* call is kept in a ghost trace of which each snapshot must
  be crash safe: a process which dies there and starts again skips no record which was stored and not accepted. The ghost book
  of the disk says how many records were accepted, which ones are owed, and which owed ones were discarded. `Mode` says which
  calls can fail: any (`Faulty`), only `ftruncate` (`Stuck`), only writes of data (`Steady`), or none (`Healthy`). Methods run
  with the mutex held; `Replay` gives it away in front of its first read, while the consumer runs, and behind its last read. Its
  parameters are any lists of what other threads do in those windows and what the consumer answers (it can also throw). The loop
  which sends the WAL to a receiver is such a consumer: an accepted and a refused request are both `Accepted`.
* **Socket sender and durable sender.** `SocketSender` has the byte buffer and the three cursors of the source, changed in
  place. The ghost `Book` holds the lines in the queue, those which left it, and the bytes which the peer of the connection was
  sent. What the network does (it takes any number of bytes, none, or breaks) is a parameter of each call. `DurableSender` puts
  the WAL behind it.
* **File reader and commit pipeline.** `Files` is the operating system: other programs append, truncate, rotate and remove
  between any two calls. `appendOnly` says that they only append (and rotate), `rotates` that a path can lead to another file
  later, `quiet` that they do nothing during a call, `reliable` that only the state file can fail to be written, and
  `stateWritable` that it cannot either. `TextLines` is the plain split of a file into lines, and `ReadLines` the relation
  between that split and what was returned so far. In `CommitPipeline` each method of `Pipeline` is one step of the file thread
  or of the push thread, so a run is any sequence of calls, and `Valid` holds in each state of it; what the receiver and the WAL
  answer is a parameter of the step which delivers a batch. `FileRestart` and `PipelineRuns` have runs of readers and of the
  pipeline. `Fingerprint` is the hash of the start of a file.
* **OTLP.** `OtlpWire` has the field numbers, an encoder and an independent decoder, `OtlpJson` says which message a JSON tree
  means, `OtlpMeaning` that two trees mean the same message only if they say the same, `OtlpConverter` is the hand-written
  converter which is proved to do exactly that, `OtlpPayload` and `OtlpRoundTrip` are the grouping and the payload,
  `OtlpReceived` what a receiver reads out of it, `OtlpBuild` how it is built, `UnixTime` the times which records arrive with.
* **Failover.** `PushFailover`: any number of calls of `Send` at once, one atomic access or request per step, in any order.
* **Text.** `Utf8` (repair; section 4 of RFC 3629), `LineSplitter` (socket inputs), `PromLabel`, `MailJson` and `MailLog`
  (section 7 of RFC 8259).

## Where the code does less than it says

These are proved, each with the condition under which the promise holds, or with an input for which it does not.

* An `Append` behind a torn tail says true and cannot be read: `Init` does not repair the tail (`AppendCanBeReadIffClean`,
  `AppendOnTornTailIsLost`).
* Nothing of a refused record is left in the file only if the `ftruncate` behind the failing write works (`Append`, `CutBack`).
* The commit position is checked against the records once, and the commit file is not repaired (`FirstReadIsChecked`). In a
  state which the WAL itself can reach the check never has anything to do (`GetReplayPosition`).
* A `Clear` of which the second half fails removes the commit position without counting that as a change, and an `Ack` of an
  older `Peek` is taken afterwards. It moves over more than its record, and nothing is lost (the run `AckAfterFailedClear`).
* A line which does not fit into the buffer of the sender is taken into the WAL and blocks it for good (`BlockedIff`, and the
  run `LongLineBlocks`).
* `Flush` cuts the length of a line to 32 bits on its way to the WAL (`FlushStoresWholeLinesIff`). The forwarder configures a
  buffer of 4 MB, so only another user of the class can have such a line.
* While the file behind a rotated one cannot be opened, a commit of lines which were returned is refused as not read
  (`CommitMovesIff`, and the run `RefusedCommit`).
* A batch of which a record was lost is passed over by the position of the next safe batch; the source says so itself. The lines
  of such batches are the set `unsafe` of the ledger (`CommittedWasDelivered`, `PassedOverIff`, and the run `LostIsPassedOver`).
* The position of a line which was cut before its end was read is inside of that line: a process which starts there returns the
  rest of it as a line (`RestartResumes`, and the run `CutRestart`).
* The converter compares names up to the first zero byte and looks up the first member of a name, so some members are accepted
  and not sent (`NoMemberIsLostIff`, `SecondNameIsLost`, `NameWithZeroIsLost`).
* One negative time makes the converter refuse a whole payload (`PayloadConverts`). The inputs never take one
  (`GetUnixNanoFromJson`, `SecondsFit`).
* Adding a label and removing it loses empty braces, or an opening brace at the end of the name (`RemoveUndoesAddIff`). A label
  is not removed if it comes behind another one whose name ends like it (`RemovedAnywhere`, `HiddenLabelStays`).

## Model

| member | source | states |
|---|---|---|
| `WalFormat.ParseEncoded` | wal/simple_wal.cpp:374-428 | Reading undoes appending: from any list of encoded records, whatever bytes follow, a reader gets exactly these records and then what it gets of the rest |
| `WalFormat.ParseSplits` | wal/simple_wal.cpp:720-785 | Any bytes at all are the encoding of the records which a reader finds and a rest in which it finds none: no byte is in neither |
| `WalFormat.FirstIsEncoded` | wal/simple_wal.cpp:755-767 | The only bytes which read as a record are its encoding, so a reader cannot find a record which was not written like that |
| `WalFormat.ParseExtends` | wal/simple_wal.cpp:374-428 | Bytes behind a file never change the records which could be read before; what is new is read of the old rest and the new bytes |
| `WalFormat.ParseFrom` | wal/simple_wal.cpp:685-716 | A reader which starts at the start of record k reads exactly the records from k on |
| `WalDisk.RestartSkipsNothing` | wal/simple_wal.cpp:685-716 | In every crash safe state a new process starts at a record which is not behind the first unaccepted one, and the owed records (stored and not accepted) are all read, in their order |
| `WalDisk.AppendingIsSafe` | wal/simple_wal.cpp:374-428 | A crash behind any part of an appending write skips nothing: a safe state stays safe, whatever bytes come behind the records |
| `WalDisk.CommitWritesAreSafe` | wal/simple_wal.cpp:927-962 | A crash inside of the writing of a commit position is safe after every byte: a short commit file counts as 0, and only the full eight bytes say the new position |
| `WalDisk.NoCommitIsSafe` | wal/simple_wal.cpp:788-822 | Without a usable commit file a state stays safe: this is why the commit file goes before the records |
| `WalDisk.Disk.Write` | wal/simple_wal.cpp:39-58 | write(2) takes any front of the data or fails; the state behind the call is one more state in which the process can die |
| `SimpleWals.SimpleWal.WriteAll` | wal/simple_wal.cpp:39-58 | All of the data is written, or true is not said and a front of it is; if every front is crash safe, so is the state behind every single write |
| `SimpleWals.SimpleWal.WriteRecord` | wal/simple_wal.cpp:374-428 | Length and data as two writes: a front of the encoded record is in the file, all of it if and only if the call succeeds, and every state between the writes is safe |
| `SimpleWals.SimpleWal.Append` | wal/simple_wal.cpp:374-428 | True: exactly this record is behind the file, and behind a file of whole records it is the last one which is pending. False: nothing is (or less than a record, and that only if the ftruncate fails too). The commit position, the accepted and the discarded records stay; every state on the way is crash safe |
| `SimpleWals.SimpleWal.CutBack` | wal/simple_wal.cpp:410-417 | The ftruncate behind a failing write gives back exactly the file before it, or fails and leaves the piece |
| `SimpleWals.SimpleWal.Init` | wal/simple_wal.cpp:281-334 | When no call fails a WAL is open behind Init, and pending exactly if its file holds anything; the boundary check is due again and no peek is open. The lock against a second process is left out |
| `SimpleWals.SimpleWal.LoadCommit` | wal/simple_wal.cpp:902-924 | The position is what eight bytes say; a file which is missing, short or unreadable says 0 |
| `SimpleWals.SimpleWal.LoadPosition` | wal/simple_wal.cpp:685-716 | A position behind the end of the WAL counts as 0 |
| `SimpleWals.SimpleWal.StoreCommit` | wal/simple_wal.cpp:927-962 | True: the commit file says the new position, and the epoch moved. False: the position is the old one, or 0 with a new epoch. Nothing but the commit file changes, and every state between the steps is crash safe |
| `SimpleWals.SimpleWal.IsRecordBoundary` | wal/simple_wal.cpp:825-844 | Terminates, and says yes exactly for the starts of the records of the file and the end of the last one; a read which fails can only make it a no |
| `SimpleWals.SimpleWal.GetReplayPosition` | wal/simple_wal.cpp:685-716 | Reading starts at a record with only accepted ones in front of it. For any files at all: the first read uses the checked position, every later one the plain one |
| `WalRuns.FirstReadIsChecked` | wal/simple_wal.cpp:703-713 | For any files the first read starts at a record or at the end, and the later reads start at the same place if and only if the commit position is the start of a record or not inside of the file: the check is made once and repairs nothing on disk |
| `SimpleWals.SimpleWal.ClearInternal` | wal/simple_wal.cpp:788-822 | True: both files are empty, what was owed counts as discarded, the epoch moved. False: the records are all still there, with or without the commit position; a crash between the two steps skips nothing. The seek behind the truncation does not fail |
| `SimpleWals.SimpleWal.QuarantineTail` | wal/simple_wal.cpp:847-884 | True: exactly the bytes of the tail stand behind the quarantine file, in chunks and in order. The WAL itself does not change |
| `SimpleWals.SimpleWal.ReadRecord` | wal/simple_wal.cpp:720-785 | Which of the five results comes out, exactly: a record is the next one of the file; empty only at the end; damaged only if no record can be read there, and then exactly the unreadable bytes are moved; changed only behind the end; a stop changes no record |
| `SimpleWals.SimpleWal.Replay` | wal/simple_wal.cpp:483-599 | Over all interleavings with Append, Peek, Ack and a second Replay in all windows without the mutex, and all failing calls: the consumer sees the records without a gap from one not behind the first unaccepted; nothing owed is discarded; the WAL is emptied only if every record in it was accepted; true means the progress is saved; nothing is peeked by it, and the epoch moves whenever the position does. While all which is not a write or a truncation works: the consumer gets exactly the records which are there, or come in time, up to the first one which it does not accept, and the result says exactly whether the WAL was emptied or progress was saved |
| `SimpleWals.SimpleWal.LastWindow` | wal/simple_wal.cpp:560-580 | What others append between the last read and the end of the Replay stands behind the file, also behind one which was just emptied, and is not accepted |
| `SimpleWals.SimpleWal.SaveProgress` | wal/simple_wal.cpp:583-596 | The position behind what was accepted is saved, whatever was appended meanwhile: true means that exactly the records behind it are pending, and it is true unless any call can fail |
| `SimpleWals.SimpleWal.Others` | wal/simple_wal.cpp:555-566 | What other threads do in one window only makes the file longer, by whole records if ftruncate does not fail |
| `WalRuns.ReplayIsFifo` | wal/simple_wal.cpp:483-599 | For any file, with a torn tail too: the consumer sees a front of the records from the start position on, and behind them what can be read of the bytes which others appended during the replay, in the order of the appends; behind a file of whole records these are exactly the appended records |
| `WalRuns.ReplayLosesNothing` | wal/simple_wal.cpp:483-599 | For any file and all windows: owed before, plus what can be read of that which arrived in front of the emptying, plus what arrived behind it, is in this order accepted in this replay plus still owed; nothing is discarded |
| `WalRuns.RecoverTornTail` | wal/simple_wal.hpp:89-98 | A WAL of any records and a strict front of one more, and a consumer which accepts: it gets exactly the uncommitted records, exactly the torn bytes are in the quarantine file, the WAL and the commit file are gone |
| `WalRuns.DeliverSome` | wal/simple_wal.cpp:483-599 | A receiver which takes n pending records and refuses the next one gets exactly the first n + 1, in order; Replay says true, and exactly the first n are not pending any more |
| `WalRuns.AppendCanBeReadIffClean` | wal/simple_wal.cpp:374-428 | An appended record is read behind the ones before it, with nothing left over, if and only if the file ended with a record |
| `WalRuns.AppendOnTornTailIsLost` | wal/simple_wal.cpp:281-334 | A concrete torn tail behind which an Append is taken and cannot be read: Init does not repair the tail |
| `SimpleWals.SimpleWal.Peek` | wal/simple_wal.cpp:602-650 | While reads work a record is returned if and only if one is pending (and no Replay runs); it is the oldest one, and it stays; an unreadable tail is repaired only if nothing owed is lost |
| `SimpleWals.SimpleWal.Ack` | wal/simple_wal.cpp:653-678 | True only if the peeked record still stands: then what was pending is the record which the last Peek returned and, behind it, what is pending now; it is not owed any more. Otherwise false, and nothing was accepted or removed. Not due (nothing peeked, position moved, Replay runs): nothing changes at all |
| `WalRuns.PeekThenAck` | wal/simple_wal.cpp:602-678 | A run: Peek, any list of appends, clears and whole replays (each with its own interleavings), Ack. A true Ack removes exactly the record which that Peek returned, from the same position; a false one changes nothing; appends alone never make it false |
| `SimpleWals.SimpleWal.AckPeeked` | wal/simple_wal.cpp:653-678 | The same for a record which still stands: saving the position, or emptying the WAL behind the last record, with the acceptance taken back if that fails |
| `SimpleWals.AckMovesOne` | wal/simple_wal.cpp:653-678 | Moving the position behind record p takes exactly record p from the front of what is pending if and only if the position was at record p |
| `WalRuns.AckAfterFailedClear` | wal/simple_wal.cpp:788-822 | A run which ends where the strict promise of Ack fails: three records are appended, the first is acknowledged, the second is peeked, a Clear cannot truncate the file (and has removed the commit position by then); the Ack is taken, and two records leave what is pending. Both were accepted: nothing is lost |
| `SocketSenders.SocketSender.Enqueue` | domfwd/domfwd_socket.hpp:178-212 | Takes a line if and only if the sender is configured, the line is valid and HasRoom says yes; then it is the last of the queue, whatever compaction did. Otherwise the queue stays and exactly one counter moves |
| `SocketSenders.SocketSender.MoveToStart` | domfwd/domfwd_socket.hpp:178-212 | The compaction of the buffer is invisible: the same lines, the same unsent bytes, only the cursors are lower |
| `SocketSenders.SocketSender.MoveBytes` | domfwd/domfwd_socket.hpp:178-212 | memmove in place: the bytes arrive in front, also where source and target overlap |
| `SocketSenders.SocketSender.RoomInTheEndIff` | domfwd/domfwd_socket.hpp:216-219 | There is room for a line if and only if fewer than the maximum of lines are queued and the bytes of the queued lines and this one fit into the buffer; once everything before it is sent, if and only if it and its new line fit at all |
| `SocketSenders.SocketSender.PeekUnsent` | domfwd/domfwd_socket.hpp:224-240 | The oldest line which was not sent completely, read from the bytes, if there is one |
| `SocketSenders.SocketSender.DropUnsent` | domfwd/domfwd_socket.hpp:243-263 | Exactly the line which PeekUnsent shows leaves the queue, without counting as sent |
| `SocketSenders.SocketSender.CompleteSentLines` | domfwd/domfwd_socket.hpp:772-785 | The lines whose new line was sent leave the front of the queue in their order, and the one which was sent in part stays |
| `SocketSenders.SocketSender.NextNewLine` | domfwd/domfwd_socket.hpp:772-785 | The search for a new line finds the end of the oldest line, or says that it is not in the range |
| `SocketSenders.SocketSender.SendQueued` | domfwd/domfwd_socket.hpp:787-812 | For every list of answers of the network: the peer got exactly the bytes which were taken, the rest is not sent yet, and the connection breaks exactly at an error; lines pass from the front of the queue to sent, none lost, doubled or moved |
| `SocketSenders.SocketSender.SendOnce` | domfwd/domfwd_socket.hpp:793-811 | One send: at least one byte and at most a chunk is taken, or nothing changes, or the connection is gone |
| `SocketSenders.SocketSender.AllIsSent` | domfwd/domfwd_socket.hpp:772-785 | When no byte waits any more no line does |
| `SocketSenders.SocketSender.Sent` | domfwd/domfwd_socket.hpp:787-812 | The connection took n bytes: exactly they are behind what its peer got |
| `SocketSenders.SocketSender.StreamIsPrefix` | domfwd/domfwd_socket.hpp:621-641 | What one connection was sent begins with the oldest line which was incomplete when it came up and is a front of the lines from there on: after a break a line is sent again from its beginning and none is left out |
| `SocketSenders.SocketSender.Disconnect` | domfwd/domfwd_socket.hpp:621-641 | The queue keeps all lines, and the send position is back at the start of the oldest one |
| `SocketSenders.SocketSender.StartConnect` | domfwd/domfwd_socket.hpp:660-697 | Connecting changes no line, whether it works at once, later or never; a new connection starts with an empty stream and the whole queue in front of it |
| `SocketSenders.SocketSender.CheckConnect` | domfwd/domfwd_socket.hpp:699-739 | The same for the end of a connect which waited |
| `SocketSenders.SocketSender.CheckPeerClosed` | domfwd/domfwd_socket.hpp:742-769 | A peer which closed leaves the queue as it is |
| `SocketSenders.SocketSender.Pump` | domfwd/domfwd_socket.hpp:266-287 | The state of the connection and the bytes which go out, exactly, for everything the network can do; lines only pass from the front of the queue to sent, and none does while a peer is gone, the time of an attempt has not come, or an attempt waits; a connection which takes all bytes empties the queue |
| `SocketSenders.SocketSender.Flush` | domfwd/domfwd_socket.hpp:290-306 | The same over all rounds until the time is over; true exactly if the queue is empty, and always if the network takes everything at once |
| `SocketSenders.PassedKeepsOrder` | domfwd/domfwd_socket.hpp:772-785 | Sent lines followed by queued lines are the same sequence before and after any passing on |
| `DurableSenders.DurableSender.Send` | domfwd/domfwd_durable.hpp:102-115 | For a valid line and a WAL: without a connection, or while a record waits, or without room, the queue stays, and an accepted line is the last one which waits and the last one which the WAL owes; if no call fails it is accepted exactly if its record fits into the WAL. Connected, with nothing waiting and room, it is accepted as the last one of the queue and the WAL stays. Otherwise only the queue can take it. What was given stays equal to sent, queued and waiting lines, in order |
| `DurableSenders.DurableSender.Queue` | domfwd/domfwd_durable.hpp:102-115 | The fast way: accepted exactly if valid and room, and the WAL does not change |
| `DurableSenders.DurableSender.Spill` | domfwd/domfwd_durable.hpp:255-265 | The slow way: an accepted line is the last one in the WAL, a refused one is nowhere, exactly one counter moves; if no call fails a line is accepted exactly if its length fits into 32 bits and its record into the WAL |
| `DurableSenders.DurableSender.Pump` | domfwd/domfwd_durable.hpp:118-126 | Over any network and any failing append the order of all kept lines stays and every record which left the WAL is counted, at most 200 in one call. Without a connection nothing leaves the WAL or the queue, and all of it is still owed. If the connection takes everything, at least one record leaves the WAL, but for an oldest line which is longer than the buffer: then the WAL never moves |
| `DurableSenders.DurableSender.Drain` | domfwd/domfwd_durable.hpp:269-318 | Order and limits as for Pump; without a connection nothing moves; while there is a connection, a short queue and a record which can leave the WAL, each call takes at least one out of it |
| `DurableSenders.DurableSender.DrainSome` | domfwd/domfwd_durable.hpp:277-316 | One round: it ends the call exactly if nothing more can be moved, the queue is full, or the connection is gone |
| `DurableSenders.DurableSender.Fill` | domfwd/domfwd_durable.hpp:279-309 | The inner loop stops early only if the oldest record cannot leave the WAL (there is none, or no room for it); it moves at least one if it can |
| `DurableSenders.DurableSender.MoveOne` | domfwd/domfwd_durable.hpp:279-306 | Exactly one of: the oldest record is now the last line of the queue; it was no line, is gone and counted; nothing changed because there was none, no room, or the ack failed |
| `DurableSenders.DurableSender.Flush` | domfwd/domfwd_durable.hpp:130-158 | Every line is sent, still queued, or in the WAL behind what waited there; true exactly if the queue is empty, and always if no call fails and the WAL has room for the queue |
| `DurableSenders.DurableSender.MoveToWal` | domfwd/domfwd_durable.hpp:140-155 | A stored line leaves the queue and is the last record of the WAL (its length cut to 32 bits); otherwise both stay. If no call fails it is stored exactly if that record fits |
| `DurableSenders.DurableSender.BlockedIff` | domfwd/domfwd_durable.hpp:279-306 | With an empty queue the oldest line in the WAL can leave it if and only if it is not longer than the buffer; a longer one never can |
| `DurableSenders.LongLineBlocks` | domfwd/domfwd_durable.hpp:279-306 | A run: a line which is longer than the buffer of the sender is taken into an empty WAL, and whatever is sent and pumped then, over any network, it stays the oldest one there: nothing ever leaves the WAL again |
| `DurableSenders.SentWhileAway` | domfwd/domfwd_durable.hpp:102-126 | A run: the peer is away, and any lines are sent and the main loop goes on, in any order. Every line for which Send said true is owed by the WAL, in the order of the calls, none is only in memory, and what a new process finds in the files ends with them |
| `DurableSenders.FlushKeepsEveryLine` | domfwd/domfwd_durable.hpp:130-158 | After a Flush the multiset of given lines is the sent, the queued and the waiting ones, and all but the waiting ones keep their order |
| `DurableSenders.FlushStoresWholeLinesIff` | domfwd/domfwd_durable.hpp:140-155 | Flush stores the lines as they are if and only if each of them is shorter than 4 GB (the buffer which the forwarder configures is smaller than that) |
| `TextLines.LinesConcat` | filereader/file_reader.cpp:292-359 | The lines of a file split where a new line ends: reading in two parts gives the lines of the whole |
| `TextLines.SplitAtEnd` | filereader/file_reader.cpp:250-288 | The end offset of line i splits the file into exactly the lines up to i and, for a reader which starts there, the lines behind it |
| `TextLines.AllOfGrows` | filereader/file_reader.cpp:292-359 | What can be said of a file stays a front of what can be said of it when it grew, also for a line which is too long and not complete yet |
| `TextLines.EndsIncrease` | filereader/file_reader.cpp:292-359 | End offsets are strictly increasing and inside of the file |
| `ReadLines.ReadingIsPrefix` | filereader/file_reader.cpp:483-550 | However the file is read in pieces, the texts and truncated flags of all lines which were returned are a front of the plain split of the file from where the reader started, divided where a last line without a new line was returned |
| `ReadLines.ReadingIsAll` | filereader/file_reader.cpp:483-550 | Where the reader finds nothing more, it has returned everything that can be said of the bytes of this part up to there |
| `ReadLines.ReadingIsWhole` | filereader/file_reader.cpp:483-550 | At the end of the file the lines of all its parts together are everything that can be said of it |
| `ReadLines.ReadingEnds` | filereader/file_reader.cpp:363-380 | Returning what is behind the last new line as a line keeps the relation to the split, which has one more division there |
| `ReadLines.UncutIsPlain` | filereader/file_reader.cpp:483-550 | Without such a division it is the plain split at new lines |
| `TextLines.LineStands` | filereader/file_reader.cpp:292-359 | Each line of the split stands in the file at its start, without a new line in it, and its new line is in front of its end |
| `TextLines.WrittenIsRead` | filereader/file_reader.cpp:339-358 | Lines which a program writes with LF or with CR LF are read as they were written, all of them in order, if each fits with its end |
| `ReadLines.RestartResumes` | filereader/file_reader.cpp:250-288 | A reader which starts at the position of a returned line returns exactly the later lines if and only if that position is behind a new line (or the start of a part): always for a line which was not cut. Behind a line which was cut before its end was read it returns the rest of that line first |
| `ReadLines.ReadingTakes` | filereader/file_reader.cpp:339-358 | Returning one complete line with its exact end keeps the relation to the plain split |
| `ReadLines.ReadingCuts` | filereader/file_reader.cpp:317-333 | Returning the first bytes of a line without an end, once it is too long, keeps it as well |
| `ReadLines.ReadingSkipped` | filereader/file_reader.cpp:300-315 | Passing over the rest of a cut line ends exactly behind its new line |
| `FileReaders.FileReader.ExtractLine` | filereader/file_reader.cpp:292-359 | Over the buffer and its cursors: the next line of the plain split is returned with its end offset, or there is none in what was read; no byte of the file is skipped by it |
| `FileReaders.FileReader.TakeLine` | filereader/file_reader.cpp:339-358 | The complete line, without its carriage return, cut to the maximum; its end is behind the new line |
| `FileReaders.FileReader.CutLine` | filereader/file_reader.cpp:317-333 | The maximum of bytes is returned as cut; its end stops right behind them |
| `FileReaders.FileReader.EmitRemainder` | filereader/file_reader.cpp:363-380 | Exactly the rest of the buffer without its carriage return becomes a line which ends at the end of it, and what comes later starts a new part of the file |
| `FileReaders.FileReader.FillBuffer` | filereader/file_reader.cpp:384-404 | Behind what was not returned yet stands exactly what comes next in the file, compaction changes nothing that can be seen, and zero bytes mean the end of the file |
| `FileReaders.FileReader.RefreshHead` | filereader/file_reader.cpp:408-424 | Says that the start is still the same exactly if the file still starts with what was seen of it, and then the start grows with the file; a file which only grew never loses it |
| `FileReaders.FileReader.CheckFile` | filereader/file_reader.cpp:428-448 | A file which only grew is never taken for a new one; a file which was read on still starts as it did; otherwise the reader is at position 0 of a new generation |
| `FileReaders.FileReader.ResetFile` | filereader/file_reader.cpp:452-467 | A new generation with no line, at the beginning of the file, with nothing committed |
| `FileReaders.FileReader.SaveState` | filereader/file_reader.cpp:657-707 | If it is written, loading it gives this file, this committed position, and as fingerprint the smaller of the position and the length of the head, and the hash of that many bytes of the head; for a file which only grows that fits to the file |
| `FileReaders.FileReader.LoadState` | filereader/file_reader.cpp:587-652 | What the state file says, or nothing that can be used |
| `StateFile.ReadState` | filereader/file_reader.cpp:609-651 | The loop over the lines accepts exactly complete states: every number is there, only digits and 64 bits, the right version, a fingerprint which is not longer than the offset |
| `StateFile.LoadOfText` | filereader/file_reader.cpp:587-707 | Loading a state which was saved gives back the same five numbers, for all numbers which fit into 64 bits |
| `StateFile.IncompleteIsInvalid` | filereader/file_reader.cpp:587-652 | A saved state of which the last line is missing is not used |
| `StateFile.OtherVersionIsInvalid` | filereader/file_reader.cpp:609-651 | A state of another version is not used, whatever follows |
| `StateFile.OtherLine` | filereader/file_reader.cpp:609-651 | Lines without an equals sign or with an unknown name change nothing; a value which is no number makes the whole file invalid |
| `Fingerprint.HashOfA` | filereader/file_reader.cpp:23-35 | The hash of the text a is the value which is published for 64-bit FNV-1a |
| `Fingerprint.OneByteChangesTheHash` | filereader/file_reader.cpp:23-35 | Two texts which differ in exactly one byte, anywhere, have different fingerprints: no step of the hash loses anything modulo 2^64 |
| `FileReaders.FileReader.ResolveStart` | filereader/file_reader.cpp:250-288 | While no call fails, and a state is loaded: the start is the saved offset if and only if the state names this file, the offset is not behind its end, the file still has as many bytes as the fingerprint covers, and these have the saved hash; otherwise it is 0. Without a state it is the start or the end, as configured |
| `FileReaders.FileReader.OpenFile` | filereader/file_reader.cpp:184-245 | Each opened file is a new generation with no line; only the first one uses the state file, with exactly the position of ResolveStart while nobody writes, every later one starts at 0; the state file says so at once if it can be written, with the fingerprint of the first 256 bytes; it fails only without changing anything |
| `FileReaders.FileReader.ReadLine` | filereader/file_reader.cpp:483-550 | Over any writing, truncation and rotation by others, and in each file as long as it only grows: a returned line is the next one of the plain split behind all lines of its generation which were returned before, with its exact text and flag, or what is behind the last new line, and that only after a rotation was seen or after the time for it; only the first file of a reader starts elsewhere than at 0; at "nothing more" every line of the (append only) file was returned, up to at least the size it had when the call began; no file means that there is none; the state file keeps describing a file which is there. While others do nothing it ends, with one of these answers: the bytes which are to be read bound the rounds of its loop |
| `FileReaders.FileReader.OneRound` | filereader/file_reader.cpp:489-549 | One round of the loop keeps all of this, fails only if a call of the system fails, and goes on only if there is less to read than before |
| `FileReaders.FileReader.EndOfFile` | filereader/file_reader.cpp:512-548 | At the end: a rotated file gets exactly one more read, then exactly the rest of the buffer is returned, then it is closed; without a rotation the rest is returned exactly if it waits for the configured time |
| `FileReaders.FileReader.AllIsReturned` | filereader/file_reader.cpp:483-550 | Nothing in the buffer and nothing behind it in the file: all lines of the file were returned |
| `FileReaders.FileReader.Commit` | filereader/file_reader.cpp:553-583 | Moves exactly forward inside of the current generation, to a position which was read, and saves it first; it says true if the state file can be written; an older generation or position is no error; a position which was not read is refused |
| `FileReaders.FileReader.CommitMovesIff` | filereader/file_reader.cpp:553-583 | The end of a returned line which is not committed yet can be committed if and only if the file is open |
| `FileRestart.RefusedCommit` | filereader/file_reader.cpp:553-583 | A run in which the commit of a returned line is refused as a position which was not read: the line is read, the path leads to another file, the reader closes the old one, and nothing can be opened |
| `FileRestart.LinesArePlain` | filereader/file_reader.cpp:483-550 | In every state of every reader: all lines of its generation are, with their texts and flags, a front of the plain split of the file; if nothing is rotated and no line may be returned without a new line, of the split at new lines alone |
| `FileRestart.AllAreReturned` | filereader/file_reader.cpp:483-550 | When everything was returned they are all of it |
| `FileRestart.ReadMany` | filereader/file_reader.cpp:483-550 | Any number of calls, with appends of others between any two steps. What comes out are the next lines of the plain split at new lines, none missing, none twice; when a call finds nothing more, all lines came out. If nobody writes, and there are more calls than lines, that is how it ends: all lines of the file came out |
| `FileRestart.ReadWhole` | filereader/file_reader.cpp:184-550 | A new reader of a file which nobody changes, and which the state file does not recognize, returns, from the first call on, exactly the plain split of the file |
| `FileRestart.Restart` | filereader/file_reader.cpp:250-288 | A process which died behind the commit of line k (or of a last line which had no new line yet), and a file which grew meanwhile: a new reader of it returns exactly the lines behind that, if and only if the committed position is behind a new line; otherwise the rest of a cut line comes first |
| `FileRestart.ReadCommitRestart` | filereader/file_reader.cpp:250-583 | A run of two processes: any number of reads with appends between them, a commit of one of the lines, a crash, and a second process. The commit happens if the state file can be written; the lines up to the committed one are the front of the plain split of the file, and the second process starts exactly with the rest of it, if and only if the committed position is behind a new line |
| `FileRestart.ResumesBehind` | filereader/file_reader.cpp:250-288 | The same for the committed offset and the grown file |
| `FileRestart.CutRestart` | filereader/file_reader.cpp:250-333 | A run: a line is cut and committed before its end is in the file, and the process dies. The second process returns the rest of that line, which is no line of the file |
| `FileRestart.RewrittenRestart` | filereader/file_reader.cpp:250-288 | A run: a process dies, and the file is written again under the same identity, with a start of another hash than the saved one, or a shorter one. However long the new content is, the next process starts at 0 and returns exactly all of its lines |
| `FileRestart.OneByteIsOtherStart` | filereader/file_reader.cpp:277-285 | That is so for each new content in which exactly one byte of those which the fingerprint covers is another one |
| `CommitPipeline.LogFifo.Push` | otelfwd.cpp:197-204 | The record is the last one |
| `CommitPipeline.LogFifo.TryPush` | otelfwd.cpp:208-221 | Taken exactly if there is room, and then it is the last one |
| `CommitPipeline.LogFifo.PopBatch` | otelfwd.cpp:226-256 | A front of the queue, at least one record, within both limits (a single large record is allowed), and as long as the limits allow; the size of a batch is the length of its texts together |
| `CommitPipeline.FileCommitSlot.Add` | file_input.hpp:85-95 | The slot holds the highest position of all, first by generation, then by offset; a lower one changes nothing |
| `CommitPipeline.FileCommitSlot.Take` | file_input.hpp:99-111 | Each new position is given out once |
| `CommitPipeline.Deliver` | otelfwd.cpp:1646-1715 | What becomes of each record, by the answers alone: with a receiver a marked one is stored or lost as the WAL says for it; the others are accepted, refused for good, stored, or lost if the request failed and the WAL does not take it. Safe if and only if none is lost |
| `CommitPipeline.LostIff` | otelfwd.cpp:1646-1715 | A record of a batch is lost if and only if there is a receiver and the WAL does not take a marked record, or does not take the others of a request which failed |
| `CommitPipeline.Pipeline.ReadNext` | otelfwd.cpp:2114-2152 | The file thread reads only while there is room; an empty line is not sent; every other line goes to the end of the queue. While others do nothing it gets a line if there is one |
| `CommitPipeline.Pipeline.TakeBatch` | otelfwd.cpp:1646-1650 | The batch and the queue behind it are the queue before; the batch is not empty if the queue was not, and as long as the limits allow |
| `CommitPipeline.Pipeline.DeliverBatch` | otelfwd.cpp:1646-1717 | All lines of the batch are done with, each with its outcome; positions are handed over if and only if the WAL took what it was asked to take. So a batch without a marked record which is refused for good is handed over |
| `CommitPipeline.Pipeline.HandOver` | otelfwd.cpp:1613-1620 | One record after the other: the slot has the highest position of all which were handed over |
| `CommitPipeline.Pipeline.TakePosition` | otelfwd.cpp:2057-2067 | What is taken replaces what waits, and nothing taken is forgotten before it is committed |
| `CommitPipeline.Pipeline.CommitPosition` | otelfwd.cpp:2057-2067 | While the file is open the position which was taken is committed if the state file can be written: no commit reports a position behind the lines which were read |
| `CommitPipeline.HandledIsCovered` | otelfwd.cpp:1613-1620 | Every line up to a position which was handed over was delivered before it: the order of queue and batches makes one number enough |
| `CommitPipeline.CommittedWasDelivered` | otelfwd.cpp:1646-1715 | In every state of every run of both threads: each non-empty line of the current generation which ends at or before the committed position was accepted, refused for good or stored in the WAL, unless it was in a batch of which a record was lost |
| `CommitPipeline.PassedOverIff` | otelfwd.cpp:1653-1657 | A line, whatever became of it, is passed over by the position in the slot if and only if the position of a line at or behind it was handed over, which is one of a safe batch; and only then by the committed position |
| `PipelineRuns.LostIsPassedOver` | otelfwd.cpp:1646-1717 | A run of the pipeline: the first line is lost, since the receiver does not answer and the WAL does not take it; the second one is accepted; the position behind both is committed |
| `PipelineRuns.RefusedIsCommitted` | otelfwd.cpp:1693-1713 | A run of the pipeline: a line is refused for good, and its position is committed |
| `OtlpWire.DecodeOfEncode` | otlp_protobuf.hpp:83-131 | A decoder written from the field numbers and the wire format gets every field of a message back, at every depth, in order, with exact 64-bit values |
| `OtlpWire.MessageExample` | otlp_protobuf.hpp:83-131 | The bytes of a nested message with the number 150, as the wire format of Protocol Buffers gives them |
| `OtlpJson.FromJsonIsMessage` | otlp_protobuf.hpp:266-576 | What is accepted is a message of its kind: each field has a number of the schema and a value of its shape |
| `OtlpJson.ConversionComesBack` | otlp_protobuf.hpp:266-576 | What is accepted, encoded and decoded is the message of the tree, field by field at every depth |
| `OtlpJson.ReorderedMeansTheSame` | otlp_protobuf.hpp:136-141 | The order of the members of any object, at any depth, does not matter: the same fields, or refused as well |
| `OtlpMeaning.SameBytesIff` | otlp_protobuf.hpp:266-576 | Two accepted trees are converted to the same bytes if and only if they say the same: under each name of the schema, at every depth, the same text, flag, integer, double, message or list. Only the order of members, the spelling of numbers and an empty list instead of none are lost |
| `OtlpMeaning.SameMessageIff` | otlp_protobuf.hpp:266-576 | The same for the messages: the conversion is injective on what the trees say |
| `OtlpMeaning.NoMemberIsLostIff` | otlp_protobuf.hpp:136-168 | The message depends on the value of every member of an accepted object if and only if no name is there twice and none has a zero byte: otherwise some value can be replaced by anything, and the message stays the same |
| `OtlpMeaning.EveryMemberIsSaid` | otlp_protobuf.hpp:136-168 | With such names trees which say the same have the same members with the same values, but for empty lists |
| `OtlpMeaning.SecondNameIsLost` | otlp_protobuf.hpp:136-168 | A concrete accepted object with a name twice: the second value is nowhere in the message, whatever it is |
| `OtlpMeaning.NameWithZeroIsLost` | otlp_protobuf.hpp:145-168 | A concrete accepted object of which nothing is left: a known name and a zero byte behind it |
| `OtlpConverter.OtlpJsonToProtobuf.AddVarint` | otlp_protobuf.hpp:83-92 | The loop over seven bits appends the base 128 digits of the number, lowest first |
| `OtlpConverter.OtlpJsonToProtobuf.AddTag` | otlp_protobuf.hpp:96-99 | Appends field number and wire type as one varint |
| `OtlpConverter.OtlpJsonToProtobuf.AddFixed64Field` | otlp_protobuf.hpp:110-116 | Appends what a decoder reads back as the same 64 bits under this field number |
| `OtlpConverter.OtlpJsonToProtobuf.AddBytesField` | otlp_protobuf.hpp:120-131 | Appends tag, length and exactly the bytes |
| `OtlpConverter.OtlpJsonToProtobuf.CheckObject` | otlp_protobuf.hpp:145-168 | Yes exactly for an object of which every member name is known up to its first zero byte; a no says what is wrong |
| `OtlpConverter.OtlpJsonToProtobuf.IsDecimalText` | otlp_protobuf.hpp:190-211 | Yes exactly for at least one digit and only digits, behind a minus if the number has a sign |
| `OtlpConverter.OtlpJsonToProtobuf.GetUnsigned` | otlp_protobuf.hpp:214-236 | Accepts exactly integers from 0 to 2^64 - 1, as number or decimal text, and gives their value |
| `OtlpConverter.OtlpJsonToProtobuf.GetSigned` | otlp_protobuf.hpp:239-261 | The same from -2^63 to 2^63 - 1 |
| `OtlpConverter.OtlpJsonToProtobuf.ConvertAnyValue` | otlp_protobuf.hpp:266-315 | Accepts exactly the trees of the schema for a value with at most one member, and appends the encoding of what they say; the same holds for each converter below |
| `OtlpConverter.OtlpJsonToProtobuf.ConvertKeyValue` | otlp_protobuf.hpp:318-344 | An attribute: a key, and perhaps a value |
| `OtlpConverter.OtlpJsonToProtobuf.ConvertAttributes` | otlp_protobuf.hpp:347-363 | All attributes in their order, each as one field |
| `OtlpConverter.OtlpJsonToProtobuf.ConvertLogRecord` | otlp_protobuf.hpp:366-423 | A record: both times, severity, body and attributes, in the order of the field numbers whatever the order of the members |
| `OtlpConverter.OtlpJsonToProtobuf.ConvertScope` | otlp_protobuf.hpp:426-450 | A scope |
| `OtlpConverter.OtlpJsonToProtobuf.ConvertScopeLogs` | otlp_protobuf.hpp:453-487 | A scope and all its records in their order |
| `OtlpConverter.OtlpJsonToProtobuf.ConvertResource` | otlp_protobuf.hpp:490-501 | A resource |
| `OtlpConverter.OtlpJsonToProtobuf.ConvertResourceLogs` | otlp_protobuf.hpp:504-538 | A resource and its scopes |
| `OtlpConverter.OtlpJsonToProtobuf.ConvertRequest` | otlp_protobuf.hpp:541-576 | All resources of a request in their order |
| `OtlpConverter.OtlpJsonToProtobuf.Convert` | otlp_protobuf.hpp:49-66 | The bytes of the request exactly if the tree is accepted at every depth; otherwise no bytes and what is wrong |
| `OtlpPayload.SameKVs` | otelfwd.cpp:876-910 | Yes exactly for equal lists of attributes |
| `OtlpPayload.Group` | otelfwd.cpp:994-1018 | One group for each different (scope, version, resource), in the order of first occurrence, with exactly its records in their order |
| `OtlpPayload.PartitionIsAll` | otelfwd.cpp:994-1018 | The groups together are exactly the batch: no record lost, none doubled |
| `OtlpPayload.KeyIsThere` | otelfwd.cpp:994-1018 | A key has a group if and only if a record has it, so no group is empty |
| `OtlpBuild.BuildOtlpPayload` | otelfwd.cpp:988-1111 | One group for each different (scope, version, resource), whose records all have these; the converter takes the payload if and only if no time is negative, and then a receiver who looks up the fields reads each group with the resource and the scope of its records or the defaults, and each record with its time (the observed one if it has none), its observed time (the time if it has none), severity, repaired texts and attributes |
| `OtlpRoundTrip.RecordConverts` | otelfwd.cpp:1056-1086 | The tree of a record is accepted if and only if neither of its times is negative, and then says its values |
| `OtlpRoundTrip.GroupConverts` | otelfwd.cpp:988-1111 | The same for a group: one negative time refuses it |
| `OtlpRoundTrip.PayloadConverts` | otelfwd.cpp:988-1111 | A payload is accepted if and only if no time in it is negative |
| `OtlpRoundTrip.PayloadRoundTrip` | otelfwd.cpp:988-1111 | A decoder of the protobuf of a payload gets the same groups and records, in order, with their repaired texts |
| `OtlpReceived.ReceivedIsSent` | otelfwd.cpp:988-1111 | The same behind the protobuf: who decodes the bytes and looks up the fields gets, group by group and record by record, the time if it is not 0 and the observed one otherwise, and the other way round, positive severities, repaired texts, attributes, and the resource and scope of the group or the defaults |
| `UnixTime.GetUnixNanoFromJson` | otelfwd.cpp:1135-1173 | Accepts exactly decimal text or integers from 0 to 2^63 - 1 and gives their value; no step of the loop wraps around |
| `UnixTime.GetUnixNanoFromSeconds` | otelfwd.cpp:2286-2343 | A text is accepted exactly if it is digits with an optional fraction, up to 9 billion seconds; the value is the whole seconds and the fraction in nanoseconds |
| `UnixTime.SecondsFit` | otelfwd.cpp:2286-2343 | What is taken is never negative and fits into an int64_t, so payloads of such records are always accepted |
| `UnixTime.WrittenSecondsAreRead` | otelfwd.cpp:2286-2343 | A printed number of seconds and any fraction is read as the number and the first nine digits of the fraction |
| `UnixTime.BillionthsIsFloor` | otelfwd.cpp:2310-2326 | The nanoseconds which are read of a fraction are its value times a billion, rounded down, for any number of digits |
| `UnixTime.SecondsAgree` | otelfwd.cpp:2286-2343 | A whole number of seconds is the same time as a number and as a text; 0 is taken as a text and not as a number |
| `UnixTime.NanosAreRead` | otelfwd.cpp:1135-1173 | Every integer is read as it is, as a number and as its digits with any zeros in front, exactly if it is from 0 to 2^63 - 1 |
| `PushFailovers.PushFailover.Step` | push_failover.hpp:62-115 | One atomic step of one of any number of calls. From the look at the endpoint in use it goes to the endpoint in use; from the look at the probe time it goes on to claim the probe exactly from that time on, and to the backup before it; a claim succeeds exactly if nobody else changed the time. Two successful claims without a failover between them are at least the failback time apart; the endpoint in use and the counters change in their own steps only |
| `PushFailovers.PushFailover.SendAlone` | push_failover.hpp:62-115 | A run of one call during which no other one makes a step: exactly which endpoints are asked in which order (from the probe time on the primary first while the backup is in use, before it the backup; the other one only behind a failure), which is in use then, the counters, and the time of the next probe |
| `PushFailovers.PushFailover.ClaimProbe` | push_failover.hpp:89-93 | compare_exchange: only the call which saw the current probe time makes the probe |
| `PushFailovers.PushFailover.ExchangeActive` | push_failover.hpp:137-152 | exchange: the endpoint is in use from now on, and only a call which changed it goes on to count |
| `PushFailovers.PushFailover.CountSwitch` | push_failover.hpp:137-152 | Exactly one of the two counters goes up by one |
| `PushFailovers.PushFailover.WhenAllAreDone` | push_failover.hpp:62-115 | Over all interleavings: when no call runs, failovers minus failbacks is 1 if the backup is in use, and 0 otherwise |
| `PushFailovers.PushFailover.WhatACallDid` | push_failover.hpp:62-115 | A call ends after one to three requests, nothing follows an accepted or rejected one, with a backup it fails only if both endpoints failed, and it puts an endpoint into use exactly if the one not in use accepted |
| `Utf8.ToValidUtf8` | otelfwd.cpp:782-849 | Every byte which does not start a character of RFC 3629 becomes U+FFFD, everything else stays |
| `Utf8.RepairedIsWellFormed` | otelfwd.cpp:782-849 | The result is well-formed and at most three times as long |
| `Utf8.RepairedIsSameIff` | otelfwd.cpp:782-849 | It is the identity exactly on well-formed text |
| `Utf8.RepairIsIdempotent` | otelfwd.cpp:782-849 | Repairing twice is repairing once |
| `Utf8.BadByteIsReplaced` | otelfwd.cpp:782-849 | Behind any well-formed text a byte which starts no character becomes U+FFFD, and the repair goes on with the next byte |
| `Utf8.CharIsScalar` | otelfwd.cpp:782-849 | What counts as a character is the shortest encoding of a Unicode scalar value: no surrogate, nothing above U+10FFFF |
| `Utf8.ScalarIsChar` | otelfwd.cpp:782-849 | The encoding of every scalar value counts as one character, whatever follows |
| `LineSplitters.IngestClient.Receive` | otelfwd.cpp:1859-1903 | After any piece of data no new line waits in the buffer, it is at most 1 MB, and the handled lines are those of the stream so far |
| `LineSplitters.IngestClient.ProcessLines` | otelfwd.cpp:1864-1879 | All complete lines are handled in order; the end of a dropped line is not |
| `LineSplitters.IngestClient.LimitBuffer` | otelfwd.cpp:1893-1902 | A rest which is too long is dropped up to its new line, and only such a rest |
| `LineSplitters.IngestClient.EndOfStream` | otelfwd.cpp:1881-1891 | A last line without a new line is a line: the handled lines are those of the whole stream |
| `LineSplitters.PiecesDoNotMatter` | otelfwd.cpp:1859-1903 | If no line is too long, two ways to cut the same stream handle the same lines: all non-empty ones, in order |
| `LineSplitters.NoGoodLineIsLost` | otelfwd.cpp:1859-1903 | Whatever is dropped, every line which is not too long is handled once, in its order, also right behind a dropped one |
| `LineSplitters.HandledIsAll` | otelfwd.cpp:1859-1903 | Without a line which is too long exactly the non-empty lines are handled |
| `PromLabel.PromEscapeLabelValue` | prom_label.hpp:13-32 | Backslash, quote and new line are escaped, nothing else changes |
| `PromLabel.EscapedValueEnds` | prom_label.hpp:84-96 | The search for the closing quote finds the end of an escaped value, whatever is in the value |
| `PromLabel.EscapedIsRead` | prom_label.hpp:13-32 | A reader of the text format gets every escaped value back, and it is in one line |
| `PromLabel.AddedIsRead` | prom_label.hpp:38-61 | The label which was added is the first one behind the brace, and its value is read back |
| `PromLabel.RemovedAnywhere` | prom_label.hpp:65-110 | A label at any place between the braces is removed with one comma, or with the braces if it is alone, and everything else stays; what only ends like its name is not removed |
| `PromLabel.HiddenLabelStays` | prom_label.hpp:65-84 | A concrete name from which a label is not removed: an earlier label has a name which ends like it |
| `PromLabel.RemoveUndoesAddIff` | prom_label.hpp:38-110 | Removing a label undoes adding it if and only if the name has no empty braces and no opening brace at its end |
| `MailJson.ValueParses` | mail-log/mail_log.cpp:1028-1126 | A JSON parser by RFC 8259 gets every printed value back, at every depth, with what follows it left over |
| `MailJson.StringParses` | mail-log/mail_log.cpp:1028-1063 | Printed strings are parsed to the same bytes, whatever bytes they are |
| `MailJson.PrintHasNoControl` | mail-log/mail_log.cpp:1028-1063 | No byte below 0x20 is printed, so a record is one line |
| `MailLogs.PutValue` | mail-log/mail_log.cpp:994-1023 | Only the values of this key change; a new key is the last one; no key is there twice |
| `MailLogs.NormalizeHeaderName` | mail-log/mail_log.cpp:1145-1164 | Same length, lower case letters, digits and underscores only |
| `MailLogs.HeaderKeyIs` | mail-log/mail_log.cpp:1145-1164 | The name of an attribute of a header has only lower case letters, digits and underscores behind its prefix, and a header name of these is kept as it is |
| `MailLogs.HeaderCaseIsIgnored` | mail-log/mail_log.cpp:1145-1164 | Two header names which differ in the case of letters only are the same attribute |
| `MailLogs.HeaderIsNoTailKey` | mail-log/mail_log.cpp:196-202 | No header name whatever can double one of the attributes which come last |
| `MailLogs.AppendJsonString` | mail-log/mail_log.cpp:1028-1063 | Prints the string which the parser reads back |
| `MailLogs.AppendRecipient` | mail-log/mail_log.cpp:1068-1095 | Prints a recipient object: only what is set, in fixed order |
| `MailLogs.AppendAttachment` | mail-log/mail_log.cpp:1100-1121 | Prints an attachment object: only what is set, in fixed order |
| `MailLogs.PrintResource` | mail-log/mail_log.cpp:1126-1141 | Prints the resource: one string per key, in the order of first use |
| `MailLogs.MailLog.SetText` | mail-log/mail_log.cpp:126-132 | An empty text changes nothing; otherwise the key has exactly this value, in its old place or as the last key |
| `MailLogs.MailLog.SetEnvelopeFromEmpty` | mail-log/mail_log.cpp:102-106 | The empty sender is stored as a value |
| `MailLogs.MailLog.AddAddress` | mail-log/mail_log.cpp:66-90 | One more value behind those of the key |
| `MailLogs.MailLog.AddHeader` | mail-log/mail_log.cpp:196-202 | One more value under the normalized name with its prefix; never a second key of the same name |
| `MailLogs.MailLog.SetResource` | mail-log/mail_log.cpp:48-54 | The same for the resource |
| `MailLogs.MailLog.AddRecipient` | mail-log/mail_log.cpp:109-123 | One more recipient; a code which is not positive is none |
| `MailLogs.FindValues` | mail-log/mail_log.cpp:981-990 | The values of the key, or nothing if it was never used |
| `MailLogs.SubjectIsNotInBody` | mail-log/mail_log.cpp:905-970 | A subject, whatever it is, never changes the body which is shown without one |
| `MailLogs.BodyIsWords` | mail-log/mail_log.cpp:905-970 | The default body is the words for event, action, sender (the one of the envelope if there is one), message and number of recipients, in this order, each only if it is there, with one space between any two |
| `MailLogs.MailLog.Build` | mail-log/mail_log.cpp:699-904 | A parser of the printed text finds, under each of the eight keys of a record and each of the twelve last attributes, exactly the value of the field which belongs to it, or no member if that was not set; under each key which was set its values; in each recipient and attachment its own fields |
| `MailLogs.MailLog.BuildIsParsed` | mail-log/mail_log.cpp:699-904 | A parser reads exactly the record back from the printed text, which is one line |
| `MailLogs.MailLog.KeysAreDistinct` | mail-log/mail_log.cpp:699-904 | No object of the record has a key twice |

## Left out

- Messages, metrics, `fsync`, `flock`, `umask` and modes, memory which runs out (except for a record of the WAL, which is a failing
  call), thread start and shutdown, configuration, health, severity names, help: no effect on lines and positions.
- An OS crash with disk writes out of order: only process crashes are modelled, and calls which returned persist.
- `Clear` during a running `Replay`: the source does not guard it, and `Replay` notices it only if the file is shorter than its
  position. `Call` has no such case.
- SimpleWals.SimpleWal.ClearInternal: its `lseek` behind a successful `ftruncate` does not fail: it goes to the start of a regular file
  which is open, and there is no error for that.
- SimpleWals.SimpleWal.Init: the lock, permissions, and an open which fails in the middle.
- DurableSenders.DurableSender.Send: for a WAL of which appends can fail and nothing else; with failing commit files a line can be
  sent twice.
- The lock of the WAL file against a second process, and closing and opening it again.
- Short reads of `pread` inside a file, and files which are no regular files.
- Inode numbers which are used again for a new file. How often two starts of files have the same hash: they never have if they
  differ in one byte alone, and nothing is said of others.
- FileRestart.Restart: behind a line of the last part of a file, or the line in front of that part; not behind one of an earlier part. A
  rotation between reading and committing: opening the new file saves its state at once.
- FileReaders.FileReader.ReadLine: the loop is over after a given number of rounds, because other programs can rotate the file
  again and again, and then it need not end; while they do nothing it ends by itself, and the bound is proved.
- SocketSenders.SocketSender.Flush: the time limit is a number of rounds, and the time of the next attempt to connect is part of what the
  network does in a round.
- `Close` of the sender, host names and addresses: connecting is a step which works now, later or not.
- The JSON text parser and writer of the library: the converter and the payload work on trees. Doubles are 64 bits, and what a
  small integer is as a double is a parameter.
- UnixTime.GetUnixNanoFromSeconds: a number is a `real`, so the rounding of binary doubles is not modelled.
- MailLogs.BodyIsWords: for an event and an action which are not empty, as the setters take them.
- OtlpRoundTrip.PayloadRoundTrip: for messages shorter than 2^64 bytes.
- Decoding of syslog and flat records beyond their times, attributes of stdin records and of the default resource.
- The request counters of the failover.
- The request and the WAL behind a batch: their answers are parameters, and they have theorems of their own.
- Errors of `recv` and the counters of the socket inputs.
- The setters of `MailLog` for numbers, flags, times, severity, attachments and the body only store a value: every value of those
  fields is covered by `Build` and its lemmas. The setters of a text differ only in their key and are `SetText` and
  `AddAddress`. The spam score, a printed floating point number, is not part of this model.
