# A verified model of the HOBD logger

The system listens to, or holds, a diagnostic session with an engine control unit (ECU) on a Honda
K-line, logs every frame to a file on an SD card, and has an offline tool that reads the file back.
This project models that path in Dafny, from the bytes on the wire to the rows of the CSV files, and
proves what each stage promises and what the stages promise together.

`dafny verify dfyconfig.toml` checks everything.

## How it is organised

| file | models |
|---|---|
| `Kline.dfy` | wire constants, the additive checksum |
| `Segmenter.dfy` | the meaning of a byte stream: a recursive cut into segments, without states or sums |
| `Parser.dfy` | the byte-at-a-time parser object, kept in step with the segmenter |
| `Builder.dfy` | the message builders; round trips, corruption, alignment |
| `Comm.dfy` | receive and wait loops over polls (a byte if any, and the timeout flag) |
| `Session.dfy` | the tester's session as traces: order of transmissions, conservation of flow |
| `ObdThread.dfy` | the tester's thread object, proved to run as `Session` says |
| `Ecu.dfy` | the simulated ECU, as a function of bytes and as an object |
| `ThreadRuns.dfy` | what holds of every run of that thread: its log, listen-only runs |
| `ClosedLoop.dfy` | tester and ECU over a lossy channel; the thread's own run in it |
| `LogEntry.dfy`, `Mailbox.dfy` | log entries as bytes and as message words; packing and copying them |
| `MailProtocol.dfy` | word-by-word interleavings of senders and the log thread |
| `MmcFile.dfy`, `MmcThread.dfy` | the log file over a failing FAT library; the log thread |
| `Dump.dfy` | the offline reader |
| `Pipeline.dfy` | thread runs to dump, and sessions to CSV, end to end |
| `WaitLaws.dfy`, `EcuLaws.dfy`, `CsvLaws.dfy` | waits, the ECU and the CSV rows, said of the bytes themselves |
| `LogPath.dfy` | thread run, shared buffer, log thread and dump together |
| `Misalignment.dfy` | a tester whose parser is out of step with the line |
| `SessionRace.dfy` | the unlocked message buffer under the tester's own log |
| `TimeoutProtocol.dfy`, `StartBarrier.dfy` | two concurrency protocols as step relations |

Objects of the source are classes with the same fields and in-place buffers. Each method is proved
against a specification function or directly against the property; theorems about runs are then proved
of those functions. The outside world enters as parameters: polls, clock readings, console commands,
outcomes of FAT calls, schedules. A failed `ZF_LOGF_IF` or `assert` ends the run. Eight-, sixteen- and
thirty-two-bit wrap-around is written out; masks and shifts of disjoint bits are written as remainders,
products and sums.

## What the proofs brought to light

- A table query is served exactly when it asks for at most 245 bytes (`Ecu.QueryServed`). From 250 on the
  ECU's eight-bit size wraps; at 254 the tester even accepts an answer without data
  (`Ecu.EmptyAnswerAccepted`).
- A frame is read as one piece exactly when it starts at a boundary (`Builder.ReadWholeIffAligned`), and
  alignment need not come back by itself: after one lost byte, any number of init replies goes unseen
  (`Builder.LostByteLosesAll`). The tester relies on its reset before each init.
- The log thread's message buffer is shared without a lock. Handing over one entry at a time is always
  safe (`MailProtocol.HandOffIsSafe`); without that, all interleavings are safe exactly when each entry
  agrees with its successor on the shared bytes both use (`MailProtocol.FreeRunningIsSafeIff`). The
  tester's own log never does: whatever the ECU's tables hold, three rounds of a session contain
  neighbours that disagree (`SessionRace.EverySessionRaces`).
- Enabling a file that has an open handle loses that handle, and in every run this is the only way to lose
  one (`MmcThread.HandlesLost`).
- Disabling clears the enabled flag before it closes the file, and the media callbacks drop writes while it
  is clear; enabling an open file forgets its handle. Entries written through that handle since it was
  opened are then not sure to be on the card, and no later flush makes up for them
  (`MmcThread.FlushComesTooLate`, `MmcThread.NeverMadeUp`). All entries are sure to be there if and only if
  neither has happened since the last removal and nothing was written since the file was last closed
  (`MmcThread.SavedEntries`).
- A tester that waits for a table answer with noise pending in its parser gives up and starts over, which
  resets the parser, if and only if it sees no response in what it reads (`Misalignment.MisreadRound`). For
  some table contents it does see one, inside the data of the answer (`Misalignment.MisledByData`).
- The parser never looks at the size of its buffer. No stream overruns the buffer if and only if it has at
  least 251 bytes (`Parser.BufferSufficesIff`); the check at start-up asks for five.
- A log cut off inside an entry still gives all earlier entries; the dump ends in a failed assertion
  exactly when the torn entry's header is complete (`Dump.TornTail`).
- The parser's type and subtype filters never refuse anything: their fallback values are not the ones they
  are compared with. Sizes up to 251 are accepted although builders can produce 255, so builder and parser
  are inverse exactly on payloads of at most 247 bytes (`Builder.EncodeIsFrame`).

Where names or comments and code disagree, the model follows the code:

- The constant called the maximum data size, 251, is compared with the size of the whole frame
  (`hobd_parser.c:144`), so at most 247 data bytes are accepted.
- The log entry's data limit, 468, is compared by the sender with the aligned total size
  (`mmc_module.c:423-425`), so the sender's limit is 456 bytes (`LogEntry.SenderLimit`).

## Model

| member | source | states |
|---|---|---|
| `Kline.Checksum` | projects/hobd-system/modules/hobd/src/hobd_parser.c:224-246 | for every length below 65536, also when the 16-bit sum wraps, the result completes the byte sum to a multiple of 256 |
| `Kline.FoldSumWraps` | projects/hobd-system/modules/hobd/src/hobd_parser.c:193-202 | folding the wrapped 16-bit sum gives the same byte as folding the true sum |
| `Kline.ChecksumUnique` | projects/hobd-system/modules/hobd/src/hobd_parser.c:202-210 | exactly one checksum byte brings a frame's sum to zero modulo 256 |
| `Segmenter.Partition` | projects/hobd-system/modules/hobd/src/hobd_parser.c:124-222 | every byte of every stream lies in exactly one segment or in the unfinished rest |
| `Segmenter.SegmentsSound` | projects/hobd-system/modules/hobd/src/hobd_parser.c:140-210 | accepted segments are well-formed frames, rejected ones have an impossible size or a wrong sum |
| `Segmenter.SegmentsSnoc` | projects/hobd-system/modules/hobd/src/hobd_parser.c:124-222 | one more byte closes at most one segment, and then exactly the pending bytes and itself |
| `Segmenter.LengthBound` | projects/hobd-system/modules/hobd/src/hobd_parser.c:140-219 | at most 250 bytes are pending, and n <= 251 * segments + pending |
| `Segmenter.Resynchronises` | projects/hobd-system/modules/hobd/src/hobd_parser.c:140-219 | from any point of any stream a segment boundary is met within 250 bytes |
| `Parser.ValidType` | projects/hobd-system/modules/hobd/src/hobd_parser.c:20-43 | no type is ever refused |
| `Parser.ValidSubtype` | projects/hobd-system/modules/hobd/src/hobd_parser.c:45-72 | no subtype is ever refused |
| `Parser.CountSegment` | projects/hobd-system/modules/hobd/src/hobd_parser.c:202-210 | the valid and invalid totals of a stream, modulo 65536, move as its last byte is judged |
| `Parser.BufferSufficesIff` | projects/hobd-system/modules/hobd/src/hobd_parser.c:98-115 | no stream ever overruns a receive buffer if and only if it has at least 251 bytes, while the start-up check asks for more than four |
| `Parser.HobdParser.constructor` | projects/hobd-system/modules/hobd/src/hobd_parser.c:98-115 | with any buffer the start-up check lets pass, a new parser has seen nothing and counted nothing |
| `Parser.HobdParser.Reset` | projects/hobd-system/modules/hobd/src/hobd_parser.c:117-122 | the unfinished segment is dropped, both counters are kept |
| `Parser.HobdParser.ReadyParser` | projects/hobd-system/modules/hobd/src/hobd_parser.c:81-87 | index, size and sum restart, nothing else changes |
| `Parser.HobdParser.InvalidReset` | projects/hobd-system/modules/hobd/src/hobd_parser.c:74-79 | the invalid counter moves by one with wrap-around |
| `Parser.HobdParser.UpdateByte` | projects/hobd-system/modules/hobd/src/hobd_parser.c:89-96 | exactly the byte at the index is stored; index and sum advance with their widths |
| `Parser.HobdParser.OnType` | projects/hobd-system/modules/hobd/src/hobd_parser.c:130-139 | the byte is handled as the segmentation demands |
| `Parser.HobdParser.OnSize` | projects/hobd-system/modules/hobd/src/hobd_parser.c:140-157 | the byte is handled as the segmentation demands, an impossible size closes a two-byte segment |
| `Parser.HobdParser.OnSubtype` | projects/hobd-system/modules/hobd/src/hobd_parser.c:158-178 | the byte is handled as the segmentation demands |
| `Parser.HobdParser.OnData` | projects/hobd-system/modules/hobd/src/hobd_parser.c:179-187 | the byte is handled as the segmentation demands |
| `Parser.HobdParser.OnChecksum` | projects/hobd-system/modules/hobd/src/hobd_parser.c:188-219 | the frame is accepted exactly when all its bytes sum to zero modulo 256 |
| `Parser.HobdParser.Dispatch` | projects/hobd-system/modules/hobd/src/hobd_parser.c:124-222 | all five states together implement one judgement of the pending bytes |
| `Parser.HobdParser.ParseByte` | projects/hobd-system/modules/hobd/src/hobd_parser.c:124-222 | after every byte of every stream, answers, pending bytes and counters are those of the recursive segmentation; on acceptance the buffer starts with the frame; only the byte after the pending ones is written, and 251 bytes of buffer are always enough for it |
| `Builder.UpdateChecksum` | projects/hobd-system/modules/hobd/include/hobd_msg.h:18-24 | only the last byte of the frame changes, to the checksum of the others |
| `Builder.BuildMsg` | projects/hobd-system/modules/hobd/include/hobd_msg.h:44-59 | up to 251 payload bytes the buffer holds the wire form of the message whose payload was in place and nothing after it changes; from 253 on the wrapped size makes the checksum replace a header byte; at 252 the model stops, since the checksum would land before the buffer |
| `Builder.BuildMsgNoData` | projects/hobd-system/modules/hobd/include/hobd_msg.h:27-41 | the same without payload |
| `Builder.EncodeIsFrame` | projects/hobd-system/modules/hobd/include/hobd_msg.h:44-59 | a built message is a frame if and only if its payload has at most 247 bytes, and decodes to itself |
| `Builder.FrameIsEncoded` | projects/hobd-system/modules/hobd/src/hobd_parser.c:188-206 | every accepted frame is the wire form of the message it decodes to |
| `Builder.FramesParse` | projects/hobd-system/modules/hobd/src/hobd_parser.c:124-222 | frames sent back to back are cut apart exactly and what follows is read as if it came first |
| `Builder.RoundTrip` | projects/hobd-system/modules/hobd/include/hobd_msg.h:44-59 | build, concatenate, parse, decode is the identity on lists of messages, with nothing rejected or pending |
| `Builder.StatusWithinFrame` | projects/hobd-system/modules/hobd/src/hobd_parser.c:124-222 | one acceptance on a frame's last byte, "no message" on every other byte |
| `Builder.OneByteAltered` | projects/hobd-system/modules/hobd/src/hobd_parser.c:188-210 | altering any byte but the size byte costs exactly that frame, and later frames are read unchanged |
| `Builder.ReadWholeIffAligned` | projects/hobd-system/modules/hobd/src/hobd_parser.c:124-222 | a frame is read as one piece if and only if it starts at a boundary |
| `Builder.LostByteLosesAll` | projects/hobd-system/modules/hobd/src/hobd_parser.c:140-151 | a stream of init replies that lost its first byte never yields a frame again |
| `Comm.TakePoll` | projects/hobd-system/modules/hobd/src/comm.c:151-173 | one poll completes a frame exactly when the segmentation of the stream read so far says so, and the frame is in the buffer |
| `Comm.RecvMsg` | projects/hobd-system/modules/hobd/src/comm.c:138-187 | the first poll that completes a frame or shows the timeout ends the call, and the frame wins when one poll does both |
| `Comm.WaitForResp` | projects/hobd-system/modules/hobd/src/comm.c:189-229 | nested receives with fresh timeouts amount to one search for the first decisive poll; exactly the polls up to it are read, and on success the buffer holds the response |
| `Comm.WaitDecided` | projects/hobd-system/modules/hobd/src/comm.c:189-229 | a wait finds a response if and only if its first decisive poll completes that response, and fails if and only if that poll shows the timeout without completing any frame |
| `Comm.WaitFindsResponse` | projects/hobd-system/modules/hobd/src/comm.c:206-215 | a wait ends only with a well-formed frame whose byte 0 is 02 and whose byte 2 is the awaited subtype |
| `WaitLaws.WaitTakesTheFirst` | projects/hobd-system/modules/hobd/src/comm.c:189-229 | a wait takes a frame if and only if it is the first accepted frame with 02 and the subtype in bytes 0 and 2 and no timeout showed before without a frame; it gives up if and only if the timeout shows first, with no frame completed by the same poll |
| `WaitLaws.OwnFramesDoNotAnswer` | projects/hobd-system/modules/hobd/src/comm.c:206-215 | no frame that a state sends is an answer to the wait of that state |
| `WaitLaws.EchoesArePassedOver` | projects/hobd-system/modules/hobd/src/comm.c:206-215 | a wait that hears only echoes of what its state sent, any number of them, gives up when the timeout shows |
| `Session.EveryTransmissionIsDue` | projects/hobd-system/modules/hobd/src/hobd_module.c:162-262 | in every run only four constant frames are sent, only while enabled and not listening; an init query directly follows a wake-up; table queries need an accepted init answer since the last timeout or SET; a D1 query directly follows an answered table-10 query |
| `Session.StepSteady` | projects/hobd-system/modules/hobd/src/hobd_module.c:310-455 | what one turn of the loop, command included, keeps |
| `Session.FlowIsConserved` | projects/hobd-system/modules/hobd/src/hobd_module.c:170-261 | in every run, SET commands included, each state is entered as often as it is left up to the visit in progress, and the retry counters are the pulse and init counts modulo 65536 |
| `ObdThread.ConstantFrames` | projects/hobd-system/modules/hobd/include/hobd_kline.h:9-17 | the builders make exactly the documented wake-up and init frames and the two table queries, all well formed |
| `ObdThread.FillQuery` | projects/hobd-system/modules/hobd/src/comm.c:231-265 | a query carries table, offset, count and the byte the buffer held next |
| `ObdThread.PollReceives` | projects/hobd-system/modules/hobd/src/comm.c:151-179 | a poll adds to the accepted frames of the stream exactly the frame it completes |
| `ObdThread.Thread.constructor` | projects/hobd-system/modules/hobd/src/hobd_module.c:491-496 | start state: disabled, listen-only, nothing sent, logged or read |
| `ObdThread.Thread.SendMsg` | projects/hobd-system/modules/hobd/src/comm.c:115-136 | the message goes on the line byte for byte, or nothing does in listen-only mode |
| `ObdThread.Thread.Transmit` | projects/hobd-system/modules/hobd/src/hobd_module.c:151-159 | what is put on the line is also logged, once and under its own clock reading |
| `ObdThread.Thread.SendEcuDiagMessages` | projects/hobd-system/modules/hobd/src/hobd_module.c:88-131 | sends and logs the constant wake-up and init frames, in this order, after a parser reset; the pad byte of later queries stays zero |
| `ObdThread.Thread.SendTableReq` | projects/hobd-system/modules/hobd/src/hobd_module.c:133-160 | sends the constant query frame of the table, because the pad byte is still zero |
| `ObdThread.Thread.NewMsg` | projects/hobd-system/modules/hobd/src/hobd_module.c:72-86 | an accepted answer is logged whole, once, under the time of its reception |
| `ObdThread.Thread.AwaitAnswer` | projects/hobd-system/modules/hobd/src/hobd_module.c:187-208 | the outcome of the wait decides log and next state; no poll after the decisive one is read |
| `ObdThread.Thread.UpdateState` | projects/hobd-system/modules/hobd/src/hobd_module.c:162-262 | for any polls, state, counters, line, log with timestamps and bytes read are those the session model prescribes |
| `ObdThread.Thread.Listen` | projects/hobd-system/modules/hobd/src/hobd_module.c:321-334 | exactly the polls up to the first frame or timeout are read; wherever timeouts fall, the frames heard since the last SET stay the accepted frames of the bytes read since then |
| `ObdThread.Thread.ObeyCommand` | projects/hobd-system/modules/hobd/src/hobd_module.c:386-449 | SET commands change the mode, restart the session and drop the unfinished segment |
| `ObdThread.Thread.TakeTurn` | projects/hobd-system/modules/hobd/src/hobd_module.c:312-454 | one turn of the loop is one step of the session model, determined by its input, and logs under the clock readings of that input; a command waits until the turn has ended |
| `ObdThread.Thread.Loop` | projects/hobd-system/modules/hobd/src/hobd_module.c:310-455 | for every list of inputs the thread ends in the state, with the line, the time-stamped log and the trace that the inputs determine; the run is legal, its transmissions are due, and in listen-only mode the frames heard are those of the stream |
| `ThreadRuns.TurnLogs` | projects/hobd-system/modules/hobd/src/hobd_module.c:312-335 | a turn logs exactly the frames its events send, accept or hear |
| `ThreadRuns.RunLogsItsTrace` | projects/hobd-system/modules/hobd/src/hobd_module.c:72-160 | in every run, SET commands included, the log holds exactly the frames sent, accepted and heard, in order |
| `ThreadRuns.RunLogsFrames` | projects/hobd-system/modules/hobd/src/hobd_module.c:72-160 | whatever the line carries, only well-formed frames are ever logged |
| `ThreadRuns.LogIsChronological` | projects/hobd-system/modules/hobd/src/hobd_module.c:88-160 | if the clock readings of the inputs do not run backwards, neither do the timestamps of the log, in every run |
| `ThreadRuns.IdleDoesNothing` | projects/hobd-system/modules/hobd/src/hobd_module.c:316-344 | a thread that is not enabled sends, hears and logs nothing and reads no byte |
| `ThreadRuns.ListenTurn` | projects/hobd-system/modules/hobd/src/hobd_module.c:321-334 | a listening turn logs exactly the frame that its bytes complete, if any, under the reading taken at reception |
| `ThreadRuns.ListenTurnEndsIff` | projects/hobd-system/modules/hobd/src/comm.c:138-187 | a listening turn ends with the first poll that shows the timeout or completes a frame, reads no further, and looks at no command before |
| `ThreadRuns.ListeningLogsTheStream` | projects/hobd-system/modules/hobd/src/hobd_module.c:321-334 | from any point of any run at which the thread listens, until a SET comes, the log grows by exactly what the accepted frames of the bytes read grow by |
| `ThreadRuns.ListeningStamps` | projects/hobd-system/modules/hobd/src/hobd_module.c:321-334 | from there on each frame is logged under the reception reading of the turn that completes it |
| `ThreadRuns.CutReadsAll` | projects/hobd-system/modules/hobd/src/comm.c:138-187 | however timeouts and frames cut the polls into turns, no byte is lost between turns |
| `ThreadRuns.ListenedStream` | projects/hobd-system/modules/hobd/src/hobd_module.c:321-334 | from power-up in listen-only mode, for every sequence of polls, the thread logs exactly the accepted frames of the bytes they yield, each under the clock reading of the turn that completes it |
| `Ecu.FeedFrame` | testing-tools/fake-hobd-ecu-data/src/ecu.c:69-100 | a whole frame received at a boundary is acted on once, on the frame itself |
| `Ecu.FeedPrefix` | testing-tools/fake-hobd-ecu-data/src/ecu.c:69-100 | part of a frame is only stored |
| `Ecu.ShortReply` | testing-tools/fake-hobd-ecu-data/src/ecu.c:209-236 | up to a count of 249 the answer is the wire form of table, offset and slice |
| `Ecu.WrappedReply` | testing-tools/fake-hobd-ecu-data/src/ecu.c:214-236 | once the size has wrapped, a stub of at most four bytes or a frame of impossible size is sent |
| `Ecu.QueryServed` | testing-tools/fake-hobd-ecu-data/src/ecu.c:189-237 | a query within a known table gets an answer that the tester accepts and that carries the same table, offset and exact slice if and only if its count is at most 245 |
| `Ecu.EmptyAnswerAccepted` | testing-tools/fake-hobd-ecu-data/src/ecu.c:214-236 | a count of 254 yields an accepted answer without data |
| `Ecu.Device.constructor` | testing-tools/fake-hobd-ecu-data/src/ecu.c:308-333 | start state and the contents of all four tables |
| `Ecu.Device.FindTable` | testing-tools/fake-hobd-ecu-data/src/ecu.c:137-161 | the page of a known table, null for any other |
| `Ecu.Device.FillHeader` | testing-tools/fake-hobd-ecu-data/src/ecu.c:209-218 | the five leading bytes, with the size modulo 256 |
| `Ecu.Device.CopySlice` | testing-tools/fake-hobd-ecu-data/src/ecu.c:220-229 | the slice follows the header unchanged |
| `Ecu.Device.Seal` | testing-tools/fake-hobd-ecu-data/src/ecu.c:231-236 | checksum in place, and as many bytes sent as the size field then says |
| `Ecu.Device.AnswerTable` | testing-tools/fake-hobd-ecu-data/src/ecu.c:195-236 | the answer built in the buffer is the specified one, for every query |
| `Ecu.Device.HandleRxMessage` | testing-tools/fake-hobd-ecu-data/src/ecu.c:163-238 | which queries are answered, which fail an assertion, which are ignored |
| `Ecu.Device.ActOnFrame` | testing-tools/fake-hobd-ecu-data/src/ecu.c:250-306 | mode changes and answers of the three states |
| `Ecu.Device.Update` | testing-tools/fake-hobd-ecu-data/src/ecu.c:335-358 | one byte moves the object as the byte-level specification does, which acts on accepted frames only (EcuLaws.FeedJudges) |
| `EcuLaws.FeedJudges` | testing-tools/fake-hobd-ecu-data/src/ecu.c:69-100 | for every stream, modes and replies are those of acting, in order, on exactly the accepted segments of the pending bytes and the stream; rejected ones are only stored |
| `EcuLaws.NothingAcceptedNothingDone` | testing-tools/fake-hobd-ecu-data/src/ecu.c:69-100 | a stream without an accepted frame gets no reply and leaves the mode alone |
| `EcuLaws.AlteredFrameIgnored` | testing-tools/fake-hobd-ecu-data/src/ecu.c:76-97 | a frame with one altered byte, other than the size byte, gets no reply and leaves the mode alone |
| `EcuLaws.TablePages` | testing-tools/fake-hobd-ecu-data/src/ecu.c:137-161 | tables 00, 10, 20 and D1 have their own pages and no other table is known |
| `EcuLaws.FrameActs` | testing-tools/fake-hobd-ecu-data/src/ecu.c:163-306 | byte for byte, which frame moves the ECU on, which is answered and which ends in a failed assertion or outside the transmit buffer |
| `EcuLaws.HaltedForGood` | testing-tools/fake-hobd-ecu-data/src/ecu.c:189-207 | after a failed assertion nothing is ever answered |
| `ClosedLoop.WaitAnswered` | projects/hobd-system/modules/hobd/src/comm.c:189-229 | a response that comes before the timeout is found whatever other frames, such as echoes, come first |
| `ClosedLoop.WaitLapses` | projects/hobd-system/modules/hobd/src/comm.c:189-229 | without a response the wait ends when the timeout shows |
| `ClosedLoop.CompletedIsReceived` | projects/hobd-system/modules/hobd/src/comm.c:151-179 | the frames the polls complete are the frames received |
| `ClosedLoop.EcuRound` | testing-tools/fake-hobd-ecu-data/src/ecu.c:163-306 | whichever of the tester's frames pass, the ECU's code trips no assertion and replies with the frame expected or not at all |
| `ClosedLoop.RoundReplies` | testing-tools/fake-hobd-ecu-data/src/ecu.c:163-306 | what reaches the tester in a round is what the ECU's code, fed with the frames that pass, puts on the line, and that is one frame or none |
| `ClosedLoop.ExpectedServes` | testing-tools/fake-hobd-ecu-data/src/ecu.c:189-237 | that frame decodes to the table and offset of the query, followed by the slice of the table the query names |
| `ClosedLoop.HonestChannelExists` | projects/hobd-system/modules/hobd/src/comm.c:151-179 | every choice of lost frames is realised by some channel that carries the ECU's own replies |
| `ClosedLoop.RoundKeepsCalm` | projects/hobd-system/modules/hobd/src/hobd_module.c:162-262 | a round in which the tester hears the ECU's own replies, or loses them, leaves the ECU between frames and the tester too wherever no reset is to come; the next states depend only on what passes, and an answer answers the query sent directly before |
| `ClosedLoop.RunIsTruthful` | projects/hobd-system/modules/hobd/src/hobd_module.c:210-261 | in every lossy run, from any states, every accepted answer directly follows a query and decodes to the table and offset in that query's bytes followed by exactly that slice of the ECU's table; the ECU's assertions never trip |
| `ClosedLoop.SessionAlternates` | projects/hobd-system/modules/hobd/src/hobd_module.c:210-261 | without loss a session stays on and moves to the other table |
| `ClosedLoop.SessionEstablished` | projects/hobd-system/modules/hobd/src/hobd_module.c:162-262 | without loss two rounds establish a session and it lasts, from any states, and before the init query whatever is pending in the tester's parser |
| `ClosedLoop.SessionLasts` | projects/hobd-system/modules/hobd/src/hobd_module.c:210-261 | after any number of lossless rounds the session is on and its state is given by their parity |
| `Misalignment.WaitUntilTimeout` | projects/hobd-system/modules/hobd/src/comm.c:189-229 | whatever is pending and whatever comes, a wait that lasts until the timeout lapses if and only if no frame the bytes complete is a response of the awaited subtype |
| `Misalignment.MisreadRound` | projects/hobd-system/modules/hobd/src/hobd_module.c:210-261 | with anything pending, the tester falls back to the init state if and only if it sees no such response, otherwise it goes on to the other table |
| `Misalignment.MisreadRecovers` | projects/hobd-system/modules/hobd/src/hobd_module.c:88-131 | in the first case one lossless round more brings the session back with the parser at a boundary |
| `Misalignment.MisledByData` | projects/hobd-system/modules/hobd/src/hobd_parser.c:140-210 | with one byte pending, a table with 02 04 72 88 at offset 110 makes the tester see a response inside the answer's data |
| `ClosedLoop.AnswerReadToItsEnd` | projects/hobd-system/modules/hobd/src/comm.c:189-229 | a reply that comes byte by byte is found with its last byte and not before |
| `ClosedLoop.RoundIsTurn` | projects/hobd-system/modules/hobd/src/hobd_module.c:312-335 | a round of tester, channel and ECU is one finished turn of the thread: same events, same state, same bytes read, same log |
| `ClosedLoop.ThreadPlays` | projects/hobd-system/modules/hobd/src/hobd_module.c:310-455 | from any point of a run, any number of lossy rounds make the thread go where the closed loop goes and add exactly its events and its time-stamped log |
| `ClosedLoop.SessionOfTheThread` | projects/hobd-system/modules/hobd/src/hobd_module.c:310-455 | from power-up, after the two commands that start a session, the thread sends and accepts exactly what the closed loop does, and its time-stamped log holds exactly those frames, so the closed-loop theorems hold of the thread |
| `LogEntry.AlignUp4` | projects/hobd-system/modules/mmc/src/mmc_module.c:69-75 | the least multiple of four that is not smaller |
| `LogEntry.SenderLimit` | projects/hobd-system/modules/mmc/src/mmc_module.c:417-425 | the sender's check passes if and only if the payload has at most 456 bytes |
| `LogEntry.HeaderImage` | projects/hobd-system/modules/mmc/src/mmc_module.c:430-433 | the three header words lie in memory as the packed header |
| `LogEntry.DataWordBytes` | projects/hobd-system/modules/mmc/src/mmc_module.c:437-450 | a payload word lies in memory as its four bytes, zeros after the end |
| `LogEntry.ImageHoldsEntry` | projects/hobd-system/modules/mmc/src/mmc_module.c:417-462 | the message of an entry, laid out in memory, starts with the bytes the file is to hold |
| `Mailbox.PackWord` | projects/hobd-system/modules/mmc/src/mmc_module.c:439-450 | the inner loop builds the payload word |
| `Mailbox.PackEntry` | projects/hobd-system/modules/mmc/src/mmc_module.c:398-462 | registers and shared words hold the entry's message, nothing else is written, and only payloads over 456 bytes end the run |
| `Mailbox.MrRecv` | projects/hobd-system/include/sel4_mr.h:18-38 | words 0 to 3 come from registers, later ones from the shared buffer |
| `MailProtocol.GoodIffWritten` | projects/hobd-system/modules/mmc/src/mmc_module.c:264-274 | the receiver's buffer yields the entry if and only if each word agrees on the bytes that are written |
| `MailProtocol.HandOffIsSafe` | projects/hobd-system/modules/mmc/src/mmc_module.c:430-471 | if the sender waits until its last entry is copied, every interleaving with any number of empty entries delivers every entry exactly |
| `MailProtocol.AllCanBeDelivered` | projects/hobd-system/modules/mmc/src/mmc_module.c:430-471 | from rest there is a run, with and without the hand-off, that delivers every entry with any empty entries in between |
| `MailProtocol.RaceCorrupts` | projects/hobd-system/modules/mmc/src/mmc_module.c:452-461 | if two successive entries disagree, some interleaving corrupts the first |
| `MailProtocol.FreeRunningIsSafeIff` | projects/hobd-system/modules/mmc/src/mmc_module.c:430-471 | without that wait, all interleavings are exact if and only if each entry agrees with the next on the shared bytes both use |
| `SessionRace.ShortNeighbours` | projects/hobd-system/modules/mmc/src/mmc_module.c:430-461 | an eight-byte frame and a neighbour of at least eight bytes agree if and only if their bytes 4 to 7 are the same |
| `SessionRace.AnswerThenQueryIff` | projects/hobd-system/modules/hobd/src/hobd_module.c:210-261 | the table-10 answer agrees with the D1 query logged next if and only if the table starts with 06 00 3D |
| `SessionRace.SimulatedEcuRaces` | testing-tools/fake-hobd-ecu-data/src/ecu.c:308-333 | with the simulated ECU's table of AA these two entries are not safe without the hand-off |
| `SessionRace.NoTableSuits` | projects/hobd-system/modules/hobd/src/hobd_module.c:210-261 | no contents of table D1 let its answer agree with both the query before and the query after it |
| `SessionRace.EverySessionRaces` | projects/hobd-system/modules/mmc/src/mmc_module.c:430-471 | for every ECU table, the log of three lossless session rounds has an interleaving that corrupts an entry |
| `MmcFile.File.Init` | projects/hobd-system/modules/mmc/src/mmc_file.c:92-101 | enabled, without handle; a handle that was open is lost |
| `MmcFile.File.InitCheck` | projects/hobd-system/modules/mmc/src/mmc_file.c:36-64 | success means initialised, and open where the check asks for it |
| `MmcFile.File.FOpen` | projects/hobd-system/modules/mmc/src/mmc_file.c:66-80 | the handle is overwritten: a handle that was open stays open |
| `MmcFile.File.FClose` | projects/hobd-system/modules/mmc/src/mmc_file.c:82-90 | the own handle, if any, is closed; what was written through it, and nothing else, is saved, and only if the file is enabled |
| `MmcFile.File.Open` | projects/hobd-system/modules/mmc/src/mmc_file.c:103-117 | opens once, only if enabled |
| `MmcFile.File.GetEnabled` | projects/hobd-system/modules/mmc/src/mmc_file.c:119-131 | enabled only if initialised |
| `MmcFile.File.SetEnabled` | projects/hobd-system/modules/mmc/src/mmc_file.c:133-165 | disabled means no handle; enabling loses exactly the handle that was open; neither saves anything; a new handle has written nothing yet |
| `MmcFile.File.Close` | projects/hobd-system/modules/mmc/src/mmc_file.c:167-178 | no handle afterwards; what was written through it is saved |
| `MmcFile.File.Rm` | projects/hobd-system/modules/mmc/src/mmc_file.c:180-203 | contents go exactly if removal succeeds, otherwise closing saves what the own handle wrote; reopened either way; no handle is lost |
| `MmcFile.File.Size` | projects/hobd-system/modules/mmc/src/mmc_file.c:205-220 | the length, or zero when disabled or failing; no null handle is used |
| `MmcFile.File.Flush` | projects/hobd-system/modules/mmc/src/mmc_file.c:222-247 | contents stay; a hard flush saves what the own handle wrote, and only that, and leaves a handle exactly if reopening succeeds |
| `MmcFile.File.Write` | projects/hobd-system/modules/mmc/src/mmc_file.c:249-276 | appends what the library wrote, as a piece of the own handle that is not yet saved; success exactly for whole writes or a disabled file |
| `MmcThread.EffectKeepsSound` | projects/hobd-system/modules/mmc/src/mmc_module.c:235-339 | every request keeps: disabled means closed, counted entries are in the file as an append-only sequence (whether the card has them is a matter of SavedEntries), entries of the open handle are unsaved, only an ended run leaves a torn entry |
| `MmcThread.EveryRunIsReadable` | projects/hobd-system/modules/mmc/src/mmc_module.c:226-339 | after any requests with any FAT failures the dump of the file, taken as append-only, prints exactly the entries written whole; for the card itself see CardIsReadable |
| `MmcThread.LoggedInOrder` | projects/hobd-system/modules/mmc/src/mmc_module.c:262-280 | while writes succeed the file grows by exactly what is logged, in order |
| `MmcThread.StateIsSet` | projects/hobd-system/modules/mmc/src/mmc_module.c:316-334 | after a SetState the file is enabled if and only if it is open if and only if enabling was asked for and opening succeeded |
| `MmcThread.DisabledIgnores` | projects/hobd-system/modules/mmc/src/mmc_module.c:262-334 | from a SetState that disables or fails to enable until the next that enables, nothing is written, saved or lost and no valid entry ends the run |
| `MmcThread.EndsIff` | projects/hobd-system/modules/mmc/src/mmc_module.c:148-280 | exactly which entries end a run |
| `MmcThread.ShortWriteLeaves` | projects/hobd-system/modules/mmc/src/mmc_module.c:148-165 | a short write leaves exactly the bytes written behind the whole entries, which the dump still prints |
| `MmcThread.OpensIff` | projects/hobd-system/modules/mmc/src/mmc_file.c:180-247 | a closed file is opened only by a removal or an enabling, never by a flush |
| `MmcThread.EntriesGoIff` | projects/hobd-system/modules/mmc/src/mmc_module.c:295-307 | entries leave the file only by a removal that succeeds while enabled |
| `MmcThread.HandlesLost` | projects/hobd-system/modules/mmc/src/mmc_file.c:133-165 | at the level of the log's value, the lost handles are the enabling requests that met an open one; Thread.Loop states it of the open handles |
| `MmcThread.SavedEntries` | projects/hobd-system/modules/mmc/src/mmc_module.c:120-146 | in every run from a saved log, all entries are sure to be on the card if and only if, since the last successful removal, no SetState met an open file with entries written to it, and nothing was written since the file was last closed |
| `MmcThread.CardIsReadable` | projects/hobd-system/modules/mmc/src/mmc_module.c:120-339 | under that condition the dump of the card prints every entry written, at least as many as counted |
| `MmcThread.NeverMadeUp` | projects/hobd-system/modules/mmc/src/mmc_file.c:133-165 | an entry its handle did not save stays unsaved through all later requests until a removal |
| `MmcThread.FlushComesTooLate` | projects/hobd-system/modules/mmc/src/mmc_file.c:133-165 | after logging an entry, disabling, enabling and flushing, or enabling again and flushing, the entry is counted but not sure to be on the card |
| `MmcThread.CountInStep` | projects/hobd-system/modules/mmc/src/mmc_module.c:262-307 | if all removals succeed, a count in step with the file stays so, and exceeds the entries sure to be on the card if and only if not all of them are |
| `MmcThread.Thread.constructor` | projects/hobd-system/modules/mmc/src/mmc_module.c:175-182 | start state over a file of whole entries, all on the card |
| `MmcThread.Thread.StartUp` | projects/hobd-system/modules/mmc/src/mmc_module.c:201-232 | open, begin marker, flush, with the failures that end the run |
| `MmcThread.Thread.WriteBytes` | projects/hobd-system/modules/mmc/src/mmc_module.c:148-165 | a whole write adds the entry and counts it, a short one ends the run with a torn entry |
| `MmcThread.Thread.WriteEntry` | projects/hobd-system/modules/mmc/src/mmc_module.c:216-232 | the same for the begin marker |
| `MmcThread.Thread.OnEntryLog` | projects/hobd-system/modules/mmc/src/mmc_module.c:262-280 | packing, receiving and writing put exactly the entry's bytes in the file |
| `MmcThread.Thread.OnRmFile` | projects/hobd-system/modules/mmc/src/mmc_module.c:295-307 | the count restarts; entries go exactly if removal succeeds; any failure while enabled is reported |
| `MmcThread.Thread.OnSetState` | projects/hobd-system/modules/mmc/src/mmc_module.c:316-334 | follows the value-level effect, of which StateIsSet says that a failure to enable disables; the entries of the handle that was open stay as they are, saved or not |
| `MmcThread.Thread.OnHardFlush` | projects/hobd-system/modules/mmc/src/mmc_module.c:167-173 | an enabled, open file has the entries of its handle saved, and no others, and stays open exactly if reopening succeeds; any other file is left alone |
| `MmcThread.Thread.Loop` | projects/hobd-system/modules/mmc/src/mmc_module.c:235-339 | for every list of requests the file holds whole entries and perhaps one torn end, the 32-bit count is the true one modulo 2^32, the saved entries are the pieces on the card, and the lost handles grow by the number of enabling requests that met an open one |
| `Dump.ReadInverts` | testing-tools/hobd-log-entry-dump/src/main.c:48-84 | reading an entry back gives its type, 64-bit timestamp and data |
| `Dump.DumpInverts` | testing-tools/hobd-log-entry-dump/src/main.c:322-338 | the dump of a log is exactly its entries, in order, then whatever follows |
| `Dump.TornTail` | testing-tools/hobd-log-entry-dump/src/main.c:48-84 | a torn end keeps all earlier entries; the dump ends in the failed assertion, and not in an overrun, if and only if the torn header is complete, and cleanly otherwise |
| `Dump.OverrunIff` | testing-tools/hobd-log-entry-dump/src/main.c:48-84 | the reader's buffer is overrun if and only if header and file have more than 960 bytes for one entry |
| `Dump.ReadNextEntry` | testing-tools/hobd-log-entry-dump/src/main.c:48-84 | end of file, failed assertion, buffer overrun or entry, exactly as specified for the bytes left |
| `Dump.DumpFile` | testing-tools/hobd-log-entry-dump/src/main.c:322-338 | the loop prints exactly the entries of the specification and ends the same way |
| `TimeoutProtocol.BehaviourInv` | projects/hobd-system/modules/time_server/src/time_server_module.c:78-83 | the locking discipline holds in every interleaving |
| `TimeoutProtocol.TimeoutIsOwn` | projects/hobd-system/modules/hobd/src/comm.c:34-70 | while a wait polls, the flag is set if and only if that wait's own callback has run; no wait ends by another's timeout |
| `TimeoutProtocol.PollingIsDue` | projects/hobd-system/modules/hobd/src/comm.c:34-70 | in every interleaving, while a wait polls its callback is registered, about to run, or has run |
| `TimeoutProtocol.TimeoutCanCome` | projects/hobd-system/modules/time_server/src/time_server_module.c:78-83 | whenever that is so, some run ends the wait by its timeout |
| `StartBarrier.NobodyStartsEarly` | projects/hobd-system/modules/system/src/system_module.c:154-168 | for any number of threads and every interleaving nobody returns before the heartbeat is registered and the mutex released |
| `StartBarrier.StepKeeps` | projects/hobd-system/modules/system/src/system_module.c:72-93 | each step of the system thread or a waiter keeps the barrier's invariant |
| `StartBarrier.AllCanReturn` | projects/hobd-system/modules/system/src/system_module.c:72-93 | from every state that keeps the invariant some schedule lets all waiters return |
| `Pipeline.FramesFit` | projects/hobd-system/modules/mmc/src/mmc_module.c:417-425 | every frame fits the logger's limits, at most 264 bytes aligned with its header |
| `Pipeline.RunAloneReachesTheDump` | projects/hobd-system/modules/hobd/src/hobd_module.c:310-455 | for every run of the tester's thread, whatever it receives and is told, if nothing else is logged meanwhile and entries are handed over one at a time, the dump gives back all it logged, with the same bytes, clock readings and order, and these are the frames the run sent, accepted and heard |
| `LogPath.RunSends` | projects/hobd-system/modules/mmc/src/mmc_module.c:398-471 | in every interleaving the frames handed over and those still to come are the frames of the start |
| `LogPath.ServedBetweenFlushes` | projects/hobd-system/modules/mmc/src/mmc_module.c:235-339 | with whole writes and succeeding flushes the file grows by exactly the entries, whatever flushes and questions come in between |
| `LogPath.EveryRunReachesTheDump` | projects/hobd-system/modules/mmc/src/mmc_module.c:235-471 | for every run of the tester's thread and every interleaving with the hand-off, with any markers of other senders and succeeding flushes in between, the dump gives back what was written, and the frames in it are the thread's log in order with its clock readings, all of it once all is handed over |
| `Pipeline.ListenedStreamReachesTheDump` | projects/hobd-system/modules/hobd/src/hobd_module.c:321-334 | for every sequence of polls the listening thread may meet, the dump of its log gives, after what was there before, exactly the accepted frames of the bytes, each with the clock reading of the turn that completed it |
| `Pipeline.EventRow` | testing-tools/hobd-log-entry-dump/src/main.c:254-293 | which CSV row a frame of a truthful session event leads to; what holds of any entry is CsvLaws.RowIff |
| `CsvLaws.RowIff` | testing-tools/hobd-log-entry-dump/src/main.c:254-293 | whatever is stale in the buffer, an entry leads to a row if and only if it is of type 0100 and its own data decodes to a subgroup response naming table 10 or D1; the row has that table, the entry's timestamp and, if the answer is long enough, only its data |
| `CsvLaws.RowsOfAFile` | testing-tools/hobd-log-entry-dump/src/main.c:322-338 | the rows of a whole file, markers of other senders included, are the rows of its table answers in order |
| `CsvLaws.SessionRows` | testing-tools/hobd-log-entry-dump/src/main.c:254-338 | for a session from power-up, its log handed over in any interleaving with other senders' markers, the rows are one per accepted table answer, in order, with its clock reading and the leading bytes of that ECU table |
| `Pipeline.SessionReachesTheCsv` | testing-tools/hobd-log-entry-dump/src/main.c:254-293 | from any point of the thread's run, over every lossy channel, the dump gives back the thread's own log, and the CSV rows are exactly one per accepted table answer, each under the clock reading of that answer and with the leading bytes of that ECU table |

## Left out

- Console and command line: a user interface over fixed tables.
- seL4 set-up, threads, capabilities and drivers: library and kernel calls without logic of their own.
- FAT library and SD card below the file: a file is an append-only sequence of pieces, of which some are sure
  to be on the card. How much more the library has written by itself, what a later opening finds of
  entries that were not saved, and how an opening fares while media reads are skipped, is not modelled:
  the library is not part of this model.
- MmcThread.EveryRunIsReadable: speaks of the append-only file; after entries were dropped the card may hold
  less, and what the dump then makes of it is up to the library. `MmcThread.CardIsReadable` has the case
  in which the card holds the file.
- MmcThread.EffectKeepsSound: likewise counts entries in the append-only file.
- Concurrency on the file handle between the periodic hard flush and the log thread: the source does not
  serialise it; file operations are taken as atomic.
- Message passing: words 0 to 3 are taken to travel with the message and later words to be read from the
  buffer the sender wrote, as the source relies on.
- `sel4_mr_send` and the statistics replies: word copies for display.
- Late responses: the tester matches by subtype only, so a response that outlives its wait could answer the
  next query; the channel of `ClosedLoop` delivers within the round or not at all.
- SET commands in the middle of a closed-loop run: they are covered by `Session` and `ObdThread`; in
  `ClosedLoop` only the two that start the session occur.
- Timeouts in the middle of an incoming frame of a closed-loop run: the channel loses frames whole; what a
  tester out of step does is the subject of `Misalignment`.
- The ECU's own copy of the parser: it has the same logic, which is modelled once.
- GPIO pulse widths, delays and baud rate; time only appears as timeout flags and timestamps.
- CSV column formatting and text output of the dump tool.
- CsvLaws.RowsOfAFile: asks that table answers carry at least the bytes of a row, as all answers of the
  simulated ECU to this tester do; the rows of shorter ones end in stale bytes of the buffer.
- Builder.BuildMsg: with a payload size of 252 the checksum would be taken over and written to memory
  outside the buffer; the model stops there without a size. The callers use 1 and 4.
- Comm.RecvMsg: a list of polls is finite; `Waiting` stands for a loop that has not ended yet.
- ObdThread.FillQuery: the payload size is taken from a pointer's size, four bytes on the 32-bit target;
  other targets are not modelled.
- MmcThread.Thread.OnEntryLog: one entry is handed over at a time; what happens otherwise is the subject of
  `MailProtocol`.
- Dump.ReadNextEntry: an entry larger than the reader's buffer stops the model with `Overrun`; no log this
  system writes contains one.
- Ecu.Device.AnswerTable: counts of 250 and 255 would touch memory outside the transmit buffer; the model
  stops there with `OutOfBounds`.
