/** The tester's thread (hobd_module.c): its control block, its shared transmit buffer and its loop,
    updated in place and proved to run as the session model says. */
module ObdThread {
  import opened Kline
  import opened Segmenter
  import opened Parser
  import opened Builder
  import opened Comm
  import opened Session
  import LogEntry

  /** One call of the logger: a timestamp and the logged bytes. */
  datatype Logged = Logged(timestamp: LogEntry.U64, data: Bytes)

  function Payloads(log: seq<Logged>): seq<Bytes> {
    if log == [] then [] else Payloads(log[..|log| - 1]) + [log[|log| - 1].data]
  }

  /** The bytes a trace puts on the wire. */
  function Wire(trace: seq<Event>): Bytes {
    if trace == [] then []
    else
      var n := |trace| - 1;
      Wire(trace[..n]) + if trace[n].Tx? then trace[n].frame else []
  }

  /** The frames a trace hands to the logger: all that are sent, accepted or heard, in order. */
  function LogFrames(trace: seq<Event>): seq<Bytes> {
    if trace == [] then []
    else
      var n := |trace| - 1;
      LogFrames(trace[..n]) + if trace[n].Tx? || trace[n].Answer? || trace[n].Heard? then [trace[n].frame] else []
  }

  /** The frames heard since the last SET command. */
  function HeardSince(trace: seq<Event>): seq<Bytes> {
    if trace == [] then []
    else
      var n := |trace| - 1;
      if trace[n].Set? then []
      else HeardSince(trace[..n]) + if trace[n].Heard? then [trace[n].frame] else []
  }

  lemma TraceSnoc(trace: seq<Event>, e: Event)
    ensures Wire(trace + [e]) == Wire(trace) + if e.Tx? then e.frame else []
    ensures LogFrames(trace + [e]) == LogFrames(trace) + if e.Tx? || e.Answer? || e.Heard? then [e.frame] else []
    ensures HeardSince(trace + [e])
         == if e.Set? then [] else HeardSince(trace) + if e.Heard? then [e.frame] else []
  {
    assert (trace + [e])[..|trace|] == trace;
  }

  lemma PayloadsSnoc(log: seq<Logged>, l: Logged)
    ensures Payloads(log + [l]) == Payloads(log) + [l.data]
  {
    assert (log + [l])[..|log|] == log;
  }

  /** The four constant frames are what the builders make, and all four are well formed. */
  lemma ConstantFrames()
    ensures Encode(Message(TYPE_WAKE_UP, SUBTYPE_WAKE_UP, [])) == WAKE_UP
    ensures Encode(Message(TYPE_QUERY, SUBTYPE_INIT, [INIT_DATA])) == INIT
    ensures Encode(Message(TYPE_QUERY, SUBTYPE_TABLE_SUBGROUP, [TABLE_10, 0, 0x80, 0])) == QUERY_10
    ensures Encode(Message(TYPE_QUERY, SUBTYPE_TABLE_SUBGROUP, [TABLE_D1, 0, 0x06, 0])) == QUERY_D1
    ensures IsFrame(WAKE_UP) && IsFrame(INIT) && IsFrame(QUERY_10) && IsFrame(QUERY_D1)
  {
    hide Sum, IsFrame;
    SumOfFew(0xFE, 0x04, 0xFF, 0, 0, 0, 0);
    assert [TYPE_WAKE_UP, 0x04, SUBTYPE_WAKE_UP] + [] == [0xFE, 0x04, 0xFF];
    SumOfFew(0x72, 0x05, 0x00, 0xF0, 0, 0, 0);
    assert [TYPE_QUERY, 0x05, SUBTYPE_INIT] + [INIT_DATA] == [0x72, 0x05, 0x00, 0xF0];
    SumOfFew(0x72, 0x08, 0x72, 0x10, 0x00, 0x80, 0x00);
    assert [TYPE_QUERY, 0x08, SUBTYPE_TABLE_SUBGROUP] + [TABLE_10, 0, 0x80, 0]
        == [0x72, 0x08, 0x72, 0x10, 0x00, 0x80, 0x00];
    SumOfFew(0x72, 0x08, 0x72, 0xD1, 0x00, 0x06, 0x00);
    assert [TYPE_QUERY, 0x08, SUBTYPE_TABLE_SUBGROUP] + [TABLE_D1, 0, 0x06, 0]
        == [0x72, 0x08, 0x72, 0xD1, 0x00, 0x06, 0x00];
    EncodeIsFrame(Message(TYPE_WAKE_UP, SUBTYPE_WAKE_UP, []));
    EncodeIsFrame(Message(TYPE_QUERY, SUBTYPE_INIT, [INIT_DATA]));
    EncodeIsFrame(Message(TYPE_QUERY, SUBTYPE_TABLE_SUBGROUP, [TABLE_10, 0, 0x80, 0]));
    EncodeIsFrame(Message(TYPE_QUERY, SUBTYPE_TABLE_SUBGROUP, [TABLE_D1, 0, 0x06, 0]));
  }

  /** The size the query fillers pass is that of a pointer, four bytes on the target: the table,
      offset and count bytes plus whatever the buffer holds next. */
  const QUERY_SIZE: Byte := 4

  /** comm_fill_msg_subgroub_10_query and comm_fill_msg_subgroub_d1_query. */
  method FillQuery(table: Byte, count: Byte, buffer: array<Byte>)
    requires buffer.Length >= 8
    modifies buffer
    ensures buffer[1] == 8
    ensures buffer[..8] == Encode(Message(TYPE_QUERY, SUBTYPE_TABLE_SUBGROUP, [table, 0, count, old(buffer[6])]))
    ensures buffer[8..] == old(buffer[8..])
  {
    buffer[3] := table;
    buffer[4] := 0;
    buffer[5] := count;
    assert buffer[3..7] == [table, 0, count, old(buffer[6])];
    var _ := BuildMsg(TYPE_QUERY, SUBTYPE_TABLE_SUBGROUP, QUERY_SIZE, buffer);
    assert buffer[..8][1] == 8;
  }

  lemma QuietReceives(s0: Bytes, polls: seq<Poll>, from: nat, end: nat, useTimeout: bool)
    requires from <= end <= |polls| && forall j :: from <= j < end ==> Quiet(s0, polls, j, useTimeout)
    ensures AcceptedFrames(s0 + Received(polls[..end])) == AcceptedFrames(s0 + Received(polls[..from]))
    decreases end
  {
    if from < end {
      assert Quiet(s0, polls, end - 1, useTimeout);
      QuietReceives(s0, polls, from, end - 1, useTimeout);
      PollReceives(s0, polls, end - 1);
    }
  }

  /** A poll adds to the accepted frames of the stream exactly the frame it completes. */
  lemma PollReceives(s0: Bytes, polls: seq<Poll>, i: nat)
    requires i < |polls|
    ensures AcceptedFrames(s0 + Received(polls[..i + 1]))
         == AcceptedFrames(s0 + Received(polls[..i]))
            + if FrameAt(s0, polls, i).Some? then [FrameAt(s0, polls, i).value] else []
  {
    ReceivedStep(polls, i);
    var s := s0 + Received(polls[..i]);
    match polls[i].data
    case None =>
      assert s0 + Received(polls[..i + 1]) == s;
    case Some(b) =>
      assert s0 + Received(polls[..i + 1]) == s + [b];
      SegmentsSnoc(s, b);
      var q := Rest(s) + [b];
      if HasSegment(q) {
        FramesAppend(Segments(s), [Judge(q)]);
      }
  }

  // ------------------------------------------------------------ a run as a function of its inputs

  /** The clock readings of one turn: for the first and second frame sent, and for the frame received. */
  datatype Clock = Clock(first: LogEntry.U64, second: LogEntry.U64, answer: LogEntry.U64)

  /** What a turn meets: what the serial port and the timeout flag show, the clock readings and the
      command found at the end. */
  datatype Input = Input(polls: seq<Poll>, clock: Clock, command: Command)

  /** What the session makes of the input, whether the turn came to its end, and the bytes the parser
      has seen since its last reset. */
  datatype Outcome = Outcome(turn: Turn, done: bool, seen: Bytes)

  /** The bytes the parser has seen when the wait of a state begins: an init query resets it. */
  function SeenAtWait(state: CommState, seen: Bytes): Bytes {
    if state == SendEcuInit then [] else seen
  }

  /** Enabled, the thread waits for an answer or listens; a command is looked at once that has ended. */
  ghost function Acted(t: Session.Tester, seen: Bytes, polls: seq<Poll>): Outcome {
    if !t.enabled || (!t.listenOnly && t.state == GpioInit) then
      Outcome(Turn(Lapsed, None, NoCommand), true, seen)
    else if !t.listenOnly then
      var start := SeenAtWait(t.state, seen);
      var wait := WaitSpec(start, Wanted(t.state), true, polls, 0);
      var n := WaitUses(start, Wanted(t.state), true, polls);
      Outcome(Turn(wait, None, NoCommand), !wait.Blocked?, start + Received(polls[..n]))
    else
      var k := FirstStir(seen, true, polls, 0);
      if k < |polls| then
        Outcome(Turn(Lapsed, FrameAt(seen, polls, k), NoCommand), true, seen + Received(polls[..k + 1]))
      else
        Outcome(Turn(Lapsed, None, NoCommand), false, seen + Received(polls[..k]))
  }

  /** A finished turn obeys its command; a SET command also resets the parser. */
  ghost function TurnOf(t: Session.Tester, seen: Bytes, input: Input): Outcome {
    var o := Acted(t, seen, input.polls);
    if !o.done then o
    else
      Outcome(o.turn.(command := input.command), true,
              if input.command.SetComm? || input.command.SetListenOnly? then [] else o.seen)
  }

  function SendLog(state: CommState, clock: Clock): seq<Logged> {
    match state
    case GpioInit => []
    case SendEcuInit => [Logged(clock.first, WAKE_UP), Logged(clock.second, INIT)]
    case SendReq0 => [Logged(clock.first, QUERY_10)]
    case SendReq1 => [Logged(clock.first, QUERY_D1)]
  }

  function AnswerLog(wait: WaitResult, clock: Clock): seq<Logged> {
    if wait.Found? then [Logged(clock.answer, wait.frame)] else []
  }

  /** What a turn logs, and under which clock reading. */
  function LogOf(t: Session.Tester, turn: Turn, clock: Clock): seq<Logged> {
    if !t.enabled then []
    else if t.listenOnly then if turn.heard.Some? then [Logged(clock.answer, turn.heard.value)] else []
    else SendLog(t.state, clock) + if t.state == GpioInit then [] else AnswerLog(turn.wait, clock)
  }

  /** A whole run: its turns, its log, and where it stands. A turn that is still waiting is the last. */
  datatype Run = Run(turns: seq<Turn>, log: seq<Logged>, seen: Bytes, going: bool)

  ghost function RunOf(inputs: seq<Input>): Run {
    if inputs == [] then Run([], [], [], true)
    else
      var n := |inputs| - 1;
      var r := RunOf(inputs[..n]);
      if !r.going then r
      else
        var t := After(r.turns);
        var o := TurnOf(t, r.seen, inputs[n]);
        Run(r.turns + [o.turn], r.log + LogOf(t, o.turn, inputs[n].clock), o.seen, o.done)
  }

  class Thread {
    var enabled: bool
    var listenOnly: bool
    var state: CommState
    var gpioRetries: int  // uint16_t
    var initRetries: int  // uint16_t
    const parser: HobdParser
    const txBuffer: array<Byte>

    var line: Bytes        // what the serial port was given to send
    var log: seq<Logged>   // what the logger was given

    ghost var trace: seq<Event>

    ghost function Abs(): Session.Tester
      reads this
    {
      Session.Tester(enabled, listenOnly, state, gpioRetries, initRetries)
    }

    ghost predicate Valid()
      reads this, txBuffer, parser, parser.rxBuffer
    {
      && parser.Valid()
      && parser.rxBuffer.Length >= DATA_SIZE_MAX
      && txBuffer.Length == SIZE_MAX + 1 && txBuffer != parser.rxBuffer
      && txBuffer[6] == 0  // the pad byte of the queries, never written
      && line == Wire(trace)
      && Payloads(log) == LogFrames(trace)
      && (listenOnly ==> HeardSince(trace) == AcceptedFrames(parser.seen))
    }

    constructor ()
      ensures Valid() && Abs() == BOOT && trace == [] && log == [] && parser.seen == []
      ensures fresh(txBuffer) && fresh(parser) && fresh(parser.rxBuffer)
    {
      enabled, listenOnly, state := false, true, GpioInit;
      gpioRetries, initRetries := 0, 0;
      txBuffer := new Byte[SIZE_MAX + 1](_ => 0);
      var rx := new Byte[512](_ => 0);
      parser := new HobdParser(rx, 512);
      line, log, trace := [], [], [];
    }

    /** comm_send_msg. */
    method SendMsg()
      requires txBuffer.Length == SIZE_MAX + 1
      modifies `line
      ensures line == old(line) + if listenOnly then [] else txBuffer[..txBuffer[1]]
    {
      if !listenOnly {
        for idx := 0 to txBuffer[1]
          invariant line == old(line) + txBuffer[..idx]
        {
          assert txBuffer[..idx + 1] == txBuffer[..idx] + [txBuffer[idx]];
          line := line + [txBuffer[idx]];
        }
      }
    }

    /** Sends the message in the transmit buffer and logs it. */
    method Transmit(time: LogEntry.U64)
      requires Valid() && !listenOnly
      modifies `line, `log, `trace
      ensures Valid() && trace == old(trace) + [Tx(txBuffer[..txBuffer[1]])]
      ensures log == old(log) + [Logged(time, txBuffer[..txBuffer[1]])]
    {
      hide HobdParser.Valid, Wire, LogFrames, HeardSince, Payloads, AcceptedFrames;
      SendMsg();
      var frame := txBuffer[..txBuffer[1]];
      PayloadsSnoc(log, Logged(time, frame));
      log := log + [Logged(time, frame)];
      TraceSnoc(trace, Tx(frame));
      trace := trace + [Tx(frame)];
    }

    /** send_ecu_diag_messages. */
    method SendEcuDiagMessages(clock: Clock)
      requires Valid() && !listenOnly
      modifies `line, `log, `trace, txBuffer, parser
      ensures Valid() && parser.seen == []
      ensures trace == old(trace) + [Tx(WAKE_UP)] + [Tx(INIT)]
      ensures log == old(log) + SendLog(SendEcuInit, clock)
    {
      hide HobdParser.Valid, Wire, LogFrames, HeardSince, Payloads, AcceptedFrames, Encode;
      ConstantFrames();
      parser.Reset();
      var _ := BuildMsgNoData(TYPE_WAKE_UP, SUBTYPE_WAKE_UP, txBuffer);
      SameTail(old(txBuffer[..]), 4, txBuffer);
      assert txBuffer[..4][1] == 4;
      Transmit(clock.first);
      txBuffer[3] := INIT_DATA;
      assert txBuffer[3..4] == [INIT_DATA];
      label built:
      var _ := BuildMsg(TYPE_QUERY, SUBTYPE_INIT, 1, txBuffer);
      SameTail(old@built(txBuffer[..]), 5, txBuffer);
      assert txBuffer[..5][1] == 5;
      Transmit(clock.second);
    }

    /** send_table_req. Any other table ends the run. */
    method SendTableReq(table: Byte, time: LogEntry.U64)
      requires Valid() && !listenOnly && (table == TABLE_10 || table == TABLE_D1)
      modifies `line, `log, `trace, txBuffer
      ensures Valid()
      ensures trace == old(trace) + [Tx(if table == TABLE_10 then QUERY_10 else QUERY_D1)]
      ensures log == old(log) + [Logged(time, if table == TABLE_10 then QUERY_10 else QUERY_D1)]
    {
      hide HobdParser.Valid, Wire, LogFrames, HeardSince, Payloads, AcceptedFrames, Encode;
      ConstantFrames();
      if table == TABLE_10 {
        FillQuery(TABLE_10, 0x80, txBuffer);
      } else {
        FillQuery(TABLE_D1, 0x06, txBuffer);
      }
      assert txBuffer[..8][6] == 0;
      Transmit(time);
    }
  
    /** new_hobd_msg_callback on an accepted answer: it is logged. */
    method NewMsg(frame: Bytes, time: LogEntry.U64)
      requires Valid() && !listenOnly
      modifies `log, `trace
      ensures Valid() && trace == old(trace) + [Answer(state, frame)] && log == old(log) + [Logged(time, frame)]
    {
      hide HobdParser.Valid, Wire, LogFrames, HeardSince, Payloads, AcceptedFrames;
      PayloadsSnoc(log, Logged(time, frame));
      log := log + [Logged(time, frame)];
      TraceSnoc(trace, Answer(state, frame));
      trace := trace + [Answer(state, frame)];
    }

    ghost method Note(e: Event)
      requires Valid() && (e == Pulse || e.Timeout?) && !listenOnly
      modifies `trace
      ensures Valid() && trace == old(trace) + [e]
    {
      hide HobdParser.Valid, Wire, LogFrames, HeardSince, Payloads, AcceptedFrames;
      TraceSnoc(trace, e);
      trace := trace + [e];
    }

    /** The second half of an update: wait for the answer, log it, change state. */
    method AwaitAnswer(polls: seq<Poll>, clock: Clock, ghost start: Bytes) returns (wait: WaitResult)
      requires Valid() && !listenOnly && state != GpioInit && parser.seen == start
      modifies `state, `log, `trace, parser, parser.rxBuffer
      ensures Valid()
      ensures wait == WaitSpec(start, Wanted(old(state)), true, polls, 0)
      ensures parser.seen == start + Received(polls[..WaitUses(start, Wanted(old(state)), true, polls)])
      ensures log == old(log) + AnswerLog(wait, clock)
      ensures state == if wait.Blocked? then old(state) else NextState(old(state), wait)
      ensures trace == old(trace) + match wait
        case Found(f) => [Answer(old(state), f)]
        case Lapsed => [Timeout(old(state))]
        case Blocked => []
    {
      hide HobdParser.Valid, Wire, LogFrames, HeardSince, Payloads, AcceptedFrames, WaitSpec;
      var used;
      wait, used := WaitForResp(Wanted(state), true, parser, polls);
      match wait
      case Found(f) =>
        NewMsg(f, clock.answer);
        state := NextState(state, wait);
      case Lapsed =>
        Note(Timeout(state));
        state := NextState(state, wait);
      case Blocked =>
    }

    /** comm_update_state. */
    method UpdateState(polls: seq<Poll>, clock: Clock) returns (wait: WaitResult)
      requires Valid() && enabled && !listenOnly
      modifies this, txBuffer, parser, parser.rxBuffer
      ensures Valid()
      ensures Outcome(Turn(wait, None, NoCommand), !wait.Blocked?, parser.seen) == old(Acted(Abs(), parser.seen, polls))
      ensures log == old(log) + old(LogOf(Abs(), Acted(Abs(), parser.seen, polls).turn, clock))
      ensures Abs() == Update(old(Abs()), wait).0
      ensures trace == old(trace) + Update(old(Abs()), wait).1
    {
      hide HobdParser.Valid, Wire, LogFrames, HeardSince, Payloads, AcceptedFrames, WaitSpec;
      hide WAKE_UP, INIT, QUERY_10, QUERY_D1, Received, WaitUses;
      match state
      case GpioInit =>
        wait := Lapsed;
        Note(Pulse);
        state := SendEcuInit;
        gpioRetries := (gpioRetries + 1) % 0x10000;
      case SendEcuInit =>
        SendEcuDiagMessages(clock);
        initRetries := (initRetries + 1) % 0x10000;
        wait := AwaitAnswer(polls, clock, []);
      case SendReq0 =>
        SendTableReq(TABLE_10, clock.first);
        wait := AwaitAnswer(polls, clock, parser.seen);
      case SendReq1 =>
        SendTableReq(TABLE_D1, clock.first);
        wait := AwaitAnswer(polls, clock, parser.seen);
    }
  
    /** A listen-only turn: one receive, and the frame it yields is logged. The frames heard since the
        last SET command stay exactly the accepted frames of the bytes read since then. */
    method Listen(polls: seq<Poll>, time: LogEntry.U64) returns (heard: Option<Bytes>, done: bool)
      requires Valid() && enabled && listenOnly
      modifies `log, `trace, parser, parser.rxBuffer
      ensures Valid()
      ensures Outcome(Turn(Lapsed, heard, NoCommand), done, parser.seen) == old(Acted(Abs(), parser.seen, polls))
      ensures log == old(log) + if heard.Some? then [Logged(time, heard.value)] else []
      ensures trace == old(trace) + if heard.Some? then [Heard(heard.value)] else []
    {
      hide HobdParser.Valid, Wire, LogFrames, HeardSince, Payloads, AcceptedFrames, FrameAt, Received;
      ghost var s0 := parser.seen;
      ReceivedNothing(polls, s0);
      var r, to := RecvMsg(true, parser, polls, 0, s0);
      done := r != Waiting;
      ghost var stop := if r == Waiting then to else to - 1;
      assert stop < |polls| ==> !Quiet(s0, polls, stop, true);
      assert stop == FirstStir(s0, true, polls, 0);
      QuietReceives(s0, polls, 0, stop, true);
      match r
      case Msg =>
        ghost var f := FrameAt(s0, polls, to - 1).value;
        FrameAtIsFrame(s0, polls, to - 1);
        assert parser.rxBuffer[..|f|][1] == f[1];
        PollReceives(s0, polls, to - 1);
        var frame := parser.rxBuffer[..parser.rxBuffer[1]];
        heard := Some(frame);
        PayloadsSnoc(log, Logged(time, frame));
        log := log + [Logged(time, frame)];
        TraceSnoc(trace, Heard(frame));
        trace := trace + [Heard(frame)];
      case TimedOut =>
        heard := None;
        PollReceives(s0, polls, to - 1);
      case Waiting =>
        heard := None;
    }

    /** The command at the end of a turn. A SET command also drops the unfinished segment. */
    method ObeyCommand(c: Command)
      requires Valid()
      modifies `enabled, `listenOnly, `state, `trace, parser
      ensures Valid()
      ensures Abs() == Obey(old(Abs()), c).0 && trace == old(trace) + Obey(old(Abs()), c).1
      ensures parser.seen == if c.SetComm? || c.SetListenOnly? then [] else old(parser.seen)
    {
      hide HobdParser.Valid, Wire, LogFrames, HeardSince, Payloads;
      if c.SetComm? || c.SetListenOnly? {
        if c.SetComm? {
          enabled := c.on;
        } else {
          listenOnly := c.on;
        }
        parser.Reset();
        TraceSnoc(trace, Set(state, c));
        trace := trace + [Set(state, c)];
        state := GpioInit;
      }
    }

    /** One turn of the thread's loop. `done` is false when the turn is still waiting for input. */
    method TakeTurn(input: Input) returns (turn: Turn, done: bool)
      requires Valid()
      modifies this, txBuffer, parser, parser.rxBuffer
      ensures Valid()
      ensures Abs() == Step(old(Abs()), turn).0 && trace == old(trace) + Step(old(Abs()), turn).1
      ensures Outcome(turn, done, parser.seen) == old(TurnOf(Abs(), parser.seen, input))
      ensures log == old(log) + LogOf(old(Abs()), turn, input.clock)
      ensures Plausible(old(Abs()), turn) && (Stuck(old(Abs()), turn) ==> !done)
    {
      hide Valid, Update, WaitSpec;
      var wait, heard := Lapsed, None;
      done := true;
      ghost var t0 := Abs();
      if enabled {
        if !listenOnly {
          ghost var start := SeenAtWait(state, parser.seen);
          WaitFindsResponse(start, Wanted(state), true, input.polls, 0);
          wait := UpdateState(input.polls, input.clock);
          done := !wait.Blocked?;
        } else {
          heard, done := Listen(input.polls, input.clock.answer);
        }
      }
      turn := Turn(wait, heard, if done then input.command else NoCommand);
      ghost var e1 := Act(t0, turn).1;
      assert Abs() == Act(t0, turn).0 && trace == old(trace) + e1;
      if done {
        ghost var e2 := Obey(Abs(), input.command).1;
        assert old(trace) + (e1 + e2) == old(trace) + e1 + e2;
        ObeyCommand(input.command);
      }
    }

    /** The loop of obd_comm_thread_fn over any number of turns. The run is one the session model
        allows, so all that is proved of its traces holds of what this thread sends and logs; and
        in listen-only mode the frames heard are exactly those of the stream read. */
    method Loop(inputs: seq<Input>)
      requires Valid() && Abs() == BOOT && trace == [] && log == [] && parser.seen == []
      modifies this, txBuffer, parser, parser.rxBuffer
      ensures Valid()
      ensures var r := RunOf(inputs);
        && Legal(r.turns) && Abs() == After(r.turns) && trace == Trace(r.turns)
        && log == r.log && parser.seen == r.seen
      ensures line == Wire(trace) && Disciplined(trace)
      ensures Payloads(log) == LogFrames(trace)
      ensures listenOnly ==> HeardSince(trace) == AcceptedFrames(parser.seen)
    {
      hide HobdParser.Valid, Wire, LogFrames, HeardSince, Payloads, AcceptedFrames;
      hide Step, Plausible, Stuck, Disciplined, TurnOf, LogOf;
      var going := true;
      ghost var r := RunOf([]);
      for i := 0 to |inputs|
        invariant Valid() && r == RunOf(inputs[..i]) && going == r.going
        invariant Legal(r.turns) && Abs() == After(r.turns) && trace == Trace(r.turns)
        invariant log == r.log && parser.seen == r.seen
        invariant going ==> !Unfinished(r.turns)
      {
        assert inputs[..i + 1][..i] == inputs[..i];
        if going {
          var turn;
          turn, going := TakeTurn(inputs[i]);
          assert (r.turns + [turn])[..|r.turns|] == r.turns;
          r := RunOf(inputs[..i + 1]);
        }
      }
      assert inputs[..|inputs|] == inputs;
      EveryTransmissionIsDue(r.turns);
    }
  }

  lemma SameTail(was: Bytes, n: nat, buffer: array<Byte>)
    requires n <= 6 < buffer.Length == |was| && buffer[n..] == was[n..]
    ensures buffer[6] == was[6]
  {
    assert buffer[n..][6 - n] == was[n..][6 - n];
  }
}
