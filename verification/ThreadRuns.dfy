/** What holds of every run of the tester's thread, whatever it receives and is told. */
module ThreadRuns {
  import opened Kline
  import opened Segmenter
  import opened Comm
  import opened Session
  import opened ObdThread
  import LogEntry

  // ------------------------------------------------------------ one turn more

  lemma RunSnoc(pre: seq<Input>, input: Input)
    requires RunOf(pre).going
    ensures var r := RunOf(pre);
      var o := TurnOf(After(r.turns), r.seen, input);
      var log := r.log + LogOf(After(r.turns), o.turn, input.clock);
      RunOf(pre + [input]) == Run(r.turns + [o.turn], log, o.seen, o.done)
  {
    hide TurnOf, LogOf, After;
    assert (pre + [input])[..|pre|] == pre;
  }

  lemma TurnsSnoc(turns: seq<Turn>, turn: Turn)
    ensures After(turns + [turn]) == Step(After(turns), turn).0
    ensures Trace(turns + [turn]) == Trace(turns) + Step(After(turns), turn).1
  {
    hide Step;
    assert (turns + [turn])[..|turns|] == turns;
  }

  lemma AtBoot()
    ensures After([]) == BOOT && Trace([]) == [] && RunOf([]) == Run([], [], [], true)
  {
  }

  /** A thread that is not enabled only waits for commands. */
  lemma IdleTurn(t: Tester, seen: Bytes, input: Input)
    requires !t.enabled && (input.command.SetComm? || input.command.SetListenOnly?)
    ensures TurnOf(t, seen, input) == Outcome(Turn(Lapsed, None, input.command), true, [])
    ensures LogOf(t, Turn(Lapsed, None, input.command), input.clock) == []
  {
  }

  /** A thread that is not enabled sends, hears and logs nothing and reads no byte. */
  lemma IdleDoesNothing(t: Tester, seen: Bytes, input: Input)
    requires !t.enabled
    ensures var o := TurnOf(t, seen, input);
      && o.done && LogOf(t, o.turn, input.clock) == []
      && (forall e :: e in Step(t, o.turn).1 ==> e.Set?)
      && (NoSet(input) ==> o.seen == seen && Step(t, o.turn) == (t, []))
  {
  }

  lemma {:induction false} LogFramesConcat(a: seq<Event>, b: seq<Event>)
    ensures LogFrames(a + b) == LogFrames(a) + LogFrames(b)
    ensures Wire(a + b) == Wire(a) + Wire(b)
  {
    hide LogFrames, Wire, HeardSince;
    if b == [] {
      NothingLogged();
      assert a + b == a;
    } else {
      var n := |b| - 1;
      LogFramesConcat(a, b[..n]);
      TraceSnoc(a + b[..n], b[n]);
      TraceSnoc(b[..n], b[n]);
      assert a + b[..n] + [b[n]] == a + b && b[..n] + [b[n]] == b;
    }
  }

  lemma {:induction false} PayloadsConcat(a: seq<Logged>, b: seq<Logged>)
    ensures Payloads(a + b) == Payloads(a) + Payloads(b)
  {
    if b == [] {
      assert a + b == a;
    } else {
      var n := |b| - 1;
      PayloadsConcat(a, b[..n]);
      PayloadsSnoc(a + b[..n], b[n]);
      assert a + b[..n] + [b[n]] == a + b;
    }
  }

  lemma {:induction false} PayloadAt(log: seq<Logged>, i: nat)
    ensures |Payloads(log)| == |log|
    ensures i < |log| ==> Payloads(log)[i] == log[i].data
    decreases |log|
  {
    if log != [] {
      PayloadAt(log[..|log| - 1], i);
    }
  }

  // ------------------------------------------------------------ the log of a run

  lemma LogFramesShort(a: Event, b: Event, c: Event)
    ensures LogFrames([a]) == if Logs(a) then [a.frame] else []
    ensures LogFrames([a, b]) == LogFrames([a]) + if Logs(b) then [b.frame] else []
    ensures LogFrames([a, b, c]) == LogFrames([a, b]) + if Logs(c) then [c.frame] else []
  {
    hide LogFrames, Wire, HeardSince;
    NothingLogged();
    TraceSnoc([], a);
    TraceSnoc([a], b);
    TraceSnoc([a, b], c);
    assert [] + [a] == [a] && [a] + [b] == [a, b] && [a, b] + [c] == [a, b, c];
  }

  /** An event whose frame is logged. */
  predicate Logs(e: Event) {
    e.Tx? || e.Answer? || e.Heard?
  }

  lemma PayloadsShort(a: Logged, b: Logged, c: Logged)
    ensures Payloads([a]) == [a.data] && Payloads([a, b]) == [a.data, b.data]
    ensures Payloads([a, b, c]) == [a.data, b.data, c.data]
  {
    hide Payloads;
    NothingLogged();
    PayloadsSnoc([], a);
    PayloadsSnoc([a], b);
    PayloadsSnoc([a, b], c);
    assert [] + [a] == [a] && [a] + [b] == [a, b] && [a, b] + [c] == [a, b, c];
  }

  /** How a visit to a state ends: with an answer, a timeout, or not yet. */
  function Ending(state: CommState, wait: WaitResult): Event {
    match wait
    case Found(f) => Answer(state, f)
    case Lapsed => Timeout(state)
    case Blocked => Pulse
  }

  lemma UpdateEvents(t: Tester, wait: WaitResult)
    requires t.state != GpioInit
    ensures LogFrames(Update(t, wait).1)
         == LogFrames(Sends(t.state)) + if wait.Found? then [wait.frame] else []
  {
    hide LogFrames, Sends;
    TraceSnoc(Sends(t.state), Ending(t.state, wait));
  }

  lemma SendsLogged(state: CommState, clock: Clock)
    ensures LogFrames(Sends(state)) == Payloads(SendLog(state, clock)) == FramesOf(state)
  {
    hide LogFrames, Payloads, WAKE_UP, INIT, QUERY_10, QUERY_D1;
    NothingLogged();
    var fs := FramesOf(state);
    if state == SendEcuInit {
      LogFramesShort(Tx(fs[0]), Tx(fs[1]), Pulse);
      PayloadsShort(Logged(clock.first, fs[0]), Logged(clock.second, fs[1]), Logged(0, []));
      assert Sends(state) == [Tx(fs[0]), Tx(fs[1])];
    } else if state != GpioInit {
      LogFramesShort(Tx(fs[0]), Pulse, Pulse);
      PayloadsShort(Logged(clock.first, fs[0]), Logged(0, []), Logged(0, []));
      assert Sends(state) == [Tx(fs[0])];
    } else {
      assert Sends(state) == [];
    }
  }

  /** The visit to a state logs what it sends and the answer it accepts. */
  lemma VisitLogs(t: Tester, wait: WaitResult, clock: Clock)
    requires t.state != GpioInit
    ensures Payloads(SendLog(t.state, clock) + AnswerLog(wait, clock)) == LogFrames(Update(t, wait).1)
  {
    hide LogFrames, Payloads, SendLog, Update, Sends, FramesOf;
    UpdateEvents(t, wait);
    SendsLogged(t.state, clock);
    PayloadsConcat(SendLog(t.state, clock), AnswerLog(wait, clock));
    NothingLogged();
    PayloadsShort(Logged(clock.answer, if wait.Found? then wait.frame else []), Logged(0, []), Logged(0, []));
  }

  /** What a turn logs is what its events send, accept or hear. */
  lemma TurnLogs(t: Tester, turn: Turn, clock: Clock)
    ensures Payloads(LogOf(t, turn, clock)) == LogFrames(Step(t, turn).1)
  {
    hide LogFrames, Payloads, Update, SendLog, AnswerLog, Stuck;
    var e1 := Act(t, turn).1;
    var e2 := Obey(Act(t, turn).0, turn.command).1;
    LogFramesConcat(e1, e2);
    NothingLogged();
    LogFramesShort(Set(Act(t, turn).0.state, turn.command), Pulse, Pulse);
    assert LogFrames(e2) == [] && LogFrames(e1) + [] == LogFrames(e1);
    if t.enabled && t.listenOnly && turn.heard.Some? {
      LogFramesShort(Heard(turn.heard.value), Pulse, Pulse);
      PayloadsSnoc([], Logged(clock.answer, turn.heard.value));
      assert [] + [Logged(clock.answer, turn.heard.value)] == [Logged(clock.answer, turn.heard.value)];
    } else if t.enabled && !t.listenOnly {
      if t.state == GpioInit {
        LogFramesShort(Pulse, Pulse, Pulse);
        GpioUpdate(t, turn.wait);
      } else {
        VisitLogs(t, turn.wait, clock);
      }
    }
  }

  lemma NothingLogged()
    ensures LogFrames([]) == [] && Wire([]) == [] && Payloads([]) == []
  {
  }

  lemma GpioUpdate(t: Tester, wait: WaitResult)
    requires t.state == GpioInit
    ensures Update(t, wait).1 == [Pulse] && forall clock :: SendLog(t.state, clock) == []
  {
  }

  /** In every run the log holds exactly the frames sent, accepted and heard, in order. */
  lemma {:induction false} RunLogsItsTrace(inputs: seq<Input>)
    ensures Payloads(RunOf(inputs).log) == LogFrames(Trace(RunOf(inputs).turns))
  {
    hide TurnOf, LogOf, Step, After, Trace, LogFrames, Payloads;
    if inputs == [] {
      AtBoot();
      NothingLogged();
    } else {
      var n := |inputs| - 1;
      RunLogsItsTrace(inputs[..n]);
      var r := RunOf(inputs[..n]);
      if r.going {
        var t := After(r.turns);
        var turn := TurnOf(t, r.seen, inputs[n]).turn;
        TurnsSnoc(r.turns, turn);
        TurnLogs(t, turn, inputs[n].clock);
        PayloadsConcat(r.log, LogOf(t, turn, inputs[n].clock));
        LogFramesConcat(Trace(r.turns), Step(t, turn).1);
      }
    }
  }

  predicate LogsFrames(log: seq<Logged>) {
    forall i :: 0 <= i < |log| ==> IsFrame(log[i].data)
  }

  lemma TurnLogsFrames(t: Tester, seen: Bytes, input: Input)
    ensures LogsFrames(LogOf(t, TurnOf(t, seen, input).turn, input.clock))
  {
    hide IsFrame, WaitSpec, FrameAt, Received, WAKE_UP, INIT, QUERY_10, QUERY_D1;
    ConstantFrames();
    if t.enabled && t.listenOnly {
      var k := FirstStir(seen, true, input.polls, 0);
      if k < |input.polls| && FrameAt(seen, input.polls, k).Some? {
        FrameAtIsFrame(seen, input.polls, k);
      }
    } else {
      WaitFindsResponse(SeenAtWait(t.state, seen), Wanted(t.state), true, input.polls, 0);
    }
  }

  /** Whatever the line carries, only well-formed frames are ever logged. */
  lemma {:induction false} RunLogsFrames(inputs: seq<Input>)
    ensures LogsFrames(RunOf(inputs).log)
  {
    hide TurnOf, LogOf, After, IsFrame;
    if inputs != [] {
      var n := |inputs| - 1;
      RunLogsFrames(inputs[..n]);
      var r := RunOf(inputs[..n]);
      if r.going {
        TurnLogsFrames(After(r.turns), r.seen, inputs[n]);
      }
    }
  }

  /** The readings of a turn are taken in the order in which they are used. */
  predicate Ordered(clock: Clock) {
    clock.first <= clock.second <= clock.answer
  }

  /** ... and those of a turn not before those of the turn before it. */
  predicate Chronological(inputs: seq<Input>) {
    && (forall i :: 0 <= i < |inputs| ==> Ordered(inputs[i].clock))
    && forall i :: 0 <= i < |inputs| - 1 ==> inputs[i].clock.answer <= inputs[i + 1].clock.first
  }

  predicate Rising(log: seq<Logged>) {
    forall i, j :: 0 <= i < j < |log| ==> log[i].timestamp <= log[j].timestamp
  }

  lemma TurnRises(t: Tester, turn: Turn, clock: Clock)
    requires Ordered(clock)
    ensures Rising(LogOf(t, turn, clock))
    ensures forall i :: 0 <= i < |LogOf(t, turn, clock)| ==>
      clock.first <= LogOf(t, turn, clock)[i].timestamp <= clock.answer
  {
  }

  /** If the clock does not run backwards, the log of every run is in the order of its timestamps. */
  lemma {:induction false} LogIsChronological(inputs: seq<Input>)
    requires Chronological(inputs)
    ensures var log := RunOf(inputs).log;
      Rising(log) && (inputs != [] ==>
        forall i :: 0 <= i < |log| ==> log[i].timestamp <= inputs[|inputs| - 1].clock.answer)
  {
    hide TurnOf, LogOf, After;
    if inputs != [] {
      var n := |inputs| - 1;
      LogIsChronological(inputs[..n]);
      var r := RunOf(inputs[..n]);
      assert n > 0 ==> inputs[n - 1].clock.answer <= inputs[n - 1 + 1].clock.first;
      if r.going {
        TurnRises(After(r.turns), TurnOf(After(r.turns), r.seen, inputs[n]).turn, inputs[n].clock);
      }
    }
  }

  // ------------------------------------------------------------ listen-only runs

  lemma {:induction false} ReceivedConcat(a: seq<Poll>, b: seq<Poll>)
    ensures Received(a + b) == Received(a) + Received(b)
  {
    if b == [] {
      assert a + b == a;
    } else {
      var n := |b| - 1;
      ReceivedConcat(a, b[..n]);
      assert (a + b)[..|a| + n] == a + b[..n];
    }
  }

  predicate Listens(t: Tester) {
    t.enabled && t.listenOnly
  }

  predicate NoSet(input: Input) {
    !input.command.SetComm? && !input.command.SetListenOnly?
  }

  /** A listening turn stays in its mode and logs exactly the frames that its bytes complete. */
  lemma ListenTurn(t: Tester, seen: Bytes, input: Input)
    requires Listens(t) && NoSet(input)
    ensures var o := TurnOf(t, seen, input);
      && Step(t, o.turn).0 == t
      && AcceptedFrames(o.seen) == AcceptedFrames(seen) + Payloads(LogOf(t, o.turn, input.clock))
      && |LogOf(t, o.turn, input.clock)| <= 1
      && forall l :: l in LogOf(t, o.turn, input.clock) ==> l.timestamp == input.clock.answer
  {
    hide FrameAt, Received, AcceptedFrames, Payloads;
    var polls := input.polls;
    var k := FirstStir(seen, true, polls, 0);
    ReceivedNothing(polls, seen);
    QuietReceives(seen, polls, 0, k, true);
    NothingLogged();
    if k < |polls| {
      PollReceives(seen, polls, k);
      if FrameAt(seen, polls, k).Some? {
        var l := Logged(input.clock.answer, FrameAt(seen, polls, k).value);
        PayloadsSnoc([], l);
        assert [] + [l] == [l];
      }
    }
  }

  /** Poll `j` shows the timeout or completes a frame. */
  predicate Stirs(seen: Bytes, polls: seq<Poll>, j: nat)
    requires j < |polls|
  {
    || polls[j].timeout
    || |AcceptedFrames(seen + Received(polls[..j + 1]))| > |AcceptedFrames(seen + Received(polls[..j]))|
  }

  /** A listening turn ends with the first poll that shows the timeout or completes a frame, reads no further,
      and goes on waiting, without looking for commands, if there is none. */
  lemma ListenTurnEndsIff(t: Tester, seen: Bytes, input: Input)
    requires Listens(t) && NoSet(input)
    ensures var o := TurnOf(t, seen, input);
      && (o.done <==> exists j: nat :: j < |input.polls| && Stirs(seen, input.polls, j))
      && (!o.done ==> o.turn.command == NoCommand && o.seen == seen + Received(input.polls))
      && forall j: nat :: j < |input.polls| && Stirs(seen, input.polls, j)
           && (forall i: nat :: i < j ==> !Stirs(seen, input.polls, i))
           ==> o.seen == seen + Received(input.polls[..j + 1])
  {
    hide FrameAt, Received, AcceptedFrames;
    var polls := input.polls;
    assert polls[..|polls|] == polls;
    forall j: nat | j < |polls|
      ensures Stirs(seen, polls, j) <==> !Quiet(seen, polls, j, true)
    {
      PollReceives(seen, polls, j);
    }
  }

  /** From any point of a run at which the thread listens, and as long as no SET command comes: what is
      added to the log is what is added to the accepted frames of the bytes read, wherever timeouts fall. */
  lemma {:induction false} ListeningLogsTheStream(pre: seq<Input>, inputs: seq<Input>)
    requires RunOf(pre).going && Listens(After(RunOf(pre).turns))
    requires forall i :: 0 <= i < |inputs| ==> NoSet(inputs[i])
    ensures var r0, r := RunOf(pre), RunOf(pre + inputs);
      && r0.log <= r.log && Listens(After(r.turns))
      && AcceptedFrames(r.seen) == AcceptedFrames(r0.seen) + Payloads(r.log[|r0.log|..])
  {
    hide TurnOf, LogOf, Step, After, AcceptedFrames, Payloads;
    var r0 := RunOf(pre);
    if inputs == [] {
      assert pre + inputs == pre;
      assert r0.log[|r0.log|..] == [];
      NothingLogged();
    } else {
      var n := |inputs| - 1;
      ListeningLogsTheStream(pre, inputs[..n]);
      var so := pre + inputs[..n];
      var r1 := RunOf(so);
      assert pre + inputs == so + [inputs[n]];
      assert (so + [inputs[n]])[..|so|] == so;
      if r1.going {
        var t := After(r1.turns);
        ListenTurn(t, r1.seen, inputs[n]);
        RunSnoc(so, inputs[n]);
        var o := TurnOf(t, r1.seen, inputs[n]);
        TurnsSnoc(r1.turns, o.turn);
        var news := LogOf(t, o.turn, inputs[n].clock);
        PayloadsConcat(r1.log[|r0.log|..], news);
        assert (r1.log + news)[|r0.log|..] == r1.log[|r0.log|..] + news;
      }
    }
  }

  /** Turn `k` completes the frame that is number `j` among those accepted since `pre`. */
  ghost predicate CompletedBy(pre: seq<Input>, inputs: seq<Input>, k: nat, j: nat) {
    && k < |inputs|
    && |AcceptedFrames(RunOf(pre + inputs[..k]).seen)| == |AcceptedFrames(RunOf(pre).seen)| + j
    && |AcceptedFrames(RunOf(pre + inputs[..k + 1]).seen)| == |AcceptedFrames(RunOf(pre).seen)| + j + 1
  }

  /** Frame `j` is completed by a turn whose clock shows `time` at reception. */
  ghost predicate HeardAt(pre: seq<Input>, inputs: seq<Input>, j: nat, time: LogEntry.U64) {
    exists k: nat :: CompletedBy(pre, inputs, k, j) && inputs[k].clock.answer == time
  }

  lemma HeardEarlier(pre: seq<Input>, inputs: seq<Input>, n: nat, j: nat, time: LogEntry.U64)
    requires n <= |inputs| && HeardAt(pre, inputs[..n], j, time)
    ensures HeardAt(pre, inputs, j, time)
  {
    hide RunOf, AcceptedFrames;
    var k: nat :| CompletedBy(pre, inputs[..n], k, j) && inputs[..n][k].clock.answer == time;
    assert inputs[..n][..k] == inputs[..k] && inputs[..n][..k + 1] == inputs[..k + 1];
    assert CompletedBy(pre, inputs, k, j);
  }

  /** ... and each frame is logged under the clock reading of the turn that completes it. */
  lemma {:induction false} ListeningStamps(pre: seq<Input>, inputs: seq<Input>)
    requires RunOf(pre).going && Listens(After(RunOf(pre).turns))
    requires forall i :: 0 <= i < |inputs| ==> NoSet(inputs[i])
    ensures var r0, r := RunOf(pre), RunOf(pre + inputs);
      && r0.log <= r.log
      && forall j :: |r0.log| <= j < |r.log| ==> HeardAt(pre, inputs, j - |r0.log|, r.log[j].timestamp)
  {
    hide TurnOf, LogOf, Step, After, AcceptedFrames, Payloads, HeardAt, RunOf;
    ListeningLogsTheStream(pre, inputs);
    if inputs == [] {
      assert pre + inputs == pre;
    } else {
      var n := |inputs| - 1;
      var so, r0 := pre + inputs[..n], RunOf(pre);
      ListeningStamps(pre, inputs[..n]);
      ListeningLogsTheStream(pre, inputs[..n]);
      var r1, r := RunOf(so), RunOf(pre + inputs);
      assert pre + inputs == so + [inputs[n]];
      LastTurnStamps(so, inputs[n]);
      forall j | |r0.log| <= j < |r.log|
        ensures HeardAt(pre, inputs, j - |r0.log|, r.log[j].timestamp)
      {
        if j < |r1.log| {
          assert r.log[j] == r1.log[j];
          HeardEarlier(pre, inputs, n, j - |r0.log|, r.log[j].timestamp);
        } else {
          PayloadAt(r1.log[|r0.log|..], 0);
          PayloadAt(r.log[|r0.log|..], 0);
          assert inputs[..n + 1] == inputs;
          HeardNow(pre, inputs, n, j - |r0.log|);
        }
      }
    }
  }

  lemma HeardNow(pre: seq<Input>, inputs: seq<Input>, k: nat, j: nat)
    requires CompletedBy(pre, inputs, k, j)
    ensures HeardAt(pre, inputs, j, inputs[k].clock.answer)
  {
  }

  /** What a listening turn adds to the log: at most one frame, under its own reading. */
  lemma LastTurnStamps(so: seq<Input>, input: Input)
    requires Listens(After(RunOf(so).turns)) && NoSet(input)
    ensures var r1, r := RunOf(so), RunOf(so + [input]);
      && r1.log <= r.log && |r.log| <= |r1.log| + 1
      && (|r.log| > |r1.log| ==> r.log[|r1.log|].timestamp == input.clock.answer)
  {
    hide TurnOf, LogOf, Step, After, AcceptedFrames, Payloads;
    var r1 := RunOf(so);
    assert (so + [input])[..|so|] == so;
    if r1.going {
      ListenTurn(After(r1.turns), r1.seen, input);
      RunSnoc(so, input);
    }
  }

  /** Polls as the turns of a listening thread meet them: each turn reads up to the first frame or
      timeout, the next one goes on from there. */
  ghost function Cut(seen: Bytes, polls: seq<Poll>, clock: nat -> Clock, i: nat): seq<Input>
    decreases |polls|
  {
    var k := FirstStir(seen, true, polls, 0);
    if k == |polls| then [Input(polls, clock(i), NoCommand)]
    else
      [Input(polls[..k + 1], clock(i), NoCommand)]
      + Cut(seen + Received(polls[..k + 1]), polls[k + 1..], clock, i + 1)
  }

  lemma CutStep(seen: Bytes, polls: seq<Poll>, clock: nat -> Clock, i: nat)
    ensures var k := FirstStir(seen, true, polls, 0);
      && k <= |polls|
      && Cut(seen, polls, clock, i)
         == if k == |polls| then [Input(polls, clock(i), NoCommand)]
            else [Input(polls[..k + 1], clock(i), NoCommand)]
                 + Cut(seen + Received(polls[..k + 1]), polls[k + 1..], clock, i + 1)
  {
    hide FirstStir, Received;
  }

  lemma {:induction false} CutHasNoSet(seen: Bytes, polls: seq<Poll>, clock: nat -> Clock, i: nat)
    ensures forall j :: 0 <= j < |Cut(seen, polls, clock, i)| ==> NoSet(Cut(seen, polls, clock, i)[j])
    decreases |polls|
  {
    hide FirstStir, Received;
    var k := FirstStir(seen, true, polls, 0);
    if k < |polls| {
      CutHasNoSet(seen + Received(polls[..k + 1]), polls[k + 1..], clock, i + 1);
    }
  }

  lemma {:induction false} CutClock(seen: Bytes, polls: seq<Poll>, clock: nat -> Clock, i: nat, k: nat)
    requires k < |Cut(seen, polls, clock, i)|
    ensures Cut(seen, polls, clock, i)[k].clock == clock(i + k)
    decreases |polls|
  {
    hide FirstStir, Received, Cut;
    CutStep(seen, polls, clock, i);
    var n := FirstStir(seen, true, polls, 0);
    if n < |polls| && k > 0 {
      CutClock(seen + Received(polls[..n + 1]), polls[n + 1..], clock, i + 1, k - 1);
    }
  }

  /** The first poll that ends a receive is the same if the polls stop there. */
  lemma StirWithin(seen: Bytes, polls: seq<Poll>)
    ensures var k := FirstStir(seen, true, polls, 0);
      k < |polls| ==> FirstStir(seen, true, polls[..k + 1], 0) == k
  {
    hide Rest, IsFrame, Received;
    var k := FirstStir(seen, true, polls, 0);
    if k < |polls| {
      var short := polls[..k + 1];
      forall j | 0 <= j <= k
        ensures Quiet(seen, short, j, true) == Quiet(seen, polls, j, true)
      {
        assert short[..j] == polls[..j];
      }
      assert FirstStir(seen, true, short, 0) == k;
    }
  }

  lemma StirBounds(seen: Bytes, polls: seq<Poll>)
    ensures FirstStir(seen, true, polls, 0) <= |polls|
  {
  }

  /** A listening turn over its own polls reads them all. */
  lemma ListenTurnReads(t: Tester, seen: Bytes, polls: seq<Poll>, clock: Clock)
    requires Listens(t)
    ensures var k := FirstStir(seen, true, polls, 0);
      var own := if k < |polls| then polls[..k + 1] else polls;
      var o := TurnOf(t, seen, Input(own, clock, NoCommand));
      o.seen == seen + Received(own) && o.done == (k < |polls|)
  {
    hide FrameAt, Received, Quiet, FirstStir, WaitSpec, WaitUses;
    StirWithin(seen, polls);
    StirBounds(seen, polls);
    var k := FirstStir(seen, true, polls, 0);
    var own := if k < |polls| then polls[..k + 1] else polls;
    assert own[..|own|] == own;
  }

  /** What a listening thread does with the first of its turns. */
  lemma FirstCut(pre: seq<Input>, polls: seq<Poll>, clock: Clock)
    requires RunOf(pre).going && Listens(After(RunOf(pre).turns))
    ensures var k := FirstStir(RunOf(pre).seen, true, polls, 0);
      var own := if k < |polls| then polls[..k + 1] else polls;
      var r := RunOf(pre + [Input(own, clock, NoCommand)]);
      && r.going == (k < |polls|) && r.seen == RunOf(pre).seen + Received(own) && Listens(After(r.turns))
  {
    hide TurnOf, LogOf, Step, After, Received, FirstStir, RunOf, Payloads, AcceptedFrames;
    var r := RunOf(pre);
    var t := After(r.turns);
    var k := FirstStir(r.seen, true, polls, 0);
    var own := if k < |polls| then polls[..k + 1] else polls;
    var input := Input(own, clock, NoCommand);
    ListenTurnReads(t, r.seen, polls, clock);
    ListenTurn(t, r.seen, input);
    RunSnoc(pre, input);
    TurnsSnoc(r.turns, TurnOf(t, r.seen, input).turn);
  }

  /** No poll is lost between turns: the thread's parser has seen all the bytes of the polls. */
  lemma {:induction false} CutReadsAll(pre: seq<Input>, polls: seq<Poll>, clock: nat -> Clock, i: nat)
    requires RunOf(pre).going && Listens(After(RunOf(pre).turns))
    ensures RunOf(pre + Cut(RunOf(pre).seen, polls, clock, i)).seen == RunOf(pre).seen + Received(polls)
    decreases |polls|
  {
    hide After, Received, RunOf, Cut, FirstStir, Quiet, FrameAt, Listens;
    CutStep(RunOf(pre).seen, polls, clock, i);
    var seen := RunOf(pre).seen;
    var k := FirstStir(seen, true, polls, 0);
    FirstCut(pre, polls, clock(i));
    if k < |polls| {
      var own, rest := polls[..k + 1], polls[k + 1..];
      var input := Input(own, clock(i), NoCommand);
      CutReadsAll(pre + [input], rest, clock, i + 1);
      assert pre + ([input] + Cut(seen + Received(own), rest, clock, i + 1))
          == pre + [input] + Cut(seen + Received(own), rest, clock, i + 1);
      ReceivedConcat(own, rest);
      assert own + rest == polls;
      assert seen + (Received(own) + Received(rest)) == seen + Received(own) + Received(rest);
    }
  }

  /** Communication is enabled; listen-only mode is on from the start. */
  function ListenOn(clock: Clock): seq<Input> {
    [Input([], clock, SetComm(true))]
  }

  lemma ListeningStarts(clock: Clock)
    ensures var r := RunOf(ListenOn(clock));
      r.going && r.seen == [] && r.log == [] && Listens(After(r.turns))
  {
    hide After, TurnOf, LogOf, RunOf;
    var input := ListenOn(clock)[0];
    AtBoot();
    IdleTurn(BOOT, [], input);
    RunSnoc([], input);
    TurnsSnoc([], TurnOf(BOOT, [], input).turn);
    assert [] + [input] == ListenOn(clock);
  }

  /** Frame `j` is logged under the reading `clock(k).answer` of the turn `k` that completes it. */
  ghost predicate StampedBy(start: Clock, polls: seq<Poll>, clock: nat -> Clock, j: nat, time: LogEntry.U64) {
    exists k: nat :: CompletedBy(ListenOn(start), Cut([], polls, clock, 0), k, j) && clock(k).answer == time
  }

  /** Listen-only mode from power-up: for every sequence of polls, that is whatever bytes come and wherever
      timeouts fall among them, the thread logs exactly the accepted frames of those bytes, in order, each
      under the clock reading of the turn that completes it. */
  lemma ListenedStream(polls: seq<Poll>, start: Clock, clock: nat -> Clock)
    ensures var r := RunOf(ListenOn(start) + Cut([], polls, clock, 0));
      && r.seen == Received(polls) && Payloads(r.log) == AcceptedFrames(Received(polls))
      && forall j :: 0 <= j < |r.log| ==> StampedBy(start, polls, clock, j, r.log[j].timestamp)
  {
    hide RunOf, After, Cut, Received, AcceptedFrames, Payloads, CompletedBy, StampedBy, HeardAt;
    ListeningStarts(start);
    CutHasNoSet([], polls, clock, 0);
    CutReadsAll(ListenOn(start), polls, clock, 0);
    ListeningLogsTheStream(ListenOn(start), Cut([], polls, clock, 0));
    var r := RunOf(ListenOn(start) + Cut([], polls, clock, 0));
    assert r.log[0..] == r.log && [] + Received(polls) == Received(polls);
    NothingAccepted();
    ListeningStamps(ListenOn(start), Cut([], polls, clock, 0));
    forall j | 0 <= j < |r.log|
      ensures StampedBy(start, polls, clock, j, r.log[j].timestamp)
    {
      HeardIsStamped(start, polls, clock, j, r.log[j].timestamp);
    }
  }

  lemma HeardIsStamped(start: Clock, polls: seq<Poll>, clock: nat -> Clock, j: nat, time: LogEntry.U64)
    requires HeardAt(ListenOn(start), Cut([], polls, clock, 0), j, time)
    ensures StampedBy(start, polls, clock, j, time)
  {
    hide RunOf, Cut, AcceptedFrames;
    var inputs := Cut([], polls, clock, 0);
    var k: nat :| CompletedBy(ListenOn(start), inputs, k, j) && inputs[k].clock.answer == time;
    CutClock([], polls, clock, 0, k);
  }

  lemma NothingAccepted()
    ensures AcceptedFrames([]) == [] && forall fs: seq<Bytes> :: [] + fs == fs
  {
  }
}
