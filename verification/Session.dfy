/** The tester's session: a four-state machine driven by answers, timeouts and console commands.
    Every turn of the thread's loop adds events to a trace; the theorems below hold of all traces. */
module Session {
  import opened Kline
  import opened Comm
  import opened Parser

  datatype CommState = GpioInit | SendEcuInit | SendReq0 | SendReq1

  const WAKE_UP: Bytes := [0xFE, 0x04, 0xFF, 0xFF]
  const INIT: Bytes := [0x72, 0x05, 0x00, 0xF0, 0x99]
  const QUERY_10: Bytes := [0x72, 0x08, 0x72, 0x10, 0x00, 0x80, 0x00, 0x84]
  const QUERY_D1: Bytes := [0x72, 0x08, 0x72, 0xD1, 0x00, 0x06, 0x00, 0x3D]

  datatype Tester = Tester(enabled: bool, listenOnly: bool, state: CommState, gpioRetries: int, initRetries: int)

  /** As hobd_module_init leaves it. */
  const BOOT := Tester(false, true, GpioInit, 0, 0)

  datatype Command = NoCommand | Query | SetComm(on: bool) | SetListenOnly(on: bool)

  /** What one turn of the loop meets: the outcome of its wait, a frame heard while listening, a command. */
  datatype Turn = Turn(wait: WaitResult, heard: Option<Bytes>, command: Command)

  datatype Event =
    | Pulse                                       // the k-line is pulled low and released
    | Tx(frame: Bytes)
    | Answer(state: CommState, frame: Bytes)      // the awaited response, accepted
    | Timeout(state: CommState)
    | Heard(frame: Bytes)                         // listen-only reception
    | Set(state: CommState, command: Command)     // a SET command arriving in `state`

  function Wanted(state: CommState): Byte {
    if state == SendEcuInit then SUBTYPE_INIT else SUBTYPE_TABLE_SUBGROUP
  }

  /** The frames a state sends before it waits. */
  function FramesOf(state: CommState): seq<Bytes> {
    match state
    case GpioInit => []
    case SendEcuInit => [WAKE_UP, INIT]
    case SendReq0 => [QUERY_10]
    case SendReq1 => [QUERY_D1]
  }

  function Sends(state: CommState): seq<Event> {
    seq(|FramesOf(state)|, i requires 0 <= i < |FramesOf(state)| => Tx(FramesOf(state)[i]))
  }

  function NextState(state: CommState, wait: WaitResult): CommState {
    match state
    case GpioInit => SendEcuInit
    case SendEcuInit => if wait.Found? then SendReq0 else GpioInit
    case SendReq0 => if wait.Found? then SendReq1 else SendEcuInit
    case SendReq1 => if wait.Found? then SendReq0 else SendEcuInit
  }

  /** comm_update_state. A wait that has not ended leaves the state alone. */
  function Update(t: Tester, wait: WaitResult): (Tester, seq<Event>) {
    if t.state == GpioInit then
      (t.(state := SendEcuInit, gpioRetries := (t.gpioRetries + 1) % 0x10000), [Pulse])
    else
      var t' := if t.state == SendEcuInit then t.(initRetries := (t.initRetries + 1) % 0x10000) else t;
      match wait
      case Found(f) => (t'.(state := NextState(t.state, wait)), Sends(t.state) + [Answer(t.state, f)])
      case Lapsed => (t'.(state := NextState(t.state, wait)), Sends(t.state) + [Timeout(t.state)])
      case Blocked => (t', Sends(t.state))
  }

  function Act(t: Tester, turn: Turn): (Tester, seq<Event>) {
    if !t.enabled then (t, [])
    else if !t.listenOnly then Update(t, turn.wait)
    else (t, if turn.heard.Some? then [Heard(turn.heard.value)] else [])
  }

  function Obey(t: Tester, c: Command): (Tester, seq<Event>) {
    match c
    case NoCommand => (t, [])
    case Query => (t, [])
    case SetComm(on) => (t.(enabled := on, state := GpioInit), [Set(t.state, c)])
    case SetListenOnly(on) => (t.(listenOnly := on, state := GpioInit), [Set(t.state, c)])
  }

  /** The wait of this turn has not ended. */
  predicate Stuck(t: Tester, turn: Turn) {
    t.enabled && !t.listenOnly && t.state != GpioInit && turn.wait.Blocked?
  }

  /** One turn of the loop: act, then obey the command that is waiting, if any. */
  function Step(t: Tester, turn: Turn): (Tester, seq<Event>) {
    var (t1, e1) := Act(t, turn);
    if Stuck(t, turn) then (t1, e1)
    else var (t2, e2) := Obey(t1, turn.command); (t2, e1 + e2)
  }

  /** A wait only ever ends with a response of the subtype it is for. */
  predicate Plausible(t: Tester, turn: Turn) {
    turn.wait.Found? ==> IsResponse(turn.wait.frame, Wanted(t.state))
  }

  /** The tester after a list of turns from boot, and the trace those turns leave. */
  function After(turns: seq<Turn>): Tester {
    if turns == [] then BOOT else Step(After(turns[..|turns| - 1]), turns[|turns| - 1]).0
  }

  function Trace(turns: seq<Turn>): seq<Event> {
    if turns == [] then []
    else
      var n := |turns| - 1;
      Trace(turns[..n]) + Step(After(turns[..n]), turns[n]).1
  }

  /** The last wait of the run has not ended. */
  predicate Unfinished(turns: seq<Turn>) {
    turns != [] && Stuck(After(turns[..|turns| - 1]), turns[|turns| - 1])
  }

  /** Nothing follows an unfinished wait, and waits end only with what they were for. */
  predicate Legal(turns: seq<Turn>) {
    turns == [] ||
    var n := |turns| - 1;
    Legal(turns[..n]) && !Unfinished(turns[..n]) && Plausible(After(turns[..n]), turns[n])
  }

  // ------------------------------------------------------------ the order of transmissions

  /** The mode a trace puts the tester in: the last SET command of each kind counts. */
  function Mode(trace: seq<Event>): (bool, bool) {
    if trace == [] then (BOOT.enabled, BOOT.listenOnly)
    else
      var n := |trace| - 1;
      var m := Mode(trace[..n]);
      match trace[n]
      case Set(_, SetComm(on)) => (on, m.1)
      case Set(_, SetListenOnly(on)) => (m.0, on)
      case _ => m
  }

  /** At `j` the ECU answered a wake-up and an init query, and no timeout or SET came after. */
  predicate LinkedAt(trace: seq<Event>, j: nat) {
    && 2 <= j < |trace|
    && trace[j - 2] == Tx(WAKE_UP) && trace[j - 1] == Tx(INIT)
    && trace[j].Answer? && IsResponse(trace[j].frame, SUBTYPE_INIT)
    && forall k :: j < k < |trace| ==> !trace[k].Timeout? && !trace[k].Set?
  }

  ghost predicate Linked(trace: seq<Event>) {
    exists j: nat :: LinkedAt(trace, j)
  }

  /** The last two events are the table-10 query and its answer. */
  predicate Answered10(trace: seq<Event>) {
    var n := |trace|;
    && n >= 2
    && trace[n - 2] == Tx(QUERY_10)
    && trace[n - 1].Answer? && IsResponse(trace[n - 1].frame, SUBTYPE_TABLE_SUBGROUP)
  }

  /** When frame `f` may be sent after `trace`. */
  ghost predicate MaySend(trace: seq<Event>, f: Bytes) {
    && Mode(trace) == (true, false)
    && (|| f == WAKE_UP
        || (f == INIT && trace != [] && trace[|trace| - 1] == Tx(WAKE_UP))
        || (f == QUERY_10 && Linked(trace))
        || (f == QUERY_D1 && Linked(trace) && Answered10(trace)))
  }

  /** Every transmission in the trace was due when it was made. */
  ghost predicate Disciplined(trace: seq<Event>) {
    forall i :: 0 <= i < |trace| && trace[i].Tx? ==> MaySend(trace[..i], trace[i].frame)
  }

  /** What holds between turns. */
  ghost predicate Steady(t: Tester, trace: seq<Event>) {
    && Mode(trace) == (t.enabled, t.listenOnly)
    && (t.state != GpioInit ==> t.enabled && !t.listenOnly)
    && (t.state == SendReq0 || t.state == SendReq1 ==> Linked(trace))
    && (t.state == SendReq1 ==> Answered10(trace))
  }

  /** Adding an event: the mode, the link and the discipline each survive what they should survive. */
  lemma Snoc(trace: seq<Event>, e: Event)
    ensures !e.Set? ==> Mode(trace + [e]) == Mode(trace)
    ensures Linked(trace) && !e.Timeout? && !e.Set? ==> Linked(trace + [e])
    ensures Disciplined(trace) && (e.Tx? ==> MaySend(trace, e.frame)) ==> Disciplined(trace + [e])
  {
    var tr := trace + [e];
    assert tr[..|trace|] == trace;
    if Linked(trace) && !e.Timeout? && !e.Set? {
      var j: nat :| LinkedAt(trace, j);
      assert LinkedAt(tr, j);
    }
    if Disciplined(trace) && (e.Tx? ==> MaySend(trace, e.frame)) {
      forall i | 0 <= i < |tr| && tr[i].Tx?
        ensures MaySend(tr[..i], tr[i].frame)
      {
        assert i < |trace| ==> tr[..i] == trace[..i];
      }
    }
  }

  lemma SetMode(trace: seq<Event>, s: CommState, c: Command)
    requires c.SetComm? || c.SetListenOnly?
    ensures var m := Mode(trace);
      Mode(trace + [Set(s, c)]) == if c.SetComm? then (c.on, m.1) else (m.0, c.on)
  {
    assert (trace + [Set(s, c)])[..|trace|] == trace;
  }

  lemma InitTurn(trace: seq<Event>, last: Event)
    requires Disciplined(trace) && Mode(trace) == (true, false) && !last.Tx? && !last.Set?
    ensures var tr := trace + [Tx(WAKE_UP)] + [Tx(INIT)];
      && Disciplined(tr) && Disciplined(tr + [last]) && Mode(tr + [last]) == (true, false)
      && (last.Answer? && IsResponse(last.frame, SUBTYPE_INIT) ==> Linked(tr + [last]))
  {
    hide Linked, Mode, Disciplined;
    var a := trace + [Tx(WAKE_UP)];
    var b := a + [Tx(INIT)];
    Snoc(trace, Tx(WAKE_UP));
    Snoc(a, Tx(INIT));
    Snoc(b, last);
    LinkMade(trace, last);
  }

  lemma LinkMade(trace: seq<Event>, last: Event)
    ensures last.Answer? && IsResponse(last.frame, SUBTYPE_INIT)
      ==> Linked(trace + [Tx(WAKE_UP)] + [Tx(INIT)] + [last])
  {
    if last.Answer? && IsResponse(last.frame, SUBTYPE_INIT) {
      assert LinkedAt(trace + [Tx(WAKE_UP)] + [Tx(INIT)] + [last], |trace| + 2);
    }
  }

  lemma QueryTurn(trace: seq<Event>, q: Bytes, last: Event)
    requires Disciplined(trace) && Linked(trace) && MaySend(trace, q) && !last.Tx? && !last.Set?
    ensures var tr := trace + [Tx(q)];
      && Disciplined(tr) && Disciplined(tr + [last]) && Mode(tr + [last]) == (true, false)
      && (last.Answer? ==> Linked(tr + [last]))
  {
    hide Linked, Mode, Disciplined;
    Snoc(trace, Tx(q));
    Snoc(trace + [Tx(q)], last);
  }

  lemma ActSteady(t: Tester, turn: Turn, trace: seq<Event>)
    requires Steady(t, trace) && Disciplined(trace) && Plausible(t, turn)
    ensures Disciplined(trace + Act(t, turn).1)
    ensures !Stuck(t, turn) ==> Steady(Act(t, turn).0, trace + Act(t, turn).1)
  {
    hide Linked, Mode, Disciplined, LinkedAt;
    var (t1, e1) := Act(t, turn);
    if !t.enabled || t.listenOnly {
      if e1 == [] {
        assert trace + e1 == trace;
      } else {
        Snoc(trace, e1[0]);
      }
    } else if t.state == GpioInit {
      Snoc(trace, Pulse);
    } else {
      var last := if turn.wait.Found? then Answer(t.state, turn.wait.frame) else Timeout(t.state);
      if t.state == SendEcuInit {
        InitTurn(trace, last);
        assert trace + Sends(t.state) == trace + [Tx(WAKE_UP)] + [Tx(INIT)];
      } else {
        QueryTurn(trace, Sends(t.state)[0].frame, last);
        assert trace + Sends(t.state) == trace + [Sends(t.state)[0]];
      }
      assert trace + (Sends(t.state) + [last]) == (trace + Sends(t.state)) + [last];
    }
  }

  lemma StepSteady(t: Tester, turn: Turn, trace: seq<Event>)
    requires Steady(t, trace) && Disciplined(trace) && Plausible(t, turn)
    ensures Disciplined(trace + Step(t, turn).1)
    ensures !Stuck(t, turn) ==> Steady(Step(t, turn).0, trace + Step(t, turn).1)
  {
    hide Linked, Mode, Disciplined, Act;
    ActSteady(t, turn, trace);
    if !Stuck(t, turn) {
      var (t1, e1) := Act(t, turn);
      var e2 := Obey(t1, turn.command).1;
      assert trace + (e1 + e2) == (trace + e1) + e2;
      if e2 != [] {
        Snoc(trace + e1, e2[0]);
        SetMode(trace + e1, t1.state, turn.command);
      } else {
        assert (trace + e1) + e2 == trace + e1;
      }
    }
  }

  /** In every run, every transmission is one of four constant frames, made while enabled and not
      listening; an init query directly follows a wake-up; a table query needs an accepted answer to
      wake-up and init since the last timeout or SET; and a table-D1 query directly follows the
      answered table-10 query. */
  lemma {:induction false} EveryTransmissionIsDue(turns: seq<Turn>)
    requires Legal(turns)
    ensures Disciplined(Trace(turns))
    ensures !Unfinished(turns) ==> Steady(After(turns), Trace(turns))
  {
    if turns == [] {
    } else {
      var n := |turns| - 1;
      EveryTransmissionIsDue(turns[..n]);
      StepSteady(After(turns[..n]), turns[n], Trace(turns[..n]));
    }
  }

  // ------------------------------------------------------------ conservation of the session's flow

  /** How often each thing happened in a trace. */
  datatype Tally = Tally(
    pulses: nat, inits: nat, req0s: nat, req1s: nat,
    initAnswers: nat, req0Answers: nat, req1Answers: nat,
    initTimeouts: nat, req0Timeouts: nat, req1Timeouts: nat,
    initSets: nat, req0Sets: nat, req1Sets: nat)

  const ZERO := Tally(0, 0, 0, 0, 0, 0, 0, 0, 0, 0, 0, 0, 0)

  function Add(y: Tally, e: Event): Tally {
    match e
    case Pulse => y.(pulses := y.pulses + 1)
    case Tx(f) =>
      if f == INIT then y.(inits := y.inits + 1)
      else if f == QUERY_10 then y.(req0s := y.req0s + 1)
      else if f == QUERY_D1 then y.(req1s := y.req1s + 1)
      else y
    case Answer(SendEcuInit, _) => y.(initAnswers := y.initAnswers + 1)
    case Answer(SendReq0, _) => y.(req0Answers := y.req0Answers + 1)
    case Answer(SendReq1, _) => y.(req1Answers := y.req1Answers + 1)
    case Timeout(SendEcuInit) => y.(initTimeouts := y.initTimeouts + 1)
    case Timeout(SendReq0) => y.(req0Timeouts := y.req0Timeouts + 1)
    case Timeout(SendReq1) => y.(req1Timeouts := y.req1Timeouts + 1)
    case Set(SendEcuInit, _) => y.(initSets := y.initSets + 1)
    case Set(SendReq0, _) => y.(req0Sets := y.req0Sets + 1)
    case Set(SendReq1, _) => y.(req1Sets := y.req1Sets + 1)
    case _ => y
  }

  function TallyFrom(y: Tally, trace: seq<Event>): Tally {
    if trace == [] then y else Add(TallyFrom(y, trace[..|trace| - 1]), trace[|trace| - 1])
  }

  lemma {:induction false} TallyAppend(y: Tally, a: seq<Event>, b: seq<Event>)
    ensures TallyFrom(y, a + b) == TallyFrom(TallyFrom(y, a), b)
  {
    if b == [] {
      assert a + b == a;
    } else {
      var n := |b| - 1;
      assert (a + b)[..|a| + n] == a + b[..n];
      TallyAppend(y, a, b[..n]);
    }
  }

  lemma TallyShort(y: Tally, a: Event, b: Event, c: Event)
    ensures TallyFrom(y, []) == y
    ensures TallyFrom(y, [a]) == Add(y, a)
    ensures TallyFrom(y, [a, b]) == Add(Add(y, a), b)
    ensures TallyFrom(y, [a, b, c]) == Add(Add(Add(y, a), b), c)
  {
    hide Add;
    assert [a][..0] == [] && [a, b][..1] == [a] && [a, b, c][..2] == [a, b];
  }

  function In(t: Tester, s: CommState): nat {
    if t.state == s then 1 else 0
  }

  /** Each state is entered as often as it is left, up to the visit in progress, and the two 16-bit
      retry counters are the numbers of wake pulses and init queries modulo 65536. */
  predicate Balanced(t: Tester, y: Tally) {
    && y.pulses + In(t, GpioInit) == 1 + y.initTimeouts + y.initSets + y.req0Sets + y.req1Sets
    && y.inits + In(t, SendEcuInit) + y.initSets == y.pulses + y.req0Timeouts + y.req1Timeouts
    && y.req0s + In(t, SendReq0) + y.req0Sets == y.initAnswers + y.req1Answers
    && y.req1s + In(t, SendReq1) + y.req1Sets == y.req0Answers
    && t.gpioRetries == y.pulses % 0x10000
    && t.initRetries == y.inits % 0x10000
  }

  lemma DistinctFrames()
    ensures WAKE_UP != INIT && WAKE_UP != QUERY_10 && WAKE_UP != QUERY_D1
    ensures INIT != QUERY_10 && INIT != QUERY_D1 && QUERY_10 != QUERY_D1
  {
    assert |WAKE_UP| == 4 && |INIT| == 5 && |QUERY_10| == |QUERY_D1| == 8 && QUERY_10[3] != QUERY_D1[3];
  }

  /** A turn's own events, before any command, keep the balance. */
  lemma ActBalanced(t: Tester, turn: Turn, y: Tally)
    requires Balanced(t, y) && !Stuck(t, turn)
    ensures Balanced(Act(t, turn).0, TallyFrom(y, Act(t, turn).1))
  {
    hide TallyFrom, WAKE_UP, INIT, QUERY_10, QUERY_D1;
    if !t.enabled || t.listenOnly {
      TallyShort(y, Heard(if turn.heard.Some? then turn.heard.value else []), Pulse, Pulse);
    } else if t.state == GpioInit {
      CounterWraps(y.pulses);
      TallyShort(y, Pulse, Pulse, Pulse);
    } else {
      UpdateBalanced(t, turn.wait, y);
    }
  }

  lemma UpdateBalanced(t: Tester, wait: WaitResult, y: Tally)
    requires Balanced(t, y) && t.state != GpioInit && !wait.Blocked?
    ensures Balanced(Update(t, wait).0, TallyFrom(y, Update(t, wait).1))
  {
    hide TallyFrom, WAKE_UP, INIT, QUERY_10, QUERY_D1;
    DistinctFrames();
    var last := if wait.Found? then Answer(t.state, wait.frame) else Timeout(t.state);
    if t.state == SendEcuInit {
      CounterWraps(y.inits);
      TallyShort(y, Tx(WAKE_UP), Tx(INIT), last);
      assert Sends(t.state) + [last] == [Tx(WAKE_UP), Tx(INIT), last];
    } else {
      TallyShort(y, Sends(t.state)[0], last, Pulse);
      assert Sends(t.state) + [last] == [Sends(t.state)[0], last];
    }
  }

  lemma ObeyBalanced(t: Tester, c: Command, y: Tally)
    requires Balanced(t, y)
    ensures Balanced(Obey(t, c).0, TallyFrom(y, Obey(t, c).1))
  {
    hide TallyFrom;
    TallyShort(y, Set(t.state, c), Pulse, Pulse);
  }

  /** In every run, SET commands included, the flow through the four states is conserved. */
  lemma {:induction false} FlowIsConserved(turns: seq<Turn>)
    requires Legal(turns) && !Unfinished(turns)
    ensures Balanced(After(turns), TallyFrom(ZERO, Trace(turns)))
  {
    hide Balanced, Act, Obey, Stuck;
    if turns == [] {
      assert Balanced(BOOT, ZERO) by { BootBalanced(); }
    } else {
      var n := |turns| - 1;
      var t, turn := After(turns[..n]), turns[n];
      FlowIsConserved(turns[..n]);
      var (t1, e1) := Act(t, turn);
      var e2 := Obey(t1, turn.command).1;
      var tr := Trace(turns[..n]);
      var y := TallyFrom(ZERO, tr);
      ActBalanced(t, turn, y);
      ObeyBalanced(t1, turn.command, TallyFrom(y, e1));
      TallyAppend(y, e1, e2);
      TallyAppend(ZERO, tr, e1 + e2);
    }
  }

  lemma BootBalanced()
    ensures Balanced(BOOT, ZERO)
  {
  }
}
