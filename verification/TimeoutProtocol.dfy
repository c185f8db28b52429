/** Arming and cancelling the receive timeout against the timer thread, step by step. Registering,
    deregistering and running callbacks all happen under the time server's mutex; the flag is
    written and read without it. */
module TimeoutProtocol {
  import opened Kline

  /** Progress of one critical section, and of the write to the flag that follows a deregistration. */
  datatype Stage = Want | Hold | Drop | Clear

  /** The thread that waits: `Stop(false, _)` disarms at the start of a wait, `Arm` registers,
      `Polling` is the receive loop, `Stop(true, _)` disarms at its end. */
  datatype CommPc = Stop(ending: bool, stage: Stage) | Arm(stage: Stage) | Polling

  /** The timer thread: `Scan` is inside the update with the mutex held, `Call(k)` about to run the
      callback that wait `k` registered. */
  datatype TimerPc = Asleep | Woken | Scan | Call(k: nat)

  datatype Who = Waiter | Timer | Other(id: nat)

  /** `wait` numbers the current wait, `fired` are the waits whose callback has run, `expired` those
      that ended because the flag was read as set. */
  datatype State = State(wait: nat, comm: CommPc, timer: TimerPc, mutex: Option<Who>,
                         registered: Option<nat>, flag: bool, fired: set<nat>, expired: set<nat>)

  /** A wait begins, perhaps with the flag and a registration left over from earlier ones. */
  predicate Init(s: State) {
    && s.comm == Stop(false, Want) && s.timer == Asleep && s.mutex.None?
    && (s.registered.Some? ==> s.registered.value < s.wait)
    && s.fired == {} && s.expired == {}
  }

  datatype Step =
    | CommLock | CommAct | CommUnlock | CommClear | PollNothing | PollMessage | PollTimeout
    | TimerIrq | TimerLock | TimerPick | TimerCall | TimerUnlock
    | OtherLock(id: nat) | OtherUnlock(id: nat)

  predicate HasStage(c: CommPc) {
    c.Stop? || c.Arm?
  }

  predicate CommNext(s: State, s': State, step: Step) {
    match step
    case CommLock =>
      && HasStage(s.comm) && s.comm.stage == Want && s.mutex.None?
      && s' == s.(mutex := Some(Waiter), comm := s.comm.(stage := Hold))
    case CommAct =>
      && HasStage(s.comm) && s.comm.stage == Hold
      && s' == s.(registered := if s.comm.Stop? then None else Some(s.wait), comm := s.comm.(stage := Drop))
    case CommUnlock =>
      && HasStage(s.comm) && s.comm.stage == Drop
      && s' == s.(mutex := None, comm := if s.comm.Stop? then s.comm.(stage := Clear) else Polling)
    case CommClear =>
      && s.comm.Stop? && s.comm.stage == Clear
      && s' == if s.comm.ending then s.(flag := false, wait := s.wait + 1, comm := Stop(false, Want))
               else s.(flag := false, comm := Arm(Want))
    case PollNothing => s.comm == Polling && !s.flag && s' == s
    case PollMessage => s.comm == Polling && s' == s.(comm := Stop(true, Want))
    case PollTimeout =>
      s.comm == Polling && s.flag && s' == s.(comm := Stop(true, Want), expired := s.expired + {s.wait})
    case _ => false
  }

  predicate TimerNext(s: State, s': State, step: Step) {
    match step
    case TimerIrq => s.timer == Asleep && s' == s.(timer := Woken)
    case TimerLock => s.timer == Woken && s.mutex.None? && s' == s.(timer := Scan, mutex := Some(Timer))
    case TimerPick =>
      s.timer == Scan && s.registered.Some? && s' == s.(timer := Call(s.registered.value), registered := None)
    case TimerCall =>
      s.timer.Call? && s' == s.(timer := Scan, flag := true, fired := s.fired + {s.timer.k})
    case TimerUnlock => s.timer == Scan && s' == s.(timer := Asleep, mutex := None)
    case _ => false
  }

  predicate OtherNext(s: State, s': State, step: Step) {
    match step
    case OtherLock(id) => s.mutex.None? && s' == s.(mutex := Some(Other(id)))
    case OtherUnlock(id) => s.mutex == Some(Other(id)) && s' == s.(mutex := None)
    case _ => false
  }

  predicate Next(s: State, s': State, step: Step) {
    CommNext(s, s', step) || TimerNext(s, s', step) || OtherNext(s, s', step)
  }

  /** The flag has been cleared in this wait. */
  predicate Cleared(c: CommPc) {
    !(c.Stop? && !c.ending)
  }

  /** The callback of this wait may be registered or running. */
  predicate Armed(c: CommPc) {
    c == Arm(Drop) || c == Polling || c == Stop(true, Want) || c == Stop(true, Hold)
  }

  /** A callback of an earlier wait may still be registered or running. */
  predicate NotYetDisarmed(c: CommPc) {
    c == Stop(false, Want) || c == Stop(false, Hold)
  }

  predicate Owned(s: State, k: nat) {
    (k == s.wait && Armed(s.comm)) || (k < s.wait && NotYetDisarmed(s.comm))
  }

  predicate Inv(s: State) {
    && (HasStage(s.comm) ==> !(s.comm.Arm? && s.comm.stage == Clear))
    && ((HasStage(s.comm) && (s.comm.stage == Hold || s.comm.stage == Drop)) <==> s.mutex == Some(Waiter))
    && ((s.timer == Scan || s.timer.Call?) <==> s.mutex == Some(Timer))
    && (s.registered.Some? ==> Owned(s, s.registered.value))
    && (s.timer.Call? ==> Owned(s, s.timer.k) && s.registered.None?)
    && (Cleared(s.comm) && s.flag ==> s.wait in s.fired)
    && (Cleared(s.comm) && s.comm != Stop(true, Clear) && s.wait in s.fired ==> s.flag)
    && (s.wait in s.fired ==> Cleared(s.comm))
    && s.expired <= s.fired
    && (forall k :: k in s.fired ==> k <= s.wait)
  }

  lemma InitInv(s: State)
    requires Init(s)
    ensures Inv(s)
  {
  }

  lemma CommKeeps(s: State, s': State, step: Step)
    requires Inv(s) && CommNext(s, s', step)
    ensures Inv(s')
  {
  }

  lemma TimerKeeps(s: State, s': State, step: Step)
    requires Inv(s) && TimerNext(s, s', step)
    ensures Inv(s')
  {
  }

  lemma OtherKeeps(s: State, s': State, step: Step)
    requires Inv(s) && OtherNext(s, s', step)
    ensures Inv(s')
  {
  }

  ghost predicate Behaviour(b: seq<State>, steps: seq<Step>) {
    && |b| == |steps| + 1 && Init(b[0])
    && forall i :: 0 <= i < |steps| ==> Next(b[i], b[i + 1], steps[i])
  }

  lemma {:induction false} BehaviourInv(b: seq<State>, steps: seq<Step>, i: nat)
    requires Behaviour(b, steps) && i < |b|
    ensures Inv(b[i])
  {
    hide Inv, CommNext, TimerNext, OtherNext, Init;
    if i == 0 {
      InitInv(b[0]);
    } else {
      BehaviourInv(b, steps, i - 1);
      var s, s', step := b[i - 1], b[i], steps[i - 1];
      assert Next(s, s', step);
      if CommNext(s, s', step) {
        CommKeeps(s, s', step);
      } else if TimerNext(s, s', step) {
        TimerKeeps(s, s', step);
      } else {
        OtherKeeps(s, s', step);
      }
    }
  }

  /** In every interleaving, while a wait polls, the flag is set if and only if the callback that this
      very wait registered has run; and only waits whose own callback ran ever end by timeout. */
  lemma TimeoutIsOwn(b: seq<State>, steps: seq<Step>, i: nat)
    requires Behaviour(b, steps) && i < |b|
    ensures b[i].comm == Polling ==> (b[i].flag <==> b[i].wait in b[i].fired)
    ensures b[i].expired <= b[i].fired
  {
    BehaviourInv(b, steps, i);
  }

  /** A run from `b[0]` on. */
  ghost predicate Continues(b: seq<State>, steps: seq<Step>) {
    |b| == |steps| + 1 && forall i :: 0 <= i < |steps| ==> Next(b[i], b[i + 1], steps[i])
  }

  /** The callback of the wait that polls is registered, about to run, or has run. */
  predicate TimeoutDue(s: State) {
    s.comm == Polling && (s.registered.Some? || s.timer.Call? || s.flag)
  }

  /** One step nearer to the timeout. */
  function Urgency(s: State): nat {
    if s.flag then 0
    else if s.timer.Call? then 1
    else if s.timer == Scan then 2
    else if s.timer == Woken then 3 + (if s.mutex.Some? then 1 else 0)
    else 5 + (if s.mutex.Some? then 1 else 0)
  }

  function Urge(s: State): Step {
    if s.timer.Call? then TimerCall
    else if s.timer == Scan then TimerPick
    else if s.mutex.Some? && s.mutex.value.Other? then OtherUnlock(s.mutex.value.id)
    else if s.timer == Woken then TimerLock
    else TimerIrq
  }

  lemma UrgeAdvances(s: State) returns (s': State)
    requires Inv(s) && TimeoutDue(s) && !s.flag
    ensures Next(s, s', Urge(s)) && Inv(s') && TimeoutDue(s') && s'.wait == s.wait && Urgency(s') < Urgency(s)
  {
    match Urge(s)
    case TimerCall => s' := s.(timer := Scan, flag := true, fired := s.fired + {s.timer.k});
    case TimerPick => s' := s.(timer := Call(s.registered.value), registered := None);
    case OtherUnlock(_) => s' := s.(mutex := None);
    case TimerLock => s' := s.(timer := Scan, mutex := Some(Timer));
    case TimerIrq => s' := s.(timer := Woken);
    if Urge(s).OtherUnlock? {
      OtherKeeps(s, s', Urge(s));
    } else {
      TimerKeeps(s, s', Urge(s));
    }
  }

  lemma Prepend(s: State, step: Step, b: seq<State>, steps: seq<Step>)
    requires Continues(b, steps) && Next(s, b[0], step)
    ensures Continues([s] + b, [step] + steps)
  {
    hide Next;
    var c, all := [s] + b, [step] + steps;
    forall i | 0 <= i < |all|
      ensures Next(c[i], c[i + 1], all[i])
    {
      if i > 0 {
        assert Next(b[i - 1], b[i - 1 + 1], steps[i - 1]);
      }
    }
  }

  /** A polling wait that finds the flag set ends by its timeout. */
  lemma OneStep(s: State)
    requires s.comm == Polling && s.flag
    ensures Continues([s, s.(comm := Stop(true, Want), expired := s.expired + {s.wait})], [PollTimeout])
  {
  }

  /** No wait is stuck: whenever a wait polls and its timeout is due, some run ends it by that timeout. */
  lemma {:induction false} TimeoutCanCome(s: State) returns (b: seq<State>, steps: seq<Step>)
    requires Inv(s) && TimeoutDue(s)
    ensures Continues(b, steps) && b != [] && b[0] == s
    ensures var last := b[|b| - 1]; last.comm == Stop(true, Want) && s.wait in last.expired
    decreases Urgency(s)
  {
    hide Inv, Urge, Continues, Next;
    if s.flag {
      OneStep(s);
      b, steps := [s, s.(comm := Stop(true, Want), expired := s.expired + {s.wait})], [PollTimeout];
    } else {
      var s' := UrgeAdvances(s);
      var b1, steps1 := TimeoutCanCome(s');
      b, steps := [s] + b1, [Urge(s)] + steps1;
      Prepend(s, Urge(s), b1, steps1);
      assert b[|b| - 1] == b1[|b1| - 1];
    }
  }

  /** While a wait polls, its callback is registered, about to run, or has run. */
  lemma PollingIsDue(b: seq<State>, steps: seq<Step>, i: nat)
    requires Behaviour(b, steps) && i < |b| && b[i].comm == Polling
    ensures TimeoutDue(b[i])
  {
    DueInv(b, steps, i);
  }

  /** From the moment it is registered the callback is not forgotten before the wait ends. */
  predicate NotForgotten(s: State) {
    s.comm == Polling || s.comm == Arm(Drop) ==> s.registered.Some? || s.timer.Call? || s.flag
  }

  lemma {:induction false} DueInv(b: seq<State>, steps: seq<Step>, i: nat)
    requires Behaviour(b, steps) && i < |b|
    ensures NotForgotten(b[i])
  {
    if i > 0 {
      DueInv(b, steps, i - 1);
      BehaviourInv(b, steps, i - 1);
      assert Next(b[i - 1], b[i - 1 + 1], steps[i - 1]);
    }
  }
}
