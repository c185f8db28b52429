/** The start barrier: threads spin on a flag, then pass through a mutex that the system thread holds
    from before it sets the flag until its heartbeat is registered. */
module StartBarrier {
  import opened Kline

  /** The system thread, from the creation of the mutex to its message loop. */
  datatype SysPc = NoMutex | Starting | Locked | FlagSet | IdAllocated | Registered | Unlocked

  datatype WaitPc = Spinning | WantLock | HasLock | Returned

  datatype Who = System | Thread(id: nat)

  /** `waiters` holds any number of threads that call the start wait. */
  datatype State = State(sys: SysPc, isInit: bool, mutex: Option<Who>, heartbeat: bool, waiters: map<nat, WaitPc>)

  predicate Init(s: State) {
    && s.sys == NoMutex && !s.isInit && s.mutex.None? && !s.heartbeat
    && forall i :: i in s.waiters ==> s.waiters[i] == Spinning
  }

  datatype Step = SysStep | WaitStep(id: nat)

  predicate SysNext(s: State, s': State) {
    match s.sys
    case NoMutex => s' == s.(sys := Starting)
    case Starting => !s.isInit && s.mutex.None? && s' == s.(sys := Locked, mutex := Some(System))
    case Locked => s' == s.(sys := FlagSet, isInit := true)
    case FlagSet => s' == s.(sys := IdAllocated)
    case IdAllocated => s' == s.(sys := Registered, heartbeat := true)
    case Registered => s' == s.(sys := Unlocked, mutex := None)
    case Unlocked => false
  }

  predicate WaitNext(s: State, s': State, i: nat) {
    && i in s.waiters
    && match s.waiters[i]
       case Spinning => s' == if s.isInit then s.(waiters := s.waiters[i := WantLock]) else s
       case WantLock => s.mutex.None? && s' == s.(mutex := Some(Thread(i)), waiters := s.waiters[i := HasLock])
       case HasLock => s' == s.(mutex := None, waiters := s.waiters[i := Returned])
       case Returned => false
  }

  predicate Next(s: State, s': State, step: Step) {
    match step
    case SysStep => SysNext(s, s')
    case WaitStep(i) => WaitNext(s, s', i)
  }

  predicate Inv(s: State) {
    && (s.isInit <==> s.sys !in {NoMutex, Starting, Locked})
    && (s.mutex == Some(System) <==> s.sys in {Locked, FlagSet, IdAllocated, Registered})
    && (s.heartbeat <==> s.sys in {Registered, Unlocked})
    && (forall i :: i in s.waiters && s.waiters[i] != Spinning ==> s.isInit)
    && (forall i :: i in s.waiters && s.waiters[i] in {HasLock, Returned} ==> s.sys == Unlocked)
    && (forall i :: i in s.waiters && s.waiters[i] == HasLock ==> s.mutex == Some(Thread(i)))
    && (s.mutex.Some? && s.mutex.value.Thread? ==>
          s.mutex.value.id in s.waiters && s.waiters[s.mutex.value.id] == HasLock)
  }

  lemma StepKeeps(s: State, s': State, step: Step)
    requires Inv(s) && Next(s, s', step)
    ensures Inv(s') && s'.waiters.Keys == s.waiters.Keys
  {
  }

  ghost predicate Behaviour(b: seq<State>, steps: seq<Step>) {
    && |b| == |steps| + 1 && Init(b[0])
    && forall i :: 0 <= i < |steps| ==> Next(b[i], b[i + 1], steps[i])
  }

  lemma {:induction false} BehaviourInv(b: seq<State>, steps: seq<Step>, n: nat)
    requires Behaviour(b, steps) && n < |b|
    ensures Inv(b[n])
  {
    hide Next;
    if n > 0 {
      BehaviourInv(b, steps, n - 1);
      StepKeeps(b[n - 1], b[n], steps[n - 1]);
    }
  }

  /** For any number of threads and every interleaving: no thread returns from the start wait before the
      heartbeat is registered and the mutex released, and no two threads hold the mutex at once. */
  lemma NobodyStartsEarly(b: seq<State>, steps: seq<Step>, n: nat, i: nat, j: nat)
    requires Behaviour(b, steps) && n < |b| && i in b[n].waiters && j in b[n].waiters
    ensures b[n].waiters[i] == Returned ==> b[n].sys == Unlocked && b[n].heartbeat
    ensures b[n].waiters[i] == HasLock && b[n].waiters[j] == HasLock ==> i == j
  {
    BehaviourInv(b, steps, n);
  }

  ghost predicate Continues(b: seq<State>, steps: seq<Step>) {
    |b| == |steps| + 1 && forall i :: 0 <= i < |steps| ==> Next(b[i], b[i + 1], steps[i])
  }

  /** How many steps the system thread has left. */
  function SysLeft(pc: SysPc): nat {
    match pc
    case NoMutex => 6
    case Starting => 5
    case Locked => 4
    case FlagSet => 3
    case IdAllocated => 2
    case Registered => 1
    case Unlocked => 0
  }

  function WaitLeft(pc: WaitPc): nat {
    match pc
    case Spinning => 3
    case WantLock => 2
    case HasLock => 1
    case Returned => 0
  }

  function Unreturned(s: State): set<nat> {
    set i | i in s.waiters && s.waiters[i] != Returned
  }

  predicate AllReturned(s: State) {
    forall i :: i in s.waiters ==> s.waiters[i] == Returned
  }

  /** The steps of waiter `i` that are left, if it is one. */
  function LeftOf(s: State, i: nat): nat {
    if i in s.waiters then WaitLeft(s.waiters[i]) else 0
  }

  /** Who should move: the holder of the mutex, else the system thread, else waiter `i`. */
  function Mover(s: State, i: nat): Step {
    if s.mutex.Some? && s.mutex.value.Thread? then WaitStep(s.mutex.value.id)
    else if s.sys != Unlocked then SysStep
    else WaitStep(i)
  }

  lemma MoverAdvances(s: State, i: nat) returns (s': State)
    requires Inv(s) && i in Unreturned(s)
    ensures Next(s, s', Mover(s, i)) && Inv(s')
    ensures Unreturned(s') <= Unreturned(s)
    ensures Unreturned(s') == Unreturned(s) ==>
      SysLeft(s'.sys) + LeftOf(s', i) < SysLeft(s.sys) + LeftOf(s, i)
  {
    match Mover(s, i)
    case SysStep =>
      match s.sys {
        case NoMutex => s' := s.(sys := Starting);
        case Starting => s' := s.(sys := Locked, mutex := Some(System));
        case Locked => s' := s.(sys := FlagSet, isInit := true);
        case FlagSet => s' := s.(sys := IdAllocated);
        case IdAllocated => s' := s.(sys := Registered, heartbeat := true);
        case Registered => s' := s.(sys := Unlocked, mutex := None);
      }
      StepKeeps(s, s', SysStep);
    case WaitStep(k) =>
      match s.waiters[k] {
        case Spinning => s' := s.(waiters := s.waiters[k := WantLock]);
        case WantLock => s' := s.(mutex := Some(Thread(k)), waiters := s.waiters[k := HasLock]);
        case HasLock => s' := s.(mutex := None, waiters := s.waiters[k := Returned]);
          assert k in Unreturned(s) && k !in Unreturned(s');
      }
      StepKeeps(s, s', WaitStep(k));
  }

  /** Nobody waits for ever: from every state that a run can reach, some schedule lets all waiters return. */
  lemma {:induction false} AllCanReturn(s: State) returns (b: seq<State>, steps: seq<Step>)
    requires Inv(s)
    ensures Continues(b, steps) && b[0] == s
    ensures AllReturned(b[|b| - 1])
    ensures b[|b| - 1].waiters.Keys == s.waiters.Keys
    decreases |Unreturned(s)|, 100
  {
    if Unreturned(s) == {} {
      b, steps := [s], [];
      assert forall i :: i in s.waiters && s.waiters[i] != Returned ==> i in Unreturned(s);
    } else {
      var i :| i in Unreturned(s);
      b, steps := LetReturn(s, i);
    }
  }

  lemma {:induction false} LetReturn(s: State, i: nat) returns (b: seq<State>, steps: seq<Step>)
    requires Inv(s) && i in Unreturned(s)
    ensures Continues(b, steps) && b[0] == s
    ensures AllReturned(b[|b| - 1])
    ensures b[|b| - 1].waiters.Keys == s.waiters.Keys
    decreases |Unreturned(s)|, SysLeft(s.sys) + LeftOf(s, i)
  {
    hide Inv, Next;
    var s' := MoverAdvances(s, i);
    KeysStay(s, s', Mover(s, i));
    var b1, steps1;
    if Unreturned(s') == Unreturned(s) {
      b1, steps1 := LetReturn(s', i);
    } else {
      Smaller(Unreturned(s'), Unreturned(s));
      b1, steps1 := AllCanReturn(s');
    }
    b, steps := [s] + b1, [Mover(s, i)] + steps1;
    forall k | 0 <= k < |steps|
      ensures Next(b[k], b[k + 1], steps[k])
    {
      if k > 0 {
        assert Next(b1[k - 1], b1[k - 1 + 1], steps1[k - 1]);
      }
    }
  }

  lemma KeysStay(s: State, s': State, step: Step)
    requires Inv(s) && Next(s, s', step)
    ensures s'.waiters.Keys == s.waiters.Keys
  {
    StepKeeps(s, s', step);
  }

  lemma Smaller(a: set<nat>, b: set<nat>)
    requires a <= b && a != b
    ensures |a| < |b|
  {
    var x :| x in b && x !in a;
    assert a <= b - {x};
    Within(a, b - {x});
  }

  lemma {:induction false} Within(a: set<nat>, b: set<nat>)
    requires a <= b
    ensures |a| <= |b|
    decreases |a|
  {
    if a != {} {
      var x :| x in a;
      Within(a - {x}, b - {x});
    }
  }
}
