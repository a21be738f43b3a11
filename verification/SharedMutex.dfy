/**
The reader/writer lock of h9d: two mutexes, a flag, a reader counter and two condition
variables. Every numbered program point of the four operations is one atomic step of one
thread; any number of threads interleave, condition variables may wake spuriously, and a
notify call is a step of its own. A thread does not re-enter the lock.
*/
module SharedMutex {
  import opened Options
  import opened Sums

  /** Where a thread is. Each name says what the thread does next. */
  datatype Pc =
    | Idle
    // lock()
    | WAcquireMain | WSetFlag | WAcquireCounter | WTest | WAsleep | WWoken | WReleaseCounter
    // the writer has returned from lock(); then unlock()
    | WHolds | WReleaseMain | WNotifyAll
    // lock_shared()
    | RAcquireMain | RTest | RAsleep | RWoken | RAcquireCounter | RIncrement | RReleaseCounter | RReleaseMain
    // the reader has returned from lock_shared(); then unlock_shared()
    | RHolds | SDecrement | SReleaseCounter | SNotifyOne

  /** main and counterMtx name the thread that owns the mutex; flag is main_lock. */
  datatype State = State(pcs: seq<Pc>, flag: bool, main: Option<nat>, counterMtx: Option<nat>, counter: int)

  ghost predicate Init(s: State) {
    && (forall t :: 0 <= t < |s.pcs| ==> s.pcs[t] == Idle)
    && !s.flag && s.main == None && s.counterMtx == None && s.counter == 0
  }

  /** A thread calls lock or lock_shared, takes its next step, or wakes without a notify.
      A step that notifies one waiter names the waiter it wakes, if there is one. */
  datatype Action = Call(t: nat, writer: bool) | Run(t: nat, wakes: Option<nat>) | Spurious(t: nat)

  /** Whether thread t can take its next step: mutexes must be free, sleepers cannot move. */
  predicate CanRun(s: State, t: nat, wakes: Option<nat>) {
    && t < |s.pcs|
    && (wakes.Some? ==> s.pcs[t] == SNotifyOne && wakes.value < |s.pcs| && s.pcs[wakes.value] == WAsleep)
    && (s.pcs[t] == SNotifyOne && wakes.None? ==> forall u :: 0 <= u < |s.pcs| ==> s.pcs[u] != WAsleep)
    && !s.pcs[t].Idle? && !s.pcs[t].WAsleep? && !s.pcs[t].RAsleep?
    && (TakesMain(s.pcs[t]) ==> s.main == None)
    && (TakesCounter(s.pcs[t]) ==> s.counterMtx == None)
  }

  predicate TakesMain(pc: Pc) { pc.WAcquireMain? || pc.RAcquireMain? || pc.RWoken? }

  predicate TakesCounter(pc: Pc) { pc.WAcquireCounter? || pc.WWoken? || pc.RAcquireCounter? || pc.RHolds? }

  /** wait() gives its mutex back when the predicate fails. */
  predicate DropsMain(pc: Pc, flag: bool) { pc.WReleaseMain? || pc.RReleaseMain? || (pc.RTest? && flag) }

  predicate DropsCounter(pc: Pc, counter: int) {
    pc.WReleaseCounter? || pc.RReleaseCounter? || pc.SReleaseCounter? || (pc.WTest? && counter != 0)
  }

  function NextPc(pc: Pc, flag: bool, counter: int): Pc {
    match pc
    case WAcquireMain => WSetFlag
    case WSetFlag => WAcquireCounter
    case WAcquireCounter | WWoken => WTest
    case WTest => if counter == 0 then WReleaseCounter else WAsleep
    case WReleaseCounter => WHolds
    case WHolds => WReleaseMain
    case WReleaseMain => WNotifyAll
    case RAcquireMain | RWoken => RTest
    case RTest => if flag then RAsleep else RAcquireCounter
    case RAcquireCounter => RIncrement
    case RIncrement => RReleaseCounter
    case RReleaseCounter => RReleaseMain
    case RReleaseMain => RHolds
    case RHolds => SDecrement
    case SDecrement => SReleaseCounter
    case SReleaseCounter => SNotifyOne
    case WNotifyAll | SNotifyOne | Idle | WAsleep | RAsleep => Idle
  }

  /** notify_all on lock_all. */
  function WakeReaders(pcs: seq<Pc>): seq<Pc> {
    seq(|pcs|, i requires 0 <= i < |pcs| => if pcs[i] == RAsleep then RWoken else pcs[i])
  }

  function RunThread(s: State, t: nat, wakes: Option<nat>): State
    requires CanRun(s, t, wakes)
  {
    var pc := s.pcs[t];
    var moved := s.pcs[t := NextPc(pc, s.flag, s.counter)];
    State(
      if pc.WNotifyAll? then WakeReaders(moved) else if wakes.Some? then moved[wakes.value := WWoken] else moved,
      if pc.WSetFlag? then true else if pc.WHolds? then false else s.flag,
      if TakesMain(pc) then Some(t) else if DropsMain(pc, s.flag) then None else s.main,
      if TakesCounter(pc) then Some(t) else if DropsCounter(pc, s.counter) then None else s.counterMtx,
      if pc.RIncrement? then s.counter + 1 else if pc.SDecrement? then s.counter - 1 else s.counter)
  }

  ghost predicate Step(s: State, a: Action, s': State) {
    match a
    case Call(t, writer) =>
      t < |s.pcs| && s.pcs[t] == Idle && s' == s.(pcs := s.pcs[t := if writer then WAcquireMain else RAcquireMain])
    case Run(t, wakes) => CanRun(s, t, wakes) && s' == RunThread(s, t, wakes)
    case Spurious(t) =>
      && t < |s.pcs|
      && (s.pcs[t] == WAsleep || s.pcs[t] == RAsleep)
      && s' == s.(pcs := s.pcs[t := if s.pcs[t] == WAsleep then WWoken else RWoken])
  }

  /** A run: states joined by actions. */
  ghost predicate Path(states: seq<State>, acts: seq<Action>) {
    && |states| == |acts| + 1
    && forall i :: 0 <= i < |acts| ==> Step(states[i], acts[i], states[i + 1])
  }

  // ---------------------------------------------------------------- the invariant

  ghost predicate OwnsMain(pc: Pc) {
    || Flagged(pc) || pc.WSetFlag? || pc.WReleaseMain?
    || pc.RTest? || pc.RAcquireCounter? || pc.RIncrement? || pc.RReleaseCounter? || pc.RReleaseMain?
  }

  ghost predicate OwnsCounter(pc: Pc) {
    pc.WTest? || pc.WReleaseCounter? || pc.RIncrement? || pc.RReleaseCounter? || pc.SDecrement? || pc.SReleaseCounter?
  }

  /** Program points of a writer that has set main_lock and not yet cleared it. */
  ghost predicate Flagged(pc: Pc) {
    pc.WAcquireCounter? || pc.WTest? || pc.WAsleep? || pc.WWoken? || pc.WReleaseCounter? || pc.WHolds?
  }

  /** A writer that has seen the counter at zero and still owns main_lock_mtx. */
  ghost predicate PastTest(pc: Pc) { pc.WReleaseCounter? || pc.WHolds? || pc.WReleaseMain? }

  /** The thread has read access: counted in shared_counter and not yet released. */
  function Counted(pc: Pc): nat {
    if pc.RReleaseCounter? || pc.RReleaseMain? || pc.RHolds? || pc.SDecrement? then 1 else 0
  }

  /** The thread has decremented the counter and has not yet called notify_one. */
  ghost predicate OwesNotify(pc: Pc) {
    pc.SReleaseCounter? || pc.SNotifyOne?
  }

  ghost predicate Mutexes(s: State) {
    && (forall t :: 0 <= t < |s.pcs| ==> (OwnsMain(s.pcs[t]) <==> s.main == Some(t)))
    && (forall t :: 0 <= t < |s.pcs| ==> (OwnsCounter(s.pcs[t]) <==> s.counterMtx == Some(t)))
    && (s.main.Some? ==> s.main.value < |s.pcs|)
    && (s.counterMtx.Some? ==> s.counterMtx.value < |s.pcs|)
    && (s.flag <==> s.main.Some? && Flagged(s.pcs[s.main.value]))
  }

  ghost predicate NoLostWakeup(s: State) {
    forall t :: 0 <= t < |s.pcs| && s.pcs[t] == WAsleep && s.counter == 0 ==>
      exists u :: 0 <= u < |s.pcs| && OwesNotify(s.pcs[u])
  }

  ghost predicate Inv(s: State) {
    && Mutexes(s)
    && s.counter == Sum(s.pcs, Counted)
    && (forall t :: 0 <= t < |s.pcs| ==> (!s.pcs[t].RAsleep? && !s.pcs[t].RWoken?))
    && (forall t :: 0 <= t < |s.pcs| && PastTest(s.pcs[t]) ==> s.counter == 0)
    && NoLostWakeup(s)
  }

  lemma InitInv(s: State)
    requires Init(s)
    ensures Inv(s)
  {
    SumOfZeros(s.pcs, Counted);
  }

  /** What a step does when no reader sleeps: it moves its own thread and at most one woken writer. */
  ghost predicate Moves(s: State, a: Action, s': State) {
    && a.t < |s.pcs| == |s'.pcs|
    && var pc := s.pcs[a.t];
    && var pc' := s'.pcs[a.t];
    match a
    case Run(t, wakes) =>
      && !pc.Idle? && !pc.WAsleep? && !pc.RAsleep?
      && pc' == NextPc(pc, s.flag, s.counter)
      && s'.counter == s.counter + (if pc.RIncrement? then 1 else 0) - (if pc.SDecrement? then 1 else 0)
      && if wakes.Some?
         then wakes.value < |s.pcs| && s.pcs[wakes.value] == WAsleep && pc.SNotifyOne?
           && s'.pcs == s.pcs[t := pc'][wakes.value := WWoken]
         else s'.pcs == s.pcs[t := pc']
    case Call(t, writer) =>
      s'.counter == s.counter && s'.pcs == s.pcs[t := pc'] && pc == Idle
        && pc' == if writer then WAcquireMain else RAcquireMain
    case Spurious(t) =>
      s'.counter == s.counter && s'.pcs == s.pcs[t := pc'] && pc == WAsleep && pc' == WWoken
  }

  lemma StepMovesOne(s: State, a: Action, s': State)
    requires Inv(s) && Step(s, a, s')
    ensures Moves(s, a, s')
  {
    if a.Run? && s.pcs[a.t].WNotifyAll? {
      var moved := s.pcs[a.t := Idle];
      assert forall i :: 0 <= i < |moved| ==> WakeReaders(moved)[i] == moved[i];
    }
  }

  /** How a step changes a sum over the threads. */
  lemma MoveChangesSum(s: State, a: Action, s': State, weight: Pc -> nat)
    requires Moves(s, a, s')
    ensures Sum(s'.pcs, weight) + weight(s.pcs[a.t]) == Sum(s.pcs, weight) + weight(s'.pcs[a.t])
      + if a.Run? && a.wakes.Some? then weight(WWoken) - weight(WAsleep) else 0
  {
    SumUpdate(s.pcs, a.t, s'.pcs[a.t], weight);
    if a.Run? && a.wakes.Some? {
      SumUpdate(s.pcs[a.t := s'.pcs[a.t]], a.wakes.value, WWoken, weight);
    }
  }

  /** shared_counter stays the number of threads that hold it up. */
  lemma CounterKept(s: State, a: Action, s': State)
    requires Moves(s, a, s') && s.counter == Sum(s.pcs, Counted)
    ensures s'.counter == Sum(s'.pcs, Counted)
  {
    MoveChangesSum(s, a, s', Counted);
  }

  /** Taking and giving back the mutexes is what the program points say. */
  lemma Ownership(pc: Pc, flag: bool, counter: int)
    requires !pc.Idle? && !pc.WAsleep? && !pc.RAsleep?
    ensures OwnsMain(NextPc(pc, flag, counter)) <==> TakesMain(pc) || (OwnsMain(pc) && !DropsMain(pc, flag))
    ensures OwnsCounter(NextPc(pc, flag, counter))
      <==> TakesCounter(pc) || (OwnsCounter(pc) && !DropsCounter(pc, counter))
    ensures DropsMain(pc, flag) ==> OwnsMain(pc)
    ensures DropsCounter(pc, counter) ==> OwnsCounter(pc)
    ensures Flagged(NextPc(pc, flag, counter)) <==> pc.WSetFlag? || (Flagged(pc) && !pc.WHolds?)
  {
  }

  lemma MainKept(s: State, a: Action, s': State, u: nat)
    requires Mutexes(s) && Step(s, a, s') && Moves(s, a, s') && u < |s'.pcs|
    ensures OwnsMain(s'.pcs[u]) <==> s'.main == Some(u)
  {
    hide NextPc, WakeReaders, OwnsCounter, TakesCounter, DropsCounter;
    if a.Run? {
      Ownership(s.pcs[a.t], s.flag, s.counter);
    }
    assert u != a.t ==> s'.pcs[u] == s.pcs[u] || (s.pcs[u] == WAsleep && s'.pcs[u] == WWoken);
  }

  lemma CounterMutexKept(s: State, a: Action, s': State, u: nat)
    requires Mutexes(s) && Step(s, a, s') && Moves(s, a, s') && u < |s'.pcs|
    ensures OwnsCounter(s'.pcs[u]) <==> s'.counterMtx == Some(u)
  {
    hide NextPc, WakeReaders, OwnsMain, TakesMain, DropsMain, Flagged;
    if a.Run? {
      Ownership(s.pcs[a.t], s.flag, s.counter);
    }
    assert u != a.t ==> s'.pcs[u] == s.pcs[u] || (s.pcs[u] == WAsleep && s'.pcs[u] == WWoken);
  }

  /** The flag is set exactly while the owner of main_lock_mtx is a writer that has set it. */
  lemma FlagKept(s: State, a: Action, s': State)
    requires Mutexes(s) && Step(s, a, s') && Moves(s, a, s')
    ensures s'.main.Some? ==> s'.main.value < |s'.pcs|
    ensures s'.counterMtx.Some? ==> s'.counterMtx.value < |s'.pcs|
    ensures s'.flag <==> s'.main.Some? && Flagged(s'.pcs[s'.main.value])
  {
    hide NextPc, WakeReaders, OwnsCounter;
    if a.Run? {
      Ownership(s.pcs[a.t], s.flag, s.counter);
    }
  }

  lemma MutexesKept(s: State, a: Action, s': State)
    requires Mutexes(s) && Step(s, a, s') && Moves(s, a, s')
    ensures Mutexes(s')
  {
    hide Step, Moves, OwnsMain, OwnsCounter;
    FlagKept(s, a, s');
    forall u | 0 <= u < |s'.pcs|
      ensures OwnsMain(s'.pcs[u]) <==> s'.main == Some(u)
      ensures OwnsCounter(s'.pcs[u]) <==> s'.counterMtx == Some(u)
    {
      MainKept(s, a, s', u);
      CounterMutexKept(s, a, s', u);
    }
  }

  lemma NoLostWakeupKept(s: State, a: Action, s': State)
    requires Inv(s) && Step(s, a, s')
    ensures NoLostWakeup(s')
  {
    StepMovesOne(s, a, s');
    forall t | 0 <= t < |s'.pcs| && s'.pcs[t] == WAsleep && s'.counter == 0
      ensures exists u :: 0 <= u < |s'.pcs| && OwesNotify(s'.pcs[u])
    {
      if s.pcs[t] == WAsleep && s.counter == 0 {
        var u :| 0 <= u < |s.pcs| && OwesNotify(s.pcs[u]);
        assert s.main == Some(t);
        assert OwesNotify(s'.pcs[u]);
      } else {
        assert OwesNotify(s'.pcs[a.t]);
      }
    }
  }

  /** A writer past its test keeps the counter at zero until it lets main_lock_mtx go. */
  lemma WriterKeepsZero(s: State, a: Action, s': State)
    requires Inv(s) && Step(s, a, s')
    ensures forall t :: 0 <= t < |s'.pcs| && PastTest(s'.pcs[t]) ==> s'.counter == 0
  {
    StepMovesOne(s, a, s');
    if a.Run? && s.pcs[a.t] == SDecrement {
      SumBoundsElement(s.pcs, a.t, Counted);
    }
    forall t | 0 <= t < |s'.pcs| && PastTest(s'.pcs[t])
      ensures s'.counter == 0
    {
      assert t != a.t ==> s.pcs[t] == s'.pcs[t] && OwnsMain(s.pcs[t]);
    }
  }

  /** A reader that has main_lock_mtx finds the flag clear and goes on. */
  lemma NoReaderSleeps(s: State, a: Action, s': State)
    requires Inv(s) && Step(s, a, s') && Moves(s, a, s')
    ensures forall t :: 0 <= t < |s'.pcs| ==> !s'.pcs[t].RAsleep? && !s'.pcs[t].RWoken?
  {
    hide Sum, NoLostWakeup, Step, WakeReaders;
    forall t | 0 <= t < |s'.pcs|
      ensures !s'.pcs[t].RAsleep? && !s'.pcs[t].RWoken?
    {
      assert t != a.t ==> s'.pcs[t] == s.pcs[t] || s'.pcs[t] == WWoken;
      assert s.pcs[a.t].RTest? ==> s.main == Some(a.t);
    }
  }

  lemma StepKeepsInv(s: State, a: Action, s': State)
    requires Inv(s) && Step(s, a, s')
    ensures Inv(s')
  {
    StepMovesOne(s, a, s');
    MutexesKept(s, a, s');
    CounterKept(s, a, s');
    NoLostWakeupKept(s, a, s');
    WriterKeepsZero(s, a, s');
    NoReaderSleeps(s, a, s');
    hide Step, Moves, Mutexes, NoLostWakeup, PastTest, Sum;
  }

  lemma {:induction false} RunKeepsInv(states: seq<State>, acts: seq<Action>)
    requires Path(states, acts) && Inv(states[0])
    ensures forall i :: 0 <= i < |states| ==> Inv(states[i])
  {
    if acts != [] {
      StepKeepsInv(states[0], acts[0], states[1]);
      RunKeepsInv(states[1..], acts[1..]);
      assert forall i :: 1 <= i < |states| ==> states[i] == states[1..][i - 1];
    }
  }

  // ---------------------------------------------------------------- safety over whole runs

  /** Between the return of lock_shared and the decrement in unlock_shared. */
  ghost predicate Reads(pc: Pc) { pc.RHolds? || pc.SDecrement? }

  /** Main result: at every point of every run, a writer that has returned from lock is alone. */
  lemma MutualExclusion(states: seq<State>, acts: seq<Action>, i: nat, t: nat, u: nat)
    requires Path(states, acts) && Init(states[0])
    requires i < |states| && t < |states[i].pcs| && u < |states[i].pcs|
    requires states[i].pcs[t] == WHolds
    ensures u != t ==> states[i].pcs[u] != WHolds
    ensures !Reads(states[i].pcs[u])
  {
    InitInv(states[0]);
    RunKeepsInv(states, acts);
    SumBoundsElement(states[i].pcs, u, Counted);
  }

  /** Main result: at every point of every run no wake-up is lost, at most one thread sleeps on
      lock_main (so notify_one reaches it) and no reader sleeps on lock_all. */
  lemma WakeupsReachTheWriter(states: seq<State>, acts: seq<Action>, i: nat, t: nat, u: nat)
    requires Path(states, acts) && Init(states[0])
    requires i < |states| && t < |states[i].pcs| && u < |states[i].pcs|
    ensures states[i].pcs[t] == WAsleep && states[i].counter == 0
      ==> exists r :: 0 <= r < |states[i].pcs| && OwesNotify(states[i].pcs[r])
    ensures states[i].pcs[t] == states[i].pcs[u] == WAsleep ==> t == u
    ensures states[i].pcs[t] != RAsleep
  {
    InitInv(states[0]);
    RunKeepsInv(states, acts);
  }

  /** From the moment main_lock is set until it is cleared, the reader counter cannot grow. */
  lemma CounterNeverGrowsUnderWriter(s: State, a: Action, s': State)
    requires Inv(s) && Step(s, a, s') && s.flag
    ensures s'.counter <= s.counter
  {
  }

  // ---------------------------------------------------------------- progress

  /** The steps a thread still has to take, with two to spare for one more wake-up of a writer. */
  function Weight(pc: Pc): nat {
    match pc
    case Idle => 0
    case WNotifyAll => 1
    case WReleaseMain => 2
    case WHolds => 3
    case WReleaseCounter => 4
    case WAsleep => 5
    case WTest => 6
    case WWoken => 7
    case WAcquireCounter => 7
    case WSetFlag => 8
    case WAcquireMain => 9
    case SNotifyOne => 3
    case SReleaseCounter => 4
    case SDecrement => 5
    case RHolds => 6
    case RReleaseMain => 7
    case RReleaseCounter => 8
    case RIncrement => 9
    case RAcquireCounter => 10
    case RTest => 11
    case RAcquireMain | RWoken | RAsleep => 12
  }

  function Remaining(s: State): nat { Sum(s.pcs, Weight) }

  ghost predicate AllIdle(s: State) { forall t :: 0 <= t < |s.pcs| ==> s.pcs[t] == Idle }

  /** Main result: as long as some thread is inside the lock, some thread can take a step that is
      neither a new call nor a spurious wake-up. Lock holders count as able to release. */
  lemma NeverStuck(s: State) returns (t: nat, wakes: Option<nat>)
    requires Inv(s) && !AllIdle(s)
    ensures CanRun(s, t, wakes)
  {
    hide Sum, PastTest;
    wakes := None;
    if s.counterMtx.Some? {
      t := s.counterMtx.value;
    } else if u :| 0 <= u < |s.pcs| && (s.pcs[u].WNotifyAll? || s.pcs[u].RHolds? || s.pcs[u].SNotifyOne?) {
      t := u;
      if s.pcs[u] == SNotifyOne {
        if w :| 0 <= w < |s.pcs| && s.pcs[w] == WAsleep {
          wakes := Some(w);
        }
      }
    } else if s.main.Some? {
      t := s.main.value;
      assert s.pcs[t] == WAsleep ==> s.counter > 0;
      if s.pcs[t] == WAsleep {
        var r := SumHasWitness(s.pcs, Counted);
        assert false;
      }
    } else {
      t :| 0 <= t < |s.pcs| && s.pcs[t] != Idle;
    }
  }

  lemma WeightDrops(pc: Pc, flag: bool, counter: int)
    requires !pc.Idle? && !pc.WAsleep? && !pc.RAsleep? && !(pc.RTest? && flag)
    ensures Weight(NextPc(pc, flag, counter)) < Weight(pc)
  {
  }

  /** A thread's own step uses up remaining work even when it wakes the writer to test again. */
  lemma RunShrinksRemaining(s: State, a: Action, s': State)
    requires Moves(s, a, s')
    requires a.Run? && s.pcs[a.t].RTest? ==> !s.flag
    ensures a.Run? ==> Remaining(s') < Remaining(s)
    ensures a.Spurious? ==> Remaining(s') <= Remaining(s) + 2
    ensures a.Call? ==> Remaining(s') <= Remaining(s) + 12
  {
    MoveChangesSum(s, a, s', Weight);
    if a.Run? {
      WeightDrops(s.pcs[a.t], s.flag, s.counter);
    }
  }

  function Runs(acts: seq<Action>): nat {
    if acts == [] then 0 else (if acts[0].Run? then 1 else 0) + Runs(acts[1..])
  }

  /** What the environment adds: twelve steps for a call, two for a spurious wake-up. */
  function Added(acts: seq<Action>): nat {
    if acts == [] then 0
      else (match acts[0] case Call(_, _) => 12 case Spurious(_) => 2 case Run(_, _) => 0) + Added(acts[1..])
  }

  /** Main result: every run does a bounded amount of work. The threads' own steps are at most the
      remaining work plus what calls and spurious wake-ups added. */
  lemma {:induction false} WorkIsBounded(states: seq<State>, acts: seq<Action>)
    requires Path(states, acts) && Inv(states[0])
    ensures Runs(acts) + Remaining(states[|acts|]) <= Remaining(states[0]) + Added(acts)
  {
    if acts != [] {
      StepKeepsInv(states[0], acts[0], states[1]);
      StepMovesOne(states[0], acts[0], states[1]);
      assert acts[0].Run? && states[0].pcs[acts[0].t].RTest? ==> !states[0].flag;
      hide Step, Inv, Moves, Remaining;
      RunShrinksRemaining(states[0], acts[0], states[1]);
      WorkIsBounded(states[1..], acts[1..]);
      assert states[1..][|acts| - 1] == states[|acts|];
    }
  }

  /** Main result: with no further calls or spurious wake-ups, every schedule that cannot be
      continued has served every thread, after at most twelve steps a thread. */
  lemma EveryRequestIsServed(states: seq<State>, acts: seq<Action>)
    requires Path(states, acts) && Inv(states[0])
    requires forall i :: 0 <= i < |acts| ==> acts[i].Run?
    requires forall t, wakes :: !CanRun(states[|acts|], t, wakes)
    ensures AllIdle(states[|acts|])
    ensures |acts| <= 12 * |states[0].pcs|
  {
    RunKeepsInv(states, acts);
    if !AllIdle(states[|acts|]) {
      var t, wakes := NeverStuck(states[|acts|]);
      assert false;
    }
    WorkIsBounded(states, acts);
    OnlyRuns(acts);
    SumAtMost(states[0].pcs, Weight, 12);
  }

  lemma {:induction false} OnlyRuns(acts: seq<Action>)
    requires forall i :: 0 <= i < |acts| ==> acts[i].Run?
    ensures Runs(acts) == |acts| && Added(acts) == 0
  {
    if acts != [] {
      assert acts[0].Run?;
      OnlyRuns(acts[1..]);
    }
  }

  // ---------------------------------------------------------------- releasing

  ghost predicate Releasing(pc: Pc) { pc.WHolds? || pc.WReleaseMain? || pc.WNotifyAll? }

  lemma ReleaseStep(s: State, a: Action, s': State, t: nat)
    requires Inv(s) && Step(s, a, s') && t < |s.pcs| && Releasing(s.pcs[t])
    ensures t < |s'.pcs|
    ensures Releasing(s'.pcs[t]) || (a.Run? && a.t == t && s.pcs[t] == WNotifyAll)
  {
    StepMovesOne(s, a, s');
    hide Step, Sum, NoLostWakeup;
  }

  /** Main result: a writer does not get from holding the lock to being idle without notifying all readers that
      sleep on lock_all. */
  lemma {:induction false} UnlockNotifies(states: seq<State>, acts: seq<Action>, t: nat) returns (i: nat)
    requires Path(states, acts) && Inv(states[0])
    requires t < |states[0].pcs| && Releasing(states[0].pcs[t])
    requires t < |states[|acts|].pcs| && states[|acts|].pcs[t] == Idle
    ensures i < |acts| && acts[i].Run? && acts[i].t == t && t < |states[i].pcs| && states[i].pcs[t] == WNotifyAll
  {
    ReleaseStep(states[0], acts[0], states[1], t);
    if acts[0].Run? && acts[0].t == t && states[0].pcs[t] == WNotifyAll {
      i := 0;
    } else {
      StepKeepsInv(states[0], acts[0], states[1]);
      hide Step, Inv;
      assert states[1..][|acts| - 1] == states[|acts|];
      var j := UnlockNotifies(states[1..], acts[1..], t);
      assert states[1..][j] == states[j + 1] && acts[1..][j] == acts[j + 1];
      i := j + 1;
    }
  }

  // ---------------------------------------------------------------- a writer's wait

  /** As Weight, but a thread that has to get main_lock_mtx first does not count. */
  function WaitWeight(pc: Pc): nat { if pc.WAcquireMain? || pc.RAcquireMain? then 0 else Weight(pc) }

  function WaitWork(s: State): nat { Sum(s.pcs, WaitWeight) }

  function SpuriousWakeups(acts: seq<Action>): nat {
    if acts == [] then 0 else (if acts[0].Spurious? then 1 else 0) + SpuriousWakeups(acts[1..])
  }

  /** While the flag is set, new calls add nothing to the threads' work. */
  lemma WaitShrinks(s: State, a: Action, s': State)
    requires Inv(s) && Step(s, a, s') && s.flag
    ensures WaitWork(s') + (if a.Run? then 1 else 0) <= WaitWork(s) + if a.Spurious? then 2 else 0
  {
    StepMovesOne(s, a, s');
    MoveChangesSum(s, a, s', WaitWeight);
    hide Sum, NoLostWakeup, Moves, WakeReaders;
    if a.Run? {
      assert !s.pcs[a.t].RTest?;
      WeightDrops(s.pcs[a.t], s.flag, s.counter);
    }
  }

  /** A waiting writer stays one until it holds the lock. */
  lemma WaiterStays(s: State, a: Action, s': State, w: nat)
    requires Inv(s) && Step(s, a, s') && w < |s.pcs| && Flagged(s.pcs[w]) && s.pcs[w] != WHolds
    ensures w < |s'.pcs| && Flagged(s'.pcs[w]) && s.flag
  {
    StepMovesOne(s, a, s');
    hide Sum, NoLostWakeup;
  }

  lemma {:induction false} WaitIsBounded(states: seq<State>, acts: seq<Action>, w: nat) returns (i: nat)
    requires Path(states, acts) && Inv(states[0]) && w < |states[0].pcs| && Flagged(states[0].pcs[w])
    ensures i <= |acts| && w < |states[i].pcs|
    ensures states[i].pcs[w] == WHolds
      || Runs(acts) + WaitWork(states[|acts|]) <= WaitWork(states[0]) + 2 * SpuriousWakeups(acts)
  {
    i := 0;
    if acts != [] && states[0].pcs[w] != WHolds {
      WaiterStays(states[0], acts[0], states[1], w);
      WaitShrinks(states[0], acts[0], states[1]);
      StepKeepsInv(states[0], acts[0], states[1]);
      hide Step, Inv, Flagged, WaitWork;
      i := WaitIsBounded(states[1..], acts[1..], w);
      assert states[1..][i] == states[i + 1] && states[1..][|acts| - 1] == states[|acts|];
      i := i + 1;
    }
  }

  /** Main result: whatever calls arrive, a writer that has set main_lock holds the lock before the
      threads have taken more than seven steps each and two for each spurious wake-up. */
  lemma WriterIsServed(states: seq<State>, acts: seq<Action>, w: nat) returns (i: nat)
    requires Path(states, acts) && Inv(states[0]) && w < |states[0].pcs| && Flagged(states[0].pcs[w])
    requires Runs(acts) > 7 * |states[0].pcs| + 2 * SpuriousWakeups(acts)
    ensures i <= |acts| && w < |states[i].pcs| && states[i].pcs[w] == WHolds
  {
    i := WaitIsBounded(states, acts, w);
    forall t | 0 <= t < |states[0].pcs|
      ensures WaitWeight(states[0].pcs[t]) <= 7
    {
      assert OwnsMain(states[0].pcs[t]) ==> t == w;
    }
    SumAtMost(states[0].pcs, WaitWeight, 7);
  }
}
