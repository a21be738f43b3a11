/**
How other threads hand messages to a client's worker thread in h9d: a mutex, a FIFO queue and an
event token that is set only when the queue goes from empty to one element. Each program point
is one atomic step; any number of producers interleave with one worker, the socket and a closer.
*/
module AsyncHandoff {
  import opened Sums

  type Message = seq<nat>

  /** A producer inside send_msg. Each name says what it does next. */
  datatype Producer = Ready | Locking(msg: Message) | Pushing(msg: Message) | Testing | Unlocking

  /** The worker in thread() and thread_send_async_msg(). Batch is the loop over the events that one
      wait returned; the flag says whether the async event among them is still to be handled. */
  datatype Worker =
    | LoopHead
    | Waiting
    | Batch(async: bool)
    | DrainLock
    | DrainPop
    | DrainUnlock(msg: Message, last: bool)
    | DrainSend(msg: Message, last: bool)
    | Exited
    | Crashed(msg: Message, last: bool) // the send threw, which ends the program

  datatype Owner = Nobody | ByProducer(p: nat) | ByWorker

  /** pending counts the triggers of the event token since the last wait; closed says that the worker has
      closed the socket; pushed and sent are the messages in the order of the push under the mutex and of
      the hand-over to the socket. */
  datatype State = State(
    producers: seq<Producer>, worker: Worker, mutex: Owner, queue: seq<Message>,
    pending: nat, running: bool, closed: bool, pushed: seq<Message>, sent: seq<Message>)

  /** Produce and Work are the threads' own steps; the rest comes from outside: a new call of send_msg, a
      readable socket, the handling of a socket event (which closes the socket if the peer is gone, and may
      find the peer gone when it replies), a send that reports the peer gone, and the destructor's close. */
  datatype Action =
    | CallSend(p: nat, msg: Message)
    | Produce(p: nat)
    | Work(peerGone: bool)
    | SocketReady
    | HandleSocket(closes: bool, peerGone: bool)
    | Close

  ghost predicate Own(a: Action) { a.Produce? || a.Work? }

  ghost predicate Init(s: State) {
    && (forall p :: 0 <= p < |s.producers| ==> s.producers[p] == Ready)
    && s.worker == LoopHead && s.mutex == Nobody && s.queue == [] && s.pending == 0
    && s.running && !s.closed
    && s.pushed == [] && s.sent == []
  }

  predicate ProducerCanRun(s: State, p: nat) {
    !s.worker.Crashed? && p < |s.producers| && !s.producers[p].Ready? && (s.producers[p].Locking? ==> s.mutex == Nobody)
  }

  function RunProducer(s: State, p: nat): State
    requires ProducerCanRun(s, p)
  {
    match s.producers[p]
    case Locking(m) => s.(mutex := ByProducer(p), producers := s.producers[p := Pushing(m)])
    case Pushing(m) => s.(queue := s.queue + [m], pushed := s.pushed + [m], producers := s.producers[p := Testing])
    case Testing =>
      s.(pending := if |s.queue| == 1 then s.pending + 1 else s.pending, producers := s.producers[p := Unlocking])
    case Unlocking => s.(mutex := Nobody, producers := s.producers[p := Ready])
  }

  /** The worker blocks in wait without an event and at the mutex while a producer has it. The pop is
      only reached through the assertion that the queue is not empty. */
  predicate WorkerCanRun(s: State) {
    && !s.worker.Exited? && !s.worker.Crashed?
    && (s.worker.Waiting? ==> s.pending > 0)
    && (s.worker.DrainLock? ==> s.mutex == Nobody)
    && (s.worker.DrainPop? ==> s.queue != [])
  }

  function RunWorker(s: State, peerGone: bool): State
    requires WorkerCanRun(s)
  {
    match s.worker
    case LoopHead => s.(worker := if s.running then Waiting else Exited)
    case Waiting => s.(worker := Batch(true), pending := 0)
    case Batch(async) => s.(worker := if async then DrainLock else LoopHead)
    case DrainLock => s.(worker := DrainPop, mutex := ByWorker)
    case DrainPop => s.(worker := DrainUnlock(s.queue[0], |s.queue| == 1), queue := s.queue[1..])
    case DrainUnlock(m, last) => s.(worker := DrainSend(m, last), mutex := Nobody)
    case DrainSend(m, last) =>
      if s.closed then s.(worker := Crashed(m, last)) else
      s.(worker := if last then Batch(false) else DrainLock, sent := s.sent + [m], running := s.running && !peerGone)
  }

  ghost predicate Step(s: State, a: Action, s': State) {
    && !s.worker.Crashed?
    && match a
    case CallSend(p, m) =>
      p < |s.producers| && s.producers[p].Ready? && s' == s.(producers := s.producers[p := Locking(m)])
    case Produce(p) => ProducerCanRun(s, p) && s' == RunProducer(s, p)
    case Work(peerGone) => WorkerCanRun(s) && s' == RunWorker(s, peerGone)
    case SocketReady => s.worker.Waiting? && s' == s.(worker := Batch(s.pending > 0), pending := 0)
    case HandleSocket(closes, peerGone) =>
      s.worker.Batch? && !s.closed && s' == s.(running := s.running && !closes && !peerGone, closed := closes)
    case Close => s' == s.(running := false)
  }

  ghost predicate Path(states: seq<State>, acts: seq<Action>) {
    && |states| == |acts| + 1
    && forall i :: 0 <= i < |acts| ==> Step(states[i], acts[i], states[i + 1])
  }

  // ---------------------------------------------------------------- the invariant

  /** The message the worker has popped and not yet handed to the socket. */
  function InHand(w: Worker): seq<Message> {
    if w.DrainUnlock? || w.DrainSend? || w.Crashed? then [w.msg] else []
  }

  /** The worker has an async event or more messages of its drain loop still to handle, or had when the
      program ended. */
  predicate WillDrain(w: Worker) {
    match w
    case Batch(async) => async
    case DrainLock | DrainPop => true
    case DrainUnlock(_, last) => !last
    case DrainSend(_, last) => !last
    case Crashed(_, last) => !last
    case _ => false
  }

  /** A producer holds the mutex between its push and its test of the size. */
  predicate WillTrigger(s: State) {
    s.mutex.ByProducer? && s.mutex.p < |s.producers| && s.producers[s.mutex.p].Testing? && |s.queue| == 1
  }

  /** Everything that will make the worker look at the queue. */
  function Tokens(s: State): nat {
    s.pending + (if WillDrain(s.worker) then 1 else 0) + (if WillTrigger(s) then 1 else 0)
  }

  ghost predicate Locked(s: State) {
    && (forall p :: 0 <= p < |s.producers| ==>
         (s.producers[p].Pushing? || s.producers[p].Testing? || s.producers[p].Unlocking?
          <==> s.mutex == ByProducer(p)))
    && (s.worker.DrainPop? || s.worker.DrainUnlock? <==> s.mutex == ByWorker)
    && (s.mutex.ByProducer? ==> s.mutex.p < |s.producers|)
  }

  ghost predicate InOrder(s: State) { s.pushed == s.sent + InHand(s.worker) + s.queue }

  ghost predicate Inv(s: State) {
    && Locked(s)
    && Tokens(s) == (if s.queue == [] then 0 else 1)
    && InOrder(s)
  }

  lemma LockedKept(s: State, a: Action, s': State)
    requires Locked(s) && Step(s, a, s')
    ensures Locked(s')
  {
  }

  lemma TokensKept(s: State, a: Action, s': State)
    requires Locked(s) && Step(s, a, s')
    requires Tokens(s) == if s.queue == [] then 0 else 1
    ensures Tokens(s') == if s'.queue == [] then 0 else 1
  {
    match a
    case Produce(p) =>
      assert s.producers[p].Testing? || s.producers[p].Pushing? ==> s.mutex == ByProducer(p);
    case _ =>
  }

  lemma PushKeepsOrder(s: State, p: nat)
    requires InOrder(s) && ProducerCanRun(s, p)
    ensures InOrder(RunProducer(s, p))
  {
    if s.producers[p].Pushing? {
      var m := s.producers[p].msg;
      assert s.sent + InHand(s.worker) + (s.queue + [m]) == (s.sent + InHand(s.worker) + s.queue) + [m];
    }
  }

  lemma WorkKeepsOrder(s: State, peerGone: bool)
    requires InOrder(s) && WorkerCanRun(s)
    ensures InOrder(RunWorker(s, peerGone))
  {
    match s.worker
    case DrainPop =>
      assert s.sent + [] + s.queue == s.sent + [s.queue[0]] + s.queue[1..];
    case DrainSend(m, _) =>
      assert s.sent + [m] + s.queue == (s.sent + [m]) + [] + s.queue;
    case _ =>
  }

  lemma OrderKept(s: State, a: Action, s': State)
    requires InOrder(s) && Step(s, a, s')
    ensures InOrder(s')
  {
    hide RunProducer, RunWorker, ProducerCanRun, WorkerCanRun;
    match a
    case Produce(p) => PushKeepsOrder(s, p);
    case Work(peerGone) => WorkKeepsOrder(s, peerGone);
    case _ =>
  }

  lemma StepKeepsInv(s: State, a: Action, s': State)
    requires Inv(s) && Step(s, a, s')
    ensures Inv(s')
  {
    LockedKept(s, a, s');
    TokensKept(s, a, s');
    OrderKept(s, a, s');
  }

  lemma {:induction false} RunKeepsInv(states: seq<State>, acts: seq<Action>)
    requires Path(states, acts) && Inv(states[0])
    ensures forall i :: 0 <= i < |states| ==> Inv(states[i])
  {
    if acts != [] {
      StepKeepsInv(states[0], acts[0], states[1]);
      RunKeepsInv(states[1..], acts[1..]);
      assert forall i :: 1 <= i < |states| ==> states[i] == states[1..][i - 1];
    }
  }

  /** Main result, at every point of every run: a non-empty queue has exactly one thing that will
      make the worker look at it, an empty one has none; there is never more than one pending event;
      the assertion before the pop holds; and messages leave in the order of their pushes. */
  lemma HandOff(states: seq<State>, acts: seq<Action>, i: nat)
    requires Path(states, acts) && Init(states[0]) && i < |states|
    ensures Tokens(states[i]) == if states[i].queue == [] then 0 else 1
    ensures states[i].pending <= 1
    ensures states[i].worker.DrainPop? ==> states[i].queue != []
    ensures states[i].pushed == states[i].sent + InHand(states[i].worker) + states[i].queue
  {
    RunKeepsInv(states, acts);
  }

  // ---------------------------------------------------------------- progress

  function ProducerWeight(p: Producer): nat {
    match p
    case Ready => 0
    case Unlocking => 1
    case Testing => 9
    case Pushing(_) => 14
    case Locking(_) => 15
  }

  function WorkerWeight(w: Worker): nat {
    match w
    case Exited | Waiting | Crashed(_, _) => 0
    case LoopHead => 1
    case Batch(async) => if async then 6 else 2
    case DrainLock => 5
    case DrainPop => 4
    case DrainUnlock(_, last) => if last then 4 else 7
    case DrainSend(_, last) => if last then 3 else 6
  }

  function Remaining(s: State): nat {
    Sum(s.producers, ProducerWeight) + WorkerWeight(s.worker) + 4 * |s.queue| + 7 * s.pending
  }

  lemma ProducerShrinksRemaining(s: State, p: nat)
    requires ProducerCanRun(s, p)
    ensures Remaining(RunProducer(s, p)) < Remaining(s)
  {
    hide Sum;
    var s' := RunProducer(s, p);
    SumUpdate(s.producers, p, s'.producers[p], ProducerWeight);
  }

  lemma WorkerShrinksRemaining(s: State, peerGone: bool)
    requires WorkerCanRun(s)
    ensures Remaining(RunWorker(s, peerGone)) < Remaining(s)
  {
    hide Sum;
  }

  lemma OwnStepShrinksRemaining(s: State, a: Action, s': State)
    requires Step(s, a, s') && Own(a)
    ensures Remaining(s') < Remaining(s)
  {
    hide Remaining, RunProducer, RunWorker, ProducerCanRun, WorkerCanRun;
    match a
    case Produce(p) => ProducerShrinksRemaining(s, p);
    case Work(peerGone) => WorkerShrinksRemaining(s, peerGone);
  }

  /** No thread can take a step of its own. */
  ghost predicate Quiet(s: State) {
    !WorkerCanRun(s) && forall p :: 0 <= p < |s.producers| ==> !ProducerCanRun(s, p)
  }

  lemma QuietMeansDelivered(s: State)
    requires Inv(s) && Quiet(s) && !s.worker.Crashed?
    ensures forall p :: 0 <= p < |s.producers| ==> s.producers[p].Ready?
    ensures s.worker.Exited? || (s.worker.Waiting? && s.queue == [] && s.sent == s.pushed)
  {
    if s.mutex.ByProducer? {
      assert ProducerCanRun(s, s.mutex.p);
      assert false;
    }
    assert s.mutex == Nobody;
    forall p | 0 <= p < |s.producers|
      ensures s.producers[p].Ready?
    {
      assert !ProducerCanRun(s, p);
    }
  }

  lemma {:induction false} OwnStepsAreBounded(states: seq<State>, acts: seq<Action>)
    requires Path(states, acts) && forall i :: 0 <= i < |acts| ==> Own(acts[i])
    ensures |acts| + Remaining(states[|acts|]) <= Remaining(states[0])
  {
    if acts != [] {
      assert Own(acts[0]);
      OwnStepShrinksRemaining(states[0], acts[0], states[1]);
      OwnStepsAreBounded(states[1..], acts[1..]);
      assert states[1..][|acts| - 1] == states[|acts|];
    }
  }

  /** Main result: left to themselves, the threads come to rest after a bounded number of steps; unless the
      program has ended by then, every producer has returned, and unless the worker has left its loop, every
      pushed message was sent. CrashExactly says when the program ends. */
  lemma EveryMessageIsSent(before: seq<State>, ba: seq<Action>, states: seq<State>, acts: seq<Action>)
    requires Path(before, ba) && Init(before[0])
    requires Path(states, acts) && states[0] == before[|ba|] && forall i :: 0 <= i < |acts| ==> Own(acts[i])
    ensures |acts| <= Remaining(states[0])
    ensures var s := states[|acts|]; Quiet(s) && !s.worker.Crashed? ==>
      && (forall p :: 0 <= p < |s.producers| ==> s.producers[p].Ready?)
      && (s.worker.Exited? || (s.sent == s.pushed && s.queue == []))
  {
    RunKeepsInv(before, ba);
    RunKeepsInv(states, acts);
    OwnStepsAreBounded(states, acts);
    if Quiet(states[|acts|]) && !states[|acts|].worker.Crashed? {
      QuietMeansDelivered(states[|acts|]);
    }
  }

  // ---------------------------------------------------------------- why a worker leaves its loop

  /** The destructor, a peer that is gone when a message is sent to it, or one that has closed. */
  ghost predicate EndsLoop(s: State, a: Action) {
    || a.Close?
    || (a == Work(true) && s.worker.DrainSend?)
    || (a.HandleSocket? && (a.closes || a.peerGone))
  }

  /** Main result: in every run the worker is told to stop exactly by such steps, and has left its loop only
      after one. */
  lemma {:induction false} RunsUntilEnded(states: seq<State>, acts: seq<Action>)
    requires Path(states, acts) && Init(states[0])
    ensures var s := states[|acts|];
      && (s.closed || s.worker.Exited? ==> !s.running)
      && (!s.running <==> exists i :: 0 <= i < |acts| && EndsLoop(states[i], acts[i]))
    decreases |acts|
  {
    if acts != [] {
      var n := |acts| - 1;
      RunsUntilEnded(states[..n + 1], acts[..n]);
      assert Step(states[n], acts[n], states[n + 1]);
      assert forall i :: 0 <= i < n ==> acts[..n][i] == acts[i] && states[..n + 1][i] == states[i];
      EndStep(states[n], acts[n], states[n + 1]);
    }
  }

  lemma EndStep(s: State, a: Action, s': State)
    requires Step(s, a, s') && (s.closed || s.worker.Exited? ==> !s.running)
    ensures (s'.closed || s'.worker.Exited? ==> !s'.running) && (!s'.running <==> !s.running || EndsLoop(s, a))
    ensures EndsLoop(s, a) && !s.worker.Waiting? ==> !s'.worker.Waiting?
  {
  }

  /** Main result: a run without such a step that has come to rest has its worker waiting for the next event
      and has sent every message that was pushed, in the order of the pushes. */
  lemma AllSentUnlessEnded(states: seq<State>, acts: seq<Action>)
    requires Path(states, acts) && Init(states[0]) && Quiet(states[|acts|])
    requires forall i :: 0 <= i < |acts| ==> !EndsLoop(states[i], acts[i])
    ensures var s := states[|acts|]; s.worker.Waiting? && s.queue == [] && s.sent == s.pushed
    ensures forall p :: 0 <= p < |states[|acts|].producers| ==> states[|acts|].producers[p].Ready?
  {
    RunKeepsInv(states, acts);
    RunsUntilEnded(states, acts);
    DoomedExactly(states, acts);
    QuietMeansDelivered(states[|acts|]);
  }

  lemma {:induction false} DoesNotWaitAgain(states: seq<State>, acts: seq<Action>)
    requires Path(states, acts) && !states[0].running && !states[0].worker.Waiting?
    ensures !states[|acts|].running && !states[|acts|].worker.Waiting?
  {
    if acts != [] {
      assert Step(states[0], acts[0], states[1]);
      DoesNotWaitAgain(states[1..], acts[1..]);
      assert states[1..][|acts| - 1] == states[|acts|];
    }
  }

  lemma AfterEnd(states: seq<State>, acts: seq<Action>, i: nat)
    requires Path(states, acts) && Init(states[0])
    requires i < |acts| && EndsLoop(states[i], acts[i]) && !states[i].worker.Waiting?
    ensures !states[|acts|].running && !states[|acts|].worker.Waiting?
  {
    RunsUntilEnded(states[..i + 1], acts[..i]);
    EndStep(states[i], acts[i], states[i + 1]);
    hide Step, EndsLoop, Init;
    DoesNotWaitAgain(states[i + 1..], acts[i + 1..]);
    assert states[i + 1..][|acts| - i - 1] == states[|acts|];
  }

  /** Main result: and a worker that is told to stop while it is not waiting has left its loop, or ended the
      program, when the run has come to rest. */
  lemma EndedWorkerLeaves(states: seq<State>, acts: seq<Action>, i: nat)
    requires Path(states, acts) && Init(states[0]) && Quiet(states[|acts|])
    requires i < |acts| && EndsLoop(states[i], acts[i]) && !states[i].worker.Waiting?
    ensures states[|acts|].worker.Exited? || states[|acts|].worker.Crashed?
  {
    RunKeepsInv(states, acts);
    AfterEnd(states, acts, i);
    hide Step, Path, EndsLoop;
    if !states[|acts|].worker.Crashed? {
      QuietMeansDelivered(states[|acts|]);
    }
  }

  // ---------------------------------------------------------------- the condition is needed

  /** Once the worker has left its loop nothing more is sent, whatever is pushed afterwards. */
  lemma {:induction false} NothingSentAfterExit(states: seq<State>, acts: seq<Action>)
    requires Path(states, acts) && states[0].worker.Exited?
    ensures states[|acts|].sent == states[0].sent && states[|acts|].worker.Exited?
  {
    if acts != [] {
      NothingSentAfterExit(states[1..], acts[1..]);
      assert states[1..][|acts| - 1] == states[|acts|];
    }
  }

  // ---------------------------------------------------------------- the program's end

  /** The worker will use the socket that it has closed, or has done so. */
  ghost predicate Doomed(s: State) {
    && s.closed
    && match s.worker
       case Batch(async) => async
       case DrainLock | DrainPop | DrainUnlock(_, _) | DrainSend(_, _) | Crashed(_, _) => true
       case _ => false
  }

  /** A worker that has closed the socket does not wait again. */
  ghost predicate ClosedIsLeft(s: State) { s.closed ==> !s.running && !s.worker.Waiting? }

  /** In one batch, the socket event closes the socket while the async event is still to be handled. */
  ghost predicate ClosesBeforeAsync(s: State, a: Action) { a.HandleSocket? && a.closes && s.worker == Batch(true) }

  lemma DoomStep(s: State, a: Action, s': State)
    requires ClosedIsLeft(s) && Step(s, a, s')
    ensures ClosedIsLeft(s') && (Doomed(s') <==> Doomed(s) || ClosesBeforeAsync(s, a))
    ensures s'.worker.Crashed? ==> Doomed(s')
  {
  }

  lemma {:induction false} DoomedExactly(states: seq<State>, acts: seq<Action>)
    requires Path(states, acts) && Init(states[0])
    ensures var s := states[|acts|];
      && ClosedIsLeft(s) && (s.worker.Crashed? ==> Doomed(s))
      && (Doomed(s) <==> exists i :: 0 <= i < |acts| && ClosesBeforeAsync(states[i], acts[i]))
    decreases |acts|
  {
    hide ClosesBeforeAsync, Doomed, ClosedIsLeft;
    if acts == [] {
      StartNotDoomed(states[0]);
    } else {
      var n := |acts| - 1;
      DoomedExactly(states[..n + 1], acts[..n]);
      assert Step(states[n], acts[n], states[n + 1]);
      DoomStep(states[n], acts[n], states[n + 1]);
      assert forall i :: 0 <= i < n ==> states[..n + 1][i] == states[i] && acts[..n][i] == acts[i];
    }
  }

  lemma StartNotDoomed(s: State)
    requires Init(s)
    ensures ClosedIsLeft(s) && !Doomed(s) && !s.worker.Crashed?
  {
  }

  lemma QuietDoomHasCome(s: State)
    requires Inv(s) && Quiet(s) && Doomed(s)
    ensures s.worker.Crashed?
  {
    if !s.worker.Crashed? {
      QuietMeansDelivered(s);
    }
  }

  /** Main result: a run that has come to rest has ended the program exactly if in some batch the socket event
      closed the socket before the async event was handled: the message that is then sent goes to a closed
      socket. */
  lemma CrashExactly(states: seq<State>, acts: seq<Action>)
    requires Path(states, acts) && Init(states[0]) && Quiet(states[|acts|])
    ensures states[|acts|].worker.Crashed? <==> exists i :: 0 <= i < |acts| && ClosesBeforeAsync(states[i], acts[i])
  {
    RunKeepsInv(states, acts);
    DoomedExactly(states, acts);
    if Doomed(states[|acts|]) {
      QuietDoomHasCome(states[|acts|]);
    }
  }

  lemma PathJoin(before: seq<State>, ba: seq<Action>, after: seq<State>, aa: seq<Action>)
      returns (states: seq<State>, acts: seq<Action>)
    requires Path(before, ba) && Path(after, aa) && before[|ba|] == after[0]
    ensures Path(states, acts) && states[0] == before[0] && states[|acts|] == after[|aa|]
  {
    hide Step;
    states, acts := before + after[1..], ba + aa;
    assert forall i :: |ba| <= i < |acts| ==> states[i] == after[i - |ba|] && acts[i] == aa[i - |ba|];
    assert states[|acts|] == after[|aa|];
  }

  /** One message is pushed, and its producer has still to give the mutex back. */
  const PUSHED := State([Unlocking], LoopHead, ByProducer(0), [[]], 1, true, false, [[]], [])

  lemma OnePush() returns (states: seq<State>, acts: seq<Action>)
    ensures Path(states, acts) && Init(states[0]) && states[|acts|] == PUSHED
  {
    var s0 := State([Ready], LoopHead, Nobody, [], 0, true, false, [], []);
    var s1 := s0.(producers := [Locking([])]);
    var s2 := s1.(producers := [Pushing([])], mutex := ByProducer(0));
    var s3 := s2.(producers := [Testing], queue := [[]], pushed := [[]]);
    states := [s0, s1, s2, s3, PUSHED];
    acts := [CallSend(0, []), Produce(0), Produce(0), Produce(0)];
    assert s1.producers == s0.producers[0 := Locking([])] && s2.producers == s1.producers[0 := Pushing([])];
    assert s3.producers == s2.producers[0 := Testing] && PUSHED.producers == s3.producers[0 := Unlocking];
    assert s3.queue == s2.queue + [[]] && s3.pushed == s2.pushed + [[]];
  }

  /** Both events of a batch are to be handled, and one message is queued. */
  const BOTH_READY := State([Ready], Batch(true), Nobody, [[]], 0, true, false, [[]], [])

  lemma BothReady() returns (states: seq<State>, acts: seq<Action>)
    ensures Path(states, acts) && states[0] == PUSHED && states[|acts|] == BOTH_READY
  {
    var s1 := PUSHED.(producers := [Ready], mutex := Nobody);
    var s2 := s1.(worker := Waiting);
    states := [PUSHED, s1, s2, BOTH_READY];
    acts := [Produce(0), Work(false), SocketReady];
    assert s1.producers == PUSHED.producers[0 := Ready];
  }

  lemma CrashFromBothReady() returns (states: seq<State>, acts: seq<Action>)
    ensures Path(states, acts) && states[0] == BOTH_READY && states[|acts|].worker.Crashed?
  {
    var s1 := BOTH_READY.(running := false, closed := true);
    var s2 := s1.(worker := DrainLock);
    var s3 := s2.(worker := DrainPop, mutex := ByWorker);
    var s4 := s3.(worker := DrainUnlock([], true), queue := []);
    var s5 := s4.(worker := DrainSend([], true), mutex := Nobody);
    var s6 := s5.(worker := Crashed([], true));
    states := [BOTH_READY, s1, s2, s3, s4, s5, s6];
    acts := [HandleSocket(true, false), Work(false), Work(false), Work(false), Work(false), Work(false)];
    assert s3.queue[1..] == [];
  }

  /** Such a run exists: a message is pushed while the peer closes. */
  lemma CrashIsPossible() returns (states: seq<State>, acts: seq<Action>)
    ensures Path(states, acts) && Init(states[0]) && states[|acts|].worker.Crashed?
  {
    hide Step, Init, Path;
    states, acts := OnePush();
    var more, ma := BothReady();
    states, acts := PathJoin(states, acts, more, ma);
    more, ma := CrashFromBothReady();
    states, acts := PathJoin(states, acts, more, ma);
  }
}
