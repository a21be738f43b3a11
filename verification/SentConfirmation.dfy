/**
How h9d learns that a frame was sent: send_frame_sync registers a promise under a fresh message id
and waits for it; the receive thread fulfils it when a FRAME or an ERROR names that id. Any number
of callers interleave with the receive thread; the accesses to the promise map are atomic because
they hold its mutex, and the ids are allocated atomically.
*/
module SentConfirmation {
  import opened Options

  datatype Kind = FRAME | ERROR

  /** A message from h9bus with a request id; 0 means it has none. */
  datatype Arrival = Arrival(kind: Kind, request: nat)

  datatype Result = OK | H9BUS_ERROR | NOT_CONNECTED | SEND_TIMEOUT

  /** A call of send_frame_sync; at is how many messages had arrived when it registered. */
  datatype Caller =
    | Idle
    | HasId(id: nat)
    | Registered(id: nat, at: nat)
    | Waiting(id: nat, at: nat)
    | Withdrawing(id: nat, at: nat, result: Result)

  /** A call that has returned, when the arrivals up to end had been handled. */
  datatype Call = Call(id: nat, at: nat, end: nat, result: Result)

  /** promises maps an id to the caller that owns the promise, futures a fulfilled id to its value. */
  datatype State = State(
    callers: seq<Caller>, nextId: nat, promises: map<nat, nat>, futures: map<nat, Result>,
    arrivals: seq<Arrival>, calls: seq<Call>)

  datatype Action =
    | Allocate(c: nat)
    | Register(c: nat)
    | Send(c: nat, works: bool)
    | Collect(c: nat)   // wait_for finds the future ready
    | TimeOut(c: nat)   // wait_for finds it not ready in time
    | Withdraw(c: nat)
    | OtherMessage      // another message takes an id
    | Receive(msg: Arrival)

  ghost predicate Init(s: State) {
    && (forall c :: 0 <= c < |s.callers| ==> s.callers[c] == Idle)
    && s.nextId == 1 && s.promises == map[] && s.futures == map[] && s.arrivals == [] && s.calls == []
  }

  function Answer(k: Kind): Result { if k.FRAME? then OK else H9BUS_ERROR }

  /** The receive thread looks the id up, sets the promise and erases it in one critical section. */
  function Fulfil(s: State, msg: Arrival): State {
    var heard := s.(arrivals := s.arrivals + [msg]);
    if msg.request != 0 && msg.request in s.promises
    then heard.(futures := s.futures[msg.request := Answer(msg.kind)], promises := s.promises - {msg.request})
    else heard
  }

  function Return(s: State, c: nat, result: Result): State
    requires c < |s.callers| && (s.callers[c].Waiting? || s.callers[c].Withdrawing?)
  {
    s.(callers := s.callers[c := Idle],
       calls := s.calls + [Call(s.callers[c].id, s.callers[c].at, |s.arrivals|, result)])
  }

  ghost predicate Step(s: State, a: Action, s': State) {
    match a
    case Allocate(c) =>
      c < |s.callers| && s.callers[c].Idle?
        && s' == s.(callers := s.callers[c := HasId(s.nextId)], nextId := s.nextId + 1)
    case Register(c) =>
      && c < |s.callers| && s.callers[c].HasId?
      && s' == s.(callers := s.callers[c := Registered(s.callers[c].id, |s.arrivals|)],
                  promises := s.promises[s.callers[c].id := c])
    case Send(c, works) =>
      && c < |s.callers| && s.callers[c].Registered?
      && var id := s.callers[c].id;
      && var at := s.callers[c].at;
      && s' == s.(callers := s.callers[c := if works then Waiting(id, at) else Withdrawing(id, at, NOT_CONNECTED)])
    case Collect(c) =>
      && c < |s.callers| && s.callers[c].Waiting? && s.callers[c].id in s.futures
      && s' == Return(s, c, s.futures[s.callers[c].id])
    case TimeOut(c) =>
      && c < |s.callers| && s.callers[c].Waiting? && s.callers[c].id !in s.futures
      && s' == s.(callers := s.callers[c := Withdrawing(s.callers[c].id, s.callers[c].at, SEND_TIMEOUT)])
    case Withdraw(c) =>
      && c < |s.callers| && s.callers[c].Withdrawing?
      && s' == Return(s, c, s.callers[c].result).(promises := s.promises - {s.callers[c].id})
    case OtherMessage => s' == s.(nextId := s.nextId + 1)
    case Receive(msg) => s' == Fulfil(s, msg)
  }

  ghost predicate Path(states: seq<State>, acts: seq<Action>) {
    && |states| == |acts| + 1
    && forall i :: 0 <= i < |acts| ==> Step(states[i], acts[i], states[i + 1])
  }

  // ---------------------------------------------------------------- the invariant

  /** The answer in the first message that names the id. */
  function FirstReply(arrivals: seq<Arrival>, id: nat): Option<Result> {
    if arrivals == [] then None
    else if arrivals[0].request == id then Some(Answer(arrivals[0].kind))
    else FirstReply(arrivals[1..], id)
  }

  lemma {:induction false} FirstReplyGrows(arrivals: seq<Arrival>, msg: Arrival, id: nat)
    ensures FirstReply(arrivals + [msg], id) ==
      if FirstReply(arrivals, id).Some? then FirstReply(arrivals, id)
      else if msg.request == id then Some(Answer(msg.kind)) else None
  {
    if arrivals == [] {
      assert (arrivals + [msg])[1..] == [];
    } else {
      assert (arrivals + [msg])[1..] == arrivals[1..] + [msg];
      FirstReplyGrows(arrivals[1..], msg, id);
    }
  }

  /** The caller has registered the id and not yet returned. */
  ghost predicate Holds(c: Caller, id: nat) { InMap(c) && c.id == id }

  ghost predicate InMap(c: Caller) { c.Registered? || c.Waiting? || c.Withdrawing? }

  ghost predicate FreshIds(s: State) {
    && s.nextId >= 1
    && (forall c :: 0 <= c < |s.callers| && !s.callers[c].Idle? ==> 1 <= s.callers[c].id < s.nextId)
    && (forall i :: 0 <= i < |s.calls| ==> 1 <= s.calls[i].id < s.nextId)
  }

  /** No answer is there before a call has registered. */
  ghost predicate FuturesAreOld(s: State) {
    && (forall id :: id in s.futures ==> id < s.nextId)
    && (forall c :: 0 <= c < |s.callers| && s.callers[c].HasId? ==> s.callers[c].id !in s.futures)
  }

  ghost predicate DistinctIds(s: State) {
    forall c, d ::
      0 <= c < |s.callers| && 0 <= d < |s.callers| && c != d && !s.callers[c].Idle? && !s.callers[d].Idle? ==>
        s.callers[c].id != s.callers[d].id
  }

  /** Every key of the map belongs to a registered call that is not answered. */
  ghost predicate KeysArePending(s: State) {
    forall id :: id in s.promises ==>
      s.promises[id] < |s.callers| && Holds(s.callers[s.promises[id]], id) && id !in s.futures
  }

  /** Every registered call that is not answered is in the map. */
  ghost predicate PendingAreKeys(s: State) {
    forall c :: 0 <= c < |s.callers| && InMap(s.callers[c]) && s.callers[c].id !in s.futures ==>
      s.callers[c].id in s.promises && s.promises[s.callers[c].id] == c
  }

  ghost predicate Heard(s: State, id: nat, at: nat) {
    && at <= |s.arrivals|
    && FirstReply(s.arrivals[at..], id) == if id in s.futures then Some(s.futures[id]) else None
  }

  /** A call's future holds the answer of the first message for it since it registered. */
  ghost predicate FuturesAreReplies(s: State) {
    && (forall c :: 0 <= c < |s.callers| && InMap(s.callers[c]) ==>
         Heard(s, s.callers[c].id, s.callers[c].at))
    && (forall c :: 0 <= c < |s.callers| && s.callers[c].Withdrawing? ==>
         s.callers[c].result in {NOT_CONNECTED, SEND_TIMEOUT})
  }

  ghost predicate Truthful(call: Call, arrivals: seq<Arrival>) {
    && call.at <= call.end <= |arrivals|
    && (call.result in {OK, H9BUS_ERROR} ==> FirstReply(arrivals[call.at..call.end], call.id) == Some(call.result))
  }

  ghost predicate CallsAreTruthful(s: State) {
    forall i :: 0 <= i < |s.calls| ==> Truthful(s.calls[i], s.arrivals)
  }

  ghost predicate Inv(s: State) {
    && FreshIds(s) && DistinctIds(s) && FuturesAreOld(s) && KeysArePending(s) && PendingAreKeys(s)
    && FuturesAreReplies(s) && CallsAreTruthful(s)
  }

  lemma IdsKept(s: State, a: Action, s': State)
    requires FreshIds(s) && DistinctIds(s) && Step(s, a, s')
    ensures FreshIds(s') && DistinctIds(s')
  {
  }

  lemma FuturesKept(s: State, a: Action, s': State)
    requires FreshIds(s) && DistinctIds(s) && FuturesAreOld(s) && KeysArePending(s) && Step(s, a, s')
    ensures FuturesAreOld(s')
  {
    if a.Receive? && a.msg.request in s.promises {
      var owner := s.promises[a.msg.request];
      assert Holds(s.callers[owner], a.msg.request);
      assert forall c :: 0 <= c < |s.callers| && s.callers[c].HasId? ==> c != owner;
    }
  }

  lemma KeysKept(s: State, a: Action, s': State)
    requires FreshIds(s) && DistinctIds(s) && FuturesAreOld(s) && KeysArePending(s) && Step(s, a, s')
    ensures KeysArePending(s')
  {
    forall id | id in s'.promises
      ensures s'.promises[id] < |s'.callers| && Holds(s'.callers[s'.promises[id]], id) && id !in s'.futures
    {
      assert id in s.promises || (a.Register? && s.callers[a.c].id == id);
    }
  }

  lemma PendingKept(s: State, a: Action, s': State)
    requires FreshIds(s) && DistinctIds(s) && PendingAreKeys(s) && Step(s, a, s')
    ensures PendingAreKeys(s')
  {
    forall c | 0 <= c < |s'.callers| && InMap(s'.callers[c]) && s'.callers[c].id !in s'.futures
      ensures s'.callers[c].id in s'.promises && s'.promises[s'.callers[c].id] == c
    {
      assert s'.callers[c].id == s.callers[c].id && s'.callers[c].id !in s.futures;
    }
  }

  lemma NothingHeardYet(s: State)
    ensures forall id :: id !in s.futures ==> Heard(s, id, |s.arrivals|)
  {
    assert s.arrivals[|s.arrivals|..] == [];
  }

  lemma RepliesKeptByArrival(s: State, msg: Arrival)
    requires PendingAreKeys(s) && KeysArePending(s) && FreshIds(s) && FuturesAreReplies(s)
    ensures FuturesAreReplies(Fulfil(s, msg))
  {
    hide FirstReply;
    var s' := Fulfil(s, msg);
    forall c | 0 <= c < |s'.callers| && InMap(s'.callers[c])
      ensures Heard(s', s'.callers[c].id, s'.callers[c].at)
    {
      var id, at := s.callers[c].id, s.callers[c].at;
      assert Heard(s, id, at);
      assert id !in s.futures ==> id in s.promises;
      assert s'.arrivals == s.arrivals + [msg] && at <= |s.arrivals|;
      assert s'.arrivals[at..] == s.arrivals[at..] + [msg];
      FirstReplyGrows(s.arrivals[at..], msg, id);
    }
  }

  lemma RepliesKept(s: State, a: Action, s': State)
    requires Inv(s) && Step(s, a, s')
    ensures FuturesAreReplies(s')
  {
    hide CallsAreTruthful, DistinctIds, PendingAreKeys, KeysArePending;
    if a.Receive? {
      RepliesKeptByArrival(s, a.msg);
    } else {
      hide FirstReply;
      NothingHeardYet(s);
      forall c | 0 <= c < |s'.callers| && InMap(s'.callers[c])
        ensures Heard(s', s'.callers[c].id, s'.callers[c].at)
      {
        assert s'.callers[c] == s.callers[c] || a.c == c;
        assert Heard(s, s'.callers[c].id, s'.callers[c].at);
      }
    }
  }

  lemma CallsKept(s: State, a: Action, s': State)
    requires Inv(s) && Step(s, a, s')
    ensures CallsAreTruthful(s')
  {
    forall i | 0 <= i < |s'.calls|
      ensures Truthful(s'.calls[i], s'.arrivals)
    {
      if i < |s.calls| {
        assert Truthful(s.calls[i], s.arrivals);
        assert s'.arrivals[s.calls[i].at..s.calls[i].end] == s.arrivals[s.calls[i].at..s.calls[i].end];
      } else {
        assert s.arrivals[s.callers[a.c].at..|s.arrivals|] == s.arrivals[s.callers[a.c].at..];
        assert Heard(s, s.callers[a.c].id, s.callers[a.c].at);
      }
    }
  }

  lemma {:induction false} RunKeepsInv(states: seq<State>, acts: seq<Action>)
    requires Path(states, acts) && Inv(states[0])
    ensures forall i :: 0 <= i < |states| ==> Inv(states[i])
  {
    if acts != [] {
      IdsKept(states[0], acts[0], states[1]);
      FuturesKept(states[0], acts[0], states[1]);
      KeysKept(states[0], acts[0], states[1]);
      PendingKept(states[0], acts[0], states[1]);
      RepliesKept(states[0], acts[0], states[1]);
      CallsKept(states[0], acts[0], states[1]);
      RunKeepsInv(states[1..], acts[1..]);
      assert forall i :: 1 <= i < |states| ==> states[i] == states[1..][i - 1];
    }
  }

  // ---------------------------------------------------------------- what holds in every run

  /** Main result: at every point of every run, the id that the next allocation gives out belongs to no call
      that is running or has returned, and no answer to it has been kept. */
  lemma NextIdIsUnused(states: seq<State>, acts: seq<Action>, i: nat)
    requires Path(states, acts) && Init(states[0]) && i < |states|
    ensures var s := states[i];
      && (forall c :: 0 <= c < |s.callers| && !s.callers[c].Idle? ==> s.callers[c].id != s.nextId)
      && (forall k :: 0 <= k < |s.calls| ==> s.calls[k].id != s.nextId)
      && s.nextId !in s.futures && s.nextId !in s.promises
  {
    RunKeepsInv(states, acts);
  }

  /** The n-th message is the first with the id from a place on. */
  ghost predicate IsFirst(arrivals: seq<Arrival>, from: nat, n: nat, id: nat) {
    from <= n < |arrivals| && arrivals[n].request == id && forall j :: from <= j < n ==> arrivals[j].request != id
  }

  /** Main result: a call that returned OK or H9BUS_ERROR was answered by the first message with its id since
      it registered; it returned OK exactly if that was a FRAME and H9BUS_ERROR exactly if it was an ERROR. */
  lemma ResultsAreAnswers(states: seq<State>, acts: seq<Action>, i: nat, k: nat) returns (n: nat)
    requires Path(states, acts) && Init(states[0]) && i < |states| && k < |states[i].calls|
    requires states[i].calls[k].result in {OK, H9BUS_ERROR}
    ensures var call, arrivals := states[i].calls[k], states[i].arrivals;
      && IsFirst(arrivals, call.at, n, call.id) && n < call.end
      && (call.result == OK <==> arrivals[n].kind == FRAME)
      && (call.result == H9BUS_ERROR <==> arrivals[n].kind == ERROR)
  {
    RunKeepsInv(states, acts);
    var call, arrivals := states[i].calls[k], states[i].arrivals;
    assert Truthful(call, arrivals);
    var window := arrivals[call.at..call.end];
    var m := FindReply(window, call.id, call.result);
    n := call.at + m;
    assert arrivals[n] == window[m];
    assert forall j :: call.at <= j < n ==> arrivals[j] == window[j - call.at];
  }

  lemma {:induction false} FindReply(arrivals: seq<Arrival>, id: nat, result: Result) returns (n: nat)
    requires FirstReply(arrivals, id) == Some(result)
    ensures IsFirst(arrivals, 0, n, id)
    ensures (result == OK <==> arrivals[n].kind == FRAME) && (result == H9BUS_ERROR <==> arrivals[n].kind == ERROR)
  {
    if arrivals[0].request == id {
      n := 0;
    } else {
      var m := FindReply(arrivals[1..], id, result);
      n := m + 1;
    }
  }

  lemma {:induction false} NoReply(arrivals: seq<Arrival>, id: nat)
    requires FirstReply(arrivals, id) == None
    ensures forall j :: 0 <= j < |arrivals| ==> arrivals[j].request != id
  {
    if arrivals != [] {
      NoReply(arrivals[1..], id);
    }
  }

  /** Why a call gives up: its send failed, or its wait timed out before any message with its id had come. */
  ghost predicate GivesUp(s: State, a: Action, id: nat, at: nat, result: Result) {
    match a
    case Send(c, works) => result == NOT_CONNECTED && !works && c < |s.callers| && s.callers[c] == Registered(id, at)
    case TimeOut(c) =>
      && result == SEND_TIMEOUT && c < |s.callers| && s.callers[c] == Waiting(id, at)
      && forall j :: at <= j < |s.arrivals| ==> s.arrivals[j].request != id
    case _ => false
  }

  ghost predicate HasCause(states: seq<State>, acts: seq<Action>, id: nat, at: nat, result: Result) {
    exists i :: 0 <= i < |acts| && i < |states| && GivesUp(states[i], acts[i], id, at, result)
  }

  lemma CauseOfStep(s: State, a: Action, s': State, c: nat)
    requires Inv(s) && Step(s, a, s') && c < |s'.callers| && s'.callers[c].Withdrawing?
    requires !(c < |s.callers| && s.callers[c] == s'.callers[c])
    ensures var w := s'.callers[c]; GivesUp(s, a, w.id, w.at, w.result)
  {
    if a.TimeOut? {
      var w := s.callers[a.c];
      assert Heard(s, w.id, w.at);
      NoReply(s.arrivals[w.at..], w.id);
      assert forall j :: w.at <= j < |s.arrivals| ==> s.arrivals[j] == s.arrivals[w.at..][j - w.at];
    }
  }

  lemma CauseStays(states: seq<State>, acts: seq<Action>, n: nat, id: nat, at: nat, result: Result)
    requires n <= |acts| && n < |states| && HasCause(states[..n + 1], acts[..n], id, at, result)
    ensures HasCause(states, acts, id, at, result)
  {
    hide GivesUp;
    var i :| 0 <= i < n && GivesUp(states[..n + 1][i], acts[..n][i], id, at, result);
    assert GivesUp(states[i], acts[i], id, at, result);
  }

  /** Main result: in every run, a call that gave up had a reason to: its send failed, or it timed out without
      an answer. */
  lemma {:induction false} GivingUpHasACause(states: seq<State>, acts: seq<Action>)
    requires Path(states, acts) && Init(states[0])
    ensures var s := states[|acts|];
      && (forall c :: 0 <= c < |s.callers| && s.callers[c].Withdrawing? ==>
           HasCause(states, acts, s.callers[c].id, s.callers[c].at, s.callers[c].result))
      && (forall k :: 0 <= k < |s.calls| && s.calls[k].result in {NOT_CONNECTED, SEND_TIMEOUT} ==>
           HasCause(states, acts, s.calls[k].id, s.calls[k].at, s.calls[k].result))
    decreases |acts|
  {
    if acts != [] {
      var n := |acts| - 1;
      GivingUpHasACause(states[..n + 1], acts[..n]);
      RunKeepsInv(states, acts);
      var s, s' := states[n], states[n + 1];
      assert Step(s, acts[n], s');
      forall c | 0 <= c < |s'.callers| && s'.callers[c].Withdrawing?
        ensures HasCause(states, acts, s'.callers[c].id, s'.callers[c].at, s'.callers[c].result)
      {
        var w := s'.callers[c];
        if c < |s.callers| && s.callers[c] == w {
          CauseStays(states, acts, n, w.id, w.at, w.result);
        } else {
          CauseOfStep(s, acts[n], s', c);
          assert GivesUp(states[n], acts[n], w.id, w.at, w.result);
        }
      }
      forall k | 0 <= k < |s'.calls| && s'.calls[k].result in {NOT_CONNECTED, SEND_TIMEOUT}
        ensures HasCause(states, acts, s'.calls[k].id, s'.calls[k].at, s'.calls[k].result)
      {
        var call := s'.calls[k];
        CallOfStep(s, acts[n], s', k);
        CauseStays(states, acts, n, call.id, call.at, call.result);
      }
    }
  }

  /** A call that gave up was recorded before the step, or withdraws in it. */
  lemma CallOfStep(s: State, a: Action, s': State, k: nat)
    requires Inv(s) && Step(s, a, s') && k < |s'.calls| && s'.calls[k].result in {NOT_CONNECTED, SEND_TIMEOUT}
    ensures var call := s'.calls[k];
      || (k < |s.calls| && s.calls[k] == call)
      || exists c :: 0 <= c < |s.callers| && s.callers[c] == Withdrawing(call.id, call.at, call.result)
  {
    if a.Collect? {
      assert Heard(s, s.callers[a.c].id, s.callers[a.c].at);
      assert k == |s.calls| ==> s'.calls[k].result in {OK, H9BUS_ERROR} by {
        if k == |s.calls| {
          var m := FindReply(s.arrivals[s.callers[a.c].at..], s.callers[a.c].id, s'.calls[k].result);
        }
      }
    } else if a.Withdraw? {
      assert s.callers[a.c].Withdrawing?;
    }
  }

  /** Main result: at every point of every run the map's keys are exactly the calls that have
      registered and are neither answered nor withdrawn; so no promise is ever set twice. */
  lemma KeysAreExactlyThePending(states: seq<State>, acts: seq<Action>, i: nat, id: nat)
    requires Path(states, acts) && Init(states[0]) && i < |states|
    ensures id in states[i].promises <==>
      id !in states[i].futures && exists c :: 0 <= c < |states[i].callers| && Holds(states[i].callers[c], id)
  {
    RunKeepsInv(states, acts);
  }

  /** Main result: a message without a request id, for an id already answered or withdrawn, or for one
      never registered changes nothing but the record of arrivals. */
  lemma LateRepliesChangeNothing(states: seq<State>, acts: seq<Action>, i: nat, msg: Arrival)
    requires Path(states, acts) && Init(states[0]) && i < |acts| && acts[i] == Receive(msg)
    requires
      || msg.request in states[i].futures
      || forall c :: 0 <= c < |states[i].callers| ==> !Holds(states[i].callers[c], msg.request)
    ensures states[i + 1] == states[i].(arrivals := states[i].arrivals + [msg])
  {
    RunKeepsInv(states, acts);
    assert Step(states[i], acts[i], states[i + 1]);
    assert msg.request !in states[i].promises;
  }
}
