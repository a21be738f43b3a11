/**
Who may be called back by a device of h9d. Each client thread records its subscriptions in a
memento before it touches the device and erases them there before it touches the device again;
devices hold bare references to clients and are replaced under the exclusive lock; a notification
walks one device's observer set under that device's mutex. Any number of clients and devices.
*/
module Subscriptions {
  import opened Removal

  /** A device id and an event name. */
  type Sub = (nat, string)

  datatype ClientPc =
    | Serving
    | Attaching(sub: Sub)      // recorded in the memento, not yet at the device
    | Detaching(sub: Sub)      // erased from the memento, not yet at the device
    | Cleaning(rest: seq<Sub>) // cleanup_connection: the entries still to detach
    | Signalled                // the server has been told, thread_running is still true
    | Finished
    | Deleted

  datatype Client = Client(pc: ClientPc, memento: seq<Sub>, running: bool)

  datatype Device = Device(kind: nat, version: nat, observers: map<string, set<nat>>)

  datatype Manager = Ready | Notifying(dev: nat, event: string, todo: set<nat>)

  /** What happened to the observer sets, in the order of the device mutexes. */
  datatype LogEntry = Attached(client: nat, sub: Sub) | Detached(client: nat, sub: Sub) | Created(dev: nat)

  /** cleanup is the server's event token. */
  datatype State = State(clients: seq<Client>, devices: map<nat, Device>, manager: Manager, cleanup: bool,
      log: seq<LogEntry>)

  datatype Action =
    | Connect
    | Subscribe(c: nat, sub: Sub)
    | Unsubscribe(c: nat, sub: Sub)
    | Touch(c: nat)            // the device half of a subscribe or unsubscribe
    | Stop(c: nat)             // the peer closes, or the server shuts the socket down
    | LeaveLoop(c: nat)
    | CleanOne(c: nat)
    | Signal(c: nat)
    | Finish(c: nat)
    | Scan                     // the server's pass over its client list
    | Announce(dev: nat, kind: nat, version: nat)
    | BeginNotify(dev: nat, event: string)
    | Deliver(c: nat)
    | EndNotify

  ghost predicate Init(s: State) {
    s.clients == [] && s.devices == map[] && s.manager == Ready && !s.cleanup && s.log == []
  }

  function Observers(d: Device, event: string): set<nat> {
    if event in d.observers then d.observers[event] else {}
  }

  /** Set membership across the devices that exist now. */
  ghost predicate Observes(s: State, c: nat, sub: Sub) {
    sub.0 in s.devices && c in Observers(s.devices[sub.0], sub.1)
  }

  /** A device whose observers are being walked keeps its mutex. */
  ghost predicate Free(s: State, dev: nat) { s.manager.Notifying? ==> s.manager.dev != dev }

  function SetObservers(s: State, sub: Sub, observers: set<nat>): map<nat, Device>
    requires sub.0 in s.devices
  {
    var d := s.devices[sub.0];
    s.devices[sub.0 := d.(observers := d.observers[sub.1 := observers])]
  }

  function AttachAt(s: State, c: nat, sub: Sub): State {
    if sub.0 !in s.devices then s else
    s.(devices := SetObservers(s, sub, Observers(s.devices[sub.0], sub.1) + {c}), log := s.log + [Attached(c, sub)])
  }

  function DetachAt(s: State, c: nat, sub: Sub): State {
    if sub.0 !in s.devices then s else
    s.(devices := SetObservers(s, sub, Observers(s.devices[sub.0], sub.1) - {c}), log := s.log + [Detached(c, sub)])
  }

  function SetPc(s: State, c: nat, pc: ClientPc): State
    requires c < |s.clients|
  {
    s.(clients := s.clients[c := s.clients[c].(pc := pc)])
  }

  /** The constructor for device type 5 takes a 16-bit version. */
  function NewDevice(kind: nat, version: nat): Device {
    Device(kind, if kind == 5 then version % 0x1_0000 else version, map[])
  }

  function DeleteFinished(clients: seq<Client>): seq<Client> {
    seq(|clients|, i requires 0 <= i < |clients| =>
      if clients[i].pc.Finished? then clients[i].(pc := Deleted) else clients[i])
  }

  ghost predicate Step(s: State, a: Action, s': State) {
    match a
    case Connect => s' == s.(clients := s.clients + [Client(Serving, [], true)])
    case Subscribe(c, sub) =>
      && c < |s.clients| && s.clients[c].pc.Serving? && sub.0 in s.devices
      && s' == s.(clients := s.clients[c := s.clients[c].(pc := Attaching(sub),
                                                               memento := s.clients[c].memento + [sub])])
    case Unsubscribe(c, sub) =>
      && c < |s.clients| && s.clients[c].pc.Serving? && sub.0 in s.devices
      && s' == s.(clients := s.clients[c := s.clients[c].(pc := Detaching(sub),
                                                               memento := Without(s.clients[c].memento, sub))])
    case Touch(c) =>
      && c < |s.clients|
      && (match s.clients[c].pc
          case Attaching(sub) => Free(s, sub.0) && s' == SetPc(AttachAt(s, c, sub), c, Serving)
          case Detaching(sub) => Free(s, sub.0) && s' == SetPc(DetachAt(s, c, sub), c, Serving)
          case _ => false)
    case Stop(c) => c < |s.clients| && s' == s.(clients := s.clients[c := s.clients[c].(running := false)])
    case LeaveLoop(c) =>
      && c < |s.clients| && s.clients[c].pc.Serving? && !s.clients[c].running
      && s' == SetPc(s, c, Cleaning(s.clients[c].memento))
    case CleanOne(c) =>
      && c < |s.clients| && s.clients[c].pc.Cleaning? && s.clients[c].pc.rest != []
      && var rest := s.clients[c].pc.rest;
      && Free(s, rest[0].0)
      && s' == SetPc(DetachAt(s, c, rest[0]), c, Cleaning(rest[1..]))
    case Signal(c) => c < |s.clients| && s.clients[c].pc == Cleaning([])
      && s' == SetPc(s, c, Signalled).(cleanup := true)
    case Finish(c) => c < |s.clients| && s.clients[c].pc.Signalled? && s' == SetPc(s, c, Finished)
    case Scan => s.cleanup && s' == s.(clients := DeleteFinished(s.clients), cleanup := false)
    case Announce(d, kind, version) =>
      && s.manager.Ready?
      && s' == if d in s.devices && s.devices[d].kind == kind && s.devices[d].version == version then s
               else s.(devices := s.devices[d := NewDevice(kind, version)], log := s.log + [Created(d)])
    case BeginNotify(d, event) =>
      && s.manager.Ready? && d in s.devices
      && s' == s.(manager := Notifying(d, event, Observers(s.devices[d], event)))
    case Deliver(c) =>
      && s.manager.Notifying? && c in s.manager.todo
      && s' == s.(manager := s.manager.(todo := s.manager.todo - {c}))
    case EndNotify => s.manager.Notifying? && s.manager.todo == {} && s' == s.(manager := Ready)
  }

  ghost predicate Path(states: seq<State>, acts: seq<Action>) {
    && |states| == |acts| + 1
    && forall i :: 0 <= i < |acts| ==> Step(states[i], acts[i], states[i + 1])
  }

  // ---------------------------------------------------------------- the invariant

  /** The client still has the entry recorded, or is about to take it off the device. */
  ghost predicate Covers(client: Client, sub: Sub) {
    match client.pc
    case Serving | Attaching(_) => sub in client.memento
    case Detaching(x) => sub in client.memento || sub == x
    case Cleaning(rest) => sub in rest
    case Signalled | Finished | Deleted => false
  }

  ghost predicate Covered(s: State) {
    forall c: nat, sub: Sub :: Observes(s, c, sub) ==> c < |s.clients| && Covers(s.clients[c], sub)
  }

  ghost predicate WalkInside(s: State) {
    s.manager.Notifying? ==> forall c :: c in s.manager.todo ==> Observes(s, c, (s.manager.dev, s.manager.event))
  }

  /** Whether the last thing that happened to this subscription was an attach. */
  ghost predicate LastAttached(log: seq<LogEntry>, c: nat, sub: Sub) {
    log != [] && match log[|log| - 1]
                 case Attached(x, y) => (x == c && y == sub) || LastAttached(log[..|log| - 1], c, sub)
                 case Detached(x, y) => !(x == c && y == sub) && LastAttached(log[..|log| - 1], c, sub)
                 case Created(d) => d != sub.0 && LastAttached(log[..|log| - 1], c, sub)
  }

  ghost predicate LogTells(s: State) {
    forall c: nat, sub: Sub :: Observes(s, c, sub) <==> LastAttached(s.log, c, sub)
  }

  /** A subscribe is recorded before the device is touched. */
  ghost predicate Recorded(s: State) {
    forall c :: 0 <= c < |s.clients| && s.clients[c].pc.Attaching? ==> s.clients[c].pc.sub in s.clients[c].memento
  }

  ghost predicate Inv(s: State) { Covered(s) && Recorded(s) && WalkInside(s) && LogTells(s) }

  lemma LogGrows(log: seq<LogEntry>, entry: LogEntry, c: nat, sub: Sub)
    ensures LastAttached(log + [entry], c, sub) <==>
      match entry
      case Attached(x, y) => (x == c && y == sub) || LastAttached(log, c, sub)
      case Detached(x, y) => !(x == c && y == sub) && LastAttached(log, c, sub)
      case Created(d) => d != sub.0 && LastAttached(log, c, sub)
  {
    assert (log + [entry])[..|log|] == log;
  }

  /** The device half of a subscribe: exactly this client and this event are added. */
  lemma AttachAdds(s: State, c: nat, sub: Sub, x: nat, y: Sub)
    ensures Observes(AttachAt(s, c, sub), x, y) <==> Observes(s, x, y) || (x == c && y == sub && sub.0 in s.devices)
  {
    assert y == (y.0, y.1) && sub == (sub.0, sub.1);
  }

  /** The device half of an unsubscribe: exactly this client and this event are removed. */
  lemma DetachRemoves(s: State, c: nat, sub: Sub, x: nat, y: Sub)
    ensures Observes(DetachAt(s, c, sub), x, y) <==> Observes(s, x, y) && !(x == c && y == sub)
  {
    assert y == (y.0, y.1) && sub == (sub.0, sub.1);
  }

  lemma TouchKeepsInv(s: State, c: nat, sub: Sub, attach: bool, pc: ClientPc, s': State)
    requires Inv(s) && c < |s.clients| && Free(s, sub.0)
    requires s' == SetPc(if attach then AttachAt(s, c, sub) else DetachAt(s, c, sub), c, pc)
    requires forall y: Sub :: Covers(s.clients[c], y) && (attach || y != sub) ==> Covers(s'.clients[c], y)
    requires attach ==> Covers(s'.clients[c], sub)
    requires !pc.Attaching?
    ensures Inv(s')
  {
    forall x: nat, y: Sub
      ensures Observes(s', x, y)
        <==> if attach then Observes(s, x, y) || (x == c && y == sub && sub.0 in s.devices)
             else Observes(s, x, y) && !(x == c && y == sub)
      ensures Observes(s', x, y) <==> LastAttached(s'.log, x, y)
    {
      AttachAdds(s, c, sub, x, y);
      DetachRemoves(s, c, sub, x, y);
      assert Observes(s', x, y) == Observes(s'.(clients := s.clients), x, y);
      LogGrows(s.log, Attached(c, sub), x, y);
      LogGrows(s.log, Detached(c, sub), x, y);
      if sub.0 !in s.devices {
        assert y == sub ==> !Observes(s, x, y);
      }
    }
  }

  lemma AnnounceKeepsInv(s: State, a: Action, s': State)
    requires Inv(s) && a.Announce? && Step(s, a, s')
    ensures Inv(s')
  {
    if s' != s {
      forall x: nat, y: Sub
        ensures Observes(s', x, y) <==> Observes(s, x, y) && y.0 != a.dev
        ensures Observes(s', x, y) <==> LastAttached(s'.log, x, y)
      {
        LogGrows(s.log, Created(a.dev), x, y);
      }
    }
  }

  /** Steps that leave the devices and the log alone. */
  ghost predicate Quiet(s: State, s': State) { s'.devices == s.devices && s'.log == s.log }

  lemma QuietKeepsObservers(s: State, s': State)
    requires Quiet(s, s') && LogTells(s)
    ensures LogTells(s') && forall c: nat, sub: Sub :: Observes(s', c, sub) <==> Observes(s, c, sub)
  {
    forall c: nat, sub: Sub
      ensures Observes(s', c, sub) <==> Observes(s, c, sub)
      ensures Observes(s', c, sub) <==> LastAttached(s'.log, c, sub)
    {
      assert Observes(s, c, sub) <==> LastAttached(s.log, c, sub);
    }
  }

  lemma UnsubscribeKeepsInv(s: State, a: Action, s': State)
    requires Inv(s) && a.Unsubscribe? && Step(s, a, s')
    ensures Inv(s')
  {
    QuietKeepsObservers(s, s');
    hide Observes, LogTells, Without;
    forall x: Sub
      ensures x in Without(s.clients[a.c].memento, a.sub) <==> x in s.clients[a.c].memento && x != a.sub
    {
      WithoutRemovesAll(s.clients[a.c].memento, a.sub, x);
    }
  }

  /** The steps of the clients' threads and of the server that leave the devices alone. */
  lemma ClientStepKeepsInv(s: State, a: Action, s': State)
    requires Inv(s) && Step(s, a, s')
    requires a.Connect? || a.Subscribe? || a.Stop? || a.LeaveLoop? || a.Signal? || a.Finish? || a.Scan?
    ensures Inv(s')
  {
    QuietKeepsObservers(s, s');
    hide Observes, LogTells;
  }

  /** The steps of the thread that notifies. */
  lemma NotifyStepKeepsInv(s: State, a: Action, s': State)
    requires Inv(s) && Step(s, a, s')
    requires a.BeginNotify? || a.Deliver? || a.EndNotify?
    ensures Inv(s')
  {
    QuietKeepsObservers(s, s');
    hide LogTells, Covers;
  }

  lemma StepKeepsInv(s: State, a: Action, s': State)
    requires Inv(s) && Step(s, a, s')
    ensures Inv(s')
  {
    hide Inv;
    match a
    case Touch(_) => TouchStepKeepsInv(s, a, s');
    case CleanOne(_) => TouchStepKeepsInv(s, a, s');
    case Announce(_, _, _) => AnnounceKeepsInv(s, a, s');
    case Unsubscribe(_, _) => UnsubscribeKeepsInv(s, a, s');
    case BeginNotify(_, _) => NotifyStepKeepsInv(s, a, s');
    case Deliver(_) => NotifyStepKeepsInv(s, a, s');
    case EndNotify => NotifyStepKeepsInv(s, a, s');
    case _ => ClientStepKeepsInv(s, a, s');
  }

  lemma TouchStepKeepsInv(s: State, a: Action, s': State)
    requires Inv(s) && (a.Touch? || a.CleanOne?) && Step(s, a, s')
    ensures Inv(s')
  {
    hide Observes, LogTells, SetObservers;
    match a
    case Touch(c) =>
      TouchKeepsInv(s, c, s.clients[c].pc.sub, s.clients[c].pc.Attaching?, Serving, s');
    case CleanOne(c) =>
      var rest := s.clients[c].pc.rest;
      TouchKeepsInv(s, c, rest[0], false, Cleaning(rest[1..]), s');
  }

  lemma {:induction false} RunKeepsInv(states: seq<State>, acts: seq<Action>)
    requires Path(states, acts) && Inv(states[0])
    ensures forall i :: 0 <= i < |states| ==> Inv(states[i])
  {
    if acts != [] {
      StepKeepsInv(states[0], acts[0], states[1]);
      RunKeepsInv(states[1..], acts[1..]);
      assert forall i :: 1 <= i < |states| ==> states[i] == states[1..][i - 1];
    }
  }

  /** Main result, at every point of every run: a client held by a device exists, has the entry in its
      memento or is taking it off right now, and in particular has not finished its cleanup. */
  lemma NoDanglingObserver(states: seq<State>, acts: seq<Action>, i: nat, c: nat, sub: Sub)
    requires Path(states, acts) && Init(states[0]) && i < |states|
    requires Observes(states[i], c, sub)
    ensures c < |states[i].clients| && Covers(states[i].clients[c], sub)
    ensures var pc := states[i].clients[c].pc; !pc.Signalled? && !pc.Finished? && !pc.Deleted?
  {
    RunKeepsInv(states, acts);
  }

  /** Main result: whatever interleaves with a notification, each client it calls is still there. */
  lemma DeliveryReachesLiveClient(states: seq<State>, acts: seq<Action>, i: nat, c: nat)
    requires Path(states, acts) && Init(states[0]) && i < |acts| && acts[i] == Deliver(c)
    ensures c < |states[i].clients|
    ensures var pc := states[i].clients[c].pc; !pc.Signalled? && !pc.Finished? && !pc.Deleted?
  {
    RunKeepsInv(states, acts);
    assert Step(states[i], acts[i], states[i + 1]);
    assert Observes(states[i], c, (states[i].manager.dev, states[i].manager.event));
  }

  /** Main result: at every point of every run a client is notified of exactly the subscriptions whose
      last event was its attach: an unsubscribe ends it however often it subscribed, and so does the
      creation of a new device object under the same id, although the memento keeps the entry. */
  lemma ObserversAreTheLastAttached(states: seq<State>, acts: seq<Action>, i: nat, c: nat, sub: Sub)
    requires Path(states, acts) && Init(states[0]) && i < |states|
    ensures Observes(states[i], c, sub) <==> LastAttached(states[i].log, c, sub)
  {
    RunKeepsInv(states, acts);
  }

  // ---------------------------------------------------------------- what single steps come to

  lemma {:induction false} VersionsAreNarrow(states: seq<State>, acts: seq<Action>, d: nat)
    requires Path(states, acts) && Init(states[0])
    ensures var s := states[|acts|]; d in s.devices && s.devices[d].kind == 5 ==> s.devices[d].version < 0x1_0000
    decreases |acts|
  {
    if acts != [] {
      var n := |acts| - 1;
      assert Step(states[n], acts[n], states[n + 1]);
      VersionsAreNarrow(states[..n + 1], acts[..n], d);
    }
  }

  /** Main result: a device that is announced as what it is keeps its object and its observers; otherwise it
      gets a new object without any. Announced once more, it is kept, unless it is of type 5 and its version
      needs more than the 16 bits that the object keeps. */
  lemma RepeatedAnnouncement(s: State, d: nat, kind: nat, version: nat, s': State, s'': State)
    requires Step(s, Announce(d, kind, version), s') && Step(s', Announce(d, kind, version), s'')
    requires d in s.devices && s.devices[d].kind == 5 ==> s.devices[d].version < 0x1_0000 // in every run
    ensures d in s'.devices && s'.devices[d].kind == kind
    ensures d in s.devices && s.devices[d].kind == kind && s.devices[d].version == version ==> s' == s
    ensures !(d in s.devices && s.devices[d].kind == kind && s.devices[d].version == version) ==>
      forall c: nat, event: string :: !Observes(s', c, (d, event))
    ensures forall x: nat :: x != d ==> (x in s'.devices <==> x in s.devices)
    ensures forall x: nat :: x != d && x in s.devices ==> s'.devices[x] == s.devices[x]
    ensures s'' == s' <==> !(kind == 5 && version >= 0x1_0000)
  {
    if kind == 5 && version >= 0x1_0000 {
      assert |s''.log| == |s'.log| + 1;
    }
  }

  /** Main result: a client's thread leaves its loop, and its subscriptions are taken off, only after its peer
      has closed or the server has shut it down. */
  lemma {:induction false} ServesUntilStopped(states: seq<State>, acts: seq<Action>, c: nat)
    requires Path(states, acts) && Init(states[0]) && c < |states[|acts|].clients|
    ensures var client := states[|acts|].clients[c];
      && (client.running ==> client.pc.Serving? || client.pc.Attaching? || client.pc.Detaching?)
      && (!client.running <==> exists i :: 0 <= i < |acts| && acts[i] == Stop(c))
    decreases |acts|
  {
    if acts != [] {
      var n := |acts| - 1;
      var s := states[n];
      assert Step(s, acts[n], states[n + 1]);
      assert forall i :: 0 <= i < n ==> acts[..n][i] == acts[i];
      if c < |s.clients| {
        ServesUntilStopped(states[..n + 1], acts[..n], c);
      } else {
        NotYetStopped(states[..n + 1], acts[..n], c);
      }
    }
  }

  lemma {:induction false} NotYetStopped(states: seq<State>, acts: seq<Action>, c: nat)
    requires Path(states, acts) && c >= |states[|acts|].clients|
    ensures forall i :: 0 <= i < |acts| ==> acts[i] != Stop(c)
    decreases |acts|
  {
    if acts != [] {
      var n := |acts| - 1;
      assert Step(states[n], acts[n], states[n + 1]);
      NotYetStopped(states[..n + 1], acts[..n], c);
      assert forall i :: 0 <= i < n ==> acts[..n][i] == acts[i];
    }
  }

  /** The client's last request about a subscription was to have it. */
  ghost predicate LastAsked(acts: seq<Action>, c: nat, sub: Sub) {
    acts != []
    && var a := acts[|acts| - 1];
    (a == Subscribe(c, sub) || (a != Unsubscribe(c, sub) && LastAsked(acts[..|acts| - 1], c, sub)))
  }

  /** Main result: at every point of every run, a client's memento holds exactly the subscriptions that it
      asked for and has not asked to end. */
  lemma {:induction false} MementoIsLastAsked(states: seq<State>, acts: seq<Action>, c: nat, sub: Sub)
    requires Path(states, acts) && Init(states[0])
    ensures (c < |states[|acts|].clients| && sub in states[|acts|].clients[c].memento) <==> LastAsked(acts, c, sub)
    decreases |acts|
  {
    if acts != [] {
      var n := |acts| - 1;
      var s, a := states[n], acts[n];
      assert Step(s, a, states[n + 1]);
      MementoIsLastAsked(states[..n + 1], acts[..n], c, sub);
      if a.Unsubscribe? {
        WithoutRemovesAll(s.clients[a.c].memento, a.sub, sub);
      }
    }
  }

  // ---------------------------------------------------------------- a notification

  /** How often a client was called. */
  function Calls(acts: seq<Action>, c: nat): nat {
    if acts == [] then 0 else (if acts[0] == Deliver(c) then 1 else 0) + Calls(acts[1..], c)
  }

  lemma {:induction false} WalkCallsTheRest(states: seq<State>, acts: seq<Action>, c: nat)
    requires Path(states, acts) && states[0].manager.Notifying? && states[|acts|].manager == Ready
    requires forall i :: 0 <= i < |acts| ==> !acts[i].BeginNotify?
    ensures Calls(acts, c) == if c in states[0].manager.todo then 1 else 0
    decreases |acts|
  {
    assert Step(states[0], acts[0], states[1]);
    assert states[1..][|acts| - 1] == states[|acts|];
    if acts[0].EndNotify? {
      NoWalkNoCalls(states[1..], acts[1..], c);
    } else {
      WalkCallsTheRest(states[1..], acts[1..], c);
    }
  }

  lemma {:induction false} NoWalkNoCalls(states: seq<State>, acts: seq<Action>, c: nat)
    requires Path(states, acts) && states[0].manager == Ready
    requires forall i :: 0 <= i < |acts| ==> !acts[i].BeginNotify?
    ensures Calls(acts, c) == 0
    decreases |acts|
  {
    if acts != [] {
      assert Step(states[0], acts[0], states[1]);
      NoWalkNoCalls(states[1..], acts[1..], c);
    }
  }

  /** Main result: from its begin to its end, a notification calls every observer that the device has for the
      event exactly once, and nobody else. */
  lemma NotificationReachesObservers(states: seq<State>, acts: seq<Action>, d: nat, event: string, c: nat)
    requires Path(states, acts) && acts != [] && acts[0] == BeginNotify(d, event)
    requires states[|acts|].manager == Ready && forall i :: 1 <= i < |acts| ==> !acts[i].BeginNotify?
    ensures Calls(acts, c) == if Observes(states[0], c, (d, event)) then 1 else 0
  {
    assert Step(states[0], acts[0], states[1]);
    assert states[1..][|acts| - 1] == states[|acts|];
    WalkCallsTheRest(states[1..], acts[1..], c);
  }

  // ---------------------------------------------------------------- the client list

  ghost predicate Zombie(s: State, c: nat) { c < |s.clients| && s.clients[c].pc.Finished? && !s.cleanup }

  /** A server pass came while client c was between its signal and the end of its thread function. */
  ghost predicate ScannedTooEarly(states: seq<State>, acts: seq<Action>, c: nat, k: nat) {
    && k < |acts| && k < |states| && acts[k].Scan? && c < |states[k].clients| && states[k].clients[c].pc.Signalled?
  }

  lemma {:induction false} NoPassWithoutSignal(states: seq<State>, acts: seq<Action>, k: nat)
    requires Path(states, acts) && k <= |acts| && !states[k].cleanup
    requires forall j :: k <= j < |acts| ==> !acts[j].Signal?
    ensures !states[|acts|].cleanup
    decreases |acts| - k
  {
    if k < |acts| {
      assert Step(states[k], acts[k], states[k + 1]);
      NoPassWithoutSignal(states, acts, k + 1);
    }
  }

  ghost predicate NoSignalAfter(acts: seq<Action>, k: nat) { forall j :: k < j < |acts| ==> !acts[j].Signal? }

  /** The last pass that the server made came too early for the client. */
  lemma {:induction false} LastPassWasTooEarly(states: seq<State>, acts: seq<Action>, c: nat) returns (k: nat)
    requires Path(states, acts) && Init(states[0])
    requires c < |states[|acts|].clients| && !states[|acts|].cleanup
    requires states[|acts|].clients[c].pc.Signalled? || states[|acts|].clients[c].pc.Finished?
    ensures ScannedTooEarly(states, acts, c, k) && NoSignalAfter(acts, k)
  {
    var n := |acts| - 1;
    var s, a := states[n], acts[n];
    assert Step(s, a, states[n + 1]);
    if a.Scan? {
      k := n;
    } else {
      k := LastPassWasTooEarly(states[..n + 1], acts[..n], c);
    }
  }

  /** Main result: a client whose thread has ended is left in the list exactly if a server pass ran between
      its signal and the end of its thread function, and no client has signalled since: the flag is stored
      after the signal is sent, and only another signal makes the server look again. */
  lemma LeftoverExactly(states: seq<State>, acts: seq<Action>, c: nat)
    requires Path(states, acts) && Init(states[0])
    requires c < |states[|acts|].clients| && states[|acts|].clients[c].pc.Finished?
    ensures Zombie(states[|acts|], c)
      <==> exists k: nat :: ScannedTooEarly(states, acts, c, k) && NoSignalAfter(acts, k)
  {
    if Zombie(states[|acts|], c) {
      var k := LastPassWasTooEarly(states, acts, c);
    }
    if k: nat :| ScannedTooEarly(states, acts, c, k) && NoSignalAfter(acts, k) {
      assert Step(states[k], acts[k], states[k + 1]);
      NoPassWithoutSignal(states, acts, k + 1);
    }
  }

  /** Such a run exists: signal, server pass, end of the thread. */
  lemma LeftoverClientIsPossible() returns (states: seq<State>, acts: seq<Action>)
    ensures Path(states, acts) && Init(states[0]) && Zombie(states[|acts|], 0)
  {
    var c := Client(Serving, [], true);
    var s0 := State([], map[], Ready, false, []);
    var s1 := s0.(clients := [c]);
    var s2 := s1.(clients := [c.(running := false)]);
    var s3 := s2.(clients := [c.(running := false, pc := Cleaning([]))]);
    var s4 := s3.(clients := [c.(running := false, pc := Signalled)], cleanup := true);
    var s5 := s4.(cleanup := false);
    var s6 := s5.(clients := [c.(running := false, pc := Finished)]);
    states := [s0, s1, s2, s3, s4, s5, s6];
    acts := [Connect, Stop(0), LeaveLoop(0), Signal(0), Scan, Finish(0)];
    assert DeleteFinished(s4.clients) == s4.clients;
  }
}
