/**
How h9bus sends: each driver keeps a priority queue whose first frame is on the wire, a broadcast
puts one heap object into the queues of all endpoints, and the object is freed by counting the
endpoints that report it sent.
*/
module SendQueue {
  import opened Frames

  class BusFrame {
    const frame: Frame
    var total: nat
    var completed: nat

    constructor (f: Frame)
      ensures frame == f && total == 0 && completed == 0
    {
      frame := f;
      total, completed := 0, 0;
    }
  }

  predicate Before(x: BusFrame, y: BusFrame) { x.frame.priority.HIGH? && y.frame.priority.LOW? }

  /** A priority queue as far as its users can tell: the first element is the top, no element comes
      before it, and the others have no order. */
  ghost predicate IsQueue(q: seq<BusFrame>) { forall i :: 0 <= i < |q| ==> !Before(q[i], q[0]) }

  /** Pushing displaces the top only for a HIGH frame over a LOW one; a LOW top has only LOW frames behind it. */
  function Push(q: seq<BusFrame>, f: BusFrame): (r: seq<BusFrame>)
    requires IsQueue(q)
    ensures IsQueue(r) && multiset(r) == multiset(q) + multiset{f}
    ensures |r| > 0 && r[0] == if q == [] || Before(f, q[0]) then f else q[0]
  {
    if q != [] && Before(f, q[0]) then [f] + q else q + [f]
  }

  /** Main result: what a queue and a push are in terms of priorities. A queue's top is HIGH if any of its
      frames is; a pushed frame gets to the top exactly if there was none, or if it is HIGH and the top LOW. */
  lemma HighFirst(q: seq<BusFrame>, f: BusFrame)
    ensures IsQueue(q) <==> q == [] || q[0].frame.priority.HIGH? || forall x :: x in q ==> x.frame.priority.LOW?
    ensures IsQueue(q) ==>
      (Push(q, f)[0] == f <==> q == [] || q[0] == f || (f.frame.priority.HIGH? && q[0].frame.priority.LOW?))
  {
    if q != [] && q[0].frame.priority.LOW? && IsQueue(q) {
      forall x | x in q
        ensures x.frame.priority.LOW?
      {
        var i :| 0 <= i < |q| && q[i] == x;
        assert !Before(q[i], q[0]);
      }
    }
  }

  /** pop leaves any of the remaining frames that no other comes before at the top: a LOW one only if no HIGH
      one is left. */
  method Pop(q: seq<BusFrame>) returns (r: seq<BusFrame>)
    requires IsQueue(q) && q != []
    ensures IsQueue(r) && multiset(q) == multiset(r) + multiset{q[0]} && |r| == |q| - 1
    ensures |q| <= 2 ==> r == q[1..]
    ensures r != [] && r[0].frame.priority.LOW? ==> forall x :: x in r ==> x.frame.priority.LOW?
  {
    var rest := q[1..];
    assert q == [q[0]] + rest;
    if rest == [] {
      return rest;
    }
    var k := 0;
    if high :| 0 <= high < |rest| && rest[high].frame.priority.HIGH? {
      k := high;
    } else {
      k :| 0 <= k < |rest|;
    }
    r := [rest[k]] + rest[..k] + rest[k + 1..];
    assert rest == rest[..k] + [rest[k]] + rest[k + 1..];
    forall i | 0 <= i < |r|
      ensures !Before(r[i], r[0])
    {
      assert r[i] in rest;
    }
  }

  /** A place at which the wire and the reports differ, or will at the next report, and always will. */
  ghost predicate Parts(queue: seq<BusFrame>, done: seq<BusFrame>, wire: seq<BusFrame>, k: nat) {
    && k < |wire|
    && if k < |done| then wire[k] != done[k] else k == |done| && queue != [] && Before(queue[0], wire[k])
  }

  /** Nothing is lost or invented: what was pushed was reported or is queued. */
  ghost predicate Conserved(pushed: multiset<BusFrame>, done: seq<BusFrame>, queue: seq<BusFrame>) {
    pushed == multiset(done) + multiset(queue)
  }

  lemma ConservedByPush(pushed: multiset<BusFrame>, done: seq<BusFrame>, queue: seq<BusFrame>, f: BusFrame,
      after: seq<BusFrame>)
    requires Conserved(pushed, done, queue) && multiset(after) == multiset(queue) + multiset{f}
    ensures Conserved(pushed + multiset{f}, done, after)
  {
  }

  lemma ConservedByReport(pushed: multiset<BusFrame>, done: seq<BusFrame>, queue: seq<BusFrame>, f: BusFrame,
      after: seq<BusFrame>)
    requires Conserved(pushed, done, queue) && multiset(queue) == multiset(after) + multiset{f}
    ensures Conserved(pushed, done + [f], after)
  {
  }

  /** Sending on an empty queue does not mend a difference. */
  lemma StillParts(done: seq<BusFrame>, wire: seq<BusFrame>, k: nat, f: BusFrame)
    requires Parts([], done, wire, k)
    ensures Parts([f], done, wire + [f], k) && Parts([], done + [f], wire + [f], k)
  {
  }

  /** Nor does a report. */
  lemma StillPartsOnReport(queue: seq<BusFrame>, done: seq<BusFrame>, wire: seq<BusFrame>, f: BusFrame,
      after: seq<BusFrame>, k: nat)
    requires Parts(queue, done, wire, k) && queue != [] && f == queue[0] && |wire| == |done| + 1
    ensures Parts(after, done + [f], wire + (if after == [] then [] else [after[0]]), k)
  {
  }

  /** Nor does a push. */
  lemma StillPartsOnPush(queue: seq<BusFrame>, done: seq<BusFrame>, wire: seq<BusFrame>, f: BusFrame, k: nat)
    requires IsQueue(queue) && Parts(queue, done, wire, k)
    ensures Parts(Push(queue, f), done, wire, k)
  {
  }

  /** A frame that comes before the one on the wire makes a difference. */
  lemma OvertakingParts(queue: seq<BusFrame>, done: seq<BusFrame>, wire: seq<BusFrame>, f: BusFrame)
    requires IsQueue(queue) && queue != [] && wire == done + [queue[0]] && Before(f, queue[0])
    ensures Parts(Push(queue, f), done, wire, |done|)
  {
  }

  // ---------------------------------------------------------------- one driver

  /** A deferred endpoint (slcan) reports a frame sent when the adapter acknowledges it; an immediate
      one (socketcan, loop, dummy) does so inside send_data. */
  class Driver {
    const immediate: bool
    const hasSocket: bool
    var queue: seq<BusFrame>
    var lastSend: bool // whether last_send is set
    ghost var pushed: multiset<BusFrame>
    ghost var wire: seq<BusFrame> // frames handed to the bus, in order
    ghost var done: seq<BusFrame> // frames reported sent, in order
    ghost var overtaken: bool     // a HIGH frame was pushed while a LOW one was on the wire
    ghost var fork: nat           // where wire and reports part, once overtaken

    /** What the wire has carried if the frame on the wire is the top of the queue. */
    ghost function Expected(): seq<BusFrame>
      reads this
    {
      if queue == [] then done else done + [queue[0]]
    }

    ghost predicate Valid()
      reads this
    {
      && IsQueue(queue)
      && (immediate ==> queue == [])
      && (lastSend <==> queue != [])
      && Conserved(pushed, done, queue)
      && |wire| == |Expected()|
      && (if overtaken then Parts(queue, done, wire, fork) else wire == Expected())
    }

    constructor (immediate: bool, hasSocket: bool)
      ensures Valid() && this.immediate == immediate && this.hasSocket == hasSocket
      ensures queue == [] && pushed == multiset{} && wire == [] && done == [] && !overtaken
    {
      this.immediate, this.hasSocket := immediate, hasSocket;
      queue, lastSend := [], false;
      pushed, wire, done, overtaken, fork := multiset{}, [], [], false, 0;
    }

    /** Main result for one driver: in every run, what went over the wire is what was reported sent
        followed by the top of the queue exactly if no HIGH frame was pushed while a LOW one was on
        the wire. */
    lemma WireAgreesUnlessOvertaken()
      requires Valid()
      ensures wire == Expected() <==> !overtaken
    {
      if overtaken {
        assert wire[fork] != Expected()[fork];
      }
    }

    /** on_frame_send: the top is reported, whatever is on the wire, and the next one is sent. The
        returned frame is the one the callback gets. */
    method OnFrameSend() returns (sent: BusFrame)
      requires IsQueue(queue) && queue != []
      requires !lastSend && (immediate ==> |queue| == 1)
      modifies this
      ensures sent == old(queue[0]) && done == old(done) + [sent]
      ensures IsQueue(queue) && multiset(queue) + multiset{sent} == multiset(old(queue)) && |queue| == |old(queue)| - 1
      ensures 0 < |old(queue)| <= 2 ==> queue == old(queue)[1..]
      ensures wire == old(wire) + (if queue == [] then [] else [queue[0]])
      ensures lastSend <==> queue != []
      ensures pushed == old(pushed) && overtaken == old(overtaken) && fork == old(fork)
    {
      sent := queue[0];
      queue := Pop(queue);
      done := done + [sent];
      if queue != [] {
        SendDeferred();
      }
    }

    /** Slcan::send_data on the top of the queue. */
    method SendDeferred()
      requires queue != [] && !immediate
      modifies this`wire, this`lastSend
      ensures wire == old(wire) + [queue[0]] && lastSend
    {
      wire := wire + [queue[0]];
      lastSend := true;
    }

    /** Driver::send_frame; an immediate endpoint has reported the frame when it returns. */
    method SendFrame(f: BusFrame) returns (completed: bool)
      requires Valid()
      modifies this
      ensures Valid()
      ensures completed == (hasSocket && immediate)
      ensures !hasSocket ==> queue == old(queue) && pushed == old(pushed) && wire == old(wire) && done == old(done)
      ensures hasSocket ==> pushed == old(pushed) + multiset{f}
      ensures hasSocket && immediate ==> queue == [] && wire == old(wire) + [f] && done == old(done) + [f]
      ensures hasSocket && !immediate ==> queue == Push(old(queue), f) && done == old(done)
      ensures hasSocket && !immediate ==> wire == old(wire) + (if old(queue) == [] then [f] else [])
      ensures overtaken <==>
        old(overtaken) || (hasSocket && old(queue) != []
                           && f.frame.priority.HIGH? && old(wire[|wire| - 1]).frame.priority.LOW?)
    {
      if !hasSocket {
        return false;
      }
      var queueEmpty := queue == [];
      if queueEmpty {
        SendIdle(f);
      } else {
        PushBusy(f);
      }
      return queueEmpty && immediate;
    }

    /** The queue was empty: the frame goes out at once, and an immediate endpoint reports it. */
    method SendIdle(f: BusFrame)
      requires Valid() && queue == []
      modifies this
      ensures Valid() && overtaken == old(overtaken)
      ensures pushed == old(pushed) + multiset{f} && wire == old(wire) + [f]
      ensures queue == (if immediate then [] else [f]) && done == old(done) + if immediate then [f] else []
    {
      hide IsQueue, Parts, Push, Conserved, Before;
      if overtaken {
        StillParts(done, wire, fork, f);
      }
      ConservedByPush(pushed, done, [], f, [f]);
      ConservedByReport(pushed + multiset{f}, done, [f], f, []);
      PushFirst(f);
      if immediate {
        wire := wire + [f];
        var sent := ReportLast();
      } else {
        SendDeferred();
      }
    }

    method PushFirst(f: BusFrame)
      requires queue == []
      modifies this`queue, this`pushed
      ensures queue == [f] && pushed == old(pushed) + multiset{f} && IsQueue(queue) && IsQueue([])
    {
      pushed := pushed + multiset{f};
      queue := Push(queue, f);
    }

    /** on_frame_send when the top is the only frame. */
    method ReportLast() returns (sent: BusFrame)
      requires |queue| == 1 && !lastSend
      modifies this
      ensures sent == old(queue[0]) && queue == [] && done == old(done) + [sent] && wire == old(wire) && !lastSend
      ensures pushed == old(pushed) && overtaken == old(overtaken) && fork == old(fork)
    {
      sent := OnFrameSend();
      assert queue == [];
    }

    /** Another frame is on the wire: this one waits, perhaps at the top. */
    method PushBusy(f: BusFrame)
      requires Valid() && queue != []
      modifies this
      ensures Valid() && queue == Push(old(queue), f) && pushed == old(pushed) + multiset{f}
      ensures wire == old(wire) && done == old(done)
      ensures overtaken <==> old(overtaken) || Before(f, wire[|wire| - 1])
    {
      hide Conserved, Parts, IsQueue, Before, Push;
      if overtaken {
        StillPartsOnPush(queue, done, wire, f, fork);
      } else if Before(f, wire[|wire| - 1]) {
        OvertakingParts(queue, done, wire, f);
        overtaken, fork := true, |done|;
      }
      ConservedByPush(pushed, done, queue, f, Push(queue, f));
      pushed := pushed + multiset{f};
      queue := Push(queue, f);
    }

    /** A bare CR from the adapter: the report of a deferred endpoint, ignored when none is due. */
    method Acknowledge() returns (completed: seq<BusFrame>)
      requires Valid() && !immediate
      modifies this
      ensures Valid()
      ensures completed == if old(queue) == [] then [] else [old(queue[0])]
      ensures done == old(done) + completed && multiset(queue) + multiset(completed) == multiset(old(queue))
      ensures 0 < |old(queue)| <= 2 ==> queue == old(queue)[1..]
      ensures wire == old(wire) + (if |queue| == 0 then [] else [queue[0]])
      ensures pushed == old(pushed) && overtaken == old(overtaken)
    {
      if !lastSend {
        return [];
      }
      hide Driver.Valid, IsQueue;
      var sent := ReportTop();
      completed := [sent];
    }

    /** parse_response: last_send is cleared before on_frame_send. */
    method ReportTop() returns (sent: BusFrame)
      requires Valid() && !immediate && lastSend
      modifies this
      ensures Valid() && old(queue) != [] && sent == old(queue[0]) && done == old(done) + [sent]
      ensures multiset(queue) + multiset{sent} == multiset(old(queue))
      ensures |old(queue)| <= 2 ==> queue == old(queue)[1..]
      ensures wire == old(wire) + (if queue == [] then [] else [queue[0]])
      ensures pushed == old(pushed) && overtaken == old(overtaken)
    {
      hide Conserved, IsQueue, Parts;
      lastSend := false;
      sent := OnFrameSend();
      ConservedByReport(pushed, old(done), old(queue), sent, queue);
      if overtaken {
        StillPartsOnReport(old(queue), old(done), old(wire), sent, queue, fork);
      }
    }
  }

  /** A HIGH frame waits at the top while a LOW one is on the wire. */
  method Overtaken(low: BusFrame, high: BusFrame) returns (d: Driver)
    requires high.frame.priority.HIGH? && low.frame.priority.LOW?
    ensures fresh(d) && d.Valid() && !d.immediate
    ensures d.wire == [low] && d.done == [] && d.queue == [high, low]
  {
    assert Push([], low) == [low] && Push([low], high) == [high, low];
    hide IsQueue, Conserved, Parts, Before, Push, Driver.Valid;
    d := new Driver(false, true);
    var c := d.SendFrame(low);
    c := d.SendFrame(high);
  }

  /** The smallest run in which the reports are wrong: the LOW frame goes over the wire twice, the HIGH
      frame never does, and both are reported. */
  method HighOvertakesLow(low: BusFrame, high: BusFrame) returns (d: Driver)
    requires high.frame.priority.HIGH? && low.frame.priority.LOW?
    ensures fresh(d) && d.Valid() && d.wire == [low, low] && d.done == [high, low] && d.queue == []
  {
    hide IsQueue, Conserved, Parts, Before, Push, Driver.Valid;
    d := Overtaken(low, high);
    var reports := d.Acknowledge();
    assert d.queue == [low] && d.wire == [low, low] && d.done == [high];
    reports := d.Acknowledge();
  }
}
