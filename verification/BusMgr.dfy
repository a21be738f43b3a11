/**
The broadcast of one frame to all endpoints of h9bus and the life of its heap object: created by
send_frame, held by the endpoints' queues, deleted by the endpoint that completes the count.
*/
module BusMgr {
  import opened Frames
  import opened SendQueue

  /** In how many queues a frame is, counted with multiplicity. */
  ghost function Holders(queues: seq<seq<BusFrame>>, f: BusFrame): nat {
    if queues == [] then 0 else multiset(queues[0])[f] + Holders(queues[1..], f)
  }

  lemma {:induction false} HoldersUpdate(queues: seq<seq<BusFrame>>, i: nat, q: seq<BusFrame>, f: BusFrame)
    requires i < |queues|
    ensures Holders(queues[i := q], f) + multiset(queues[i])[f] == Holders(queues, f) + multiset(q)[f]
  {
    if i == 0 {
      assert queues[0 := q][1..] == queues[1..];
    } else {
      assert queues[i := q][1..] == queues[1..][i - 1 := q];
      HoldersUpdate(queues[1..], i - 1, q, f);
    }
  }

  lemma {:induction false} HoldersPositive(queues: seq<seq<BusFrame>>, i: nat, f: BusFrame)
    requires i < |queues| && f in queues[i]
    ensures Holders(queues, f) > 0
  {
    if i > 0 {
      HoldersPositive(queues[1..], i - 1, f);
    }
  }

  lemma {:induction false} HoldersZero(queues: seq<seq<BusFrame>>, f: BusFrame)
    requires forall i :: 0 <= i < |queues| ==> f !in queues[i]
    ensures Holders(queues, f) == 0
  {
    if queues != [] {
      assert f !in queues[0];
      HoldersZero(queues[1..], f);
    }
  }

  lemma HoldersAfterSend(queues: seq<seq<BusFrame>>, i: nat, q: seq<BusFrame>, added: multiset<BusFrame>)
    requires i < |queues| && multiset(q) == multiset(queues[i]) + added
    ensures forall g :: Holders(queues[i := q], g) == Holders(queues, g) + added[g]
  {
    forall g
      ensures Holders(queues[i := q], g) == Holders(queues, g) + added[g]
    {
      HoldersUpdate(queues, i, q, g);
    }
  }

  lemma PartOfQueue(q: seq<BusFrame>, r: seq<BusFrame>, whole: seq<BusFrame>)
    requires multiset(q) + multiset(r) == multiset(whole)
    ensures forall f :: f in q ==> f in whole && multiset(q)[f] <= multiset(whole)[f]
  {
    forall f | f in q
      ensures f in whole && multiset(q)[f] <= multiset(whole)[f]
    {
      assert multiset(whole)[f] == multiset(q)[f] + multiset(r)[f];
      assert f in multiset(q) && f in multiset(whole);
    }
  }

  /** The whole list of endpoints, one of them by name, or a name that no endpoint has. */
  datatype Target = All | One(i: nat) | Unknown

  class Manager {
    const dev: seq<Driver> // in the order of the map's keys
    ghost var live: set<BusFrame>
    ghost var deleted: seq<BusFrame>
    ghost var handed: seq<(nat, BusFrame)> // which endpoint was handed which frame, in order

    ghost function Queues(): (r: seq<seq<BusFrame>>)
      reads dev
      ensures |r| == |dev| && forall i :: 0 <= i < |dev| ==> r[i] == dev[i].queue
    {
      seq(|dev|, i requires 0 <= i < |dev| reads dev => dev[i].queue)
    }

    /** The endpoints are distinct objects with a socket (a program whose endpoint does not open ends),
        and their queues hold only live frames, none twice. */
    ghost predicate DriversValid()
      reads this`live, dev
    {
      && (forall i, j :: 0 <= i < j < |dev| ==> dev[i] != dev[j])
      && (forall i :: 0 <= i < |dev| ==> dev[i].Valid() && dev[i].hasSocket)
      && (forall i, f :: 0 <= i < |dev| && f in dev[i].queue ==> f in live)
      && (forall i, f :: 0 <= i < |dev| && f in dev[i].queue ==> multiset(dev[i].queue)[f] == 1)
    }

    /** A live frame is in exactly as many queues as endpoints have still to report it; for frame f
        owed more reports have just been made. */
    ghost predicate Accounts(f: BusFrame?, owed: nat)
      reads this`live, dev, live
    {
      forall g :: g in live ==>
        && g.total == g.completed + Holders(Queues(), g) + (if g == f then owed else 0)
        && (g.completed > 0 ==> g.completed < g.total)
    }

    ghost predicate DeletedOnce()
      reads this`live, this`deleted
    {
      && (forall i :: 0 <= i < |deleted| ==> deleted[i] !in live)
      && (forall i, j :: 0 <= i < j < |deleted| ==> deleted[i] != deleted[j])
    }

    ghost predicate Valid()
      reads this`live, this`deleted, dev, live
    {
      DriversValid() && Accounts(null, 0) && DeletedOnce()
    }

    constructor (dev: seq<Driver>)
      requires forall i, j :: 0 <= i < j < |dev| ==> dev[i] != dev[j]
      requires forall i :: 0 <= i < |dev| ==> dev[i].Valid() && dev[i].hasSocket && dev[i].queue == []
      ensures Valid() && this.dev == dev && live == {} && deleted == [] && handed == []
    {
      this.dev := dev;
      live, deleted, handed := {}, [], [];
    }

    /** on_send_frame: one more endpoint has reported the frame; it is deleted exactly if no queue
        holds it any more. */
    method OnSendFrame(f: BusFrame)
      requires DriversValid() && Accounts(f, 1) && DeletedOnce() && f in live
      modifies this`live, this`deleted, f`completed
      ensures Valid()
      ensures f.completed == old(f.completed) + 1 && live + {f} == old(live)
      ensures f in live <==> Holders(Queues(), f) > 0
      ensures deleted == old(deleted) + if f in live then [] else [f]
    {
      hide Driver.Valid, Holders;
      ghost var queues := Queues();
      f.completed := f.completed + 1;
      assert Queues() == queues;
      if f.completed == f.total {
        forall j | 0 <= j < |dev|
          ensures f !in dev[j].queue
        {
          if f in dev[j].queue {
            HoldersPositive(queues, j, f);
          }
        }
        live, deleted := live - {f}, deleted + [f];
        assert Queues() == queues;
      }
    }

    /** The driver's part of an acknowledgement. */
    method AcknowledgeDriver(i: nat) returns (reports: seq<BusFrame>)
      requires DriversValid() && i < |dev| && !dev[i].immediate
      modifies dev[i]
      ensures DriversValid()
      ensures reports == if old(dev[i].queue) == [] then [] else [old(dev[i].queue[0])]
      ensures multiset(dev[i].queue) + multiset(reports) == multiset(old(dev[i].queue))
      ensures Queues() == old(Queues())[i := dev[i].queue]
    {
      hide Driver.Valid;
      reports := dev[i].Acknowledge();
      PartOfQueue(dev[i].queue, reports, old(dev[i].queue));
    }

    /** The adapter of endpoint i sends a bare CR. Main result: the frame at the top of its queue is
        reported, and deleted exactly if no queue holds it any more. */
    method Acknowledge(i: nat)
      requires Valid() && i < |dev| && !dev[i].immediate
      modifies this, dev[i], live
      ensures Valid()
      ensures old(dev[i].queue) == [] ==> live == old(live) && deleted == old(deleted) && dev[i].queue == []
      ensures old(dev[i].queue) != [] ==>
        var f := old(dev[i].queue[0]);
        && f.completed == old(f.completed) + 1
        && multiset(dev[i].queue) + multiset{f} == multiset(old(dev[i].queue))
        && (f in live <==> Holders(Queues(), f) > 0)
        && live + {f} == old(live)
        && deleted == old(deleted) + if f in live then [] else [f]
    {
      hide Driver.Valid, Holders;
      ghost var queues := Queues();
      var reports := AcknowledgeDriver(i);
      forall g: BusFrame
        ensures Holders(Queues(), g) + multiset(reports)[g] == Holders(queues, g)
      {
        HoldersUpdate(queues, i, dev[i].queue, g);
      }
      if reports != [] {
        assert reports[0] in queues[i];
        assert Accounts(reports[0], 1);
        OnSendFrame(reports[0]);
      } else {
        assert Queues() == queues;
      }
    }

    /** The driver's part of a send. */
    method SendToDriver(i: nat, f: BusFrame) returns (completed: bool)
      requires DriversValid() && i < |dev| && f in live && f !in dev[i].queue
      modifies dev[i], this`handed
      ensures DriversValid() && completed == dev[i].immediate
      ensures dev[i].pushed == old(dev[i].pushed) + multiset{f} && handed == old(handed) + [(i, f)]
      ensures multiset(dev[i].queue) == multiset(old(dev[i].queue)) + if completed then multiset{} else multiset{f}
      ensures Queues() == old(Queues())[i := dev[i].queue]
    {
      hide IsQueue, Conserved, Parts;
      completed := dev[i].SendFrame(f);
      handed := handed + [(i, f)];
      forall g | g in dev[i].queue
        ensures g in live && multiset(dev[i].queue)[g] == 1
      {
        assert g in multiset(dev[i].queue);
        assert g != f ==> g in multiset(old(dev[i].queue)) && g in old(dev[i].queue);
      }
    }

    /** Counts the endpoint and hands it the frame; a report it makes at once is still owed. */
    method CountAndSend(i: nat, f: BusFrame) returns (completed: bool)
      requires Valid() && i < |dev| && f in live && f !in dev[i].queue
      modifies dev[i], f`total, this`handed
      ensures DriversValid() && Accounts(f, if completed then 1 else 0) && DeletedOnce()
      ensures f.total == old(f.total) + 1 && completed == dev[i].immediate && (f in dev[i].queue <==> !completed)
      ensures handed == old(handed) + [(i, f)]
      ensures Queues() == old(Queues())[i := dev[i].queue]
    {
      hide DriversValid, DeletedOnce, Holders;
      ghost var queues := Queues();
      f.total := f.total + 1;
      assert Queues() == queues;
      completed := SendToDriver(i, f);
      HoldersAfterSend(queues, i, dev[i].queue, if completed then multiset{} else multiset{f});
      assert f in multiset(dev[i].queue) <==> !completed;
    }

    /** One round of the broadcast. */
    method SendTo(i: nat, f: BusFrame)
      requires Valid() && i < |dev| && f in live && f !in dev[i].queue
      modifies this`live, this`deleted, this`handed, dev[i], f
      ensures Valid() && f.total == old(f.total) + 1
      ensures live + {f} == old(live) && (f in live <==> Holders(Queues(), f) > 0)
      ensures deleted == old(deleted) + if f in live then [] else [f]
      ensures forall j :: 0 <= j < |dev| && j != i ==> dev[j].queue == old(dev[j].queue)
      ensures handed == old(handed) + [(i, f)]
      ensures f in dev[i].queue <==> !dev[i].immediate
    {
      hide DriversValid, DeletedOnce, Accounts, Holders;
      ghost var queues := Queues();
      var completed := CountAndSend(i, f);
      ghost var sent := Queues();
      if completed {
        OnSendFrame(f);
      } else {
        NothingOwed(f);
        HoldersPositive(Queues(), i, f);
      }
      assert Queues() == sent;
      assert forall j :: 0 <= j < |dev| && j != i ==> sent[j] == queues[j];
    }

    lemma NothingOwed(f: BusFrame)
      requires Accounts(f, 0)
      ensures Accounts(null, 0)
    {
    }

    /** BusMgr::send_frame. The broadcast counts an endpoint just before it hands it the frame, so an
        endpoint that reports at once can complete the count too early: the next round then touches a
        deleted object. Main result: that happens exactly if there are several endpoints and the first
        of them is immediate; otherwise every report is counted right, and exactly the endpoints meant
        have been handed the frame, once each. An object that no endpoint was handed is never deleted. */
    method SendFrame(frame: Frame, target: Target) returns (defined: bool, ghost f: BusFrame)
      requires Valid() && (target.One? ==> target.i < |dev|)
      modifies this, dev
      ensures defined <==> (target.All? && |dev| >= 2 ==> !dev[0].immediate)
      ensures fresh(f) && f.frame == frame
      ensures live + {f} == old(live) + {f} && deleted == old(deleted) + if f in live then [] else [f]
      ensures defined ==> Valid()
      ensures defined && target.All? ==>
        && f.total == |dev|
        && (forall i :: 0 <= i < |dev| ==> (f in dev[i].queue <==> !dev[i].immediate))
        && (f in live <==> |dev| == 0 || !dev[0].immediate)
      ensures defined && target.One? ==> f.total == 1 && (f in live <==> !dev[target.i].immediate)
      ensures defined ==> handed == old(handed) + match target
        case All => ToEach(f, |dev|)
        case One(i) => [(i, f)]
        case Unknown => []
      ensures defined && target.One? ==> forall j :: 0 <= j < |dev| ==>
        (f in dev[j].queue <==> j == target.i && !dev[j].immediate)
      ensures !defined ==> f !in live
      ensures defined ==> (f in live && Holders(Queues(), f) == 0 <==> target.Unknown? || (target.All? && |dev| == 0))
    {
      hide DriversValid, DeletedOnce, Accounts, Holders;
      var busFrame := Create(frame);
      f := busFrame;
      match target
      case Unknown =>
        defined := true;
      case One(i) =>
        SendTo(i, busFrame);
        defined := true;
        if !dev[i].immediate {
          HoldersPositive(Queues(), i, f);
        } else {
          HoldersZero(Queues(), f);
        }
      case All =>
        defined := Broadcast(busFrame);
    }

    /** The new object is in no queue. */
    method Create(frame: Frame) returns (f: BusFrame)
      requires Valid()
      modifies this`live
      ensures Valid() && fresh(f) && f.frame == frame && f.total == 0 && live == old(live) + {f}
      ensures Holders(Queues(), f) == 0 && forall i :: 0 <= i < |dev| ==> f !in dev[i].queue
      ensures Queues() == old(Queues())
    {
      hide Driver.Valid, Holders;
      ghost var queues := Queues();
      f := new BusFrame(frame);
      live := live + {f};
      assert Queues() == queues;
      HoldersZero(queues, f);
    }

    method Broadcast(f: BusFrame) returns (defined: bool)
      requires Valid() && f in live && f.total == 0 && Holders(Queues(), f) == 0
      requires forall i :: 0 <= i < |dev| ==> f !in dev[i].queue
      modifies this, dev, f
      ensures defined <==> (|dev| >= 2 ==> !dev[0].immediate)
      ensures !defined ==> f !in live
      ensures defined ==> handed == old(handed) + ToEach(f, |dev|)
      ensures defined ==> (f in live && Holders(Queues(), f) == 0 <==> |dev| == 0)
      ensures live + {f} == old(live) && deleted == old(deleted) + if f in live then [] else [f]
      ensures defined ==> Valid() && f.total == |dev| && (f in live <==> |dev| == 0 || !dev[0].immediate)
      ensures defined ==> forall i :: 0 <= i < |dev| ==> (f in dev[i].queue <==> !dev[i].immediate)
    {
      hide DriversValid, DeletedOnce, Accounts, Holders;
      var i := 0;
      while i < |dev|
        invariant 0 <= i <= |dev| && Valid() && f.total == i
        invariant f in live <==> i == 0 || !dev[0].immediate
        invariant if i == 0 then Holders(Queues(), f) == 0 else f in live <==> Holders(Queues(), f) > 0
        invariant i >= 2 ==> !dev[0].immediate
        invariant live + {f} == old(live) && deleted == old(deleted) + if f in live then [] else [f]
        invariant forall j :: 0 <= j < i ==> (f in dev[j].queue <==> !dev[j].immediate)
        invariant forall j :: i <= j < |dev| ==> f !in dev[j].queue
        invariant handed == old(handed) + ToEach(f, i)
      {
        if i > 0 && dev[0].immediate {
          return false;
        }
        SendTo(i, f);
        if !dev[0].immediate {
          HoldersPositive(Queues(), 0, f);
        } else {
          HoldersZero(Queues(), f);
        }
        i := i + 1;
      }
      defined := true;
    }
  }

  /** The frame handed to the first n endpoints, one after the other. */
  ghost function ToEach(f: BusFrame, n: nat): (r: seq<(nat, BusFrame)>)
    ensures |r| == n && forall i :: 0 <= i < n ==> r[i] == (i, f)
  {
    if n == 0 then [] else ToEach(f, n - 1) + [(n - 1, f)]
  }

  /** The smallest broadcast that goes on with a deleted object: two endpoints, the first of which reports
      inside send_data. */
  method DeletedWhileBroadcast(frame: Frame) returns (m: Manager)
    ensures fresh(m) && |m.dev| == 2 && m.live == {} && |m.deleted| == 1 && m.deleted[0].frame == frame
  {
    hide Driver.Valid;
    var first := new Driver(true, true);
    var second := new Driver(false, true);
    m := new Manager([first, second]);
    var defined, f := m.SendFrame(frame, All);
    assert !defined;
  }
}
