/**
Requests to a node: 5-bit sequence numbers, the list of pending promises that incoming frames
resolve, and the transfer of register values.
*/
module Node {
  import opened Bytes
  import opened Frames
  import opened FrameComparator
  import Numbers

  // ---------------------------------------------------------------- sequence numbers

  /** One 8-bit counter for each node id; issued counts the calls. */
  class SeqNums {
    const counters: array<Byte>
    ghost var issued: seq<nat>

    ghost predicate Valid()
      reads this, counters
    {
      && counters.Length == 512 == |issued|
      && forall id :: 0 <= id < 512 ==> counters[id] == issued[id] % 256
    }

    constructor ()
      ensures Valid() && fresh(counters) && forall id :: 0 <= id < 512 ==> issued[id] == 0
    {
      counters := new Byte[512](i => 0);
      issued := seq(512, i => 0);
    }

    /** get_next_seqnum: the counter wraps at 256 and its low five bits are used. */
    method Next(source: Bits9) returns (seqnum: Bits5)
      requires Valid()
      modifies this, counters
      ensures Valid()
      ensures seqnum == SeqNum(old(issued[source]))
      ensures issued == old(issued)[source := old(issued[source]) + 1]
    {
      var was := counters[source];
      CounterStep(issued[source]);
      counters[source] := if was == 255 then 0 else was + 1;
      seqnum := was % 32;
      issued := issued[source := issued[source] + 1];
    }
  }

  /** The sequence number of a node's n-th allocation. */
  function SeqNum(n: nat): Bits5 { n % 32 }

  lemma CounterStep(n: nat)
    ensures n % 256 % 32 == n % 32
    ensures (n + 1) % 256 == if n % 256 == 255 then 0 else n % 256 + 1
  {
    assert n == 256 * (n / 256) + n % 256;
  }

  /** Main result: any 32 consecutive allocations have different numbers, across the counter's wrap. */
  lemma ConsecutiveDiffer(a: nat, b: nat)
    requires a < b < a + 32
    ensures SeqNum(a) != SeqNum(b)
  {
    assert a == a / 32 * 32 + a % 32 && b == b / 32 * 32 + b % 32;
  }

  // ---------------------------------------------------------------- pending requests

  datatype Pending = Pending(comparator: Comparator, promise: nat, deadline: int)

  predicate Expired(p: Pending, now: int) { p.deadline < now }

  /** The entries that stay: neither matched nor expired. */
  function Kept(list: seq<Pending>, f: Frame, now: int): seq<Pending> {
    if list == [] then []
    else (if Matches(list[0].comparator, f) || Expired(list[0], now) then [] else [list[0]]) + Kept(list[1..], f, now)
  }

  /** The promises a frame resolves, even of entries that have expired. */
  function Resolved(list: seq<Pending>, f: Frame): seq<nat> {
    if list == [] then []
    else (if Matches(list[0].comparator, f) then [list[0].promise] else []) + Resolved(list[1..], f)
  }

  /** The promises that are erased unset; their futures throw when they are read. */
  function Dropped(list: seq<Pending>, f: Frame, now: int): seq<nat> {
    if list == [] then []
    else
      (if !Matches(list[0].comparator, f) && Expired(list[0], now) then [list[0].promise] else [])
      + Dropped(list[1..], f, now)
  }

  /** asked lists the comparators of all requests made, by promise. Every promise is pending at most once,
      is set at most once and only by a frame that its request waits for, and is not pending once set. */
  ghost predicate Sound(list: seq<Pending>, resolved: seq<(nat, Frame)>, asked: seq<Comparator>) {
    && (forall i, j :: 0 <= i < j < |list| ==> list[i].promise != list[j].promise)
    && (forall i :: 0 <= i < |list| ==> list[i].promise < |asked| && asked[list[i].promise] == list[i].comparator)
    && (forall i, j :: 0 <= i < j < |resolved| ==> resolved[i].0 != resolved[j].0)
    && (forall i :: 0 <= i < |resolved| ==> resolved[i].0 < |asked| && Matches(asked[resolved[i].0], resolved[i].1))
    && (forall i, j :: 0 <= i < |list| && 0 <= j < |resolved| ==> list[i].promise != resolved[j].0)
  }

  class PromiseList {
    var list: seq<Pending>
    ghost var resolved: seq<(nat, Frame)> // promises set so far, with their values
    ghost var dropped: seq<nat>           // promises erased unset
    var asked: seq<Comparator> // stands for the shared states that the program allocates

    ghost predicate Valid()
      reads this
    {
      Sound(list, resolved, asked)
    }

    constructor ()
      ensures Valid() && list == [] && resolved == [] && dropped == [] && asked == []
    {
      list, resolved, dropped, asked := [], [], [], [];
    }

    /** create_frame_future; timeout is the configured one, to which three seconds are added. */
    method Add(comparator: Comparator, now: int, timeout: int) returns (promise: nat)
      requires Valid()
      modifies this
      ensures Valid() && promise == |old(asked)| && asked == old(asked) + [comparator]
      ensures list == old(list) + [Pending(comparator, promise, Deadline(now, timeout))]
      ensures resolved == old(resolved) && dropped == old(dropped)
    {
      hide Matches;
      promise := |asked|;
      list := list + [Pending(comparator, promise, Deadline(now, timeout))];
      asked := asked + [comparator];
    }

    /** on_frame_recv: one pass that sets matching promises and erases them and the expired ones. */
    method OnFrameRecv(f: Frame, now: int)
      requires Valid()
      modifies this`list, this`resolved, this`dropped
      ensures Valid()
      ensures list == Kept(old(list), f, now)
      ensures resolved == old(resolved) + Values(Resolved(old(list), f), f)
      ensures dropped == old(dropped) + Dropped(old(list), f, now)
    {
      hide Matches, Kept, Resolved, Dropped, Values, Expired, Sound;
      var i := 0;
      ghost var kept := [];
      ghost var rest := list;
      while i < |list|
        invariant Sound(list, resolved, asked)
        invariant 0 <= i <= |list| && list == kept + rest && |kept| == i
        invariant kept + Kept(rest, f, now) == Kept(old(list), f, now)
        invariant resolved + Values(Resolved(rest, f), f) == old(resolved) + Values(Resolved(old(list), f), f)
        invariant dropped + Dropped(rest, f, now) == old(dropped) + Dropped(old(list), f, now)
        decreases |list| - i
      {
        OnePassStep(rest, f, now);
        TakeKeepsSound(list, resolved, asked, i, f);
        var p := list[i];
        if Matches(p.comparator, f) {
          resolved := resolved + [(p.promise, f)];
          list := list[..i] + list[i + 1..];
        } else if Expired(p, now) {
          dropped := dropped + [p.promise];
          list := list[..i] + list[i + 1..];
        } else {
          i := i + 1;
          kept := kept + [p];
        }
        rest := rest[1..];
      }
      OnePassEnd(f, now);
    }
  }

  lemma TakeKeepsSound(list: seq<Pending>, resolved: seq<(nat, Frame)>, asked: seq<Comparator>, i: nat, f: Frame)
    requires Sound(list, resolved, asked) && i < |list|
    ensures Sound(list[..i] + list[i + 1..], resolved, asked)
    ensures Matches(list[i].comparator, f)
      ==> Sound(list[..i] + list[i + 1..], resolved + [(list[i].promise, f)], asked)
  {
    hide Matches;
  }

  lemma OnePassStep(list: seq<Pending>, f: Frame, now: int)
    requires list != []
    ensures Dropped(list, f, now)
      == (if !Matches(list[0].comparator, f) && Expired(list[0], now) then [list[0].promise] else [])
        + Dropped(list[1..], f, now)
    ensures Kept(list, f, now)
      == (if Matches(list[0].comparator, f) || Expired(list[0], now) then [] else [list[0]]) + Kept(list[1..], f, now)
    ensures Values(Resolved(list, f), f)
      == (if Matches(list[0].comparator, f) then [(list[0].promise, f)] else []) + Values(Resolved(list[1..], f), f)
  {
    hide Matches;
    if Matches(list[0].comparator, f) {
      assert Resolved(list, f)[1..] == Resolved(list[1..], f);
    } else {
      assert Resolved(list, f) == Resolved(list[1..], f);
    }
  }

  lemma OnePassEnd(f: Frame, now: int)
    ensures Kept([], f, now) == [] && Values(Resolved([], f), f) == [] && Dropped([], f, now) == []
  {
  }

  function Values(promises: seq<nat>, f: Frame): seq<(nat, Frame)> {
    if promises == [] then [] else [(promises[0], f)] + Values(promises[1..], f)
  }

  /** Main result: what stays is exactly what is neither matched nor expired. */
  lemma {:induction false} KeptExactly(list: seq<Pending>, f: Frame, now: int, p: Pending)
    ensures p in Kept(list, f, now) <==> p in list && !Matches(p.comparator, f) && !Expired(p, now)
  {
    if list != [] {
      assert list == [list[0]] + list[1..];
      KeptExactly(list[1..], f, now, p);
    }
  }

  /** The pass goes through the list from its front to its end: what stays, is set and is dropped of two lists
      one behind the other is that of the first, followed by that of the second. */
  lemma {:induction false} PassIsInOrder(a: seq<Pending>, b: seq<Pending>, f: Frame, now: int)
    ensures Kept(a + b, f, now) == Kept(a, f, now) + Kept(b, f, now)
    ensures Resolved(a + b, f) == Resolved(a, f) + Resolved(b, f)
    ensures Dropped(a + b, f, now) == Dropped(a, f, now) + Dropped(b, f, now)
  {
    hide Matches, Expired;
    if a == [] {
      assert a + b == b;
    } else {
      assert (a + b)[0] == a[0] && (a + b)[1..] == a[1..] + b;
      PassIsInOrder(a[1..], b, f, now);
    }
  }

  /** The deadline of a request made at a moment: three seconds behind the time-out. */
  function Deadline(made: int, timeout: int): int { made + timeout + 3 }

  /** A promise is dropped exactly with an entry that has expired and does not match. */
  lemma {:induction false} DroppedExactly(list: seq<Pending>, f: Frame, now: int, promise: nat)
    ensures promise in Dropped(list, f, now)
      <==> exists p :: p in list && p.promise == promise && !Matches(p.comparator, f) && Expired(p, now)
  {
    if list != [] {
      hide Matches, Expired;
      assert list == [list[0]] + list[1..];
      DroppedExactly(list[1..], f, now, promise);
    }
  }

  /** At this moment the caller of a request has not returned from its wait. The wait begins when the frame
      with the request has been sent, which takes sending, and lasts at most the time-out. */
  ghost predicate Awaited(made: int, sending: nat, timeout: nat, now: int) { made <= now <= made + sending + timeout }

  /** Main result: a request can be dropped while its caller waits for it, so that the read of its future
      throws, exactly if sending may take more than three seconds; three is the default for how long a send
      waits for its confirmation. */
  lemma DroppedWhileAwaited(c: Comparator, promise: nat, made: int, timeout: nat, longest: nat)
    ensures (exists sending: nat, now: int, f: Frame ::
        sending <= longest && Awaited(made, sending, timeout, now)
        && promise in Dropped([Pending(c, promise, Deadline(made, timeout))], f, now) && !Matches(c, f))
      <==> longest > 3 && exists f :: !Matches(c, f)
  {
    hide Matches;
    var p := Pending(c, promise, Deadline(made, timeout));
    assert p in [p];
    forall f: Frame, now: int
      ensures promise in Dropped([p], f, now) <==> !Matches(c, f) && Expired(p, now)
    {
      DroppedExactly([p], f, now, promise);
    }
    if longest > 3 {
      if f: Frame :| !Matches(c, f) {
        assert Awaited(made, longest, timeout, made + longest + timeout);
        assert promise in Dropped([p], f, made + longest + timeout);
      }
    }
  }

  /** What a request for a register waits for: a value of the register from the node under the number. */
  function ForRegister(node: Bits9, kind: Byte, reg: Byte, seqnum: Bits5): Comparator {
    SetSeqnum(SetFirstDataByte(SetKind(SetSource(ANY, node), kind), reg), seqnum)
  }

  /** Main result: such a request matches exactly the frames of this kind from this node that carry its number
      and name the register in their first data byte. */
  lemma ForRegisterMatches(node: Bits9, kind: Byte, reg: Byte, seqnum: Bits5, f: Frame)
    ensures Matches(ForRegister(node, kind, reg, seqnum), f)
      <==> f.source == node && f.kind == kind && f.seqnum == seqnum && f.dlc >= 1 && f.data[0] == reg
  {
  }

  /** Main result: two requests to a node can be answered by one frame exactly if they are of the same
      kind, for the same register, and a multiple of 32 allocations apart. */
  lemma SharedAnswer(node: Bits9, kind: Byte, reg: Byte, a: nat, kind': Byte, reg': Byte, b: nat)
    ensures
      (exists f ::
        Matches(ForRegister(node, kind, reg, SeqNum(a)), f) && Matches(ForRegister(node, kind', reg', SeqNum(b)), f))
      <==> kind == kind' && reg == reg' && a % 32 == b % 32
  {
    if kind == kind' && reg == reg' && a % 32 == b % 32 {
      var f := Frame(LOW, kind, SeqNum(a), 0, node, 1, NO_DATA[0 := reg]);
      assert Matches(ForRegister(node, kind, reg, SeqNum(a)), f);
    }
  }

  /** The entry was made for the n-th allocation of the node. */
  ghost predicate IsRegisterRequest(p: Pending, node: Bits9, n: nat) {
    exists kind: Byte, reg: Byte :: p.comparator == ForRegister(node, kind, reg, SeqNum(n))
  }

  lemma RequestMatchesNumber(p: Pending, node: Bits9, n: nat, f: Frame)
    requires IsRegisterRequest(p, node, n) && Matches(p.comparator, f)
    ensures f.seqnum == SeqNum(n) && f.dlc >= 1
  {
  }

  ghost predicate IsRequest(p: Pending, node: Bits9) { exists n: nat :: IsRegisterRequest(p, node, n) }

  /** Those entries of a list that are register requests to a node. */
  ghost function RequestsTo(list: seq<Pending>, node: Bits9): seq<Pending> {
    if list == [] then []
    else (if IsRequest(list[0], node) then [list[0]] else []) + RequestsTo(list[1..], node)
  }

  /** The i-th entry, if it is a register request to the node, was made for its numbers[i]-th allocation,
      which is one of 32 and not that of another entry. */
  ghost predicate Recent(list: seq<Pending>, node: Bits9, numbers: seq<nat>, first: nat) {
    && |numbers| == |list|
    && (forall i :: 0 <= i < |list| && IsRequest(list[i], node) ==>
         first <= numbers[i] < first + 32 && IsRegisterRequest(list[i], node, numbers[i]))
    && (forall i, j :: 0 <= i < j < |list| && IsRequest(list[i], node) && IsRequest(list[j], node) ==>
         numbers[i] != numbers[j])
  }

  /** Main result: in any list, a frame resolves at most one of the register requests to a node that come
      from its last 32 allocations. */
  lemma {:induction false} OneFrameOneAnswer(
      list: seq<Pending>, node: Bits9, numbers: seq<nat>, first: nat, f: Frame)
    requires Recent(list, node, numbers, first)
    ensures |Resolved(RequestsTo(list, node), f)| <= 1
  {
    hide Matches, IsRegisterRequest, IsRequest;
    if list != [] {
      OneFrameOneAnswer(list[1..], node, numbers[1..], first, f);
      if IsRequest(list[0], node) {
        var rest := RequestsTo(list[1..], node);
        assert RequestsTo(list, node)[1..] == rest;
        if Matches(list[0].comparator, f) {
          OthersDoNotMatch(list, node, numbers, first, f);
          RequestsAreListed(list[1..], node);
          NoneResolved(rest, f);
        }
      } else {
        assert RequestsTo(list, node) == RequestsTo(list[1..], node);
      }
    }
  }

  lemma OthersDoNotMatch(list: seq<Pending>, node: Bits9, numbers: seq<nat>, first: nat, f: Frame)
    requires Recent(list, node, numbers, first)
    requires list != [] && IsRequest(list[0], node) && Matches(list[0].comparator, f)
    ensures forall p :: p in list[1..] && IsRequest(p, node) ==> !Matches(p.comparator, f)
  {
    hide Matches, IsRegisterRequest, IsRequest, SeqNum;
    RequestMatchesNumber(list[0], node, numbers[0], f);
    forall i | 1 <= i < |list| && IsRequest(list[i], node)
      ensures !Matches(list[i].comparator, f)
    {
      if Matches(list[i].comparator, f) {
        RequestMatchesNumber(list[i], node, numbers[i], f);
        if numbers[0] < numbers[i] {
          ConsecutiveDiffer(numbers[0], numbers[i]);
        } else {
          ConsecutiveDiffer(numbers[i], numbers[0]);
        }
      }
    }
    forall p | p in list[1..] && IsRequest(p, node)
      ensures !Matches(p.comparator, f)
    {
      var i :| 0 <= i < |list| - 1 && list[1..][i] == p;
      assert list[i + 1] == p;
    }
  }

  lemma {:induction false} RequestsAreListed(list: seq<Pending>, node: Bits9)
    ensures forall p :: p in RequestsTo(list, node) ==> p in list && IsRequest(p, node)
  {
    hide IsRequest;
    if list != [] {
      RequestsAreListed(list[1..], node);
      assert list == [list[0]] + list[1..];
    }
  }

  /** What reset waits for. */
  function ForReset(node: Bits9): Comparator { SetSeqnum(SetKind(SetSource(ANY, node), NODE_TURNED_ON), 0) }

  /** It is the node's first frame after it was turned on. */
  lemma ForResetMatches(node: Bits9, f: Frame)
    ensures Matches(ForReset(node), f) <==> f.source == node && f.kind == NODE_TURNED_ON && f.seqnum == 0
  {
  }

  /** Main result: in any list in which promises are pending once, a frame resolves a register request exactly
      if it is a reply of the request's own node to it. */
  lemma RepliesResolve(
      list: seq<Pending>, f: Frame, i: nat, node: Bits9, kind: Byte, reg: Byte, seqnum: Bits5)
    requires i < |list| && list[i].comparator == ForRegister(node, kind, reg, seqnum)
    requires forall j :: 0 <= j < |list| && j != i ==> list[j].promise != list[i].promise
    ensures list[i].promise in Resolved(list, f)
      <==> f.source == node && f.kind == kind && f.seqnum == seqnum && f.dlc >= 1 && f.data[0] == reg
  {
    ResolvedExactly(list, f, list[i].promise);
    ForRegisterMatches(node, kind, reg, seqnum, f);
  }

  /** Main result: in every run, each promise of a register request that has been set was set by a frame from
      the request's own node that answers it. */
  lemma ResolvedByOwnNode(
      list: seq<Pending>, resolved: seq<(nat, Frame)>, asked: seq<Comparator>, i: nat,
      node: Bits9, kind: Byte, reg: Byte, seqnum: Bits5)
    requires Sound(list, resolved, asked) && i < |resolved|
    requires resolved[i].0 < |asked| && asked[resolved[i].0] == ForRegister(node, kind, reg, seqnum)
    ensures var f := resolved[i].1;
      f.source == node && f.kind == kind && f.seqnum == seqnum && f.dlc >= 1 && f.data[0] == reg
  {
    ForRegisterMatches(node, kind, reg, seqnum, resolved[i].1);
  }

  /** A promise is set exactly with an entry that matches, whether it has expired or not. */
  lemma {:induction false} ResolvedExactly(list: seq<Pending>, f: Frame, promise: nat)
    ensures promise in Resolved(list, f) <==> exists p :: p in list && p.promise == promise && Matches(p.comparator, f)
  {
    if list != [] {
      hide Matches;
      assert list == [list[0]] + list[1..];
      ResolvedExactly(list[1..], f, promise);
    }
  }

  /** Main result: a frame that answers a reset answers no request for a register, since those wait for other
      kinds of frame, and no reset of another node. */
  lemma ResetsShareAnswers(node: Bits9, node': Bits9, kind: Byte, reg: Byte, n: nat, f: Frame)
    requires kind in {REG_EXTERNALLY_CHANGED, REG_VALUE}
    ensures !(Matches(ForReset(node), f) && Matches(ForRegister(node', kind, reg, SeqNum(n)), f))
    ensures Matches(ForReset(node), f) && Matches(ForReset(node'), f) ==> node == node'
  {
  }

  lemma {:induction false} NoneResolved(list: seq<Pending>, f: Frame)
    requires forall i :: 0 <= i < |list| ==> !Matches(list[i].comparator, f)
    ensures Resolved(list, f) == []
  {
    if list != [] {
      NoneResolved(list[1..], f);
    }
  }

  // ---------------------------------------------------------------- register values

  /** How many bytes of a reply are copied into so much room: those behind the register number. */
  function CopyLength(res: Frame, room: nat): int { if room < res.dlc - 1 then room else res.dlc - 1 }

  datatype Copy = Copied(n: nat) | OutOfBounds

  /** The copy loop of get_raw_reg and set_raw_reg on the frame that resolved the request. The length
      comparison is unsigned, so it relies on the frame having a data byte; the match guarantees it. Main
      result: the loop leaves the frame's data exactly for a frame that claims more than eight bytes, if
      there is room for as many. */
  method CopyReply(request: Comparator, res: Frame, buf: array<Byte>) returns (r: Copy)
    requires request.fields.firstDataByte && Matches(request, res)
    modifies buf
    ensures r.OutOfBounds? <==> CopyLength(res, buf.Length) > 7
    ensures r.Copied?
      ==> r.n == CopyLength(res, buf.Length) && buf[..r.n] == res.data[1..1 + r.n] && buf[r.n..] == old(buf[r.n..])
  {
    var ret := if buf.Length < res.dlc - 1 then buf.Length else res.dlc - 1;
    for i := 0 to ret
      invariant i <= 7 && buf[..i] == res.data[1..1 + i]
      invariant buf[ret..] == old(buf[ret..])
    {
      if i + 1 >= |res.data| {
        return OutOfBounds;
      }
      buf[i] := res.data[i + 1];
    }
    r := Copied(ret);
  }

  datatype Reading<T> = Got(value: T) | Nothing | Undefined

  /** Device::get_register for integers: the reply's bytes shifted in from an eight-byte buffer. */
  method GetRegister(request: Comparator, res: Frame) returns (r: Reading<nat>)
    requires request.fields.firstDataByte && Matches(request, res)
    ensures r.Undefined? <==> res.dlc > 8
    ensures r.Nothing? <==> res.dlc == 1
    ensures r.Got? ==> r.value == Value(res.data[1..res.dlc]) < Pow256(7)
  {
    var tmp := new Byte[8];
    var c := CopyReply(request, res, tmp);
    if c.OutOfBounds? {
      return Undefined;
    }
    if c.n == 0 {
      return Nothing;
    }
    var value: nat := 0;
    for i := 0 to c.n
      invariant value == Value(tmp[..i])
    {
      assert tmp[..i + 1][..i] == tmp[..i];
      value := value * 256 + tmp[i];
    }
    ValueBound(res.data[1..res.dlc], 7);
    r := Got(value);
  }

  /** Device::get_register for strings: the terminator is written behind the reply's bytes, inside the
      buffer. */
  method GetRegisterString(request: Comparator, res: Frame) returns (r: Reading<seq<Byte>>)
    requires request.fields.firstDataByte && Matches(request, res)
    ensures r.Undefined? <==> res.dlc > 8
    ensures r.Nothing? <==> res.dlc == 1
    ensures r.Got? ==> r.value == CStr(res.data[1..res.dlc])
  {
    var tmp := new Byte[8];
    var c := CopyReply(request, res, tmp);
    if c.OutOfBounds? {
      return Undefined;
    }
    if c.n == 0 {
      return Nothing;
    }
    tmp[c.n] := 0;
    r := Got(CStr(tmp[..c.n]));
  }

  lemma {:induction false} ValueBound(s: seq<Byte>, k: nat)
    requires |s| <= k
    ensures Value(s) < Pow256(k)
  {
    if s != [] {
      ValueBound(s[..|s| - 1], k - 1);
    }
  }

  datatype Sent = Sent(frame: Frame) | InvalidSource | InvalidDestination | InvalidSize

  /** Bus::send_set_reg up to the frame it sends. */
  method SetRegFrame(priority: Priority, seqnum: Byte, source: nat, destination: nat, reg: Byte, bytes: seq<Byte>)
    returns (r: Sent)
    ensures r.InvalidSource? <==> !(1 <= source < 0x1ff)
    ensures r.InvalidDestination? <==> 1 <= source < 0x1ff && destination > 0x1ff
    ensures r.InvalidSize? <==> 1 <= source < 0x1ff && destination <= 0x1ff && |bytes| > 7
    ensures r.Sent? ==> r.frame.dlc == |bytes| + 1 && r.frame.data[0] == reg && r.frame.data[1..r.frame.dlc] == bytes
    ensures r.Sent? ==>
      && r.frame.priority == priority && r.frame.kind == SET_REG && r.frame.seqnum == seqnum % 32
      && r.frame.source == source && r.frame.destination == destination
  {
    if source < 1 || source >= 0x1ff {
      return InvalidSource;
    }
    if destination > 0x1ff {
      return InvalidDestination;
    }
    if |bytes| > 7 {
      return InvalidSize;
    }
    var data: Data := NO_DATA[0 := reg];
    for i := 0 to |bytes|
      invariant data[0] == reg && data[1..1 + i] == bytes[..i]
    {
      assert bytes[..i + 1] == bytes[..i] + [bytes[i]];
      data := data[i + 1 := bytes[i]];
    }
    r := Sent(Frame(priority, SET_REG, seqnum % 32, destination, source, |bytes| + 1, data));
  }

  /** How many bytes set_register sends for a register of so many bits. */
  function Width(bits: nat): nat {
    var n := (bits + 7) / 8;
    if n <= 2 then n else 4
  }

  /** The bytes that set_register sends: a cast to the unsigned type of the width, most significant first. */
  function RegisterBytes(value: int, bits: nat): seq<Byte> { Digits(value % Pow256(Width(bits)), Width(bits)) }

  /** If a node answers a read with the bytes it was sent, the number read is the number written, cut to
      the width that was sent. */
  lemma RegisterRoundTrip(value: int, bits: nat)
    ensures Value(RegisterBytes(value, bits)) == value % Pow256(Width(bits))
  {
    hide Width, Pow256, Digits;
    var k := Width(bits);
    var v := value % Pow256(k);
    ValueOfDigits(v, k);
    Remainder(v, Pow256(k), 0, v);
  }

  lemma FourDoublings(n: nat)
    ensures Numbers.Power(2, n + 4) == 16 * Numbers.Power(2, n)
  {
    assert Numbers.Power(2, n + 1) == 2 * Numbers.Power(2, n);
    assert Numbers.Power(2, n + 2) == 2 * Numbers.Power(2, n + 1);
    assert Numbers.Power(2, n + 3) == 2 * Numbers.Power(2, n + 2);
  }

  lemma {:induction false} PowerOfBytes(k: nat)
    ensures Numbers.Power(2, 8 * k) == Pow256(k)
  {
    if k > 0 {
      PowerOfBytes(k - 1);
      FourDoublings(8 * k - 8);
      FourDoublings(8 * k - 4);
    }
  }

  lemma {:induction false} PowerRises(a: nat, b: nat)
    requires a <= b
    ensures Numbers.Power(2, a) <= Numbers.Power(2, b)
    decreases b - a
  {
    if a < b {
      PowerRises(a, b - 1);
    }
  }

  /** Main result: one, two or four bytes are sent, and they hold every value of a register of up to 32 bits. */
  lemma RegisterHoldsValue(value: nat, bits: nat)
    requires 0 < bits <= 32 && value < Numbers.Power(2, bits)
    ensures |RegisterBytes(value, bits)| == if bits <= 8 then 1 else if bits <= 16 then 2 else 4
    ensures Value(RegisterBytes(value, bits)) == value
  {
    hide Pow256, Digits, Numbers.Power;
    var k := Width(bits);
    RegisterRoundTrip(value, bits);
    PowerRises(bits, 8 * k);
    PowerOfBytes(k);
    Remainder(value, Pow256(k), 0, value);
  }

  /** And the bytes read from a register, written back as the number they denote, are the same bytes. */
  lemma WriteBack(bytes: seq<Byte>, bits: nat)
    requires |bytes| == Width(bits)
    ensures RegisterBytes(Value(bytes), bits) == bytes
  {
    hide Width, Pow256, Digits;
    var k := Width(bits);
    ValueBound(bytes, k);
    Remainder(Value(bytes), Pow256(k), 0, Value(bytes));
    DigitsOfValue(bytes);
  }

  /** Device::set_register and, later, Device::get_register on the same register. reply is the frame that
      resolves the read. Main result: if it carries the register and the bytes that the write sent, the
      value read is the value written mod 256^n, for the n bytes that the register's width takes. */
  method WriteThenRead(value: int, bits: nat, source: nat, destination: nat, reg: Byte, seqnum: Byte,
      request: Comparator, reply: Frame)
    returns (sent: Sent, r: Reading<nat>)
    requires bits > 0 && request.fields.firstDataByte && Matches(request, reply)
    ensures sent.Sent? <==> 1 <= source < 0x1ff && destination <= 0x1ff
    ensures sent.Sent? ==> sent.frame.kind == SET_REG && sent.frame.data[0] == reg && sent.frame.dlc <= 5
    ensures sent.Sent? && reply.dlc == sent.frame.dlc && reply.data[..reply.dlc] == sent.frame.data[..reply.dlc] ==>
      r == Got(value % Pow256(Width(bits)))
  {
    hide Matches, Pow256, Digits, Value;
    sent := SetRegFrame(LOW, seqnum, source, destination, reg, RegisterBytes(value, bits));
    r := GetRegister(request, reply);
    RegisterRoundTrip(value, bits);
    ghost var n := reply.dlc;
    assert sent.Sent? && 1 <= n <= 8 && n == sent.frame.dlc
      ==> reply.data[..n][1..] == reply.data[1..n] && sent.frame.data[..n][1..] == sent.frame.data[1..n];
  }

  // ---------------------------------------------------------------- announced versions

  /** devices_update_thread: the version in the last six bytes of an announcement. */
  method AnnouncedVersion(data: Data) returns (version: nat)
    ensures version == Value(data[2..8])
  {
    var major, minor, patch := Word(data[2], data[3]), Word(data[4], data[5]), Word(data[6], data[7]);
    version := major;
    version := version * 0x1_0000 + minor;
    version := version * 0x1_0000 + patch;
    ValueOfSix(data[2..8]);
  }

  /** The getters: a shift and a conversion to 16 bits. */
  function Major(version: nat): nat { version / 0x1_0000_0000 % 0x1_0000 }
  function Minor(version: nat): nat { version / 0x1_0000 % 0x1_0000 }
  function Patch(version: nat): nat { version % 0x1_0000 }

  lemma ValueOfSix(s: seq<Byte>)
    requires |s| == 6
    ensures Value(s) == (Word(s[0], s[1]) * 0x1_0000 + Word(s[2], s[3])) * 0x1_0000 + Word(s[4], s[5])
  {
    var s5, s4, s3, s2, s1 := s[..5], s[..4], s[..3], s[..2], s[..1];
    assert s5[..4] == s4 && s4[..3] == s3 && s3[..2] == s2 && s2[..1] == s1 && s1[..0] == [];
    assert Value(s1) == s[0] && Value(s2) == Word(s[0], s[1]);
    assert Value(s4) == (Value(s2) * 256 + s[2]) * 256 + s[3];
    assert Value(s) == (Value(s4) * 256 + s[4]) * 256 + s[5];
  }

  /** The getters give back the three numbers that were announced. A device that keeps only 16 bits of the
      version, as one of type 5 does, still has the announced one exactly if major and minor are zero. */
  lemma VersionSplits(data: Data)
    ensures var v := Value(data[2..8]);
      && Major(v) == Word(data[2], data[3]) && Minor(v) == Word(data[4], data[5]) && Patch(v) == Word(data[6], data[7])
      && (Patch(v) == v <==> Major(v) == 0 && Minor(v) == 0)
  {
    ValueOfSix(data[2..8]);
    var a, b, c := Word(data[2], data[3]), Word(data[4], data[5]), Word(data[6], data[7]);
    hide Value;
    SplitThree(a, b, c);
  }

  lemma SplitThree(a: nat, b: nat, c: nat)
    requires a < 0x1_0000 && b < 0x1_0000 && c < 0x1_0000
    ensures var v := (a * 0x1_0000 + b) * 0x1_0000 + c; Major(v) == a && Minor(v) == b && Patch(v) == c
  {
    var v := (a * 0x1_0000 + b) * 0x1_0000 + c;
    assert v / 0x1_0000 == a * 0x1_0000 + b;
    assert v / 0x1_0000_0000 == a;
  }
}
