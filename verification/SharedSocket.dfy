/**
What threads that share one message socket can do to each other: the counter of message ids is loaded and
stored without a lock, and a message is sent as two writes, its header and its body, without one either.
*/
module SharedSocket {
  import opened Bytes
  import opened H9Socket

  // ---------------------------------------------------------------- message ids

  /** get_next_id of thread t: it loads the counter, and stores and returns the number after it. */
  datatype IdStep = Load(t: nat) | Store(t: nat)

  /** loaded holds what threads have loaded and not yet stored; given lists the ids in order. */
  datatype Ids = Ids(next: nat, loaded: map<nat, nat>, given: seq<nat>)

  predicate IdStepEnabled(s: Ids, e: IdStep) { e.Load? <==> e.t !in s.loaded }

  function IdAfter(s: Ids, e: IdStep): Ids
    requires IdStepEnabled(s, e)
  {
    match e
    case Load(t) => s.(loaded := s.loaded[t := s.next])
    case Store(t) => Ids(s.loaded[t] + 1, s.loaded - {t}, s.given + [s.loaded[t] + 1])
  }

  predicate IsIdSchedule(s: Ids, es: seq<IdStep>)
    decreases |es|
  {
    es == [] || (IdStepEnabled(s, es[0]) && IsIdSchedule(IdAfter(s, es[0]), es[1..]))
  }

  function RunIds(s: Ids, es: seq<IdStep>): Ids
    requires IsIdSchedule(s, es)
    decreases |es|
  {
    if es == [] then s else RunIds(IdAfter(s, es[0]), es[1..])
  }

  /** Some thread begins an allocation while another is in the middle of one. */
  predicate IdsOverlap(s: Ids, es: seq<IdStep>)
    requires IsIdSchedule(s, es)
    decreases |es|
  {
    es != [] && ((es[0].Load? && s.loaded != map[]) || IdsOverlap(IdAfter(s, es[0]), es[1..]))
  }

  ghost predicate Distinct(ids: seq<nat>) { forall i, j :: 0 <= i < j < |ids| ==> ids[i] != ids[j] }

  /** At most one thread is in the middle of an allocation, and the counter is what it has loaded. */
  ghost predicate OneAtATime(s: Ids) {
    && (s.loaded == map[] || exists t :: s.loaded == map[t := s.next])
    && Distinct(s.given) && forall i :: 0 <= i < |s.given| ==> s.given[i] <= s.next
  }

  lemma IdStepKeepsOne(s: Ids, e: IdStep)
    requires OneAtATime(s) && IdStepEnabled(s, e) && (e.Load? ==> s.loaded == map[])
    ensures OneAtATime(IdAfter(s, e))
  {
    if e.Store? {
      assert s.loaded == map[e.t := s.next];
      assert s.loaded - {e.t} == map[];
    } else {
      assert IdAfter(s, e).loaded == map[e.t := s.next];
    }
  }

  lemma {:induction false} WithoutOverlap(s: Ids, es: seq<IdStep>)
    requires OneAtATime(s) && IsIdSchedule(s, es) && !IdsOverlap(s, es)
    ensures OneAtATime(RunIds(s, es))
    decreases |es|
  {
    hide OneAtATime;
    if es != [] {
      IdStepKeepsOne(s, es[0]);
      WithoutOverlap(IdAfter(s, es[0]), es[1..]);
    }
  }

  lemma {:induction false} GivenGrows(s: Ids, es: seq<IdStep>)
    requires IsIdSchedule(s, es)
    ensures s.given <= RunIds(s, es).given
    decreases |es|
  {
    if es != [] {
      GivenGrows(IdAfter(s, es[0]), es[1..]);
    }
  }

  /** A thread that has loaded v will have been given v + 1, behind the ids that are given already. */
  lemma {:induction false} WillBeGiven(s: Ids, es: seq<IdStep>, t: nat) returns (i: nat)
    requires IsIdSchedule(s, es) && t in s.loaded && RunIds(s, es).loaded == map[]
    ensures |s.given| <= i < |RunIds(s, es).given| && RunIds(s, es).given[i] == s.loaded[t] + 1
    decreases |es|
  {
    var s' := IdAfter(s, es[0]);
    if es[0] == Store(t) {
      i := |s.given|;
      GivenGrows(s', es[1..]);
    } else {
      i := WillBeGiven(s', es[1..], t);
    }
  }

  /** Two threads that have loaded the same number are given the same id. */
  lemma {:induction false} SameLoadSameId(s: Ids, es: seq<IdStep>, t: nat, u: nat)
    requires IsIdSchedule(s, es) && RunIds(s, es).loaded == map[]
    requires t != u && t in s.loaded && u in s.loaded && s.loaded[t] == s.loaded[u]
    ensures !Distinct(RunIds(s, es).given)
    decreases |es|
  {
    var s' := IdAfter(s, es[0]);
    if es[0] == Store(t) || es[0] == Store(u) {
      var i := WillBeGiven(s', es[1..], if es[0] == Store(t) then u else t);
      GivenGrows(s', es[1..]);
      assert RunIds(s, es).given[|s.given|] == s'.given[|s.given|];
    } else {
      SameLoadSameId(s', es[1..], t, u);
    }
  }

  lemma {:induction false} WithOverlap(s: Ids, es: seq<IdStep>)
    requires OneAtATime(s) && IsIdSchedule(s, es) && IdsOverlap(s, es) && RunIds(s, es).loaded == map[]
    ensures !Distinct(RunIds(s, es).given)
    decreases |es|
  {
    var s' := IdAfter(s, es[0]);
    if es[0].Load? && s.loaded != map[] {
      var t :| s.loaded == map[t := s.next];
      SameLoadSameId(s', es[1..], es[0].t, t);
    } else {
      IdStepKeepsOne(s, es[0]);
      WithOverlap(s', es[1..]);
    }
  }

  /** Main result: in every schedule in which all allocations end, the ids are distinct exactly if no two
      allocations overlap. */
  lemma IdsDistinctExactly(next: nat, es: seq<IdStep>)
    requires var s := Ids(next, map[], []); IsIdSchedule(s, es) && RunIds(s, es).loaded == map[]
    ensures var s := Ids(next, map[], []); Distinct(RunIds(s, es).given) <==> !IdsOverlap(s, es)
  {
    var s := Ids(next, map[], []);
    if IdsOverlap(s, es) {
      WithOverlap(s, es);
    } else {
      WithoutOverlap(s, es);
    }
  }

  // ---------------------------------------------------------------- messages

  /** send of thread t, with each write accepted whole. */
  datatype Write = Header(t: nat, msg: seq<Byte>) | Body(t: nat)

  /** open holds the messages whose body is still to be written; sent lists all in the order of their
      headers. */
  datatype Line = Line(stream: seq<Byte>, open: map<nat, seq<Byte>>, sent: seq<seq<Byte>>)

  /** A sendable message of less than 16 MiB, so that its header begins with a zero byte. */
  ghost predicate Moderate(msg: seq<Byte>) { Sendable(msg) && |msg| < 0x100_0000 }

  ghost predicate WriteEnabled(s: Line, w: Write) {
    match w
    case Header(t, msg) => t !in s.open && Moderate(msg)
    case Body(t) => t in s.open
  }

  ghost function LineAfter(s: Line, w: Write): Line
    requires WriteEnabled(s, w)
  {
    match w
    case Header(t, msg) => Line(s.stream + ToBE32(|msg|), s.open[t := msg], s.sent + [msg])
    case Body(t) => s.(stream := s.stream + s.open[t], open := s.open - {t})
  }

  ghost predicate IsSchedule(s: Line, ws: seq<Write>)
    decreases |ws|
  {
    ws == [] || (WriteEnabled(s, ws[0]) && IsSchedule(LineAfter(s, ws[0]), ws[1..]))
  }

  ghost function RunWrites(s: Line, ws: seq<Write>): Line
    requires IsSchedule(s, ws)
    decreases |ws|
  {
    if ws == [] then s else RunWrites(LineAfter(s, ws[0]), ws[1..])
  }

  /** Some thread begins a message while another is in the middle of one. */
  ghost predicate SendsOverlap(s: Line, ws: seq<Write>)
    requires IsSchedule(s, ws)
    decreases |ws|
  {
    ws != [] && ((ws[0].Header? && s.open != map[]) || SendsOverlap(LineAfter(s, ws[0]), ws[1..]))
  }

  /** The stream holds whole messages, and behind them at most the header of one more. */
  ghost predicate InTurn(s: Line) {
    && (forall i :: 0 <= i < |s.sent| ==> Moderate(s.sent[i]))
    && (s.open == map[] ==> s.stream == EncodeAll(s.sent))
    && (s.open != map[] ==> OneOpen(s))
  }

  ghost predicate OneOpen(s: Line) {
    && s.sent != []
    && var n := |s.sent| - 1;
    && s.stream == EncodeAll(s.sent[..n]) + ToBE32(|s.sent[n]|)
    && exists t :: s.open == map[t := s.sent[n]]
  }

  lemma {:induction false} EncodeAppend(msgs: seq<seq<Byte>>, msg: seq<Byte>)
    ensures EncodeAll(msgs + [msg]) == EncodeAll(msgs) + ToBE32(|msg|) + msg
  {
    hide ToBE32;
    if msgs == [] {
      assert (msgs + [msg])[1..] == [];
    } else {
      assert (msgs + [msg])[1..] == msgs[1..] + [msg];
      EncodeAppend(msgs[1..], msg);
    }
  }

  lemma WriteKeepsTurn(s: Line, w: Write)
    requires InTurn(s) && WriteEnabled(s, w) && (w.Header? ==> s.open == map[])
    ensures InTurn(LineAfter(s, w))
  {
    hide Moderate, EncodeAll, ToBE32;
    var s' := LineAfter(s, w);
    if w.Header? {
      assert s'.sent[..|s.sent|] == s.sent && s'.open == map[w.t := w.msg];
    } else {
      var n := |s.sent| - 1;
      assert s.open == map[w.t := s.sent[n]] && s.open - {w.t} == map[];
      EncodeAppend(s.sent[..n], s.sent[n]);
      assert s.sent == s.sent[..n] + [s.sent[n]];
    }
  }

  lemma {:induction false} TurnsKept(s: Line, ws: seq<Write>)
    requires InTurn(s) && IsSchedule(s, ws) && !SendsOverlap(s, ws)
    ensures InTurn(RunWrites(s, ws))
    decreases |ws|
  {
    hide InTurn, WriteEnabled, LineAfter;
    if ws != [] {
      WriteKeepsTurn(s, ws[0]);
      TurnsKept(LineAfter(s, ws[0]), ws[1..]);
    }
  }

  lemma {:induction false} LineGrows(s: Line, ws: seq<Write>)
    requires IsSchedule(s, ws) && forall i :: 0 <= i < |s.sent| ==> Moderate(s.sent[i])
    ensures var r := RunWrites(s, ws); s.stream <= r.stream && s.sent <= r.sent
    ensures var r := RunWrites(s, ws); forall i :: 0 <= i < |r.sent| ==> Moderate(r.sent[i])
    decreases |ws|
  {
    hide Moderate, ToBE32;
    if ws != [] {
      LineGrows(LineAfter(s, ws[0]), ws[1..]);
    }
  }

  lemma {:induction false} DecodeFront(msgs: seq<seq<Byte>>, rest: seq<Byte>)
    requires forall i :: 0 <= i < |msgs| ==> Sendable(msgs[i])
    ensures Decode(EncodeAll(msgs) + rest).0 == msgs + Decode(rest).0
  {
    hide Encode, Decode, Sendable;
    if msgs == [] {
      assert EncodeAll(msgs) + rest == rest;
      assert [] + Decode(rest).0 == Decode(rest).0;
    } else {
      var tail := EncodeAll(msgs[1..]);
      DecodeEncoded(msgs[0], tail + rest);
      DecodeFront(msgs[1..], rest);
      assert EncodeAll(msgs) == Encode(msgs[0]) + tail;
      hide EncodeAll;
      Regroup(Encode(msgs[0]), tail, rest);
      Regroup([msgs[0]], msgs[1..], Decode(rest).0);
      assert msgs == [msgs[0]] + msgs[1..];
    }
  }

  lemma Regroup<T>(a: seq<T>, b: seq<T>, c: seq<T>)
    ensures a + b + c == a + (b + c)
  {
  }

  lemma HeaderBeginsWithZero(n: nat)
    requires n < 0x100_0000
    ensures ToBE32(n)[0] == 0
  {
    assert Digits(n, 4) == Digits(n / 256, 3) + [n % 256];
    assert Digits(n / 256, 3) == Digits(n / 256 / 256, 2) + [n / 256 % 256];
    assert Digits(n / 256 / 256, 2) == Digits(n / 256 / 256 / 256, 1) + [n / 256 / 256 % 256];
    assert Digits(n / 256 / 256 / 256, 1) == Digits(0, 0) + [n / 256 / 256 / 256 % 256];
  }

  /** A header in the place of a body is delivered as an empty message, or not at all. */
  lemma HeaderAsBody(n: nat, m: nat, rest: seq<Byte>)
    requires 1 <= n < 0x100_0000 && m < 0x100_0000
    ensures var d := Decode(ToBE32(n) + ToBE32(m) + rest).0; d == [] || d[0] == []
  {
    HeaderBeginsWithZero(m);
    BE32RoundTrip(n);
    hide Digits, Value;
    var stream := ToBE32(n) + ToBE32(m) + rest;
    assert stream[..4] == ToBE32(n) && stream[4] == ToBE32(m)[0];
    if |stream| >= 4 + n {
      assert stream[4..4 + n][0] == 0;
    }
  }

  lemma {:induction false} OverlapConfuses(s: Line, ws: seq<Write>)
    requires InTurn(s) && IsSchedule(s, ws) && SendsOverlap(s, ws)
    ensures var r := RunWrites(s, ws); multiset(Decode(r.stream).0) != multiset(r.sent)
    decreases |ws|
  {
    hide Decode, Sendable, EncodeAll;
    if ws[0].Header? && s.open != map[] {
      var n := |s.sent| - 1;
      var front, s' := s.sent[..n], LineAfter(s, ws[0]);
      LineGrows(s', ws[1..]);
      var r := RunWrites(s, ws);
      var rest := r.stream[|s'.stream|..];
      var confused := ToBE32(|s.sent[n]|) + ToBE32(|ws[0].msg|) + rest;
      assert r.stream == EncodeAll(front) + confused;
      SendableSizes(s.sent[n], ws[0].msg);
      FrontIsSendable(s.sent, n);
      DecodeFront(front, confused);
      HeaderAsBody(|s.sent[n]|, |ws[0].msg|, rest);
      NotAllDelivered(front, Decode(confused).0, r.sent);
    } else {
      WriteKeepsTurn(s, ws[0]);
      OverlapConfuses(LineAfter(s, ws[0]), ws[1..]);
    }
  }

  lemma SendableSizes(a: seq<Byte>, b: seq<Byte>)
    requires Moderate(a) && Moderate(b)
    ensures 1 <= |a| < 0x100_0000 && 1 <= |b| < 0x100_0000
  {
  }

  lemma FrontIsSendable(msgs: seq<seq<Byte>>, n: nat)
    requires n <= |msgs| && forall i :: 0 <= i < |msgs| ==> Moderate(msgs[i])
    ensures forall i :: 0 <= i < |msgs[..n]| ==> Sendable(msgs[..n][i])
  {
  }

  lemma NotAllDelivered(front: seq<seq<Byte>>, more: seq<seq<Byte>>, sent: seq<seq<Byte>>)
    requires front <= sent && |sent| >= |front| + 2 && (more == [] || more[0] == [])
    requires forall i :: 0 <= i < |sent| ==> Moderate(sent[i])
    ensures multiset(front + more) != multiset(sent)
  {
    if more == [] {
      assert |multiset(front + more)| == |front| < |sent| == |multiset(sent)|;
    } else {
      assert (front + more)[|front|] == [] && [] in multiset(front + more);
      assert [] !in sent;
    }
  }

  /** Main result: in every schedule in which all messages are written, of less than 16 MiB each, the receiver
      gets the messages exactly if no two sends overlap, and then in the order of their headers. */
  lemma MessagesArriveExactly(ws: seq<Write>)
    requires var s := Line([], map[], []); IsSchedule(s, ws) && RunWrites(s, ws).open == map[]
    ensures var s := Line([], map[], []);
      var r := RunWrites(s, ws);
      && (multiset(Decode(r.stream).0) == multiset(r.sent) <==> !SendsOverlap(s, ws))
      && (!SendsOverlap(s, ws) ==> Decode(r.stream) == (r.sent, []))
  {
    var s := Line([], map[], []);
    var r := RunWrites(s, ws);
    hide Decode;
    if SendsOverlap(s, ws) {
      OverlapConfuses(s, ws);
    } else {
      TurnsKept(s, ws);
      FrontIsSendable(r.sent, |r.sent|);
      assert r.sent[..|r.sent|] == r.sent;
      RoundTripExactly(r.sent);
    }
  }
}
