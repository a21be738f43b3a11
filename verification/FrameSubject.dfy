/**
The index of frame observers in h9d: a map from comparators to lists of observers, notified key by
key, against the flat list of attachments that it stands for.
*/
module FrameSubject {
  import opened Frames
  import opened Removal
  import opened FrameComparator

  type Observer = nat

  datatype Entry = Entry(key: Key, observers: seq<Observer>)

  datatype Attachment = Attachment(observer: Observer, key: Key)

  /** The flat list without an observer. */
  function Drop(attached: seq<Attachment>, o: Observer): seq<Attachment> {
    if attached == [] then [] else (if attached[0].observer == o then [] else [attached[0]]) + Drop(attached[1..], o)
  }

  /** The observers attached under a key, in the order of attachment. */
  function Under(attached: seq<Attachment>, key: Key): seq<Observer> {
    if attached == [] then []
    else (if attached[0].key == key then [attached[0].observer] else []) + Under(attached[1..], key)
  }

  /** How often an observer was attached under a comparator that matches the frame. */
  function Wanted(attached: seq<Attachment>, f: Frame, o: Observer): nat {
    if attached == [] then 0
    else (if attached[0].observer == o && Matches(attached[0].key, f) then 1 else 0) + Wanted(attached[1..], f, o)
  }

  /** A notification's calls: the lists of the matching entries, one after the other. */
  function Calls(m: seq<Entry>, f: Frame): seq<Observer> {
    if m == [] then [] else (if Matches(m[0].key, f) then m[0].observers else []) + Calls(m[1..], f)
  }

  /** Every list without the observer, entries that become empty erased. */
  function Pruned(m: seq<Entry>, o: Observer): seq<Entry> {
    if m == [] then []
    else
      var observers := Without(m[0].observers, o);
      (if observers == [] then [] else [Entry(m[0].key, observers)]) + Pruned(m[1..], o)
  }

  // ---------------------------------------------------------------- what the index stands for

  /** std::map: entries in the order of their keys. */
  ghost predicate Sorted(m: seq<Entry>) { forall i, j :: 0 <= i < j < |m| ==> Less(m[i].key, m[j].key) }

  ghost predicate HasKey(m: seq<Entry>, key: Key) { exists i :: 0 <= i < |m| && m[i].key == key }

  ghost predicate Lists(e: Entry, attached: seq<Attachment>) {
    e.observers != [] && e.observers == Under(attached, e.key)
  }

  /** The index has an entry exactly for the keys under which somebody is attached, and each lists
      exactly those observers, in order. */
  ghost predicate Refines(m: seq<Entry>, attached: seq<Attachment>) {
    && Sorted(m)
    && (forall i :: 0 <= i < |m| ==> Lists(m[i], attached))
    && (forall j :: 0 <= j < |attached| ==> HasKey(m, attached[j].key))
  }

  class Subject {
    var index: seq<Entry>
    ghost var attached: seq<Attachment> // the flat list

    ghost predicate Valid()
      reads this
    {
      Refines(index, attached)
    }

    constructor ()
      ensures Valid() && attached == []
    {
      index, attached := [], [];
    }

    /** Looks a key up by the order alone, as std::map does. */
    method Find(key: Key) returns (at: nat, found: bool)
      requires Valid()
      ensures at <= |index| && (found <==> at < |index| && index[at].key == key)
      ensures forall i :: 0 <= i < at ==> Less(index[i].key, key)
      ensures forall i :: at <= i < |index| && !(found && i == at) ==> Less(key, index[i].key)
    {
      hide Less;
      at := 0;
      while at < |index| && Less(index[at].key, key)
        invariant 0 <= at <= |index|
        invariant forall i :: 0 <= i < at ==> Less(index[i].key, key)
      {
        at := at + 1;
      }
      found := at < |index| && !Less(key, index[at].key);
      if at < |index| {
        LessOrdersKeys(key, index[at].key, key);
      }
      forall i | at <= i < |index| && !(found && i == at)
        ensures Less(key, index[i].key)
      {
        LessOrdersKeys(key, index[at].key, index[i].key);
      }
    }

    method Attach(o: Observer, key: Key)
      requires Valid()
      modifies this
      ensures Valid() && attached == old(attached) + [Attachment(o, key)]
    {
      hide Refines;
      var at, found := Find(key);
      if found {
        AttachToEntry(index, attached, at, o);
        index := index[at := Entry(key, index[at].observers + [o])];
      } else {
        AttachNewEntry(index, attached, at, o, key);
        index := index[..at] + [Entry(key, [o])] + index[at..];
      }
      attached := attached + [Attachment(o, key)];
    }

    /** Takes the observer off every list and erases the entries that become empty. */
    method Detach(o: Observer)
      requires Valid()
      modifies this
      ensures Valid() && attached == Drop(old(attached), o)
    {
      hide Refines, Pruned, Without, IsKey, FromSource, Drop;
      PrunedRefines(index, attached, o);
      var i := 0;
      ghost var kept := [];
      ghost var rest := index;
      while i < |index|
        invariant 0 <= i <= |index| && attached == old(attached)
        invariant index == kept + rest && |kept| == i
        invariant kept + Pruned(rest, o) == Pruned(old(index), o)
        decreases |index| - i
      {
        PrunedStep(rest, o);
        EraseBehind(kept, rest);
        var observers := Without(index[i].observers, o);
        if observers == [] {
          index := index[..i] + index[i + 1..];
          assert [] + Pruned(rest[1..], o) == Pruned(rest[1..], o);
        } else {
          var e := Entry(index[i].key, observers);
          ReplaceBehind(kept, rest, e);
          assert kept + ([e] + Pruned(rest[1..], o)) == (kept + [e]) + Pruned(rest[1..], o);
          index := index[i := e];
          kept := kept + [e];
          i := i + 1;
        }
        rest := rest[1..];
      }
      PrunedNone(o);
      attached := Drop(old(attached), o);
    }

    /** notify_frame_observer; the calls it makes, in order. Main result: every observer is called
        exactly as often as it is attached under a comparator that matches, and no other is. */
    method Notify(f: Frame) returns (calls: seq<Observer>)
      requires Valid()
      ensures calls == Calls(index, f)
      ensures forall o :: multiset(calls)[o] == Wanted(attached, f, o)
      ensures forall o, n: nat :: AttachedOnce(attached, o, FromSource(n)) ==>
        multiset(calls)[o] == if f.source == n then 1 else 0
      ensures forall o :: AttachedOnce(attached, o, ANY) ==> multiset(calls)[o] == 1
      ensures forall o :: (forall j :: 0 <= j < |attached| ==> attached[j].observer != o) ==> o !in calls
    {
      hide Refines, Matches, IsKey, FromSource;
      calls := [];
      var i := 0;
      while i < |index|
        invariant 0 <= i <= |index|
        invariant calls + Calls(index[i..], f) == Calls(index, f)
      {
        assert index[i..][1..] == index[i + 1..];
        if Matches(index[i].key, f) {
          calls := calls + index[i].observers;
        }
        i := i + 1;
      }
      forall o
        ensures multiset(Calls(index, f))[o] == Wanted(attached, f, o)
      {
        CallsAreWanted(index, attached, f, o);
      }
      forall o, n: nat | AttachedOnce(attached, o, FromSource(n))
        ensures multiset(calls)[o] == if f.source == n then 1 else 0
      {
        OnceIsWanted(attached, f, o, FromSource(n));
        KeysMatch(n, f);
      }
      forall o | AttachedOnce(attached, o, ANY)
        ensures multiset(calls)[o] == 1
      {
        OnceIsWanted(attached, f, o, ANY);
        KeysMatch(0, f);
      }
      forall o | forall j :: 0 <= j < |attached| ==> attached[j].observer != o
        ensures o !in calls
      {
        NeverIsNotWanted(attached, f, o);
        assert multiset(calls)[o] == 0;
      }
    }
  }

  /** The calls are made entry by entry, in the order of the keys, and within an entry in the order of its list. */
  lemma {:induction false} CallsInOrder(a: seq<Entry>, b: seq<Entry>, f: Frame)
    ensures Calls(a + b, f) == Calls(a, f) + Calls(b, f)
    ensures |a| == 1 && Matches(a[0].key, f) ==> Calls(a, f) == a[0].observers
  {
    hide Matches;
    if a == [] {
      assert a + b == b;
    } else {
      assert (a + b)[0] == a[0] && (a + b)[1..] == a[1..] + b;
      CallsInOrder(a[1..], b, f);
    }
  }

  /** The observer is attached under this key and no other, and only once. */
  ghost predicate AttachedOnce(attached: seq<Attachment>, o: Observer, key: Comparator) {
    exists i :: 0 <= i < |attached| && attached[i].observer == o && attached[i].key == key
      && forall j :: 0 <= j < |attached| && j != i ==> attached[j].observer != o
  }

  lemma {:induction false} NeverIsNotWanted(attached: seq<Attachment>, f: Frame, o: Observer)
    requires forall j :: 0 <= j < |attached| ==> attached[j].observer != o
    ensures Wanted(attached, f, o) == 0
  {
    hide Matches;
    if attached != [] {
      NeverIsNotWanted(attached[1..], f, o);
    }
  }

  lemma {:induction false} OnceIsWanted(attached: seq<Attachment>, f: Frame, o: Observer, key: Comparator)
    requires AttachedOnce(attached, o, key)
    ensures Wanted(attached, f, o) == if Matches(key, f) then 1 else 0
  {
    hide Matches;
    var i :| 0 <= i < |attached| && attached[i].observer == o && attached[i].key == key
      && forall j :: 0 <= j < |attached| && j != i ==> attached[j].observer != o;
    if i == 0 {
      NeverIsNotWanted(attached[1..], f, o);
    } else {
      assert attached[1..][i - 1] == attached[i];
      OnceIsWanted(attached[1..], f, o, key);
    }
  }

  // ---------------------------------------------------------------- attach

  lemma {:induction false} UnderAppend(attached: seq<Attachment>, a: Attachment, key: Key)
    ensures Under(attached + [a], key) == Under(attached, key) + if a.key == key then [a.observer] else []
  {
    if attached == [] {
      assert (attached + [a])[1..] == [];
    } else {
      assert (attached + [a])[1..] == attached[1..] + [a];
      UnderAppend(attached[1..], a, key);
    }
  }

  lemma KeysDiffer(m: seq<Entry>, i: nat, j: nat)
    requires Sorted(m) && i < |m| && j < |m| && i != j
    ensures m[i].key != m[j].key
  {
    LessOrdersKeys(m[i].key, m[i].key, m[i].key);
  }

  lemma AttachToEntry(m: seq<Entry>, attached: seq<Attachment>, at: nat, o: Observer)
    requires Refines(m, attached) && at < |m|
    ensures Refines(m[at := Entry(m[at].key, m[at].observers + [o])], attached + [Attachment(o, m[at].key)])
  {
    hide Less;
    var key := m[at].key;
    var after, now := m[at := Entry(key, m[at].observers + [o])], attached + [Attachment(o, key)];
    forall i | 0 <= i < |after|
      ensures Lists(after[i], now)
    {
      UnderAppend(attached, Attachment(o, key), m[i].key);
      assert Lists(m[i], attached);
      if i != at {
        KeysDiffer(m, i, at);
      }
    }
    forall j | 0 <= j < |now|
      ensures HasKey(after, now[j].key)
    {
      var i :| 0 <= i < |m| && m[i].key == now[j].key;
      assert after[i].key == now[j].key;
    }
  }

  lemma {:induction false} UnderOfUnknown(attached: seq<Attachment>, key: Key)
    requires forall j :: 0 <= j < |attached| ==> attached[j].key != key
    ensures Under(attached, key) == []
  {
    if attached != [] {
      UnderOfUnknown(attached[1..], key);
    }
  }

  lemma ListsAppended(e: Entry, attached: seq<Attachment>, o: Observer, key: Key)
    requires if e.key == key then e.observers == [o] && Under(attached, key) == [] else Lists(e, attached)
    ensures Lists(e, attached + [Attachment(o, key)])
  {
    UnderAppend(attached, Attachment(o, key), e.key);
  }

  lemma AttachNewEntry(m: seq<Entry>, attached: seq<Attachment>, at: nat, o: Observer, key: Key)
    requires Refines(m, attached) && at <= |m|
    requires forall i :: 0 <= i < at ==> Less(m[i].key, key)
    requires forall i :: at <= i < |m| ==> Less(key, m[i].key)
    ensures Refines(m[..at] + [Entry(key, [o])] + m[at..], attached + [Attachment(o, key)])
  {
    hide Less, IsKey, FromSource;
    var after, now := m[..at] + [Entry(key, [o])] + m[at..], attached + [Attachment(o, key)];
    LessOrdersKeys(key, key, key);
    forall j | 0 <= j < |attached|
      ensures attached[j].key != key
    {
      assert HasKey(m, attached[j].key);
    }
    UnderOfUnknown(attached, key);
    forall i | 0 <= i < |after|
      ensures Lists(after[i], now)
    {
      assert after[i] == Entry(key, [o]) || (after[i].key != key && Lists(after[i], attached));
      ListsAppended(after[i], attached, o, key);
    }
    hide Lists;
    forall j | 0 <= j < |now|
      ensures HasKey(after, now[j].key)
    {
      if j < |attached| {
        var i :| 0 <= i < |m| && m[i].key == now[j].key;
        assert after[if i < at then i else i + 1].key == now[j].key;
      } else {
        assert after[at].key == key;
      }
    }
  }

  // ---------------------------------------------------------------- detach

  lemma {:induction false} UnderDrop(attached: seq<Attachment>, o: Observer, key: Key)
    ensures Under(Drop(attached, o), key) == Without(Under(attached, key), o)
  {
    if attached != [] {
      var a, rest := attached[0], attached[1..];
      UnderDrop(rest, o, key);
      WithoutConcat(if a.key == key then [a.observer] else [], Under(rest, key), o);
      if a.observer != o {
        assert ([a] + Drop(rest, o))[1..] == Drop(rest, o);
      } else {
        assert Drop(attached, o) == Drop(rest, o);
      }
    }
  }

  lemma PrunedStep(m: seq<Entry>, o: Observer)
    requires m != []
    ensures var observers := Without(m[0].observers, o);
      Pruned(m, o) == (if observers == [] then [] else [Entry(m[0].key, observers)]) + Pruned(m[1..], o)
  {
  }

  lemma PrunedNone(o: Observer)
    ensures Pruned([], o) == []
  {
  }

  /** Every entry that is left was there, with a list that still has somebody. */
  lemma {:induction false} PrunedAt(m: seq<Entry>, o: Observer, k: nat) returns (i: nat)
    requires k < |Pruned(m, o)|
    ensures i < |m| && Without(m[i].observers, o) != []
      && Pruned(m, o)[k] == Entry(m[i].key, Without(m[i].observers, o))
  {
    hide Without;
    var head := if Without(m[0].observers, o) == [] then 0 else 1;
    if k < head {
      i := 0;
    } else {
      assert Pruned(m, o)[head..] == Pruned(m[1..], o);
      var j := PrunedAt(m[1..], o, k - head);
      i := j + 1;
    }
  }

  /** Every entry whose list still has somebody is left. */
  lemma {:induction false} PrunedKeeps(m: seq<Entry>, o: Observer, i: nat)
    requires i < |m| && Without(m[i].observers, o) != []
    ensures HasKey(Pruned(m, o), m[i].key)
  {
    hide Without;
    if i == 0 {
      assert Pruned(m, o)[0].key == m[0].key;
    } else {
      PrunedKeeps(m[1..], o, i - 1);
      var k :| 0 <= k < |Pruned(m[1..], o)| && Pruned(m[1..], o)[k].key == m[i].key;
      var head := if Without(m[0].observers, o) == [] then 0 else 1;
      assert Pruned(m, o)[head + k].key == m[i].key;
    }
  }

  lemma {:induction false} PrunedSorted(m: seq<Entry>, o: Observer)
    requires Sorted(m)
    ensures Sorted(Pruned(m, o))
  {
    hide Less, Without;
    if m != [] {
      PrunedSorted(m[1..], o);
      var tail := Pruned(m[1..], o);
      forall k | 0 <= k < |tail|
        ensures Less(m[0].key, tail[k].key)
      {
        var i := PrunedAt(m[1..], o, k);
        assert m[1..][i] == m[i + 1];
      }
    }
  }

  lemma {:induction false} DropIsPart(attached: seq<Attachment>, o: Observer)
    ensures forall a :: a in Drop(attached, o) ==> a in attached && a.observer != o
  {
    if attached != [] {
      DropIsPart(attached[1..], o);
    }
  }

  lemma {:induction false} UnderOfKnown(attached: seq<Attachment>, a: Attachment)
    requires a in attached
    ensures a.observer in Under(attached, a.key)
  {
    if attached[0] != a {
      UnderOfKnown(attached[1..], a);
    }
  }

  lemma PrunedRefines(m: seq<Entry>, attached: seq<Attachment>, o: Observer)
    requires Refines(m, attached)
    ensures Refines(Pruned(m, o), Drop(attached, o))
  {
    hide Less, Pruned, Without;
    PrunedSorted(m, o);
    var after, now := Pruned(m, o), Drop(attached, o);
    forall k | 0 <= k < |after|
      ensures Lists(after[k], now)
    {
      var i := PrunedAt(m, o, k);
      assert Lists(m[i], attached);
      UnderDrop(attached, o, after[k].key);
    }
    DropIsPart(attached, o);
    forall j | 0 <= j < |now|
      ensures HasKey(after, now[j].key)
    {
      var a := now[j];
      assert a in now && a in attached;
      var n :| 0 <= n < |attached| && attached[n] == a;
      assert HasKey(m, attached[n].key);
      var i :| 0 <= i < |m| && m[i].key == a.key;
      assert Lists(m[i], attached);
      UnderDrop(attached, o, a.key);
      UnderOfKnown(now, a);
      PrunedKeeps(m, o, i);
    }
  }

  // ---------------------------------------------------------------- notify

  /** How often an observer is attached under the keys of some entries that match. */
  ghost function Attached(m: seq<Entry>, attached: seq<Attachment>, f: Frame, o: Observer): nat {
    if m == [] then 0
    else (if Matches(m[0].key, f) then multiset(Under(attached, m[0].key))[o] else 0) + Attached(m[1..], attached, f, o)
  }

  lemma {:induction false} CallsAreAttached(m: seq<Entry>, attached: seq<Attachment>, f: Frame, o: Observer)
    requires forall i :: 0 <= i < |m| ==> Lists(m[i], attached)
    ensures multiset(Calls(m, f))[o] == Attached(m, attached, f, o)
  {
    if m != [] {
      assert Lists(m[0], attached);
      CallsAreAttached(m[1..], attached, f, o);
    }
  }

  /** The first attachment counts once if one of the entries has its key, not at all otherwise. */
  lemma {:induction false} PeelAttachment(m: seq<Entry>, attached: seq<Attachment>, f: Frame, o: Observer)
    requires Sorted(m) && attached != []
    ensures var a := attached[0];
      Attached(m, attached, f, o) == Attached(m, attached[1..], f, o)
        + if HasKey(m, a.key) && a.observer == o && Matches(a.key, f) then 1 else 0
  {
    hide Less, Matches, HasKey;
    if m == [] {
      assert !HasKey(m, attached[0].key) by {
        NoKeys(m, attached[0].key);
      }
    } else {
      var a, rest := attached[0], m[1..];
      PeelAttachment(rest, attached, f, o);
      KeyOfHeadOrTail(m, a.key);
      PeelUnder(attached, m[0].key, o);
    }
  }

  lemma NoKeys(m: seq<Entry>, key: Key)
    requires m == []
    ensures !HasKey(m, key)
  {
  }

  lemma KeyOfHeadOrTail(m: seq<Entry>, key: Key)
    requires Sorted(m) && m != []
    ensures HasKey(m, key) <==> m[0].key == key || HasKey(m[1..], key)
    ensures m[0].key == key ==> !HasKey(m[1..], key)
  {
    if HasKey(m[1..], key) {
      var i :| 0 <= i < |m[1..]| && m[1..][i].key == key;
      assert m[i + 1].key == key;
      KeysDiffer(m, 0, i + 1);
    }
    if HasKey(m, key) && m[0].key != key {
      var i :| 0 <= i < |m| && m[i].key == key;
      assert m[1..][i - 1].key == key;
    }
  }

  lemma PeelUnder(attached: seq<Attachment>, key: Key, o: Observer)
    requires attached != []
    ensures multiset(Under(attached, key))[o] == multiset(Under(attached[1..], key))[o]
      + if attached[0].key == key && attached[0].observer == o then 1 else 0
  {
    if attached[0].key != key {
      assert Under(attached, key) == Under(attached[1..], key);
    }
  }

  lemma {:induction false} NothingAttached(m: seq<Entry>, f: Frame, o: Observer)
    ensures Attached(m, [], f, o) == 0
  {
    if m != [] {
      NothingAttached(m[1..], f, o);
    }
  }

  lemma {:induction false} AttachedIsWanted(m: seq<Entry>, attached: seq<Attachment>, f: Frame, o: Observer)
    requires Sorted(m) && forall j :: 0 <= j < |attached| ==> HasKey(m, attached[j].key)
    ensures Attached(m, attached, f, o) == Wanted(attached, f, o)
  {
    if attached == [] {
      NothingAttached(m, f, o);
    } else {
      PeelAttachment(m, attached, f, o);
      AttachedIsWanted(m, attached[1..], f, o);
    }
  }

  lemma CallsAreWanted(m: seq<Entry>, attached: seq<Attachment>, f: Frame, o: Observer)
    requires Refines(m, attached)
    ensures multiset(Calls(m, f))[o] == Wanted(attached, f, o)
  {
    CallsAreAttached(m, attached, f, o);
    AttachedIsWanted(m, attached, f, o);
  }
}
