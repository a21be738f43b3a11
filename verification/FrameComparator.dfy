/**
Frame comparators: which frames one matches, and the order by which std::map keeps observers.
*/
module FrameComparator {
  import opened Bytes
  import opened Frames

  /** One flag for each field that takes part in a match; set_... sets a field and its flag. */
  datatype Fields = Fields(
    priority: bool, kind: bool, alternateKind: bool, seqnum: bool, destination: bool, source: bool, data: bool,
      firstDataByte: bool)

  /** How many of the data bytes are compared. */
  type Length = x: int | 0 <= x <= 8

  datatype Comparator = Comparator(
    fields: Fields, priority: Priority, kind: Byte, alternateKind: Byte, seqnum: Byte,
    destination: nat, source: nat, dlc: Length, data: Data, firstDataByte: Byte)

  const NO_FIELDS := Fields(false, false, false, false, false, false, false, false)

  /** The default constructor. */
  const ANY := Comparator(NO_FIELDS, LOW, 0, 0, 0, 0, 0, 0, NO_DATA, 0)

  /** The setters; each sets a field and its flag. */
  function SetPriority(c: Comparator, p: Priority): Comparator {
    c.(fields := c.fields.(priority := true), priority := p)
  }

  function SetKind(c: Comparator, kind: Byte): Comparator { c.(fields := c.fields.(kind := true), kind := kind) }

  function SetAlternateKind(c: Comparator, kind: Byte): Comparator {
    c.(fields := c.fields.(alternateKind := true), alternateKind := kind)
  }

  function SetSeqnum(c: Comparator, seqnum: Byte): Comparator {
    c.(fields := c.fields.(seqnum := true), seqnum := seqnum)
  }

  function SetDestination(c: Comparator, id: nat): Comparator {
    c.(fields := c.fields.(destination := true), destination := id)
  }

  function SetSource(c: Comparator, id: nat): Comparator { c.(fields := c.fields.(source := true), source := id) }

  function SetData(c: Comparator, bytes: seq<Byte>): Comparator
    requires |bytes| <= 8
  {
    c.(fields := c.fields.(data := true), dlc := |bytes|, data := bytes + c.data[|bytes|..])
  }

  function SetFirstDataByte(c: Comparator, b: Byte): Comparator {
    c.(fields := c.fields.(firstDataByte := true), firstDataByte := b)
  }

  /** The constructor from a source id. */
  function FromSource(source: nat): Comparator { SetSource(ANY, source) }

  /** fields_to_compare as the number it is. */
  function Mask(f: Fields): nat {
    (if f.priority then 1 else 0) + (if f.kind then 2 else 0) + (if f.alternateKind then 4 else 0)
    + (if f.seqnum then 8 else 0) + (if f.destination then 16 else 0) + (if f.source then 32 else 0)
    + (if f.data then 64 else 0) + (if f.firstDataByte then 128 else 0)
  }

  /** operator== with a frame. */
  predicate Matches(c: Comparator, f: Frame) {
    && (c.fields.priority ==> c.priority == f.priority)
    && (c.fields.kind ==> c.kind == f.kind || (c.fields.alternateKind && c.alternateKind == f.kind))
    && (c.fields.seqnum ==> c.seqnum == f.seqnum)
    && (c.fields.destination ==> c.destination == f.destination)
    && (c.fields.source ==> c.source == f.source)
    && (c.fields.data ==> c.dlc == f.dlc && c.data[..c.dlc] == f.data[..c.dlc])
    && (c.fields.firstDataByte ==> f.dlc >= 1 && c.firstDataByte == f.data[0])
  }

  /** Main result: each setter narrows what a comparator matches to the frames that have the value it sets. */
  lemma SettersNarrow(c: Comparator, f: Frame, p: Priority, byte: Byte)
    ensures !c.fields.priority ==> (Matches(SetPriority(c, p), f) <==> Matches(c, f) && f.priority == p)
    ensures !c.fields.kind && !c.fields.alternateKind ==>
      (Matches(SetKind(c, byte), f) <==> Matches(c, f) && f.kind == byte)
    ensures !c.fields.seqnum ==> (Matches(SetSeqnum(c, byte), f) <==> Matches(c, f) && f.seqnum == byte)
  {
  }

  lemma IdSettersNarrow(c: Comparator, f: Frame, id: nat)
    ensures !c.fields.destination ==> (Matches(SetDestination(c, id), f) <==> Matches(c, f) && f.destination == id)
    ensures !c.fields.source ==> (Matches(SetSource(c, id), f) <==> Matches(c, f) && f.source == id)
  {
  }

  lemma DataSettersNarrow(c: Comparator, f: Frame, byte: Byte, bytes: seq<Byte>)
    requires |bytes| <= 8
    ensures !c.fields.firstDataByte ==>
      (Matches(SetFirstDataByte(c, byte), f) <==> Matches(c, f) && f.dlc >= 1 && f.data[0] == byte)
    ensures !c.fields.data ==>
      (Matches(SetData(c, bytes), f) <==> Matches(c, f) && f.dlc == |bytes| && f.data[..|bytes|] == bytes)
  {
  }

  /** A second type widens it. */
  lemma AlternateKindWidens(c: Comparator, f: Frame, kind: Byte)
    requires c.fields.kind && !c.fields.alternateKind
    ensures Matches(SetAlternateKind(c, kind), f) <==> Matches(c, f) || Matches(SetKind(c, kind), f)
  {
  }

  /** Main result: the keys of the program match every frame, and the frames from one node. */
  lemma KeysMatch(n: nat, f: Frame)
    ensures Matches(ANY, f)
    ensures Matches(FromSource(n), f) <==> f.source == n
  {
  }

  /** operator<: true as soon as any field is smaller, even if an earlier one is larger. */
  predicate Less(a: Comparator, b: Comparator) {
    || Mask(a.fields) < Mask(b.fields)
    || Rank(a.priority) < Rank(b.priority)
    || a.kind < b.kind
    || a.seqnum < b.seqnum
    || a.destination < b.destination
    || a.source < b.source
    || a.dlc < b.dlc
    || (a.dlc == b.dlc && exists i :: 0 <= i < a.dlc && a.data[i] < b.data[i])
    || a.firstDataByte < b.firstDataByte
  }

  /** The only keys the program attaches observers under: the device manager's and the nodes'. */
  predicate IsKey(c: Comparator) { c == ANY || c == FromSource(c.source) }

  type Key = c: Comparator | IsKey(c) witness ANY

  /** No field of a that operator< looks at is larger than b's; data is looked at only between equal
      lengths. */
  predicate AtMost(a: Comparator, b: Comparator) {
    && Mask(a.fields) <= Mask(b.fields) && Rank(a.priority) <= Rank(b.priority) && a.kind <= b.kind
    && a.seqnum <= b.seqnum && a.destination <= b.destination && a.source <= b.source
    && a.dlc <= b.dlc && (a.dlc == b.dlc ==> forall i :: 0 <= i < a.dlc ==> a.data[i] <= b.data[i])
    && a.firstDataByte <= b.firstDataByte
  }

  /** One of the two is at most the other in every field. */
  predicate Comparable(a: Comparator, b: Comparator) { AtMost(a, b) || AtMost(b, a) }

  lemma LessOrAtMost(a: Comparator, b: Comparator)
    ensures Less(a, b) <==> !AtMost(b, a)
  {
  }

  lemma AtMostTransitive(a: Comparator, b: Comparator, c: Comparator)
    requires AtMost(a, b) && AtMost(b, c)
    ensures AtMost(a, c)
  {
    hide Mask;
  }

  /** What std::map asks of its order. */
  ghost predicate StrictWeakOrder(keys: set<Comparator>) {
    && (forall a, b :: a in keys && b in keys ==> !(Less(a, b) && Less(b, a)))
    && (forall a, b, c :: a in keys && b in keys && c in keys && Less(a, b) && Less(b, c) ==> Less(a, c))
    && (forall a, b, c :: a in keys && b in keys && c in keys && Same(a, b) && Same(b, c) ==> Same(a, c))
  }

  /** What std::map takes for equal. */
  ghost predicate Same(a: Comparator, b: Comparator) { !Less(a, b) && !Less(b, a) }

  /** Main result: operator< orders a family of keys as std::map demands exactly if of any two of them one
      is at most the other in every field. */
  lemma LessOrdersChains(keys: set<Comparator>)
    ensures StrictWeakOrder(keys) <==> forall a, b :: a in keys && b in keys ==> Comparable(a, b)
  {
    hide Less, AtMost;
    forall a, b | a in keys && b in keys
      ensures Less(a, b) <==> !AtMost(b, a)
    {
      LessOrAtMost(a, b);
    }
    if forall a, b :: a in keys && b in keys ==> Comparable(a, b) {
      forall a, b, c | a in keys && b in keys && c in keys
        ensures Less(a, b) && Less(b, c) ==> Less(a, c)
        ensures Same(a, b) && Same(b, c) ==> Same(a, c)
      {
        assert Comparable(a, b) && Comparable(b, c) && Comparable(a, c);
        ChainTransitive(a, b, c);
      }
    }
  }

  lemma ChainTransitive(a: Comparator, b: Comparator, c: Comparator)
    requires Comparable(a, b) && Comparable(b, c) && Comparable(a, c)
    ensures Less(a, b) && Less(b, c) ==> Less(a, c)
    ensures Same(a, b) && Same(b, c) ==> Same(a, c)
  {
    hide Less, AtMost;
    LessOrAtMost(a, b);
    LessOrAtMost(b, a);
    LessOrAtMost(b, c);
    LessOrAtMost(c, b);
    LessOrAtMost(a, c);
    LessOrAtMost(c, a);
    if AtMost(c, a) && AtMost(a, b) {
      AtMostTransitive(c, a, b);
    }
    if AtMost(a, b) && AtMost(b, c) {
      AtMostTransitive(a, b, c);
    }
    if AtMost(c, b) && AtMost(b, a) {
      AtMostTransitive(c, b, a);
    }
  }

  /** The program builds no such keys, but its setters would allow them. */
  lemma LessIsNoOrder()
    ensures var a, b := ANY.(kind := 1, seqnum := 0), ANY.(kind := 0, seqnum := 1);
      Less(a, b) && Less(b, a) && !Comparable(a, b)
  {
  }

  /** Main result: on the keys the program uses it is a strict total order. */
  lemma LessOrdersKeys(a: Key, b: Key, c: Key)
    ensures !Less(a, a)
    ensures Less(a, b) ==> !Less(b, a)
    ensures a != b ==> Less(a, b) || Less(b, a)
    ensures Less(a, b) && Less(b, c) ==> Less(a, c)
  {
  }
}
