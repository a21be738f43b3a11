/**
The 29-bit identifier that carries a frame's header on the bus, as both CAN drivers build it by
shifting fields in and take it apart by shifting and masking, and the socketcan driver's frames.
*/
module CanId {
  import opened Bytes
  import opened Frames

  const EFF_FLAG := 0x8000_0000

  /** x <<= bits; x |= v & mask, where the shifted-out bits are free and nothing leaves 32 bits. */
  function ShiftIn(x: nat, v: nat, width: nat): nat
    requires width > 0
  {
    x * width + v % width
  }

  function PackId(f: Frame): nat {
    ShiftIn(ShiftIn(ShiftIn(ShiftIn(Rank(f.priority), f.kind, 32), f.seqnum, 32), f.destination, 512), f.source, 512)
  }

  /** A frame with the header fields that the shifts and masks find in an identifier. */
  function UnpackId(id: nat, dlc: Byte, data: Data): Frame {
    Frame(if id / 0x1000_0000 % 2 == 0 then HIGH else LOW,
          id / 0x80_0000 % 32, id / 0x4_0000 % 32, id / 0x200 % 512, id % 512, dlc, data)
  }

  /** The place value of each field. */
  lemma PackedValue(f: Frame)
    ensures PackId(f)
      == Rank(f.priority) * 0x1000_0000 + f.kind % 32 * 0x80_0000 + f.seqnum * 0x4_0000 + f.destination * 0x200
      + f.source
  {
    var a := ShiftIn(Rank(f.priority), f.kind, 32);
    var b := ShiftIn(a, f.seqnum, 32);
    var c := ShiftIn(b, f.destination, 512);
    assert PackId(f) == c * 512 + f.source;
    assert c == b * 512 + f.destination;
    assert b == a * 32 + f.seqnum;
  }

  lemma FieldsOfValue(id: nat, flags: nat, p: nat, k: nat, s: nat, d: nat, r: nat)
    requires p < 2 && k < 32 && s < 32 && d < 512 && r < 512
    requires id == flags * 0x2000_0000 + p * 0x1000_0000 + k * 0x80_0000 + s * 0x4_0000 + d * 0x200 + r
    ensures id % 512 == r && id / 0x200 % 512 == d && id / 0x4_0000 % 32 == s && id / 0x80_0000 % 32 == k
      && id / 0x1000_0000 % 2 == p
  {
    var top := flags * 2 + p;
    var withKind := top * 32 + k;
    var withSeqnum := withKind * 32 + s;
    var withDestination := withSeqnum * 512 + d;
    Remainder(id, 0x200, withDestination, r);
    Remainder(id, 0x4_0000, withSeqnum, d * 0x200 + r);
    Remainder(id, 0x80_0000, withKind, s * 0x4_0000 + d * 0x200 + r);
    Remainder(id, 0x1000_0000, top, k * 0x80_0000 + s * 0x4_0000 + d * 0x200 + r);
    Remainder(withDestination, 512, withSeqnum, d);
    Remainder(withSeqnum, 32, withKind, s);
    Remainder(withKind, 32, top, k);
    Remainder(top, 2, flags, p);
  }

  /** Packing loses nothing but the type's bits above the fifth, whatever flags stand above bit 28. */
  lemma UnpackPacked(f: Frame, flags: nat, dlc: Byte, data: Data)
    ensures PackId(f) < 0x2000_0000
    ensures UnpackId(PackId(f) + flags * 0x2000_0000, dlc, data) == f.(kind := f.kind % 32, dlc := dlc, data := data)
  {
    PackedValue(f);
    FieldsOfValue(
      PackId(f) + flags * 0x2000_0000, flags, Rank(f.priority), f.kind % 32, f.seqnum, f.destination, f.source);
  }

  lemma UnpackOwn(f: Frame, dlc: Byte, data: Data)
    requires f.kind < 32
    ensures UnpackId(PackId(f), dlc, data) == f.(dlc := dlc, data := data)
  {
    var id := PackId(f);
    UnpackPacked(f, 0, dlc, data);
    assert id + 0 * 0x2000_0000 == id;
  }

  /** Main result: two frames whose types fit five bits share an identifier only if they agree in every
      header field. */
  lemma PackIsInjective(f: Frame, g: Frame)
    requires f.kind < 32 && g.kind < 32 && PackId(f) == PackId(g)
    ensures f.(dlc := g.dlc, data := g.data) == g
  {
    UnpackOwn(f, g.dlc, g.data);
    UnpackOwn(g, g.dlc, g.data);
  }

  /** Main result: in arbitration, where the lower identifier wins, every HIGH frame beats every LOW one. */
  lemma HighBeatsLow(f: Frame, g: Frame)
    requires f.priority.HIGH? && g.priority.LOW?
    ensures PackId(f) < PackId(g)
  {
    PackedValue(f);
    PackedValue(g);
  }

  // ---------------------------------------------------------------- socketcan

  datatype CanFrame = CanFrame(canId: nat, dlc: Byte, data: Data)

  /** The identifier bits are below the flag, so or-ing the flag in adds it. */
  function ToSocketCan(f: Frame): CanFrame { CanFrame(PackId(f) + EFF_FLAG, f.dlc, f.data) }

  function FromSocketCan(m: CanFrame): Frame { UnpackId(m.canId, m.dlc, m.data) }

  /** A frame sent through socketcan comes back whole. */
  lemma SocketCanRoundTrip(f: Frame)
    ensures FromSocketCan(ToSocketCan(f)) == f.(kind := f.kind % 32)
  {
    UnpackPacked(f, 4, f.dlc, f.data);
  }

  /** Its identifier has the flag for 29 bits, bit 31, and neither of the other two flags. */
  lemma SocketCanFlags(f: Frame)
    ensures var id := ToSocketCan(f).canId;
      id < 0x1_0000_0000 && id / 0x8000_0000 == 1 && id / 0x2000_0000 % 4 == 0 && id % 0x2000_0000 == PackId(f)
  {
    UnpackPacked(f, 0, 0, NO_DATA);
    hide PackId;
    var p := PackId(f);
    assert p + EFF_FLAG == 0x2000_0000 * 4 + p;
    Remainder(p + EFF_FLAG, 0x2000_0000, 4, p);
  }
}
