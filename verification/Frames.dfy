/** The frame that every part of H9 exchanges, with the field widths of its bit-fields. */
module Frames {
  import opened Bytes

  datatype Priority = HIGH | LOW

  /** The number of a priority: 0 for HIGH, 1 for LOW. */
  function Rank(p: Priority): nat { if p.HIGH? then 0 else 1 }

  type Bits5 = x: int | 0 <= x < 32
  type Bits9 = x: int | 0 <= x < 512
  type Data = s: seq<Byte> | |s| == 8 witness [0, 0, 0, 0, 0, 0, 0, 0]

  const NO_DATA: Data := [0, 0, 0, 0, 0, 0, 0, 0]

  const PAGE_START := 1
  const QUIT_BOOTLOADER := 2
  const PAGE_FILL := 3
  const BOOTLOADER_TURNED_ON := 4
  const PAGE_FILL_NEXT := 5
  const PAGE_WRITED := 6
  const SET_REG := 8
  const NODE_UPGRADE := 13
  const REG_EXTERNALLY_CHANGED := 16
  const REG_VALUE := 19
  const NODE_TURNED_ON := 23

  /** kind is the frame's type, an 8-bit enumeration of which 5 bits go on the bus. */
  datatype Frame = Frame(priority: Priority, kind: Byte, seqnum: Bits5, destination: Bits9, source: Bits9, dlc: Byte,
      data: Data)

  /** A frame whose length is one the bus can carry. */
  type ValidFrame = f: Frame | f.dlc <= 8 witness Frame(LOW, 0, 0, 0, 0, 0, NO_DATA)

  /** The first n data bytes, then zeros. */
  function Cut(data: Data, n: nat): Data
    requires n <= 8
  {
    data[..n] + NO_DATA[n..]
  }

  /** What a frame means: the bytes after the first dlc are not part of it. */
  function Canonical(f: ValidFrame): Frame {
    f.(data := Cut(f.data, f.dlc))
  }
}
