/**
What loading an Intel HEX file means: where each record goes, when the image is the one that the
addresses describe, what the checksum detects, and that a written file reads back.
*/
module FirmwareImage {
  import opened Bytes
  import opened Options
  import opened IntelHex
  import opened Numbers

  /** A data record at its absolute address. */
  datatype Segment = Segment(address: nat, bytes: seq<Byte>)

  datatype Verdict = Complete | Corrupt | CutShort

  /** How reading ends: at the end of the file or at a base above 64 KiB, at the first record that fails
      its checksum, or at a record that its line does not hold. */
  function Ending(lines: seq<Line>): Verdict
    decreases |lines|
  {
    if lines == [] then Complete else
    match Parse(lines[0])
    case Data(_, _, valid) => if valid then Ending(lines[1..]) else Corrupt
    case Extended(base, valid) => if !valid then Corrupt else if base > 0x1_0000 then Complete else Ending(lines[1..])
    case Short => CutShort
    case _ => Ending(lines[1..])
  }

  /** The data records that are read, each at its absolute address; one that fails its checksum is the last. */
  function Segments(lines: seq<Line>, base: nat): seq<Segment>
    decreases |lines|
  {
    if lines == [] then [] else
    match Parse(lines[0])
    case Data(offset, bytes, valid) =>
      [Segment(base + offset, bytes)] + if valid then Segments(lines[1..], base) else []
    case Extended(base', valid) => if !valid || base' > 0x1_0000 then [] else Segments(lines[1..], base')
    case Short => []
    case _ => Segments(lines[1..], base)
  }

  /** Where the loader puts them, if so many bytes are in use already. */
  function Moved(segs: seq<Segment>, length: nat): (r: seq<Segment>)
    ensures |r| == |segs|
  {
    if segs == [] then []
    else
      var at := Max(length, segs[0].address);
      [segs[0].(address := at)] + Moved(segs[1..], at + |segs[0].bytes|)
  }

  /** Each segment begins at or behind the end of the one before it. */
  predicate Ascending(segs: seq<Segment>, length: nat) {
    segs == [] || (length <= segs[0].address && Ascending(segs[1..], End(segs[0])))
  }

  function End(s: Segment): nat { s.address + |s.bytes| }

  function LastEnd(segs: seq<Segment>, length: nat): nat { if segs == [] then length else End(segs[|segs| - 1]) }

  ghost predicate Fits(segs: seq<Segment>) { forall i :: 0 <= i < |segs| ==> End(segs[i]) <= SIZE }

  /** Writing one segment after the other, at their own addresses. */
  function WriteAll(mem: seq<Byte>, segs: seq<Segment>): (r: seq<Byte>)
    requires |mem| == SIZE && Fits(segs)
    ensures |r| == SIZE
    decreases |segs|
  {
    if segs == [] then mem else WriteAll(Write(mem, segs[0].address, segs[0].bytes), segs[1..])
  }

  /** The reference: the byte that the segments give an address; later ones win. */
  function Lookup(segs: seq<Segment>, a: nat): Option<Byte> {
    if segs == [] then None
    else if Lookup(segs[1..], a).Some? then Lookup(segs[1..], a)
    else if segs[0].address <= a < End(segs[0]) then Some(segs[0].bytes[a - segs[0].address])
    else None
  }

  function OrElse(b: Option<Byte>, gap: Byte): Byte { if b.Some? then b.value else gap }

  /** The firmware image that the segments describe, with 0xff in its gaps. */
  function ImageOf(segs: seq<Segment>): (mem: seq<Byte>) {
    seq(SIZE, a requires 0 <= a < SIZE => OrElse(Lookup(segs, a), 0xff))
  }

  // ---------------------------------------------------------------- what the loader does

  lemma {:induction false} MovedEndsRise(segs: seq<Segment>, length: nat)
    ensures length <= LastEnd(Moved(segs, length), length)
    ensures LastEnd(Moved(segs, length), length) <= SIZE ==> Fits(Moved(segs, length))
  {
    if segs != [] {
      var at := Max(length, segs[0].address);
      var rest := Moved(segs[1..], at + |segs[0].bytes|);
      MovedEndsRise(segs[1..], at + |segs[0].bytes|);
      assert LastEnd(Moved(segs, length), length) == LastEnd(rest, at + |segs[0].bytes|);
    }
  }

  lemma NoneMoved(length: nat, mem: seq<Byte>)
    requires |mem| == SIZE
    ensures Moved([], length) == [] && LastEnd([], length) == length && Fits([]) && WriteAll(mem, []) == mem
  {
  }

  lemma FirstMoved(s: Segment, rest: seq<Segment>, length: nat, mem: seq<Byte>)
    requires |mem| == SIZE
    ensures var at, segs := Max(length, s.address), Moved([s] + rest, length);
      var moved := Moved(rest, at + |s.bytes|);
      && LastEnd(segs, length) == LastEnd(moved, at + |s.bytes|) >= at + |s.bytes|
      && (LastEnd(segs, length) <= SIZE
        ==> Fits(segs) && Fits(moved) && WriteAll(mem, segs) == WriteAll(Write(mem, at, s.bytes), moved))
  {
    hide Write;
    var at, segs := Max(length, s.address), Moved([s] + rest, length);
    var moved := Moved(rest, at + |s.bytes|);
    assert ([s] + rest)[1..] == rest;
    assert segs == [s.(address := at)] + moved && segs[1..] == moved;
    MovedEndsRise(rest, at + |s.bytes|);
    MovedEndsRise([s] + rest, length);
  }

  /** What loading comes to, if the records are written where the loader moves them: the length is the end of
      the last one, or zero if that fails its checksum; a record that its line does not hold, and one that
      ends behind the buffer, leave the result open. */
  function Result(m: Image, ending: Verdict, segs: seq<Segment>): Outcome
    requires |m.mem| == SIZE && (LastEnd(segs, m.length) <= SIZE ==> Fits(segs))
  {
    if ending == CutShort || LastEnd(segs, m.length) > SIZE then Unspecified
    else Loaded(WriteAll(m.mem, segs), if ending == Corrupt then 0 else LastEnd(segs, m.length))
  }

  /** Main result: every file is loaded by writing each record that is read to where the loader moves it. */
  lemma {:induction false} LoadOfFile(m: Image, lines: seq<Line>)
    requires m.length <= SIZE == |m.mem|
    ensures var segs := Moved(Segments(lines, m.base), m.length);
      && (LastEnd(segs, m.length) <= SIZE ==> Fits(segs))
      && Load(m, lines) == Result(m, Ending(lines), segs)
    decreases |lines|
  {
    hide Parse, Write, Moved, WriteAll, LastEnd, Fits;
    NoneMoved(m.length, m.mem);
    if lines == [] {
      return;
    }
    match Parse(lines[0])
    case Data(offset, bytes, valid) =>
      var at := Max(m.length, m.base + offset);
      var rest := if valid then Segments(lines[1..], m.base) else [];
      FirstMoved(Segment(m.base + offset, bytes), rest, m.length, m.mem);
      if at + |bytes| <= SIZE {
        NoneMoved(at + |bytes|, Write(m.mem, at, bytes));
        if valid {
          LoadOfFile(Image(Write(m.mem, at, bytes), at + |bytes|, m.base), lines[1..]);
        }
      }
    case Extended(base, valid) =>
      if valid && base <= 0x1_0000 {
        LoadOfFile(m.(base := base), lines[1..]);
      }
    case Short =>
    case _ => LoadOfFile(m, lines[1..]);
  }

  /** A file whose records all pass: the length is the end of the last one. */
  lemma LoadOfValidFile(m: Image, lines: seq<Line>)
    requires m.length <= SIZE == |m.mem| && Ending(lines) == Complete
    ensures var segs := Moved(Segments(lines, m.base), m.length);
      && (LastEnd(segs, m.length) <= SIZE ==> Fits(segs))
      && Load(m, lines) ==
        if LastEnd(segs, m.length) <= SIZE then Loaded(WriteAll(m.mem, segs), LastEnd(segs, m.length)) else Unspecified
  {
    hide Ending, Segments, Moved, Load, WriteAll, LastEnd, Fits;
    LoadOfFile(m, lines);
  }

  /** Main result: loading ends with length zero exactly if a record fails its checksum, and the records up to
      it end inside the buffer, or if nothing is loaded at all. */
  lemma LoadOfInvalidFile(m: Image, lines: seq<Line>)
    requires m.length <= SIZE == |m.mem|
    ensures var segs := Moved(Segments(lines, m.base), m.length); var o := Load(m, lines);
      && (Ending(lines) == CutShort ==> o.Unspecified?)
      && (Ending(lines) == Corrupt
        ==> if LastEnd(segs, m.length) <= SIZE then o.Loaded? && o.length == 0 else o.Unspecified?)
      && (o.Loaded? && o.length == 0 <==>
           LastEnd(segs, m.length) <= SIZE
           && (Ending(lines) == Corrupt || (Ending(lines) == Complete && LastEnd(segs, m.length) == 0)))
  {
    hide Ending, Segments, Moved, Load, WriteAll, LastEnd, Fits;
    LoadOfFile(m, lines);
  }

  /** Main result: every record stays at its own address exactly if the records ascend without overlap. */
  lemma {:induction false} InPlaceIfAscending(segs: seq<Segment>, length: nat)
    ensures Moved(segs, length) == segs <==> Ascending(segs, length)
  {
    if segs != [] {
      var at := Max(length, segs[0].address);
      InPlaceIfAscending(segs[1..], at + |segs[0].bytes|);
      assert segs == [segs[0]] + segs[1..];
      assert Moved(segs, length)[1..] == Moved(segs[1..], at + |segs[0].bytes|);
    }
  }

  /** Writing all segments gives every address the byte that the reference gives it. */
  lemma {:induction false} WriteAllIsLookup(mem: seq<Byte>, segs: seq<Segment>, a: nat)
    requires |mem| == SIZE && Fits(segs) && a < SIZE
    ensures WriteAll(mem, segs)[a] == OrElse(Lookup(segs, a), mem[a])
    decreases |segs|
  {
    hide Fits;
    if segs != [] {
      TailFits(segs);
      WriteAllIsLookup(Write(mem, segs[0].address, segs[0].bytes), segs[1..], a);
    }
  }

  lemma TailFits(segs: seq<Segment>)
    requires Fits(segs) && segs != []
    ensures Fits(segs[1..]) && End(segs[0]) <= SIZE
  {
  }

  /** Main result: if the records of a valid file ascend without overlap inside the buffer, the image is the
      one that the addresses describe and its length is the end of the last record. */
  lemma LoadedImage(lines: seq<Line>)
    requires Ending(lines) == Complete
    requires var segs := Segments(lines, 0); Ascending(segs, 0) && LastEnd(segs, 0) <= SIZE
    ensures var segs := Segments(lines, 0); Load(BLANK, lines) == Loaded(ImageOf(segs), LastEnd(segs, 0))
  {
    hide Ending, Segments, Load, Moved, WriteAll, Lookup, Ascending;
    var segs := Segments(lines, 0);
    InPlaceIfAscending(segs, 0);
    LoadOfValidFile(BLANK, lines);
    forall a | 0 <= a < SIZE
      ensures WriteAll(BLANK.mem, segs)[a] == ImageOf(segs)[a]
    {
      WriteAllIsLookup(BLANK.mem, segs, a);
    }
    assert WriteAll(BLANK.mem, segs) == ImageOf(segs);
  }

  // ---------------------------------------------------------------- writing a file

  function HexText(raw: seq<Byte>): (r: seq<Byte>)
    ensures |r| == 2 * |raw|
  {
    if raw == [] then [] else HexText(raw[..|raw| - 1]) + HexByte(raw[|raw| - 1], true)
  }

  /** A record as a line: its bytes, the checksum that makes them add up to a multiple of 256, and what ends
      the line. */
  function RenderWith(raw: seq<Byte>, end: seq<Byte>): Line {
    [58] + HexText(raw + [Low(0x100 - Low(Total(raw)))]) + end
  }

  function RenderData(offset: nat, bytes: seq<Byte>, end: seq<Byte>): Line
    requires offset < 0x1_0000 && |bytes| < 256
  {
    RenderWith([|bytes|, offset / 256, offset % 256, 0] + bytes, end)
  }

  function RenderExtended(high: nat, end: seq<Byte>): Line
    requires high < 0x1_0000
  {
    RenderWith([2, 0, 0, 4, high / 256, high % 256], end)
  }

  /** The records at the end of a file: perhaps a start address, and the end-of-file record. */
  function RenderStart(address: nat, end: seq<Byte>): Line { RenderWith([4, 0, 0, 5] + Digits(address, 4), end) }

  function RenderEnd(end: seq<Byte>): Line { RenderWith([0, 0, 0, 1], end) }

  ghost predicate Writable(segs: seq<Segment>) {
    forall i :: 0 <= i < |segs| ==> segs[i].address < SIZE && |segs[i].bytes| < 256
  }

  /** The data of a file, with an extended address for every segment. */
  ghost function Body(segs: seq<Segment>, end: seq<Byte>): seq<Line>
    requires Writable(segs)
  {
    if segs == [] then []
    else
      var s := segs[0];
      [RenderExtended(s.address / 0x1_0000, end), RenderData(s.address % 0x1_0000, s.bytes, end)] + Body(segs[1..], end)
  }

  function Trailer(start: Option<nat>, end: seq<Byte>): seq<Line> {
    (if start.Some? then [RenderStart(start.value, end)] else []) + [RenderEnd(end)]
  }

  /** A file as tools write it; end is what they end a line with. */
  ghost function FileOf(segs: seq<Segment>, start: Option<nat>, end: seq<Byte>): seq<Line>
    requires Writable(segs)
  {
    Body(segs, end) + Trailer(start, end)
  }

  /** The digits of either case are read. */
  lemma DigitReadsBack(d: nat, upper: bool)
    requires d < 16
    ensures Nibble(DigitChar(d, upper)) == d
  {
  }

  /** Two digits of either case are read as the byte they denote. */
  lemma PairReadsBack(line: Line, k: nat, b: Byte, upper: bool)
    requires k + 2 <= |line| && line[k..k + 2] == HexByte(b, upper)
    ensures HexAt(line, k) == b
  {
    assert line[k] == line[k..k + 2][0] && line[k + 1] == line[k..k + 2][1];
  }

  lemma {:induction false} HexTextAt(raw: seq<Byte>, i: nat)
    requires i < |raw|
    ensures HexText(raw)[2 * i..2 * i + 2] == HexByte(raw[i], true)
  {
    if i < |raw| - 1 {
      HexTextAt(raw[..|raw| - 1], i);
      assert HexText(raw)[2 * i..2 * i + 2] == HexText(raw[..|raw| - 1])[2 * i..2 * i + 2];
    }
  }

  /** The bytes of a rendered record are read back. */
  lemma {:induction false} RawOfText(line: Line, raw: seq<Byte>, end: seq<Byte>, n: nat)
    requires n <= |raw| && line == [58] + HexText(raw) + end
    ensures Raw(line, n) == raw[..n]
  {
    hide HexAt, Numbers.HexByte, HexText;
    if n > 0 {
      RawOfText(line, raw, end, n - 1);
      HexTextAt(raw, n - 1);
      assert line[2 * n - 1..2 * n + 1] == HexText(raw)[2 * n - 2..2 * n];
      PairReadsBack(line, 2 * n - 1, raw[n - 1], true);
      assert raw[..n] == raw[..n - 1] + [raw[n - 1]];
    }
  }

  lemma RenderReadsBack(raw: seq<Byte>, end: seq<Byte>)
    ensures var line := RenderWith(raw, end);
      |line| == 2 * |raw| + 3 + |end| && Raw(line, |raw|) == raw && Low(Total(Raw(line, |raw| + 1))) == 0
  {
    hide HexText, Raw, Total, Low;
    var crc := Low(0x100 - Low(Total(raw)));
    var line := RenderWith(raw, end);
    RawOfText(line, raw + [crc], end, |raw|);
    RawOfText(line, raw + [crc], end, |raw| + 1);
    assert (raw + [crc])[..|raw|] == raw && (raw + [crc])[..|raw| + 1] == raw + [crc];
    ChecksumTest(raw, crc);
  }

  lemma FirstAndKind(line: Line, raw: seq<Byte>)
    requires 4 <= |raw| && 2 * |raw| <= |line| + 1 && Raw(line, |raw|) == raw
    ensures HexAt(line, 1) == raw[0] && HexAt(line, 7) == raw[3]
  {
    hide HexAt, Raw;
    HeaderOfLine(line);
    HeaderOfRaw(line, |raw|);
  }

  lemma ParsesAsData(line: Line, raw: seq<Byte>, offset: nat, bytes: seq<Byte>)
    requires line[0] == 58 && |raw| == |bytes| + 4 && |line| >= 9 + 2 * |bytes|
    requires raw[0] == |bytes| && Word(raw[1], raw[2]) == offset && raw[3] == 0 && raw[4..] == bytes
    requires Raw(line, |raw|) == raw && Low(Total(Raw(line, |raw| + 1))) == 0
    ensures Parse(line) == Data(offset, bytes, true)
  {
    hide HexAt, Raw, Total, Low, Word;
    FirstAndKind(line, raw);
    RawPrefix(line, |raw|, |raw| + 1);
    PartsOfData(Raw(line, |bytes| + 5), raw, bytes);
  }

  /** Main result: a written data record is read back with its address and its bytes, however its line ends. */
  lemma DataReadsBack(offset: nat, bytes: seq<Byte>, end: seq<Byte>)
    requires offset < 0x1_0000 && |bytes| < 256
    ensures Parse(RenderData(offset, bytes, end)) == Data(offset, bytes, true)
  {
    hide Raw, Total, Low, Parse, HexText;
    var raw := [|bytes|, offset / 256, offset % 256, 0] + bytes;
    RenderReadsBack(raw, end);
    ParsesAsData(RenderWith(raw, end), raw, offset, bytes);
  }

  lemma PartsOfData(all: seq<Byte>, raw: seq<Byte>, bytes: seq<Byte>)
    requires |all| == |bytes| + 5 && |raw| == |bytes| + 4 && all[..|raw|] == raw && raw[4..] == bytes
    ensures all[1] == raw[1] && all[2] == raw[2] && all[4..4 + |bytes|] == bytes
  {
    assert all[1] == all[..|raw|][1] && all[2] == all[..|raw|][2];
    assert all[4..4 + |bytes|] == all[..|raw|][4..];
  }

  lemma ExtendedReadsBack(high: nat, end: seq<Byte>)
    requires high < 0x1_0000
    ensures Parse(RenderExtended(high, end)) == Extended(high * 0x1_0000, true)
  {
    var raw := [2, 0, 0, 4, high / 256, high % 256];
    var line := RenderWith(raw, end);
    assert line[0] == 58;
    hide HexAt, Raw, Total, Low, RenderWith;
    RenderReadsBack(raw, end);
    FirstAndKind(line, raw);
    var all := Raw(line, 7);
    RawPrefix(line, 6, 7);
    assert all[4] == all[..6][4] && all[5] == all[..6][5];
  }

  lemma {:induction false} BodyReadsBack(segs: seq<Segment>, base: nat, end: seq<Byte>)
    requires Writable(segs)
    ensures Ending(Body(segs, end)) == Complete && Segments(Body(segs, end), base) == segs
  {
    hide Parse, RenderData, RenderExtended;
    if segs != [] {
      var s := segs[0];
      var high := s.address / 0x1_0000;
      var lines := Body(segs, end);
      BodyReadsBack(segs[1..], high * 0x1_0000, end);
      ExtendedReadsBack(high, end);
      DataReadsBack(s.address % 0x1_0000, s.bytes, end);
      assert lines[1..][1..] == Body(segs[1..], end);
      assert lines[1..][0] == RenderData(s.address % 0x1_0000, s.bytes, end);
      assert segs == [s] + segs[1..];
    }
  }

  /** A line that is no record, or a record that is neither data nor an extended address. */
  predicate Ignored(line: Line) { line[0] != 58 || (|line| >= 7 && HexAt(line, 7) != 0 && HexAt(line, 7) != 4) }

  /** Main result: such a line makes no difference to what is loaded, wherever it stands. */
  lemma {:induction false} IgnoredLine(m: Image, front: seq<Line>, line: Line, rest: seq<Line>)
    requires m.length <= SIZE == |m.mem| && Ignored(line)
    ensures Load(m, front + [line] + rest) == Load(m, front + rest)
    decreases |front|
  {
    hide HexAt, Raw, Write;
    var all := front + [line] + rest;
    if front == [] {
      assert all[0] == line && all[1..] == rest && front + rest == rest;
    } else {
      assert all[0] == front[0] && all[1..] == front[1..] + [line] + rest;
      assert (front + rest)[0] == front[0] && (front + rest)[1..] == front[1..] + rest;
      var o := Apply(m, Parse(front[0]));
      hide Parse, Apply;
      if o.Running? {
        IgnoredLine(o.image, front[1..], line, rest);
      }
    }
  }

  lemma OtherKindIsIgnored(raw: seq<Byte>, end: seq<Byte>)
    requires |raw| >= 4 && raw[3] != 0 && raw[3] != 4
    ensures Ignored(RenderWith(raw, end))
  {
    hide HexAt, Raw, Total, Low, HexText;
    RenderReadsBack(raw, end);
    FirstAndKind(RenderWith(raw, end), raw);
  }

  lemma TrailerIsIgnored(m: Image, lines: seq<Line>, start: Option<nat>, end: seq<Byte>)
    requires m.length <= SIZE == |m.mem|
    ensures Load(m, lines + Trailer(start, end)) == Load(m, lines)
  {
    hide Load, Ignored, RenderWith;
    OtherKindIsIgnored([0, 0, 0, 1], end);
    if start.Some? {
      OtherKindIsIgnored([4, 0, 0, 5] + Digits(start.value, 4), end);
      IgnoredLine(m, lines, RenderStart(start.value, end), [RenderEnd(end)]);
      assert lines + Trailer(start, end) == lines + [RenderStart(start.value, end)] + [RenderEnd(end)];
    } else {
      assert lines + Trailer(start, end) == lines + [RenderEnd(end)];
    }
    IgnoredLine(m, lines, RenderEnd(end), []);
    assert lines + [RenderEnd(end)] + [] == lines + [RenderEnd(end)] && lines + [] == lines;
  }

  /** Main result: loading a written file, with its end-of-file record and perhaps a start address, and with
      either kind of line end, gives back what was written. */
  lemma WrittenFileLoads(segs: seq<Segment>, start: Option<nat>, end: seq<Byte>)
    requires Writable(segs)
    requires Ascending(segs, 0) && LastEnd(segs, 0) <= SIZE
    ensures Load(BLANK, FileOf(segs, start, end)) == Loaded(ImageOf(segs), LastEnd(segs, 0))
  {
    BodyReadsBack(segs, 0, end);
    LoadedImage(Body(segs, end));
    TrailerIsIgnored(BLANK, Body(segs, end), start, end);
  }

  /** Main result: an extended address above 64 KiB ends the file, so that what follows, for the EEPROM or the
      configuration, is not loaded; a lower one is where the following records count from. */
  lemma HighAddressEndsFile(m: Image, high: nat, end: seq<Byte>, rest: seq<Line>)
    requires m.length <= SIZE == |m.mem| && high < 0x1_0000
    ensures Load(m, [RenderExtended(high, end)] + rest)
      == if high > 1 then Loaded(m.mem, m.length) else Load(m.(base := high * 0x1_0000), rest)
  {
    hide Parse, RenderExtended;
    ExtendedReadsBack(high, end);
    assert ([RenderExtended(high, end)] + rest)[1..] == rest;
  }

  lemma HexTextNext(raw: seq<Byte>, b: Byte)
    ensures HexText(raw + [b]) == HexText(raw) + HexByte(b, true) && HexText([]) == []
  {
    assert (raw + [b])[..|raw|] == raw;
  }

  lemma EndOfFileSum()
    ensures Low(0x100 - Low(Total([0, 0, 0, 1]))) == 255
  {
    SumOfFour(0, 0, 0, 1);
    assert Low(1 + Low(0 + Low(0 + 0))) == 1 && Low(0x100 - 1) == 255;
  }

  lemma ThreeZeros()
    ensures HexText([0, 0, 0]) == [48, 48, 48, 48, 48, 48]
  {
    hide HexText;
    HexTextNext([], 0);
    HexTextNext([0], 0);
    HexTextNext([0, 0], 0);
    assert [] + [0] == [0] && [0] + [0] == [0, 0] && [0, 0] + [0] == [0, 0, 0];
  }

  lemma EndOfFileDigits()
    ensures HexText([0, 0, 0, 1, 255]) == [48, 48, 48, 48, 48, 48, 48, 49, 70, 70]
  {
    hide HexText;
    ThreeZeros();
    HexTextNext([0, 0, 0], 1);
    HexTextNext([0, 0, 0, 1], 255);
    assert [0, 0, 0] + [1] == [0, 0, 0, 1] && [0, 0, 0, 1] + [255] == [0, 0, 0, 1, 255];
  }

  /** The end-of-file record as it stands in files: a colon, 00000001FF and a line feed. */
  lemma EndOfFileText()
    ensures RenderEnd([10]) == [58, 48, 48, 48, 48, 48, 48, 48, 49, 70, 70, 10]
  {
    hide Total, Low, HexText;
    EndOfFileSum();
    EndOfFileDigits();
    assert [0, 0, 0, 1] + [255] == [0, 0, 0, 1, 255];
  }

  // ---------------------------------------------------------------- what the checksum detects

  lemma {:induction false} TotalOfUpdate(s: seq<Byte>, i: nat, b: Byte)
    requires i < |s|
    ensures Total(s[i := b]) + s[i] == Total(s) + b
  {
    var n := |s| - 1;
    if i < n {
      assert s[i := b][..n] == s[..n][i := b];
      TotalOfUpdate(s[..n], i, b);
    } else {
      assert s[i := b][..n] == s[..n];
    }
  }

  lemma ChangedByteIsNoticed(s: seq<Byte>, i: nat, b: Byte)
    requires i < |s| && b != s[i] && Low(Total(s)) == 0
    ensures Low(Total(s[i := b])) != 0
  {
    TotalOfUpdate(s, i, b);
    hide Total;
    var t, t' := Total(s), Total(s[i := b]);
    assert t == 256 * (t / 256) + t % 256 && t' == 256 * (t' / 256) + t' % 256;
  }

  /** Main result: a valid data record in which one byte is changed, other than the size and the kind, is
      no longer valid. */
  lemma DamagedRecordFails(line: Line, line': Line, i: nat, b: Byte)
    requires var r, r' := Parse(line), Parse(line'); r.Data? && r.valid && r'.Data? && |r'.bytes| == |r.bytes|
    requires var n := |Parse(line).bytes| + 5;
      && i < n && 2 * n <= |line| + 1 && 2 * n <= |line'| + 1
      && Raw(line, n)[i] != b && Raw(line', n) == Raw(line, n)[i := b]
    ensures !Parse(line').valid
  {
    hide HexAt, Raw, Total, Low;
    ChangedByteIsNoticed(Raw(line, |Parse(line).bytes| + 5), i, b);
  }

  // ---------------------------------------------------------------- extended records of any size

  /** A line with a record of n data bytes that the loader reads as an extended address. */
  ghost predicate ExtendedOfSize(line: Line, n: Byte) {
    2 * (n + 5) <= |line| + 1 && HexAt(line, 1) == n && Parse(line).Extended?
  }

  /** The record passes exactly if all its bytes add up to a multiple of 256. */
  ghost predicate MeetsFormat(line: Line, n: Byte)
    requires ExtendedOfSize(line, n)
  {
    Parse(line).valid <==> Low(Total(Raw(line, n + 5))) == 0
  }

  /** A record of any other size than two: the first seven bytes do not add up to a multiple of 256. */
  function OddRecord(n: Byte): (raw: seq<Byte>)
    requires n != 2
    ensures |raw| == n + 4
  {
    if n == 0 then [0, 0, 0, 4]
    else if n == 1 then [1, 0, 0, 4, 0]
    else [n, 0, 0, 4, 0, 0, if n == 252 then 1 else 0] + seq(n - 3, i => 0)
  }

  lemma SumOfSeven(n: Byte, d: Byte)
    ensures Low(Total([n, 0, 0, 4, 0, 0, d])) == Low(d + Low(0 + Low(0 + Low(4 + Low(0 + Low(0 + n))))))
  {
    hide Total, Low;
    SumOfFour(n, 0, 0, 4);
    AddByte([n, 0, 0, 4], 0);
    AddByte([n, 0, 0, 4, 0], 0);
    AddByte([n, 0, 0, 4, 0, 0], d);
    assert [n, 0, 0, 4] + [0] == [n, 0, 0, 4, 0] && [n, 0, 0, 4, 0] + [0] == [n, 0, 0, 4, 0, 0];
    assert [n, 0, 0, 4, 0, 0] + [d] == [n, 0, 0, 4, 0, 0, d];
  }

  lemma LowOfSeven(n: Byte, d: Byte)
    ensures Low(d + Low(0 + Low(0 + Low(4 + Low(0 + Low(0 + n)))))) == Low(d + Low(4 + n))
  {
  }

  lemma FirstSevenOfLong(n: Byte)
    requires n > 2
    ensures Low(Total(OddRecord(n)[..7])) != 0
  {
    hide Total;
    var d: Byte := if n == 252 then 1 else 0;
    SumOfSeven(n, d);
    LowOfSeven(n, d);
    assert Low(4 + n) == if n < 252 then n + 4 else n - 252;
    assert OddRecord(n)[..7] == [n, 0, 0, 4, 0, 0, d];
  }

  /** CR and LF, read as two digits. */
  lemma LineEndAsByte(line: Line, k: nat)
    requires k + 2 == |line| && line[k] == 13 && line[k + 1] == 10
    ensures HexAt(line, k) == 218 && HexAt(line, k + 2) == 0
  {
  }

  /** Behind a record of less than two bytes the loader adds up the line's end. */
  lemma FirstSevenOfShort(line: Line, n: nat)
    requires n < 2 && |line| == 2 * n + 13 && line[2 * n + 11] == 13 && line[2 * n + 12] == 10
    requires Low(Total(Raw(line, n + 5))) == 0
    ensures Low(Total(Raw(line, 7))) != 0
  {
    LineEndAsByte(line, 2 * n + 11);
    RawStep(line, n + 5);
    AddByte(Raw(line, n + 5), 218);
    assert Low(218 + 0) == 218;
    if n == 0 {
      RawStep(line, 6);
      AddByte(Raw(line, 6), 0);
      assert Low(0 + 218) == 218;
    }
  }

  lemma OddRecordIsMisjudged(n: Byte)
    requires n != 2
    ensures var line := RenderWith(OddRecord(n), [13, 10]); ExtendedOfSize(line, n) && !MeetsFormat(line, n)
  {
    var raw := OddRecord(n);
    var line := RenderWith(raw, [13, 10]);
    assert line[0] == 58;
    RenderReadsBack(raw, [13, 10]);
    assert |line| == 2 * n + 13 && line[2 * n + 11] == 13 && line[2 * n + 12] == 10;
    hide HexAt, Raw, Total, RenderWith, Low;
    FirstAndKind(line, raw);
    if n < 2 {
      FirstSevenOfShort(line, n);
    } else {
      RawPrefix(line, 7, n + 4);
      FirstSevenOfLong(n);
    }
  }

  /** Main result: the loader judges the extended address records of n data bytes as the format does exactly
      if n is 2, the size that the format prescribes for them: it always adds up seven bytes. */
  lemma ExtendedMeetsFormatExactly(n: Byte)
    ensures (forall line: Line :: ExtendedOfSize(line, n) ==> MeetsFormat(line, n)) <==> n == 2
  {
    if n == 2 {
      assert forall line: Line :: ExtendedOfSize(line, n) ==> MeetsFormat(line, n);
    } else {
      OddRecordIsMisjudged(n);
    }
  }
}
