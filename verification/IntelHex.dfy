/**
The Intel HEX loader of the firmware uploader. A file is the lines that getline returns; the characters
behind the end of a line are known only up to the terminating NUL, so a record that needs more of them,
and one that would be written behind the buffer, leave the result unspecified.
*/
module IntelHex {
  import opened Bytes
  import opened Options

  type Line = s: seq<Byte> | s != [] witness [10]

  const SIZE: nat := 128 * 1024

  // ---------------------------------------------------------------- characters to bytes

  /** The digit that a character counts as; one that is no hexadecimal digit counts as its low four bits. */
  function Nibble(c: Byte): (d: nat)
    ensures d < 16
  {
    if 48 <= c <= 57 then c - 48
    else if 97 <= c <= 102 then c - 87
    else if 65 <= c <= 70 then c - 55
    else c % 16
  }

  function CharAt(line: Line, k: nat): Byte
    requires k <= |line|
  {
    if k < |line| then line[k] else 0
  }

  /** The byte that two characters denote; a NUL ends the number early. */
  function HexAt(line: Line, k: nat): Byte
    requires k <= |line|
  {
    if CharAt(line, k) == 0 then 0
    else if CharAt(line, k + 1) == 0 then Nibble(line[k])
    else Nibble(line[k]) * 16 + Nibble(line[k + 1])
  }

  /** hex2bin on the characters from position k. */
  method Hex2Bin(line: Line, k: nat) returns (val: Byte)
    requires k <= |line|
    ensures val == HexAt(line, k)
  {
    val := 0;
    for n := 0 to 2
      invariant n == 0 ==> val == 0
      invariant n >= 1 ==> CharAt(line, k) != 0 && k < |line|
      invariant n == 1 ==> val == Nibble(line[k])
      invariant n == 2 ==> val == HexAt(line, k)
    {
      var c := CharAt(line, k + n);
      if c == 0 {
        break;
      }
      val := val * 16 % 256 + Nibble(c);
    }
  }

  // ---------------------------------------------------------------- lines to records

  /** The first n bytes of the record that a line holds. */
  function Raw(line: Line, n: nat): (r: seq<Byte>)
    requires 2 * n <= |line| + 1
    ensures |r| == n
  {
    if n == 0 then [] else Raw(line, n - 1) + [HexAt(line, 2 * n - 1)]
  }

  /** The conversion to an 8-bit unsigned integer. */
  function Low(n: nat): Byte { n % 256 }

  function Total(s: seq<Byte>): nat { if s == [] then 0 else Total(s[..|s| - 1]) + s[|s| - 1] }

  /** valid: the record's bytes, its checksum among them, add up to a multiple of 256. */
  datatype Record =
    | Comment
    | Data(offset: nat, bytes: seq<Byte>, valid: bool)
    | Extended(base: nat, valid: bool)
    | Other
    | Short

  function Parse(line: Line): Record {
    if line[0] != 58 then Comment
    else if |line| < 7 then Short
    else if HexAt(line, 7) == 0 then
      var size := HexAt(line, 1);
      if |line| < 9 + 2 * size then Short else
      var raw := Raw(line, size + 5);
      Data(Word(raw[1], raw[2]), raw[4..4 + size], Low(Total(raw)) == 0)
    else if HexAt(line, 7) == 4 then
      if |line| < 13 then Short else
      var raw := Raw(line, 7);
      Extended(Word(raw[4], raw[5]) * 0x1_0000, Low(Total(raw)) == 0)
    else Other
  }

  // ---------------------------------------------------------------- records to memory

  datatype Image = Image(mem: seq<Byte>, length: nat, base: nat)

  datatype Outcome = Running(image: Image) | Loaded(mem: seq<Byte>, length: nat) | Unspecified

  function Write(mem: seq<Byte>, at: nat, bytes: seq<Byte>): (r: seq<Byte>)
    requires at + |bytes| <= |mem|
    ensures |r| == |mem|
  {
    mem[..at] + bytes + mem[at + |bytes|..]
  }

  function Max(a: nat, b: nat): nat { if a < b then b else a }

  /** What one record does. Data goes behind all earlier data if its own address is in front of that. */
  function Apply(m: Image, r: Record): (o: Outcome)
    requires m.length <= SIZE == |m.mem|
    ensures o.Running? ==> o.image.length <= SIZE == |o.image.mem|
  {
    match r
    case Data(offset, bytes, valid) =>
      var at := Max(m.length, m.base + offset);
      if at + |bytes| > SIZE then Unspecified
      else if valid then Running(Image(Write(m.mem, at, bytes), at + |bytes|, m.base))
      else Loaded(Write(m.mem, at, bytes), 0)
    case Extended(base, valid) =>
      if !valid then Loaded(m.mem, 0)
      else if base > 0x1_0000 then Loaded(m.mem, m.length)
      else Running(m.(base := base))
    case Short => Unspecified
    case _ => Running(m)
  }

  function Load(m: Image, lines: seq<Line>): Outcome
    requires m.length <= SIZE == |m.mem|
    decreases |lines|
  {
    if lines == [] then Loaded(m.mem, m.length)
    else
      var o := Apply(m, Parse(lines[0]));
      if o.Running? then Load(o.image, lines[1..]) else o
  }

  const BLANK := Image(seq(SIZE, i => 0xff), 0, 0)

  // ---------------------------------------------------------------- the loader

  lemma RawPrefix(line: Line, m: nat, n: nat)
    requires m <= n && 2 * n <= |line| + 1
    ensures Raw(line, n)[..m] == Raw(line, m)
    decreases n
  {
    if m < n {
      RawPrefix(line, m, n - 1);
      assert Raw(line, n)[..m] == Raw(line, n - 1)[..m];
    } else {
      assert Raw(line, n)[..m] == Raw(line, n);
    }
  }

  lemma AddByte(s: seq<Byte>, b: Byte)
    ensures Total(s + [b]) == Total(s) + b
    ensures Low(b + Low(Total(s))) == Low(Total(s + [b]))
  {
    assert (s + [b])[..|s|] == s;
  }

  lemma OneByte(b: Byte)
    ensures Low(Total([b])) == b
  {
    AddByte([], b);
    assert [] + [b] == [b];
  }

  lemma RawStep(line: Line, n: nat)
    requires 2 * n <= |line| - 1
    ensures Raw(line, n + 1) == Raw(line, n) + [HexAt(line, 2 * n + 1)] && Raw(line, 0) == []
  {
  }

  /** The comparison with the checksum byte. */
  lemma ChecksumTest(s: seq<Byte>, crc: Byte)
    ensures Low(0x100 - Low(Total(s))) == crc <==> Low(Total(s + [crc])) == 0
  {
    AddByte(s, crc);
    hide Total;
    var m: int := Low(Total(s));
    if m == 0 {
      assert Low(crc + 0) == crc;
    } else {
      assert Low(0x100 - m) == 0x100 - m;
      assert Low(crc + m) == if m + crc < 256 then m + crc else m + crc - 256;
    }
  }

  lemma HeaderBytes(line: Line)
    requires |line| >= 7
    ensures Raw(line, 4) == [HexAt(line, 1), HexAt(line, 3), HexAt(line, 5), HexAt(line, 7)]
  {
    hide HexAt, Raw;
    RawStep(line, 0);
    RawStep(line, 1);
    RawStep(line, 2);
    RawStep(line, 3);
  }

  lemma SumOfFour(a: Byte, b: Byte, c: Byte, d: Byte)
    ensures Low(Total([a, b, c, d])) == Low(d + Low(c + Low(b + a)))
  {
    hide Total, Low;
    OneByte(a);
    AddByte([a], b);
    AddByte([a, b], c);
    AddByte([a, b, c], d);
    assert [a] + [b] == [a, b] && [a, b] + [c] == [a, b, c] && [a, b, c] + [d] == [a, b, c, d];
  }

  /** The four bytes before a record's data, and their sum. */
  method ReadHeader(line: Line) returns (size: nat, offset: nat, rtype: nat, crc: nat)
    requires |line| >= 7
    ensures var raw := Raw(line, 4); size == raw[0] && offset == Word(raw[1], raw[2]) && rtype == raw[3]
    ensures crc == Low(Total(Raw(line, 4)))
  {
    hide HexAt, Total, Low, Raw;
    HeaderBytes(line);
    SumOfFour(HexAt(line, 1), HexAt(line, 3), HexAt(line, 5), HexAt(line, 7));
    size := Hex2Bin(line, 1);
    crc := size;
    var tmp: int := Hex2Bin(line, 3);
    crc := Low(tmp + crc);
    offset := tmp * 256;
    tmp := Hex2Bin(line, 5);
    crc := Low(tmp + crc);
    offset := offset + tmp;
    rtype := Hex2Bin(line, 7);
    crc := Low(rtype + crc);
  }

  /** The loop of a data record, which stores the bytes as it adds them up. */
  method ReadData(line: Line, size: nat, sum: nat, fw: array<Byte>, start: nat) returns (length: nat, valid: bool)
    requires |line| >= 9 + 2 * size && sum == Low(Total(Raw(line, 4)))
    requires start + size <= fw.Length
    modifies fw
    ensures fw[..] == Write(old(fw[..]), start, Raw(line, size + 5)[4..4 + size])
    ensures length == start + size && (valid <==> Low(Total(Raw(line, size + 5))) == 0)
  {
    hide HexAt, Total, Low;
    length := start;
    var crc: int := sum;
    for n := 0 to size
      invariant length == start + n && crc == Low(Total(Raw(line, 4 + n)))
      invariant fw[..start] == old(fw[..start])
      invariant fw[start..start + n] == Raw(line, 4 + n)[4..]
      invariant fw[start + n..] == old(fw[start + n..])
    {
      var tmp: int := Hex2Bin(line, 9 + n * 2);
      fw[length] := tmp;
      length := length + 1;
      AddByte(Raw(line, 4 + n), tmp);
      crc := Low(tmp + crc);
    }
    var check: int := Hex2Bin(line, 9 + size * 2);
    ChecksumTest(Raw(line, 4 + size), check);
    valid := Low(0x100 - crc) == check;
    assert fw[..] == fw[..start] + fw[start..start + size] + fw[start + size..];
    assert Raw(line, size + 5)[4..4 + size] == Raw(line, 4 + size)[4..];
  }

  /** The two data bytes of an extended linear address record, whatever its size says. */
  method ReadExtended(line: Line, sum: nat) returns (base: nat, valid: bool)
    requires |line| >= 13 && sum == Low(Total(Raw(line, 4)))
    ensures var raw := Raw(line, 7); base == Word(raw[4], raw[5]) * 0x1_0000 && (valid <==> Low(Total(raw)) == 0)
  {
    hide HexAt, Total, Low;
    var tmp: int := Hex2Bin(line, 9);
    AddByte(Raw(line, 4), tmp);
    var crc: int := Low(tmp + sum);
    base := tmp * 256;
    tmp := Hex2Bin(line, 11);
    AddByte(Raw(line, 5), tmp);
    crc := Low(tmp + crc);
    base := (base + tmp) * 0x1_0000;
    var check: int := Hex2Bin(line, 13);
    ChecksumTest(Raw(line, 6), check);
    valid := Low(0x100 - crc) == check;
  }

  /** read_ihex, from the opened file to the returned length. */
  method ReadIhex(lines: seq<Line>) returns (fw: array<Byte>, length: Option<nat>)
    ensures fresh(fw) && fw.Length == SIZE == 131072
    ensures match Load(BLANK, lines)
      case Loaded(mem, n) => length == Some(n) && fw[..] == mem
      case _ => length == None
  {
    hide HexAt, Total, Low, Raw, Write;
    fw := new Byte[SIZE](i => 0xff);
    assert fw[..] == BLANK.mem;
    var extended: nat, dataLength: nat := 0, 0;
    for i := 0 to |lines|
      invariant dataLength <= SIZE
      invariant Load(Image(fw[..], dataLength, extended), lines[i..]) == Load(BLANK, lines)
    {
      var line := lines[i];
      assert lines[i..][0] == line && lines[i..][1..] == lines[i + 1..];
      if line[0] != 58 {
        continue;
      }
      if |line| < 7 {
        return fw, None;
      }
      var size, offset, rtype, crc := ReadHeader(line);
      HeaderOfLine(line);
      if rtype == 0 {
        var address := extended + offset;
        if |line| < 9 + 2 * size {
          return fw, None;
        }
        HeaderOfRaw(line, size + 5);
        var start := if dataLength < address then address else dataLength;
        if start + size > SIZE {
          return fw, None;
        }
        var valid;
        dataLength, valid := ReadData(line, size, crc, fw, start);
        if !valid {
          return fw, Some(0);
        }
      } else if rtype == 4 {
        if |line| < 13 {
          return fw, None;
        }
        var valid;
        extended, valid := ReadExtended(line, crc);
        if !valid {
          return fw, Some(0);
        }
        if extended > 0x1_0000 {
          return fw, Some(dataLength);
        }
      }
    }
    assert lines[|lines|..] == [];
    return fw, Some(dataLength);
  }

  lemma HeaderOfLine(line: Line)
    requires |line| >= 7
    ensures Raw(line, 4)[0] == HexAt(line, 1) && Raw(line, 4)[3] == HexAt(line, 7)
  {
    hide HexAt;
    assert |Raw(line, 1)| == 1 && |Raw(line, 2)| == 2;
  }

  lemma HeaderOfRaw(line: Line, n: nat)
    requires n >= 4 && 2 * n <= |line| + 1
    ensures Raw(line, n)[..4] == Raw(line, 4)
    ensures forall i :: 0 <= i < 4 ==> Raw(line, n)[i] == Raw(line, 4)[i]
  {
    RawPrefix(line, 4, n);
    forall i | 0 <= i < 4
      ensures Raw(line, n)[i] == Raw(line, 4)[i]
    {
      assert Raw(line, n)[..4][i] == Raw(line, 4)[i];
    }
  }
}
