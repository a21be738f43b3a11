/**
A frame as the attributes of a message between H9 programs, and back. A message is modelled as a
map from attribute names to text.
*/
module FrameMsg {
  import opened Bytes
  import opened Options
  import opened Numbers
  import opened Frames
  import CanId
  import Slcan

  type Attributes = map<string, seq<Byte>>

  function Decimal(n: nat): seq<Byte> { Text(n, 10, 0, false) }

  function DataHex(data: seq<Byte>, n: nat): seq<Byte>
    requires n <= |data|
  {
    if n == 0 then [] else DataHex(data, n - 1) + HexByte(data[n - 1], true)
  }

  /** The header attributes; H and L are 72 and 76. */
  function Header(f: Frame): Attributes {
    map["priority" := [if f.priority.HIGH? then 72 else 76],
        "type" := Decimal(f.kind), "seqnum" := Decimal(f.seqnum),
        "source" := Decimal(f.source), "destination" := Decimal(f.destination), "dlc" := Decimal(f.dlc)]
  }

  /** A frame without data has no data attribute. */
  function ToAttributes(f: ValidFrame): Attributes {
    if f.dlc == 0 then Header(f) else Header(f)["data" := DataHex(f.data, f.dlc)]
  }

  /** snprintf into a buffer: the text and a NUL. */
  method Print(str: array<Byte>, at: nat, text: seq<Byte>)
    requires at + |text| < str.Length
    modifies str
    ensures str[..at] == old(str[..at]) && str[at..at + |text|] == text && str[at + |text|] == 0
  {
    for i := 0 to |text|
      invariant str[..at] == old(str[..at]) && str[at..at + i] == text[..i]
    {
      str[at + i] := text[i];
    }
    str[at + |text|] := 0;
  }

  datatype Printed = Printed(value: seq<Byte>) | ReadsBehind | WritesBehind

  /** The constructor's loop over so many of the data bytes. It writes one 24-byte buffer from left to
      right, each time over the NUL of the time before; nothing but the length of the frame ends it, so
      it reads behind data that is shorter and writes behind the buffer from the twelfth byte on. */
  method PrintData(data: seq<Byte>, dlc: nat) returns (r: Printed)
    requires dlc > 0
    ensures r.ReadsBehind? <==> |data| < dlc && |data| <= 11
    ensures r.WritesBehind? <==> 11 < dlc && 11 < |data|
    ensures r.Printed? ==> r.value == DataHex(data, dlc)
  {
    var str := new Byte[24];
    for i := 0 to dlc
      invariant i <= 11 && i <= |data| && str[..2 * i] == DataHex(data, i)
      invariant i > 0 ==> str[2 * i] == 0
    {
      if i >= |data| {
        return ReadsBehind;
      }
      if i > 10 {
        return WritesBehind;
      }
      Print(str, i * 2, HexByte(data[i], true));
      assert str[..2 * i + 2] == str[..2 * i] + str[2 * i..2 * i + 2];
    }
    r := Printed(str[..2 * dlc]);
  }

  /** The constructor. Main result: it makes a message of exactly the frames of at most eight bytes; for
      longer ones, which get_frame can return, it reads behind the frame's data. */
  method BuildFrameMsg(f: Frame) returns (r: Option<Attributes>)
    ensures r.Some? <==> f.dlc <= 8
    ensures r.Some? ==> r.value == ToAttributes(f)
  {
    var msg: Attributes := map["priority" := [if f.priority.HIGH? then 72 else 76]];
    msg := msg["type" := Decimal(f.kind)];
    msg := msg["seqnum" := Decimal(f.seqnum)];
    msg := msg["source" := Decimal(f.source)];
    msg := msg["destination" := Decimal(f.destination)];
    msg := msg["dlc" := Decimal(f.dlc)];
    if f.dlc != 0 {
      var text := PrintData(f.data, f.dlc);
      if !text.Printed? {
        return None;
      }
      msg := msg["data" := text.value];
    }
    r := Some(msg);
  }

  // ---------------------------------------------------------------- back to a frame

  datatype Result = Ok(frame: Frame) | InvalidMsg(missing: string) | AssertionFails

  function Number(msg: Attributes, name: string): int
    requires name in msg
  {
    StrtolOrZero(msg[name], 10)
  }

  /** Conversions to the integer types of the getters and of the bit-fields. */
  function U8(n: int): Byte { n % 256 }
  function U16(n: int): nat { n % 0x1_0000 }
  function Cut5(n: int): Bits5 { n % 32 }
  function Cut9(n: int): Bits9 { n % 512 }

  lemma CutSmaller(n: int, wide: int, k: int, narrow: int)
    requires (narrow == 32 && k == 8 && wide == 256) || (narrow == 512 && k == 128 && wide == 0x1_0000)
    ensures n % wide % narrow == n % narrow
  {
    var q, r := n / wide, n % wide;
    var q', r' := r / narrow, r % narrow;
    if narrow == 32 {
      assert n == 32 * (8 * q + q') + r';
      Remainder(n, 32, 8 * q + q', r');
    } else {
      assert n == 512 * (128 * q + q') + r';
      Remainder(n, 512, 128 * q + q', r');
    }
  }

  /** Cutting to the type of the getter first makes no difference. */
  lemma CutOnce(n: int)
    ensures Cut5(U8(n)) == Cut5(n) && Cut9(U16(n)) == Cut9(n)
  {
    CutSmaller(n, 0x100, 8, 32);
    CutSmaller(n, 0x1_0000, 128, 512);
  }

  function PriorityOf(text: seq<Byte>): Priority {
    if text != [] && (text[0] == 72 || text[0] == 104) then HIGH else LOW
  }

  /** The i-th byte of a data attribute. */
  function ByteAt(text: seq<Byte>, i: nat): Byte
    requires 2 * i + 2 <= |text|
  {
    StrtolOrZero(text[2 * i..2 * i + 2], 16) % 256
  }

  /** The bytes of a data attribute: at most sixteen characters are looked at, an odd one is dropped. */
  function DataCount(text: seq<Byte>): (n: nat)
    ensures n <= 8 && 2 * n <= |text|
  {
    (if |text| < 16 then |text| else 16) / 2
  }

  function ReadData(text: seq<Byte>, n: nat): Data
    requires n <= 8 && 2 * n <= |text|
  {
    if n == 0 then NO_DATA else ReadData(text, n - 1)[n - 1 := ByteAt(text, n - 1)]
  }

  /** The first attribute that is missing, in the order they are looked up. */
  function Missing(msg: Attributes): Option<string> {
    if "priority" !in msg then Some("priority")
    else if "type" !in msg then Some("type")
    else if U8(Number(msg, "type")) >= 64 then None
    else if "seqnum" !in msg then Some("seqnum")
    else if "source" !in msg then Some("source")
    else if "destination" !in msg then Some("destination")
    else if "dlc" !in msg then Some("dlc")
    else if "data" !in msg && U8(Number(msg, "dlc")) != 0 then Some("data")
    else None
  }

  function FromAttributes(msg: Attributes): Result {
    if Missing(msg).Some? then InvalidMsg(Missing(msg).value)
    else if U8(Number(msg, "type")) >= 64 then AssertionFails
    else
      Ok(Frame(PriorityOf(msg["priority"]), U8(Number(msg, "type")), Cut5(Number(msg, "seqnum")),
               Cut9(Number(msg, "destination")), Cut9(Number(msg, "source")), U8(Number(msg, "dlc")),
               if "data" in msg then ReadData(msg["data"], DataCount(msg["data"])) else NO_DATA))
  }

  /** get_frame: each integer is cut to its C type and then to its bit-field. */
  method GetFrame(msg: Attributes) returns (r: Result)
    ensures r == FromAttributes(msg)
  {
    hide Number, ByteAt, U8, U16, Cut5, Cut9, PriorityOf;
    var f := Frame(LOW, 0, 0, 0, 0, 0, NO_DATA);
    if "priority" !in msg {
      return InvalidMsg("priority");
    }
    f := f.(priority := PriorityOf(msg["priority"]));
    if "type" !in msg {
      return InvalidMsg("type");
    }
    var kind := U8(Number(msg, "type"));
    if kind >= 64 {
      return AssertionFails;
    }
    f := f.(kind := kind);
    if "seqnum" !in msg {
      return InvalidMsg("seqnum");
    }
    CutOnce(Number(msg, "seqnum"));
    f := f.(seqnum := Cut5(U8(Number(msg, "seqnum"))));
    if "source" !in msg {
      return InvalidMsg("source");
    }
    CutOnce(Number(msg, "source"));
    f := f.(source := Cut9(U16(Number(msg, "source"))));
    if "destination" !in msg {
      return InvalidMsg("destination");
    }
    CutOnce(Number(msg, "destination"));
    f := f.(destination := Cut9(U16(Number(msg, "destination"))));
    if "dlc" !in msg {
      return InvalidMsg("dlc");
    }
    f := f.(dlc := U8(Number(msg, "dlc")));
    if "data" in msg {
      var n := DataCount(msg["data"]);
      ghost var header := f;
      for i := 0 to n
        invariant f.data == ReadData(msg["data"], i)
        invariant f == header.(data := f.data)
      {
        f := f.(data := f.data[i := ByteAt(msg["data"], i)]);
      }
    } else if f.dlc != 0 {
      return InvalidMsg("data");
    }
    return Ok(f);
  }

  // ---------------------------------------------------------------- round trips

  const HEADER_NAMES := {"priority", "type", "seqnum", "source", "destination", "dlc"}

  /** Main result: the attributes of a frame under their names, as the numbers that their texts denote. */
  lemma AttributesDenote(f: ValidFrame)
    ensures var m := ToAttributes(f);
      && m.Keys == HEADER_NAMES + (if f.dlc == 0 then {} else {"data"})
      && m["priority"] == (if f.priority.HIGH? then [72] else [76])
      && DigitsValue(m["type"], 10) == f.kind && DigitsValue(m["seqnum"], 10) == f.seqnum
      && DigitsValue(m["source"], 10) == f.source && DigitsValue(m["destination"], 10) == f.destination
      && DigitsValue(m["dlc"], 10) == f.dlc
      && (f.dlc > 0 ==> |m["data"]| == 2 * f.dlc)
      && forall i :: 0 <= i < f.dlc ==> DigitsValue(m["data"][2 * i..2 * i + 2], 16) == f.data[i]
  {
    hide DigitsValue, Numbers.Text;
    TextDenotes(f.kind, 10, 0, false);
    TextDenotes(f.seqnum, 10, 0, false);
    TextDenotes(f.source, 10, 0, false);
    TextDenotes(f.destination, 10, 0, false);
    TextDenotes(f.dlc, 10, 0, false);
    DataHexAt(f.data, f.dlc, 0);
    forall i | 0 <= i < f.dlc
      ensures DigitsValue(DataHex(f.data, f.dlc)[2 * i..2 * i + 2], 16) == f.data[i]
    {
      DataHexPair(f.data, f.dlc, i);
      TextDenotes(f.data[i], 16, 2, true);
      TwoDigits(f.data[i], true);
    }
  }

  lemma {:induction false} DataHexPair(data: Data, n: nat, i: nat)
    requires i < n <= 8
    ensures |DataHex(data, n)| == 2 * n && DataHex(data, n)[2 * i..2 * i + 2] == HexByte(data[i], true)
  {
    hide Numbers.HexByte;
    DataHexAt(data, n - 1, 0);
    if i < n - 1 {
      DataHexPair(data, n - 1, i);
      assert DataHex(data, n)[2 * i..2 * i + 2] == DataHex(data, n - 1)[2 * i..2 * i + 2];
    }
  }

  /** Main result: a message is a frame exactly if it has all attributes, the type's low byte is below 64, and
      it has data or a length whose low byte is zero. One that is refused lacks the attribute that is named. */
  lemma FrameExactly(msg: Attributes)
    ensures FromAttributes(msg).Ok? <==>
      && (forall name :: name in HEADER_NAMES ==> name in msg)
      && StrtolOrZero(msg["type"], 10) % 256 < 64
      && ("data" in msg || StrtolOrZero(msg["dlc"], 10) % 256 == 0)
    ensures FromAttributes(msg).InvalidMsg? ==> FromAttributes(msg).missing !in msg
    ensures FromAttributes(msg).AssertionFails? <==>
      "priority" in msg && "type" in msg && StrtolOrZero(msg["type"], 10) % 256 >= 64
    ensures FromAttributes(msg).Ok? ==>
      var p := msg["priority"];
      FromAttributes(msg).frame.priority == HIGH <==> p != [] && (p[0] == 72 || p[0] == 104)
  {
    hide Numbers.StrtolOrZero, ReadData;
  }

  lemma NumberReadsDecimal(msg: Attributes, name: string, n: nat)
    requires name in msg && msg[name] == Decimal(n) && n < 0x1_0000
    ensures Number(msg, name) == n
  {
    StrtolReadsText(n, 10, 0, false);
  }

  lemma {:induction false} DataHexAt(data: Data, n: nat, i: nat)
    requires n <= 8
    ensures |DataHex(data, n)| == 2 * n
    ensures i < n ==> ByteAt(DataHex(data, n), i) == data[i]
  {
    hide Numbers.Strtol, Numbers.Text;
    if n > 0 {
      DataHexAt(data, n - 1, i);
      var t := DataHex(data, n);
      if i < n - 1 {
        assert t[2 * i..2 * i + 2] == DataHex(data, n - 1)[2 * i..2 * i + 2];
      } else if i == n - 1 {
        assert t[2 * i..2 * i + 2] == HexByte(data[i], true);
        StrtolReadsText(data[i], 16, 2, true);
      }
    }
  }

  lemma {:induction false} ReadsHex(text: seq<Byte>, data: Data, n: nat)
    requires n <= 8 && 2 * n <= |text| && forall i :: 0 <= i < n ==> ByteAt(text, i) == data[i]
    ensures ReadData(text, n) == Cut(data, n)
  {
    hide ByteAt;
    if n > 0 {
      ReadsHex(text, data, n - 1);
      assert Cut(data, n - 1)[n - 1 := data[n - 1]] == Cut(data, n);
    } else {
      assert Cut(data, 0) == NO_DATA;
    }
  }

  lemma DataRoundTrip(f: ValidFrame)
    ensures var t := DataHex(f.data, f.dlc); DataCount(t) == f.dlc && ReadData(t, f.dlc) == Cut(f.data, f.dlc)
  {
    var t := DataHex(f.data, f.dlc);
    DataHexAt(f.data, f.dlc, 0);
    forall i | 0 <= i < f.dlc
      ensures ByteAt(t, i) == f.data[i]
    {
      DataHexAt(f.data, f.dlc, i);
    }
    ReadsHex(t, f.data, f.dlc);
  }

  lemma NumbersRoundTrip(f: ValidFrame)
    ensures var msg := ToAttributes(f);
      && Number(msg, "type") == f.kind && Number(msg, "seqnum") == f.seqnum && Number(msg, "source") == f.source
      && Number(msg, "destination") == f.destination && Number(msg, "dlc") == f.dlc
  {
    hide Numbers.StrtolOrZero, Numbers.Text;
    var msg := ToAttributes(f);
    NumberReadsDecimal(msg, "type", f.kind);
    NumberReadsDecimal(msg, "seqnum", f.seqnum);
    NumberReadsDecimal(msg, "source", f.source);
    NumberReadsDecimal(msg, "destination", f.destination);
    NumberReadsDecimal(msg, "dlc", f.dlc);
  }

  lemma FieldsFit(f: ValidFrame)
    ensures U8(f.kind) == f.kind && Cut5(f.seqnum) == f.seqnum && Cut9(f.destination) == f.destination
    ensures Cut9(f.source) == f.source && U8(f.dlc) == f.dlc
    ensures PriorityOf([72]) == HIGH && PriorityOf([76]) == LOW
  {
  }

  /** Main result: a frame's attributes give the frame back, with zeros behind its length, exactly for
      the types below 64; on the others the reader's assertion fails. */
  lemma AttributesRoundTrip(f: ValidFrame)
    ensures FromAttributes(ToAttributes(f)) == if f.kind < 64 then Ok(Canonical(f)) else AssertionFails
  {
    hide Number, ReadData, DataHex, Numbers.Text, U8, Cut5, Cut9, PriorityOf;
    FieldsFit(f);
    NumbersRoundTrip(f);
    DataRoundTrip(f);
    assert f.dlc == 0 ==> Cut(f.data, f.dlc) == NO_DATA;
  }

  /** Main result: through the gateway, from a bus driver to a client's message and from a client's
      message to either bus driver, a frame with a five-bit type keeps its meaning. */
  lemma GatewayKeepsMeaning(f: ValidFrame)
    requires f.kind < 32
    ensures Slcan.ParseText(Slcan.FrameText(f)) == Slcan.Parsed(Canonical(f))
    ensures FromAttributes(ToAttributes(Canonical(f))) == Ok(Canonical(f))
    ensures FromAttributes(ToAttributes(f)) == Ok(Canonical(f))
    ensures Slcan.ParseText(Slcan.FrameText(Canonical(f))) == Slcan.Parsed(Canonical(f))
    ensures CanId.FromSocketCan(CanId.ToSocketCan(Canonical(f))) == Canonical(f)
  {
    hide ToAttributes, FromAttributes, Slcan.ParseText, Slcan.FrameText, CanId.ToSocketCan, CanId.FromSocketCan;
    var g := Canonical(f);
    assert Cut(g.data, g.dlc) == g.data;
    assert Canonical(g) == g;
    Slcan.TextRoundTrip(f);
    Slcan.TextRoundTrip(g);
    AttributesRoundTrip(f);
    AttributesRoundTrip(g);
    CanId.SocketCanRoundTrip(g);
  }
}
