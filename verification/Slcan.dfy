/**
The serial-line driver: frames as text, the splitter that cuts the byte stream of the adapter into
responses, and what each response makes the driver do.
*/
module Slcan {
  import opened Bytes
  import opened Options
  import opened Numbers
  import opened Frames
  import opened CanId

  const CR: Byte := 13
  const BELL: Byte := 7
  const TEE: Byte := 84

  // ---------------------------------------------------------------- frames as text

  function DataText(data: Data, n: nat): seq<Byte>
    requires n <= 8
  {
    if n == 0 then [] else DataText(data, n - 1) + HexByte(data[n - 1], false)
  }

  /** The text of a frame: T, eight digits of identifier, one of length, two for each byte, CR. */
  function FrameText(f: ValidFrame): seq<Byte> {
    [TEE] + Text(PackId(f), 16, 8, false) + Text(f.dlc, 16, 1, false) + DataText(f.data, f.dlc) + [CR]
  }

  /** Main result: exactly the frames of at most eight bytes have a text; for longer ones the loop reads
      behind the frame's data. */
  method BuildSlcanMsg(f: Frame) returns (r: Option<seq<Byte>>)
    ensures r.Some? <==> f.dlc <= 8
    ensures r.Some? ==> r.value == FrameText(f)
  {
    var id: nat := Rank(f.priority);
    id := ShiftIn(id, f.kind, 32);
    id := ShiftIn(id, f.seqnum, 32);
    id := ShiftIn(id, f.destination, 512);
    id := ShiftIn(id, f.source, 512);
    var buf := [TEE];
    buf := buf + Text(id, 16, 8, false);
    buf := buf + Text(f.dlc, 16, 1, false);
    ghost var head := buf;
    for i := 0 to f.dlc
      invariant i <= 8 && buf == head + DataText(f.data, i)
    {
      if i >= |f.data| {
        return None;
      }
      buf := buf + HexByte(f.data[i], false);
    }
    r := Some(buf + [CR]);
  }

  /** Throws stands for an exception of stoi or substr, Overrun for a write behind the data array. */
  datatype Parsed<T> = Parsed(value: T) | Throws | Overrun

  function Substr(s: seq<Byte>, from: nat, n: nat): seq<Byte>
    requires from <= |s|
  {
    if from + n <= |s| then s[from..from + n] else s[from..]
  }

  /** stoi(text.substr(from, n), nullptr, 16); None where one of the two throws. */
  function ReadAt(text: seq<Byte>, from: nat, n: nat): Option<int> {
    if from > |text| then None else Stoi(Substr(text, from, n), 16)
  }

  /** The loop over the data bytes from the i-th on; byteAt is what is read for each. */
  function ParseData(byteAt: nat -> Option<int>, i: nat, data: Data, n: nat): Parsed<Data>
    decreases n - i
  {
    if i >= n then Parsed(data)
    else if byteAt(i).None? then Throws
    else if i >= 8 then Overrun
    else ParseData(byteAt, i + 1, data[i := byteAt(i).value % 256], n)
  }

  function WithHeader(id: nat, dlc: Byte, r: Parsed<Data>): Parsed<Frame> {
    match r
    case Parsed(data) => Parsed(UnpackId(id, dlc, data))
    case Throws => Throws
    case Overrun => Overrun
  }

  /** Identifier and length first, as 32-bit numbers, then the data. */
  function Assemble(id: Option<int>, dlc: Option<int>, byteAt: nat -> Option<int>): Parsed<Frame> {
    if id.None? || dlc.None? then Throws
    else
      WithHeader(id.value % 0x1_0000_0000, dlc.value % 256, ParseData(byteAt, 0, NO_DATA, dlc.value % 0x1_0000_0000))
  }

  /** A text of at least ten characters as a frame. */
  function ParseText(text: seq<Byte>): Parsed<Frame>
    requires |text| >= 10
  {
    Assemble(ReadAt(text, 1, 8), ReadAt(text, 9, 1), DataReader(text))
  }

  /** What is read for each data byte. */
  function DataReader(text: seq<Byte>): nat -> Option<int> {
    (i: nat) => ReadAt(text, 10 + 2 * i, 2)
  }

  method ParseSlcanMsg(text: seq<Byte>) returns (r: Parsed<Frame>)
    requires |text| >= 10
    ensures r == ParseText(text)
  {
    r := AssembleLoop(ReadAt(text, 1, 8), ReadAt(text, 9, 1), DataReader(text));
  }

  method AssembleLoop(id: Option<int>, dlc: Option<int>, byteAt: nat -> Option<int>) returns (r: Parsed<Frame>)
    ensures r == Assemble(id, dlc, byteAt)
  {
    if id.None? || dlc.None? {
      return Throws;
    }
    var f := UnpackId(id.value % 0x1_0000_0000, dlc.value % 256, NO_DATA);
    var n := dlc.value % 0x1_0000_0000;
    var i := 0;
    while i < n
      invariant 0 <= i <= n
      invariant ParseData(byteAt, 0, NO_DATA, n) == ParseData(byteAt, i, f.data, n)
      invariant f == UnpackId(id.value % 0x1_0000_0000, dlc.value % 256, f.data)
    {
      var v := byteAt(i);
      if v.None? {
        return Throws;
      }
      if i >= 8 {
        return Overrun;
      }
      f := f.(data := f.data[i := v.value % 256]);
      i := i + 1;
    }
    r := Parsed(f);
  }

  lemma StoiReadsText(n: nat, width: nat)
    requires n < 0x8000_0000
    ensures Stoi(Text(n, 16, width, false), 16) == Some(n)
  {
    StrtolReadsText(n, 16, width, false);
  }

  lemma {:induction false} DataTextAt(data: Data, n: nat, i: nat)
    requires n <= 8
    ensures |DataText(data, n)| == 2 * n
    ensures i < n ==> DataText(data, n)[2 * i..2 * i + 2] == HexByte(data[i], false)
  {
    if n > 0 {
      DataTextAt(data, n - 1, i);
      if i < n - 1 {
        assert DataText(data, n)[2 * i..2 * i + 2] == DataText(data, n - 1)[2 * i..2 * i + 2];
      }
    }
  }

  /** Where the parts of a frame's text are. */
  lemma TextParts(f: ValidFrame)
    ensures var t := FrameText(f);
      && |t| == 11 + 2 * f.dlc
      && Substr(t, 1, 8) == Text(PackId(f), 16, 8, false)
      && Substr(t, 9, 1) == Text(f.dlc, 16, 1, false)
      && forall i :: 0 <= i < f.dlc ==> Substr(t, 10 + 2 * i, 2) == HexByte(f.data[i], false)
  {
    TextSlices(f);
    hide Text, PackId, DataText, HexByte, FrameText;
    var t := FrameText(f);
    forall i | 0 <= i < f.dlc
      ensures Substr(t, 10 + 2 * i, 2) == HexByte(f.data[i], false)
    {
      DataTextAt(f.data, f.dlc, i);
      assert t[10 + 2 * i..12 + 2 * i] == t[10..10 + 2 * f.dlc][2 * i..2 * i + 2];
    }
  }

  lemma TextSlices(f: ValidFrame)
    ensures var t := FrameText(f);
      && |t| == 11 + 2 * f.dlc && t[0] == TEE && t[10 + 2 * f.dlc] == CR
      && t[1..9] == Text(PackId(f), 16, 8, false) && t[9..10] == Text(f.dlc, 16, 1, false)
      && t[10..10 + 2 * f.dlc] == DataText(f.data, f.dlc)
  {
    var idText, dlcText, body := Text(PackId(f), 16, 8, false), Text(f.dlc, 16, 1, false), DataText(f.data, f.dlc);
    UnpackPacked(f, 0, f.dlc, f.data);
    SixteenToTheEighth();
    TextWidth(PackId(f), 16, 8, false);
    TextWidth(f.dlc, 16, 1, false);
    DataTextAt(f.data, f.dlc, 0);
    hide Text, Power, PackId, DataText;
    PartsOfText(idText, dlcText, body);
  }

  /** Main result: the text of a frame is a T, the identifier in eight digits of base 16, the length in one, each
      byte in two, and a CR. */
  lemma TextDenotesFrame(f: ValidFrame)
    ensures var t := FrameText(f);
      && |t| == 11 + 2 * f.dlc && t[0] == 84 && t[10 + 2 * f.dlc] == 13
      && AllDigits(t[1..9], 16) && DigitsValue(t[1..9], 16) == PackId(f)
      && AllDigits(t[9..10], 16) && DigitsValue(t[9..10], 16) == f.dlc
      && AllDigits(t[10..10 + 2 * f.dlc], 16)
      && forall i :: 0 <= i < f.dlc ==> DigitsValue(t[10 + 2 * i..12 + 2 * i], 16) == f.data[i]
  {
    hide Text, PackId, DataText, HexByte, AllDigits, DigitsValue, FrameText;
    TextSlices(f);
    TextDenotes(PackId(f), 16, 8, false);
    TextDenotes(f.dlc, 16, 1, false);
    DataTextDenotes(f.data, f.dlc);
    var t := FrameText(f);
    forall i | 0 <= i < f.dlc
      ensures DigitsValue(t[10 + 2 * i..12 + 2 * i], 16) == f.data[i]
    {
      DataTextAt(f.data, f.dlc, i);
      assert t[10 + 2 * i..12 + 2 * i] == t[10..10 + 2 * f.dlc][2 * i..2 * i + 2];
      HexDenotes(f.data[i]);
    }
  }

  lemma HexDenotes(b: Byte)
    ensures AllDigits(HexByte(b, false), 16) && DigitsValue(HexByte(b, false), 16) == b
  {
    TextDenotes(b, 16, 2, false);
    TwoDigits(b, false);
  }

  lemma DigitsJoin(a: seq<Byte>, b: seq<Byte>)
    requires AllDigits(a, 16) && AllDigits(b, 16)
    ensures AllDigits(a + b, 16)
  {
  }

  lemma {:induction false} DataTextDenotes(data: Data, n: nat)
    requires n <= 8
    ensures AllDigits(DataText(data, n), 16)
  {
    hide AllDigits, HexByte;
    if n > 0 {
      DataTextDenotes(data, n - 1);
      HexDenotes(data[n - 1]);
      DigitsJoin(DataText(data, n - 1), HexByte(data[n - 1], false));
    } else {
      TextDenotes(0, 16, 0, false);
      NoDigits();
    }
  }

  lemma NoDigits()
    ensures AllDigits([], 16)
  {
  }

  lemma PartsOfText(id: seq<Byte>, dlc: seq<Byte>, body: seq<Byte>)
    requires |id| == 8 && |dlc| == 1
    ensures var t := [TEE] + id + dlc + body + [CR];
      |t| == 11 + |body| && t[1..9] == id && t[9..10] == dlc && t[10..10 + |body|] == body
  {
  }

  lemma SixteenToTheEighth()
    ensures Power(16, 8) == 0x1_0000_0000 && Power(16, 1) == 16
  {
    assert Power(16, 2) == 16 * Power(16, 1);
    assert Power(16, 4) == 16 * (16 * Power(16, 2));
    assert Power(16, 6) == 16 * (16 * Power(16, 4));
    assert Power(16, 8) == 16 * (16 * Power(16, 6));
  }

  lemma {:induction false} ParsesData(byteAt: nat -> Option<int>, data: Data, n: nat, i: nat)
    requires i <= n <= 8 && forall j :: 0 <= j < n ==> byteAt(j) == Some(data[j])
    ensures ParseData(byteAt, i, Cut(data, i), n) == Parsed(Cut(data, n))
    decreases n - i
  {
    hide Cut;
    if i < n {
      ParsesData(byteAt, data, n, i + 1);
      CutNext(data, i);
    }
  }

  lemma CutNext(data: Data, i: nat)
    requires i < 8
    ensures Cut(data, i)[i := data[i] % 256] == Cut(data, i + 1)
  {
  }

  lemma AssemblesFrame(id: nat, dlc: Byte, data: Data, byteAt: nat -> Option<int>)
    requires dlc <= 8 && id < 0x1_0000_0000 && forall j :: 0 <= j < dlc ==> byteAt(j) == Some(data[j])
    ensures Assemble(Some(id), Some(dlc), byteAt) == Parsed(UnpackId(id, dlc, Cut(data, dlc)))
  {
    assert id % 0x1_0000_0000 == id && dlc % 256 == dlc && dlc % 0x1_0000_0000 == dlc;
    ParsesData(byteAt, data, dlc, 0);
    assert Cut(data, 0) == NO_DATA;
    assert Assemble(Some(id), Some(dlc), byteAt) == WithHeader(id, dlc, Parsed(Cut(data, dlc)));
  }

  lemma UnpackCanonical(f: ValidFrame)
    ensures PackId(f) < 0x2000_0000
    ensures UnpackId(PackId(f), f.dlc, Canonical(f).data) == Canonical(f).(kind := f.kind % 32)
  {
    UnpackPacked(f, 0, f.dlc, Canonical(f).data);
    assert PackId(f) + 0 * 0x2000_0000 == PackId(f);
  }

  lemma ReadsNumber(t: seq<Byte>, from: nat, n: nat, number: nat, width: nat)
    requires from <= |t| && number < 0x8000_0000 && Substr(t, from, n) == Text(number, 16, width, false)
    ensures ReadAt(t, from, n) == Some(number)
  {
    StoiReadsText(number, width);
  }

  lemma TextReadings(f: ValidFrame, t: seq<Byte>)
    requires t == FrameText(f)
    ensures |t| == 11 + 2 * f.dlc
    ensures ReadAt(t, 1, 8) == Some(PackId(f)) && ReadAt(t, 9, 1) == Some(f.dlc)
    ensures forall i :: 0 <= i < f.dlc ==> ReadAt(t, 10 + 2 * i, 2) == Some(f.data[i])
  {
    TextParts(f);
    UnpackCanonical(f);
    ReadsNumber(t, 1, 8, PackId(f), 8);
    ReadsNumber(t, 9, 1, f.dlc, 1);
    forall i | 0 <= i < f.dlc
      ensures ReadAt(t, 10 + 2 * i, 2) == Some(f.data[i])
    {
      ReadsNumber(t, 10 + 2 * i, 2, f.data[i], 2);
    }
  }

  lemma ParsesReadings(t: seq<Byte>, id: nat, dlc: Byte, data: Data)
    requires |t| >= 10 && dlc <= 8 && id < 0x1_0000_0000
    requires ReadAt(t, 1, 8) == Some(id) && ReadAt(t, 9, 1) == Some(dlc)
    requires forall i :: 0 <= i < dlc ==> ReadAt(t, 10 + 2 * i, 2) == Some(data[i])
    ensures ParseText(t) == Parsed(UnpackId(id, dlc, Cut(data, dlc)))
  {
    hide Numbers.Stoi;
    assert ParseText(t) == Assemble(Some(id), Some(dlc), DataReader(t));
    forall i | 0 <= i < dlc
      ensures DataReader(t)(i) == Some(data[i])
    {
    }
    AssemblesFrame(id, dlc, data, DataReader(t));
  }

  /** Main result: a frame's text parses back to the frame, its type cut to five bits and the bytes
      behind its length zero. */
  lemma TextRoundTrip(f: ValidFrame)
    ensures |FrameText(f)| == 11 + 2 * f.dlc
    ensures ParseText(FrameText(f)) == Parsed(Canonical(f).(kind := f.kind % 32))
  {
    var t := FrameText(f);
    TextReadings(f, t);
    UnpackCanonical(f);
    ParsesReadings(t, PackId(f), f.dlc, f.data);
  }

  // ---------------------------------------------------------------- the byte stream

  /** What a response makes the driver do: a bare CR acknowledges, a T of ten characters or more is a
      frame, anything else is ignored. A text that does not parse ends the program. */
  datatype Event = Ack | Received(frame: Frame)

  predicate IsEnd(b: Byte) { b == CR || b == BELL }

  datatype Handling = Does(events: seq<Event>) | Stops

  function Handle(response: seq<Byte>): Handling
    requires response != []
  {
    if response[0] == CR then Does([Ack])
    else if response[0] == TEE && |response| >= 10 then
      var p := ParseText(response);
      if p.Parsed? then Does([Received(p.value)]) else Stops
    else Does([])
  }

  /** What is done with a response that is no frame: 13 is CR and 84 is T. */
  lemma OtherResponses(response: seq<Byte>)
    requires response != []
    ensures response[0] == 13 ==> Handle(response) == Does([Ack])
    ensures response[0] != 13 && response[0] != 84 ==> Handle(response) == Does([])
    ensures response[0] == 84 && |response| < 10 ==> Handle(response) == Does([])
  {
  }

  /** The receive buffer, what has been done so far, and whether an exception ended it. */
  datatype Scan = Scan(buf: seq<Byte>, events: seq<Event>, stopped: bool)

  function Feed(s: Scan, b: Byte): Scan {
    if s.stopped then s
    else if !IsEnd(b) then s.(buf := s.buf + [b])
    else
      var h := Handle(s.buf + [b]);
      if h.Stops? then Scan(s.buf + [b], s.events, true) else Scan([], s.events + h.events, false)
  }

  function FeedAll(s: Scan, bytes: seq<Byte>): Scan
    decreases |bytes|
  {
    if bytes == [] then s else FeedAll(Feed(s, bytes[0]), bytes[1..])
  }

  class Port {
    var recvBuf: seq<Byte>
    var events: seq<Event>
    var stopped: bool

    constructor ()
      ensures State() == Scan([], [], false)
    {
      recvBuf, events, stopped := [], [], false;
    }

    ghost function State(): Scan
      reads this
    {
      Scan(recvBuf, events, stopped)
    }

    /** parse_response; the calls it makes are recorded in order. */
    method ParseResponse(response: seq<Byte>)
      requires response != []
      modifies this`events, this`stopped
      ensures var h := Handle(response);
        events == old(events) + (if h.Does? then h.events else []) && stopped == (old(stopped) || h.Stops?)
    {
      if response[0] == CR {
        events := events + [Ack];
      } else if response[0] == TEE {
        if |response| >= 10 {
          var p := ParseSlcanMsg(response);
          if p.Parsed? {
            events := events + [Received(p.value)];
          } else {
            stopped := true;
          }
        }
      }
    }

    /** recv_data for one read of at most 99 bytes. */
    method RecvData(chunk: seq<Byte>)
      requires 1 <= |chunk| < 100 && !stopped
      modifies this
      ensures State() == FeedAll(old(State()), chunk)
    {
      var i := 0;
      while i < |chunk| && !stopped
        invariant 0 <= i <= |chunk|
        invariant FeedAll(State(), chunk[i..]) == FeedAll(old(State()), chunk)
      {
        ghost var before := State();
        recvBuf := recvBuf + [chunk[i]];
        if chunk[i] == CR || chunk[i] == BELL {
          ParseResponse(recvBuf);
          if !stopped {
            recvBuf := [];
          }
        }
        assert State() == Feed(before, chunk[i]);
        assert chunk[i..][1..] == chunk[i + 1..];
        i := i + 1;
      }
      if stopped {
        StoppedStays(State(), chunk[i..]);
      }
    }

    /** Any number of reads. Main result: wherever they cut the stream, the port ends as if it had been fed
        the stream byte by byte, and its buffer is the part of it behind the last terminator. */
    method RecvChunks(chunks: seq<seq<Byte>>)
      requires !stopped && forall i :: 0 <= i < |chunks| ==> 1 <= |chunks[i]| < 100
      modifies this
      ensures State() == FeedAll(old(State()), Joined(chunks))
      ensures !stopped && NoEnd(old(recvBuf)) ==> IsTail(old(recvBuf), Joined(chunks), recvBuf)
    {
      hide Feed;
      ghost var start := State();
      var i := 0;
      while i < |chunks| && !stopped
        invariant 0 <= i <= |chunks|
        invariant State() == FeedAll(start, Joined(chunks[..i]))
      {
        CutsDoNotMatter(start, Joined(chunks[..i]), chunks[i]);
        JoinedNext(chunks, i);
        RecvData(chunks[i]);
        i := i + 1;
      }
      ghost var rest := JoinedSplit(chunks, i);
      CutsDoNotMatter(start, Joined(chunks[..i]), rest);
      if stopped {
        StoppedStays(State(), rest);
      } else {
        assert chunks[..i] == chunks;
        if NoEnd(start.buf) {
          ghost var cut := BufferIsTail(start, Joined(chunks));
        }
      }
    }

    /** Reads from an adapter that sends items. Main result: whatever has arrived, and wherever it was cut,
        the port has delivered the items that are complete, in order; when all has arrived, all of them,
        and its buffer is empty. */
    method RecvItems(chunks: seq<seq<Byte>>, ghost items: seq<Item>)
      requires State() == Scan([], [], false) && forall i :: 0 <= i < |chunks| ==> 1 <= |chunks[i]| < 100
      requires Joined(chunks) <= RenderAll(items)
      modifies this
      ensures !stopped && events <= AllEvents(items) && IsTail([], Joined(chunks), recvBuf)
      ensures Joined(chunks) == RenderAll(items) ==> events == AllEvents(items) && recvBuf == []
    {
      hide FeedAll, Feed, RenderAll, AllEvents, Joined, IsTail;
      PartOfItems(items, Joined(chunks));
      RecvChunks(chunks);
    }
  }

  /** What has been read of a stream and not handled: all of it behind the last terminator. */
  ghost predicate IsTail(before: seq<Byte>, bytes: seq<Byte>, buf: seq<Byte>) {
    exists cut :: 0 <= cut <= |bytes| && (cut > 0 ==> IsEnd(bytes[cut - 1]))
      && NoEnd(bytes[cut..]) && buf == (if cut == 0 then before else []) + bytes[cut..]
  }

  /** What has been done when a part of some items has arrived. */
  lemma PartOfItems(items: seq<Item>, arrived: seq<Byte>)
    requires arrived <= RenderAll(items)
    ensures var s := FeedAll(Scan([], [], false), arrived);
      && !s.stopped && s.events <= AllEvents(items)
      && (arrived == RenderAll(items) ==> s.events == AllEvents(items) && s.buf == [])
  {
    hide FeedAll, Feed, RenderAll, AllEvents;
    var start := Scan([], [], false);
    var rest := RenderAll(items)[|arrived|..];
    assert RenderAll(items) == arrived + rest;
    CutsDoNotMatter(start, arrived, rest);
    StreamRoundTrip(start, items);
    EventsGrow(FeedAll(start, arrived), rest);
    assert [] + AllEvents(items) == AllEvents(items);
  }

  /** Nothing that was done is undone, and an exception is final. */
  lemma {:induction false} EventsGrow(s: Scan, bytes: seq<Byte>)
    ensures s.events <= FeedAll(s, bytes).events && (s.stopped ==> FeedAll(s, bytes).stopped)
    decreases |bytes|
  {
    if bytes != [] {
      EventsGrow(Feed(s, bytes[0]), bytes[1..]);
    }
  }

  function Joined(chunks: seq<seq<Byte>>): seq<Byte> {
    if chunks == [] then [] else Joined(chunks[..|chunks| - 1]) + chunks[|chunks| - 1]
  }

  lemma JoinedNext(chunks: seq<seq<Byte>>, i: nat)
    requires i < |chunks|
    ensures Joined(chunks[..i + 1]) == Joined(chunks[..i]) + chunks[i]
  {
    assert chunks[..i + 1][..i] == chunks[..i];
  }

  lemma {:induction false} JoinedSplit(chunks: seq<seq<Byte>>, i: nat) returns (rest: seq<Byte>)
    requires i <= |chunks|
    ensures Joined(chunks) == Joined(chunks[..i]) + rest
    decreases |chunks| - i
  {
    if i == |chunks| {
      rest := [];
      assert chunks[..i] == chunks;
    } else {
      var more := JoinedSplit(chunks, i + 1);
      JoinedNext(chunks, i);
      rest := chunks[i] + more;
    }
  }

  lemma {:induction false} StoppedStays(s: Scan, bytes: seq<Byte>)
    requires s.stopped
    ensures FeedAll(s, bytes) == s
  {
    if bytes != [] {
      StoppedStays(s, bytes[1..]);
    }
  }

  /** Main result: it does not matter where the reads cut the stream. */
  lemma {:induction false} CutsDoNotMatter(s: Scan, a: seq<Byte>, b: seq<Byte>)
    ensures FeedAll(s, a + b) == FeedAll(FeedAll(s, a), b)
    decreases |a|
  {
    if a == [] {
      assert a + b == b;
    } else {
      assert (a + b)[1..] == a[1..] + b;
      CutsDoNotMatter(Feed(s, a[0]), a[1..], b);
    }
  }

  ghost predicate NoEnd(bytes: seq<Byte>) { forall i :: 0 <= i < |bytes| ==> !IsEnd(bytes[i]) }

  /** The buffer is always the part of the stream behind the last terminator. */
  lemma {:induction false} BufferIsTail(s: Scan, bytes: seq<Byte>) returns (cut: nat)
    requires !FeedAll(s, bytes).stopped && NoEnd(s.buf)
    ensures cut <= |bytes| && (cut > 0 ==> IsEnd(bytes[cut - 1])) && NoEnd(bytes[cut..])
    ensures NoEnd(FeedAll(s, bytes).buf)
    ensures FeedAll(s, bytes).buf == (if cut == 0 then s.buf else []) + bytes[cut..]
    decreases |bytes|
  {
    if bytes == [] {
      cut := 0;
      assert s.buf + bytes == s.buf;
    } else {
      if s.stopped {
        StoppedStays(s, bytes);
      }
      var next := Feed(s, bytes[0]);
      if next.stopped {
        StoppedStays(next, bytes[1..]);
      }
      var rest := BufferIsTail(next, bytes[1..]);
      cut := if rest == 0 && !IsEnd(bytes[0]) then 0 else rest + 1;
      assert bytes == [bytes[0]] + bytes[1..];
      if cut == 0 {
        assert (s.buf + [bytes[0]]) + bytes[1..] == s.buf + bytes[cut..];
      }
    }
  }

  /** What the adapter may send. */
  datatype Item = FrameItem(frame: ValidFrame) | Okay | Failed

  function Render(i: Item): seq<Byte> {
    match i
    case FrameItem(f) => FrameText(f)
    case Okay => [CR]
    case Failed => [BELL]
  }

  function RenderAll(items: seq<Item>): seq<Byte> {
    if items == [] then [] else Render(items[0]) + RenderAll(items[1..])
  }

  function EventsOf(i: Item): seq<Event> {
    match i
    case FrameItem(f) => [Received(Canonical(f).(kind := f.kind % 32))]
    case Okay => [Ack]
    case Failed => []
  }

  function AllEvents(items: seq<Item>): seq<Event> {
    if items == [] then [] else EventsOf(items[0]) + AllEvents(items[1..])
  }

  lemma {:induction false} FeedPlain(s: Scan, bytes: seq<Byte>)
    requires !s.stopped && NoEnd(bytes)
    ensures FeedAll(s, bytes) == s.(buf := s.buf + bytes)
    decreases |bytes|
  {
    if bytes == [] {
      assert s.buf + bytes == s.buf;
    } else {
      assert !IsEnd(bytes[0]);
      FeedPlain(Feed(s, bytes[0]), bytes[1..]);
      assert (s.buf + [bytes[0]]) + bytes[1..] == s.buf + bytes;
    }
  }

  lemma TextHasNoEnd(n: nat, width: nat)
    ensures NoEnd(Text(n, 16, width, false))
  {
    var t := Text(n, 16, width, false);
    TextDenotes(n, 16, width, false);
    forall i | 0 <= i < |t|
      ensures !IsEnd(t[i])
    {
      assert DigitOf(t[i]) < 16;
    }
  }

  lemma {:induction false} DataTextHasNoEnd(data: Data, n: nat)
    requires n <= 8
    ensures NoEnd(DataText(data, n))
  {
    if n > 0 {
      DataTextHasNoEnd(data, n - 1);
      TextHasNoEnd(data[n - 1], 2);
    }
  }

  /** From an empty buffer, a text with one terminator at its end is handled as one response. */
  lemma FeedResponse(s: Scan, body: seq<Byte>, end: Byte)
    requires !s.stopped && s.buf == [] && NoEnd(body) && IsEnd(end)
    ensures var h := Handle(body + [end]); h.Does? ==> FeedAll(s, body + [end]) == Scan([], s.events + h.events, false)
  {
    CutsDoNotMatter(s, body, [end]);
    FeedPlain(s, body);
    assert s.buf + body == body;
    var mid := FeedAll(s, body);
    assert FeedAll(mid, [end]) == Feed(mid, end);
  }

  lemma FrameTextIsOneResponse(f: ValidFrame) returns (body: seq<Byte>)
    ensures FrameText(f) == body + [CR] && NoEnd(body)
    ensures Handle(body + [CR]) == Does([Received(Canonical(f).(kind := f.kind % 32))])
  {
    hide CanId.PackId, Numbers.Text, ParseText;
    TextHasNoEnd(PackId(f), 8);
    TextHasNoEnd(f.dlc, 1);
    DataTextHasNoEnd(f.data, f.dlc);
    body := [TEE] + Text(PackId(f), 16, 8, false) + Text(f.dlc, 16, 1, false) + DataText(f.data, f.dlc);
    assert body[0] == TEE && (body + [CR])[0] == TEE;
    TextRoundTrip(f);
  }

  /** One item, read from an empty buffer, does what it should and leaves the buffer empty. */
  lemma FeedItem(s: Scan, item: Item)
    requires !s.stopped && s.buf == []
    ensures FeedAll(s, Render(item)) == Scan([], s.events + EventsOf(item), false)
  {
    match item
    case FrameItem(f) =>
      var body := FrameTextIsOneResponse(f);
      FeedResponse(s, body, CR);
    case Okay =>
      FeedResponse(s, [], CR);
      assert [] + [CR] == [CR];
    case Failed =>
      FeedResponse(s, [], BELL);
      assert [] + [BELL] == [BELL];
  }

  lemma FirstItem(items: seq<Item>)
    requires items != []
    ensures RenderAll(items) == Render(items[0]) + RenderAll(items[1..])
    ensures AllEvents(items) == EventsOf(items[0]) + AllEvents(items[1..])
  {
    hide Render, EventsOf;
  }

  lemma NoItems(s: Scan)
    ensures FeedAll(s, RenderAll([])) == s && AllEvents([]) == []
  {
  }

  /** Main result: any list of frames, acknowledgements and failures, written one after the other, is
      delivered item by item and in order, and leaves the buffer empty. */
  lemma {:induction false} StreamRoundTrip(s: Scan, items: seq<Item>)
    requires !s.stopped && s.buf == []
    ensures FeedAll(s, RenderAll(items)) == Scan([], s.events + AllEvents(items), false)
    decreases |items|
  {
    hide FeedAll, Feed, Render, EventsOf, RenderAll, AllEvents;
    if items == [] {
      NoItems(s);
      assert s.events + [] == s.events;
    } else {
      FirstItem(items);
      FeedItem(s, items[0]);
      CutsDoNotMatter(s, Render(items[0]), RenderAll(items[1..]));
      StreamRoundTrip(Scan([], s.events + EventsOf(items[0]), false), items[1..]);
      assert (s.events + EventsOf(items[0])) + AllEvents(items[1..]) == s.events + AllEvents(items);
    }
  }
}
