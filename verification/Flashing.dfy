/**
The upload against a bootloader that announces itself once, asks for a page's bytes eight at a time and
reports when the page is written. The bootloader is what the uploader's loop expects of the node.
*/
module Flashing {
  import opened Bytes
  import opened Options
  import opened Frames
  import opened Upload
  import opened IntelHex
  import opened FirmwareImage

  /** fw and size as the loader returned them; a page has so many bytes. */
  datatype Setup = Setup(fw: seq<Byte>, size: nat, node: Bits9, pageSize: nat) {
    ghost predicate Valid() { size > 0 && pageSize > 0 && pageSize % 8 == 0 && |fw| <= SIZE }

    /** The pages that so many bytes take. */
    function Count(bytes: nat): nat
      requires pageSize > 0
    {
      (bytes + pageSize - 1) / pageSize
    }

    function Pages(): nat
      requires pageSize > 0
    {
      Count(size)
    }
  }

  datatype Boot = Boot(flash: map<nat, seq<Byte>>, page: nat, buffer: seq<Byte>, reply: Option<Byte>)

  /** What the bootloader does with a command. */
  function Answer(b: Boot, c: Command, pageSize: nat): Boot {
    match c
    case Upgrade => b.(reply := Some(BOOTLOADER_TURNED_ON))
    case StartPage(page) => b.(page := page, buffer := [], reply := Some(PAGE_FILL_NEXT))
    case Fill(bytes) =>
      var buffer := b.buffer + bytes;
      if |buffer| < pageSize then b.(buffer := buffer, reply := Some(PAGE_FILL_NEXT))
      else b.(flash := b.flash[b.page := buffer], buffer := [], reply := Some(PAGE_WRITED))
    case QuitBootloader => b.(reply := None)
  }

  /** A frame that carries a command; what its other bytes are makes no difference. */
  function FrameOf(c: Command, node: Bits9): Frame
    requires Upload.Sendable(c)
  {
    PayloadFits(c);
    Frame(HIGH, Kind(c), 0, node, 0, |Payload(c)|, Payload(c) + NO_DATA[|Payload(c)|..])
  }

  lemma PayloadFits(c: Command)
    requires Upload.Sendable(c)
    ensures |Payload(c)| <= 8
  {
  }

  /** The bootloader reads the frame. */
  function Hear(b: Boot, f: Frame, pageSize: nat): Boot {
    match CommandOf(f)
    case Some(c) => Answer(b, c, pageSize)
    case None => b
  }

  /** Every frame that carries a command is heard as that command. */
  lemma HeardAsCommand(b: Boot, f: Frame, c: Command, n: nat, source: Bits9, node: Bits9, pageSize: nat)
    requires Carries(f, c, n, source, node) && Upload.Sendable(c)
    ensures Hear(b, f, pageSize) == Answer(b, c, pageSize) == Hear(b, FrameOf(c, node), pageSize)
  {
    CarriedIsRead(f, c, n, source, node);
    var g := FrameOf(c, node);
    assert g.data[..g.dlc] == Payload(c);
    CarriedIsRead(g, c, 0, 0, node);
  }

  lemma HeardAnswer(b: Boot, c: Command, node: Bits9, pageSize: nat)
    requires Upload.Sendable(c)
    ensures Hear(b, FrameOf(c, node), pageSize) == Answer(b, c, pageSize)
  {
    var g := FrameOf(c, node);
    assert g.data[..g.dlc] == Payload(c);
    CarriedIsRead(g, c, 0, 0, node);
  }

  /** The bootloader and the last of some commands that were sent. */
  function HearLast(b: Boot, sent: seq<Command>, node: Bits9, pageSize: nat): Boot
    requires sent != []
  {
    var c := sent[|sent| - 1];
    if Upload.Sendable(c) then Hear(b, FrameOf(c, node), pageSize) else b
  }

  lemma HearLastAnswers(b: Boot, sent: seq<Command>, node: Bits9, pageSize: nat)
    requires sent != [] && Upload.Sendable(sent[|sent| - 1])
    ensures HearLast(b, sent, node, pageSize) == Answer(b, sent[|sent| - 1], pageSize)
  {
    HeardAnswer(b, sent[|sent| - 1], node, pageSize);
  }

  /** Both ends, with the frames that the bootloader has sent. */
  datatype Talk = Talk(u: Uploader, b: Boot, heard: seq<Frame>)

  function Message(node: Bits9, kind: Byte): Frame { Frame(LOW, kind, 0, 0, node, 0, NO_DATA) }

  function Meet(s: Setup, skipUpgrade: bool): Talk {
    var u := Begin(skipUpgrade);
    Talk(u, HearLast(Boot(map[], 0, [], None), u.sent, s.node, s.pageSize), [])
  }

  /** One frame from the bootloader, and its answer to what the uploader sends back. */
  function Round(s: Setup, t: Talk): Talk {
    if t.b.reply.None? then t
    else
      var f := Message(s.node, t.b.reply.value);
      var u := React(t.u, s.fw, s.size, s.node, f);
      var b := if |u.sent| > |t.u.sent| then HearLast(t.b, u.sent, s.node, s.pageSize) else t.b.(reply := None);
      Talk(u, b, t.heard + [f])
  }

  function After(s: Setup, t: Talk, n: nat): Talk
    decreases n
  {
    if n == 0 then t else After(s, Round(s, t), n - 1)
  }

  /** The address of a page. */
  function Start(s: Setup, p: nat): nat { p * s.pageSize }

  /** From a page on, the uploader is so many bytes ahead of the pages' addresses. */
  datatype Shift = Shift(page: nat, ahead: nat)

  const NONE := Shift(0, 0)

  /** Where in the firmware the bytes of a page come from. */
  function Origin(s: Setup, h: Shift, p: nat): nat { Start(s, p) + if p >= h.page then h.ahead else 0 }

  /** The first pages of the firmware, each at its number. */
  ghost predicate Holds(s: Setup, h: Shift, flash: map<nat, seq<Byte>>, pages: nat) {
    && (forall p: nat :: p in flash <==> p < pages)
    && forall p: nat :: p in flash ==> PageOf(s, h, p, flash[p])
  }

  ghost predicate PageOf(s: Setup, h: Shift, p: nat, bytes: seq<Byte>) {
    Origin(s, h, p) + s.pageSize <= |s.fw| && bytes == s.fw[Origin(s, h, p)..Origin(s, h, p) + s.pageSize]
  }

  /** The bootloader waits for bytes of page p from its offset on. */
  ghost predicate Filling(s: Setup, h: Shift, t: Talk, p: nat, offset: nat) {
    var start := Origin(s, h, p);
    && offset < s.pageSize && offset % 8 == 0 && start + offset <= |s.fw|
    && t.u.status == Listening && t.u.page == t.b.page == p && t.u.index == start + offset
    && t.b.buffer == s.fw[start..start + offset] && t.b.reply == Some(PAGE_FILL_NEXT) && Holds(s, h, t.b.flash, p)
  }

  /** Page p has just been written. */
  ghost predicate Reported(s: Setup, h: Shift, t: Talk, p: nat) {
    && t.u.status == Listening && t.u.page == p && t.u.index == Origin(s, h, p) + s.pageSize
    && t.b.reply == Some(PAGE_WRITED) && Holds(s, h, t.b.flash, p + 1)
  }

  /** The upload is over and has written exactly so many pages. */
  ghost predicate Flashed(s: Setup, h: Shift, t: Talk, pages: nat) {
    t.u.status == Done && t.b.reply.None? && Holds(s, h, t.b.flash, pages)
  }

  lemma HoldsNext(s: Setup, h: Shift, flash: map<nat, seq<Byte>>, p: nat, bytes: seq<Byte>)
    requires Holds(s, h, flash, p) && PageOf(s, h, p, bytes)
    ensures Holds(s, h, flash[p := bytes], p + 1)
  {
    hide PageOf;
  }

  lemma FillStep(s: Setup, h: Shift, t: Talk, p: nat, offset: nat)
    requires s.Valid() && Filling(s, h, t, p, offset)
    ensures offset + 8 <= s.pageSize
    ensures var t', next := Round(s, t), Origin(s, h, p) + offset + 8;
      if next > |s.fw| then t'.u.status == Overrun
      else
        && t'.u.status == Listening && t'.u.page == p && t'.u.index == next
        && t'.b == Answer(t.b, Fill(s.fw[next - 8..next]), s.pageSize)
  {
    hide Holds, Origin, Answer, HearLast;
    var u := React(t.u, s.fw, s.size, s.node, Message(s.node, PAGE_FILL_NEXT));
    if |u.sent| > |t.u.sent| {
      HearLastAnswers(t.b, u.sent, s.node, s.pageSize);
    }
  }

  lemma FillRound(s: Setup, h: Shift, t: Talk, p: nat, offset: nat)
    requires s.Valid() && Filling(s, h, t, p, offset)
    ensures var t' := Round(s, t);
      if Origin(s, h, p) + offset + 8 > |s.fw| then t'.u.status == Overrun
      else if offset + 8 < s.pageSize then Filling(s, h, t', p, offset + 8)
      else Reported(s, h, t', p)
  {
    hide Holds, Origin, Round;
    FillStep(s, h, t, p, offset);
    var start := Origin(s, h, p);
    if start + offset + 8 <= |s.fw| {
      assert s.fw[start..start + offset] + s.fw[start + offset..start + offset + 8]
        == s.fw[start..start + (offset + 8)];
      if offset + 8 == s.pageSize {
        HoldsNext(s, h, t.b.flash, p, s.fw[start..start + s.pageSize]);
      }
    }
  }

  /** From an offset of a page to its end: it is written, or the buffer ends within it. */
  lemma {:induction false} FillPage(s: Setup, h: Shift, t: Talk, p: nat, offset: nat) returns (n: nat)
    requires s.Valid() && Filling(s, h, t, p, offset)
    ensures
      if Origin(s, h, p) + s.pageSize <= |s.fw| then Reported(s, h, After(s, t, n), p)
      else After(s, t, n).u.status == Overrun
    decreases s.pageSize - offset
  {
    hide Filling, Reported, Round, Origin;
    FillStep(s, h, t, p, offset);
    FillRound(s, h, t, p, offset);
    OneRound(s, t);
    if Origin(s, h, p) + offset + 8 > |s.fw| || offset + 8 == s.pageSize {
      n := 1;
    } else {
      n := FillPage(s, h, Round(s, t), p, offset + 8);
      n := n + 1;
    }
  }

  lemma OneRound(s: Setup, t: Talk)
    ensures After(s, t, 1) == Round(s, t)
  {
    assert After(s, Round(s, t), 0) == Round(s, t);
  }

  lemma {:induction false} AfterSplit(s: Setup, t: Talk, a: nat, b: nat)
    ensures After(s, t, a + b) == After(s, After(s, t, a), b)
    decreases a
  {
    hide Round;
    if a > 0 {
      AfterSplit(s, Round(s, t), a - 1, b);
    }
  }

  /** A reported page: the uploader quits behind the firmware and otherwise starts the next page. */
  lemma ReportRound(s: Setup, h: Shift, t: Talk, p: nat)
    requires s.Valid() && Reported(s, h, t, p) && p + 1 < 0x1_0000
    requires Origin(s, h, p) + s.pageSize == Origin(s, h, p + 1)
    ensures var t' := Round(s, t);
      if Origin(s, h, p + 1) >= s.size then Flashed(s, h, t', p + 1)
      else Origin(s, h, p + 1) <= |s.fw| ==> Filling(s, h, t', p + 1, 0)
  {
    hide Holds, Origin, HearLast;
    var u := React(t.u, s.fw, s.size, s.node, Message(s.node, PAGE_WRITED));
    HearLastAnswers(t.b, u.sent, s.node, s.pageSize);
  }

  lemma StartRises(s: Setup, p: nat, q: nat)
    requires p <= q
    ensures Start(s, p) <= Start(s, q)
  {
    assert (q - p) * s.pageSize >= 0;
  }

  lemma StartNext(s: Setup, p: nat)
    ensures Start(s, p + 1) == Start(s, p) + s.pageSize && Start(s, 0) == 0
  {
  }

  lemma CountSuffices(s: Setup, bytes: nat)
    requires s.pageSize > 0
    ensures bytes <= Start(s, s.Count(bytes)) < bytes + s.pageSize
  {
    var total := bytes + s.pageSize - 1;
    assert total == s.pageSize * (total / s.pageSize) + total % s.pageSize;
  }

  lemma EnoughPages(s: Setup, bytes: nat, q: nat)
    requires s.pageSize > 0
    ensures Start(s, q) >= bytes <==> q >= s.Count(bytes)
  {
    CountSuffices(s, bytes);
    var k := s.Count(bytes);
    hide Start, Setup.Count;
    if q >= k {
      StartRises(s, k, q);
    } else {
      StartRises(s, q, k - 1);
      StartNext(s, k - 1);
    }
  }

  /** How many pages an upload writes that is ahead from a page on: that page, and as many as the bytes take
      that are left behind it. */
  function PageCount(s: Setup, h: Shift): nat
    requires s.pageSize > 0
  {
    Max(h.page + 1, s.Count(if s.size > h.ahead then s.size - h.ahead else 0))
  }

  lemma LastPage(s: Setup, h: Shift, p: nat)
    requires s.Valid() && p >= h.page
    ensures Origin(s, h, p) + s.pageSize == Origin(s, h, p + 1)
    ensures Origin(s, h, p + 1) >= s.size <==> p + 1 >= PageCount(s, h)
  {
    hide Start, Setup.Count;
    StartNext(s, p);
    EnoughPages(s, if s.size > h.ahead then s.size - h.ahead else 0, p + 1);
  }

  /** The page counter does not wrap within the buffer. */
  lemma PageIsSmall(s: Setup, p: nat)
    requires s.Valid() && Start(s, p) <= |s.fw|
    ensures p + 1 < 0x1_0000
  {
    assert p * s.pageSize >= p * 8;
  }

  /** From the beginning of a page to the end of the upload. */
  lemma {:induction false} FinishFrom(s: Setup, h: Shift, t: Talk, p: nat) returns (n: nat)
    requires s.Valid() && Filling(s, h, t, p, 0) && Origin(s, h, p) <= |s.fw| && h.page <= p < PageCount(s, h)
    ensures var t', k := After(s, t, n), PageCount(s, h);
      if Start(s, k) + h.ahead <= |s.fw| then Flashed(s, h, t', k) else t'.u.status == Overrun
    decreases PageCount(s, h) - p
  {
    hide Filling, Reported, Flashed, Round, Holds, Start, Setup.Count, PageCount;
    var k := PageCount(s, h);
    n := FillPage(s, h, t, p, 0);
    LastPage(s, h, p);
    StartRises(s, p + 1, k);
    PageIsSmall(s, p);
    if Origin(s, h, p) + s.pageSize <= |s.fw| {
      var reported := After(s, t, n);
      ReportRound(s, h, reported, p);
      OneRound(s, reported);
      AfterSplit(s, t, n, 1);
      if p + 1 < k {
        var m := FinishFrom(s, h, Round(s, reported), p + 1);
        AfterSplit(s, t, n + 1, m);
        n := n + 1 + m;
      } else {
        n := n + 1;
      }
    }
  }

  /** What the bootloader asks for first. */
  lemma MeetAsks(s: Setup, skipUpgrade: bool)
    ensures var t := Meet(s, skipUpgrade);
      && t.u == Begin(skipUpgrade)
      && t.b == Boot(map[], 0, [], Some(if skipUpgrade then PAGE_FILL_NEXT else BOOTLOADER_TURNED_ON))
  {
    hide HearLast;
    HearLastAnswers(Boot(map[], 0, [], None), Begin(skipUpgrade).sent, s.node, s.pageSize);
  }

  lemma AnnouncedAsks(s: Setup)
    ensures var t := Round(s, Meet(s, false));
      && t.u.status == Listening && t.u.page == 0 && t.u.index == 0
      && t.b == Boot(map[], 0, [], Some(PAGE_FILL_NEXT))
  {
    MeetAsks(s, false);
    hide HearLast, Meet;
    var t := Meet(s, false);
    var u := React(t.u, s.fw, s.size, s.node, Message(s.node, BOOTLOADER_TURNED_ON));
    assert u.sent[|u.sent| - 1] == StartPage(0);
    HearLastAnswers(t.b, u.sent, s.node, s.pageSize);
  }

  lemma FirstPage(s: Setup, skipUpgrade: bool)
    requires s.Valid()
    ensures var t := Meet(s, skipUpgrade);
      Filling(s, NONE, if skipUpgrade then t else Round(s, t), 0, 0) && Origin(s, NONE, 0) == 0
  {
    MeetAsks(s, skipUpgrade);
    AnnouncedAsks(s);
    hide Meet, Round;
    assert s.fw[0..0] == [];
    assert Holds(s, NONE, map[], 0);
  }

  lemma NormalCount(s: Setup)
    requires s.Valid()
    ensures PageCount(s, NONE) == s.Pages() > 0
  {
    CountSuffices(s, s.size);
    StartNext(s, 0);
  }

  /** Main result: if the pages that the firmware needs fit into the buffer, the upload ends with exactly
      these pages written, each with its bytes; otherwise it runs over the end of the buffer. */
  lemma UploadEnds(s: Setup, skipUpgrade: bool) returns (n: nat)
    requires s.Valid()
    ensures var t := After(s, Meet(s, skipUpgrade), n);
      if Start(s, s.Pages()) <= |s.fw| then Flashed(s, NONE, t, s.Pages()) else t.u.status == Overrun
  {
    hide Filling, Round, Setup.Pages, Start, Flashed, Meet, PageCount;
    var t := Meet(s, skipUpgrade);
    FirstPage(s, skipUpgrade);
    NormalCount(s);
    if skipUpgrade {
      n := FinishFrom(s, NONE, t, 0);
    } else {
      n := FinishFrom(s, NONE, Round(s, t), 0);
      n := n + 1;
    }
  }

  // ---------------------------------------------------------------- a second announcement

  /** The bootloader starts again instead of asking for more bytes, and keeps what it has written. */
  function Reannounce(s: Setup, t: Talk): Talk {
    var f := Message(s.node, BOOTLOADER_TURNED_ON);
    var u := React(t.u, s.fw, s.size, s.node, f);
    var b := Boot(t.b.flash, 0, [], None);
    Talk(u, if |u.sent| > 0 then HearLast(b, u.sent, s.node, s.pageSize) else b, t.heard + [f])
  }

  lemma RestartedPage(s: Setup, t: Talk, p: nat, offset: nat)
    requires s.Valid() && Filling(s, NONE, t, p, offset)
    ensures Filling(s, Shift(p, offset), Reannounce(s, t), p, 0)
    ensures Filling(s, NONE, Reannounce(s, t), p, 0) <==> offset == 0
  {
    hide Start, HearLast;
    var u := React(t.u, s.fw, s.size, s.node, Message(s.node, BOOTLOADER_TURNED_ON));
    assert p < 0x1_0000 by {
      PageIsSmall(s, p);
    }
    HearLastAnswers(Boot(t.b.flash, 0, [], None), u.sent, s.node, s.pageSize);
    var h := Shift(p, offset);
    assert forall q: nat :: q < p ==> Origin(s, h, q) == Origin(s, NONE, q);
    assert forall q: nat :: q in t.b.flash ==> PageOf(s, h, q, t.b.flash[q]);
    assert s.fw[Origin(s, h, p)..Origin(s, h, p)] == s.fw[Origin(s, NONE, p)..Origin(s, NONE, p)] == [];
  }

  /** Any offset of a page is reached on the way from its beginning. */
  lemma {:induction false} OffsetReached(s: Setup, h: Shift, t: Talk, p: nat, from: nat, offset: nat) returns (n: nat)
    requires s.Valid() && Filling(s, h, t, p, from)
    requires from <= offset < s.pageSize && offset % 8 == 0 && Origin(s, h, p) + offset <= |s.fw|
    ensures Filling(s, h, After(s, t, n), p, offset)
    decreases offset - from
  {
    hide Reported, Round, Origin, Holds;
    if from == offset {
      n := 0;
    } else {
      FillStep(s, h, t, p, from);
      FillRound(s, h, t, p, from);
      n := OffsetReached(s, h, Round(s, t), p, from + 8, offset);
      n := n + 1;
    }
  }

  /** Every upload comes to every offset of its first page, and each of them but the first is one at which a
      second announcement does harm. */
  lemma HarmIsPossible(s: Setup, skipUpgrade: bool, offset: nat) returns (n: nat)
    requires s.Valid() && offset < s.pageSize && offset % 8 == 0 && offset <= |s.fw|
    ensures var t := After(s, Meet(s, skipUpgrade), n);
      Filling(s, NONE, t, 0, offset) && (Filling(s, NONE, Reannounce(s, t), 0, 0) <==> offset == 0)
  {
    hide Filling, Round, Start, Meet, Reannounce;
    var t := Meet(s, skipUpgrade);
    FirstPage(s, skipUpgrade);
    if skipUpgrade {
      n := OffsetReached(s, NONE, t, 0, 0, offset);
    } else {
      n := OffsetReached(s, NONE, Round(s, t), 0, 0, offset);
      n := n + 1;
    }
    RestartedPage(s, After(s, Meet(s, skipUpgrade), n), 0, offset);
  }

  /** Main result: a second announcement in a page restarts the page but not the uploader's place in the
      firmware. At the beginning of a page, and only there, the upload goes on as if nothing had happened;
      at any other offset the page and all pages behind it get the bytes that are so much further on. */
  lemma SecondAnnouncement(s: Setup, t: Talk, p: nat, offset: nat) returns (n: nat)
    requires s.Valid() && Filling(s, NONE, t, p, offset)
    ensures Filling(s, NONE, Reannounce(s, t), p, 0) <==> offset == 0
    ensures var h := Shift(p, offset);
      var t', k := After(s, Reannounce(s, t), n), PageCount(s, h);
      if Start(s, k) + offset <= |s.fw| then Flashed(s, h, t', k) else t'.u.status == Overrun
  {
    hide Flashed, Start, Reannounce, Holds;
    RestartedPage(s, t, p, offset);
    n := FinishFrom(s, Shift(p, offset), Reannounce(s, t), p);
  }

  /** The uploader's state in a conversation is that of its run on the frames it heard. */
  lemma {:induction false} HeardExplainsUploader(s: Setup, t: Talk, start: Uploader, n: nat)
    requires t.u == Run(start, s.fw, s.size, s.node, t.heard)
    ensures var t' := After(s, t, n); t'.u == Run(start, s.fw, s.size, s.node, t'.heard)
    decreases n
  {
    hide React;
    if n > 0 {
      if t.b.reply.Some? {
        var f := Message(s.node, t.b.reply.value);
        RunSplit(start, s.fw, s.size, s.node, t.heard, [f]);
        assert Run(t.u, s.fw, s.size, s.node, [f]) == React(t.u, s.fw, s.size, s.node, f) by {
          assert [f][1..] == [];
        }
      }
      HeardExplainsUploader(s, Round(s, t), start, n - 1);
    }
  }

  /** The frames from a node's bootloader that the uploader answers. */
  predicate Relevant(node: Bits9, f: Frame) {
    f.source == node && (f.kind == BOOTLOADER_TURNED_ON || f.kind == PAGE_FILL_NEXT || f.kind == PAGE_WRITED)
  }

  function From(node: Bits9, frames: seq<Frame>): seq<Frame> {
    if frames == [] then []
    else (if Relevant(node, frames[0]) then [frames[0]] else []) + From(node, frames[1..])
  }

  /** Main result: other traffic on the bus, and frames of other types from the node, make no difference. */
  lemma {:induction false} OthersAreIgnored(u: Uploader, fw: seq<Byte>, size: nat, node: Bits9, frames: seq<Frame>)
    ensures Run(u, fw, size, node, frames) == Run(u, fw, size, node, From(node, frames))
    decreases |frames|
  {
    if frames != [] {
      OthersAreIgnored(React(u, fw, size, node, frames[0]), fw, size, node, frames[1..]);
      if Relevant(node, frames[0]) {
        assert From(node, frames)[1..] == From(node, frames[1..]);
      } else {
        assert From(node, frames) == From(node, frames[1..]);
      }
    }
  }

  /** Of a frame only its source and its type count. */
  lemma OnlySourceAndTypeCount(u: Uploader, fw: seq<Byte>, size: nat, node: Bits9, f: Frame, g: Frame)
    requires f.source == g.source && f.kind == g.kind
    ensures React(u, fw, size, node, f) == React(u, fw, size, node, g)
  {
  }

  // ---------------------------------------------------------------- from the file to the flash

  /** What the loader leaves behind the returned length is 0xff. */
  lemma {:induction false} PaddingIsBlank(m: Image, lines: seq<Line>, a: nat)
    requires m.length <= SIZE == |m.mem| && (forall b :: m.length <= b < SIZE ==> m.mem[b] == 0xff)
    requires Ending(lines) == Complete && Load(m, lines).Loaded?
    requires Load(m, lines).length <= a < SIZE
    ensures |Load(m, lines).mem| == SIZE && Load(m, lines).mem[a] == 0xff
    decreases |lines|
  {
    hide Parse;
    if lines != [] {
      var o := Apply(m, Parse(lines[0]));
      if o.Running? {
        PaddingIsBlank(o.image, lines[1..], a);
      }
    }
  }

  lemma PageBytes(s: Setup, flash: map<nat, seq<Byte>>, pages: nat, a: nat)
    requires s.pageSize > 0 && Holds(s, NONE, flash, pages) && a < Start(s, pages)
    ensures a < |s.fw| && a / s.pageSize in flash && |flash[a / s.pageSize]| == s.pageSize
    ensures flash[a / s.pageSize][a % s.pageSize] == s.fw[a]
  {
    var p, i := a / s.pageSize, a % s.pageSize;
    assert a == p * s.pageSize + i;
    if p >= pages {
      StartRises(s, pages, p);
      assert false;
    }
    assert PageOf(s, NONE, p, flash[p]);
    assert flash[p][i] == s.fw[Start(s, p) + i];
  }

  /** Main result: uploading a valid file with ascending records leaves each address of the needed pages with
      the byte that the file gives it, and 0xff where it gives none. */
  lemma FileReachesFlash(lines: seq<Line>, node: Bits9, pageSize: nat, skipUpgrade: bool) returns (n: nat)
    requires Ending(lines) == Complete
    requires var segs := Segments(lines, 0); Ascending(segs, 0) && 0 < LastEnd(segs, 0) <= SIZE
    requires pageSize > 0 && pageSize % 8 == 0
    requires var s := Setup(ImageOf(Segments(lines, 0)), LastEnd(Segments(lines, 0), 0), node, pageSize);
      Start(s, s.Pages()) <= SIZE
    ensures var segs := Segments(lines, 0);
      var s := Setup(ImageOf(segs), LastEnd(segs, 0), node, pageSize);
      var t := After(s, Meet(s, skipUpgrade), n);
      && Load(BLANK, lines) == Loaded(s.fw, s.size)
      && t.u.status == Done && t.u == Run(Begin(skipUpgrade), s.fw, s.size, node, t.heard)
      && forall a :: 0 <= a < Start(s, s.Pages()) ==>
        && a / pageSize in t.b.flash && |t.b.flash[a / pageSize]| == pageSize
        && t.b.flash[a / pageSize][a % pageSize] == OrElse(Lookup(segs, a), 0xff)
  {
    hide Ending, Segments, Load, Ascending, LastEnd, Lookup, After, Meet, Start, Setup.Pages, Holds;
    var segs := Segments(lines, 0);
    var s := Setup(ImageOf(segs), LastEnd(segs, 0), node, pageSize);
    LoadedImage(lines);
    n := UploadEnds(s, skipUpgrade);
    var t := After(s, Meet(s, skipUpgrade), n);
    MeetHeard(s, skipUpgrade);
    HeardExplainsUploader(s, Meet(s, skipUpgrade), Begin(skipUpgrade), n);
    forall a | 0 <= a < Start(s, s.Pages())
      ensures a / pageSize in t.b.flash && |t.b.flash[a / pageSize]| == pageSize
      ensures t.b.flash[a / pageSize][a % pageSize] == OrElse(Lookup(segs, a), 0xff)
    {
      PageBytes(s, t.b.flash, s.Pages(), a);
    }
  }

  lemma MeetHeard(s: Setup, skipUpgrade: bool)
    ensures var t := Meet(s, skipUpgrade); t.u == Run(Begin(skipUpgrade), s.fw, s.size, s.node, t.heard)
  {
  }
}
