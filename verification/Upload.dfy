/**
The firmware upload: the uploader answers the frames of the node's bootloader, one page after the other.
*/
module Upload {
  import opened Bytes
  import opened Frames
  import opened Options

  // ---------------------------------------------------------------- the uploader

  /** What a sent frame asks of the bootloader. */
  datatype Command = Upgrade | StartPage(page: nat) | Fill(bytes: seq<Byte>) | QuitBootloader

  /** Crashed: the progress bar divided by a firmware size of zero. Overrun: a page needs bytes from behind
      the firmware buffer. */
  datatype Status = Listening | Done | Crashed | Overrun

  /** The uploader's local variables, with all commands sent so far. */
  datatype Uploader = Uploader(page: nat, index: nat, sent: seq<Command>, status: Status)

  /** The first frame and the state the loop starts in. */
  function Begin(skipUpgrade: bool): Uploader {
    Uploader(0, 0, [if skipUpgrade then StartPage(0) else Upgrade], Listening)
  }

  /** One received frame. */
  function React(u: Uploader, fw: seq<Byte>, size: nat, node: Bits9, f: Frame): Uploader {
    if u.status != Listening || f.source != node then u
    else if f.kind == PAGE_WRITED then
      if size == 0 then u.(status := Crashed)
      else if u.index >= size then u.(sent := u.sent + [QuitBootloader], status := Done)
      else u.(page := NextPage(u.page), sent := u.sent + [StartPage(NextPage(u.page))])
    else if f.kind == BOOTLOADER_TURNED_ON then u.(sent := u.sent + [StartPage(u.page)])
    else if f.kind == PAGE_FILL_NEXT then
      if u.index + 8 > |fw| then u.(status := Overrun)
      else u.(index := u.index + 8, sent := u.sent + [Fill(fw[u.index..u.index + 8])])
    else u
  }

  /** The page counter has 16 bits. */
  function NextPage(page: nat): nat { (page + 1) % 0x1_0000 }

  function Run(u: Uploader, fw: seq<Byte>, size: nat, node: Bits9, frames: seq<Frame>): Uploader
    decreases |frames|
  {
    if frames == [] then u else Run(React(u, fw, size, node, frames[0]), fw, size, node, frames[1..])
  }

  function Kind(c: Command): Byte {
    match c
    case Upgrade => NODE_UPGRADE
    case StartPage(_) => PAGE_START
    case Fill(_) => PAGE_FILL
    case QuitBootloader => QUIT_BOOTLOADER
  }

  function Payload(c: Command): seq<Byte> {
    match c
    case StartPage(page) => Digits(page, 2)
    case Fill(bytes) => bytes
    case _ => []
  }

  /** The frame carries the n-th command. */
  ghost predicate Carries(f: Frame, c: Command, n: nat, source: Bits9, node: Bits9) {
    && f.priority == HIGH && f.kind == Kind(c) && f.seqnum == n % 32 && f.source == source && f.destination == node
    && f.dlc == |Payload(c)| <= 8 && f.data[..f.dlc] == Payload(c)
  }

  ghost predicate AllCarry(sent: seq<Frame>, commands: seq<Command>, source: Bits9, node: Bits9) {
    |sent| == |commands| && forall i :: 0 <= i < |sent| ==> Carries(sent[i], commands[i], i, source, node)
  }

  /** The reader's side: what a bootloader takes a frame for. */
  function CommandOf(f: Frame): Option<Command> {
    if f.kind == NODE_UPGRADE then Some(Upgrade)
    else if f.kind == PAGE_START && f.dlc == 2 then Some(StartPage(Word(f.data[0], f.data[1])))
    else if f.kind == PAGE_FILL && f.dlc == 8 then Some(Fill(f.data))
    else if f.kind == QUIT_BOOTLOADER then Some(QuitBootloader)
    else None
  }

  /** Page numbers have 16 bits, and eight bytes are sent at a time. */
  predicate Sendable(c: Command) {
    match c
    case StartPage(page) => page < 0x1_0000
    case Fill(bytes) => |bytes| == 8
    case _ => true
  }

  lemma TwoDigits(page: nat)
    requires page < 0x1_0000
    ensures Digits(page, 2) == [page / 256, page % 256] && Word(page / 256, page % 256) == page
  {
    assert Digits(page, 2) == Digits(page / 256, 1) + [page % 256];
    assert Digits(page / 256, 1) == Digits(page / 256 / 256, 0) + [page / 256 % 256];
  }

  /** A frame is taken for the command that it carries. */
  lemma CarriedIsRead(f: Frame, c: Command, n: nat, source: Bits9, node: Bits9)
    requires Carries(f, c, n, source, node) && Sendable(c)
    ensures CommandOf(f) == Some(c)
  {
    match c
    case StartPage(page) =>
      TwoDigits(page);
      assert f.data[0] == f.data[..2][0] && f.data[1] == f.data[..2][1];
    case Fill(bytes) =>
      assert f.data == f.data[..8];
    case _ =>
  }

  /** The 8-bit counter of frames, of which five bits are sent. */
  ghost predicate Counts(seqnum: nat, n: nat) { seqnum < 256 && seqnum % 32 == n % 32 }

  function Bump(seqnum: nat): nat { (seqnum + 1) % 256 }

  lemma BumpCounts(seqnum: nat, n: nat)
    requires Counts(seqnum, n)
    ensures Counts(Bump(seqnum), n + 1)
  {
    assert seqnum == 32 * (seqnum / 32) + seqnum % 32 && n == 32 * (n / 32) + n % 32;
    assert Bump(seqnum) == if seqnum == 255 then 0 else seqnum + 1;
    if seqnum % 32 < 31 {
      Remainder(seqnum + 1, 32, seqnum / 32, seqnum % 32 + 1);
      Remainder(n + 1, 32, n / 32, n % 32 + 1);
    } else {
      Remainder(seqnum + 1, 32, seqnum / 32 + 1, 0);
      Remainder(n + 1, 32, n / 32 + 1, 0);
    }
  }

  lemma AppendCarries(sent: seq<Frame>, commands: seq<Command>, f: Frame, c: Command, seqnum: nat, source: Bits9,
      node: Bits9)
    requires AllCarry(sent, commands, source, node) && Counts(seqnum, |sent|)
    requires f.priority == HIGH && f.kind == Kind(c) && f.seqnum == seqnum % 32 && f.source == source
      && f.destination == node
    requires f.dlc == |Payload(c)| <= 8 && f.data[..f.dlc] == Payload(c)
    ensures AllCarry(sent + [f], commands + [c], source, node) && Counts(Bump(seqnum), |sent + [f]|)
  {
    assert Carries(f, c, |sent|, source, node);
    BumpCounts(seqnum, |sent|);
    hide Carries;
  }

  /** The first two bytes of the frame are the page number. */
  method PageStart(frame: Frame, page: nat) returns (r: Frame)
    requires page < 0x1_0000
    ensures r == frame.(kind := PAGE_START, dlc := 2, data := r.data) && r.data[..2] == Digits(page, 2)
  {
    r := frame.(kind := PAGE_START, dlc := 2, data := frame.data[0 := page / 256 % 256][1 := page % 256]);
    assert Digits(page, 2) == Digits(page / 256, 1) + [page % 256] && Digits(page / 256, 0 + 1) == [page / 256 % 256];
  }

  /** The next eight bytes of the firmware. */
  method PageFill(frame: Frame, fw: array<Byte>, index: nat) returns (r: Frame, next: nat)
    requires index + 8 <= fw.Length
    ensures r == frame.(kind := PAGE_FILL, dlc := 8, data := fw[index..index + 8]) && next == index + 8
  {
    next := index;
    var d := frame.data;
    d, next := d[0 := fw[next]], next + 1;
    d, next := d[1 := fw[next]], next + 1;
    d, next := d[2 := fw[next]], next + 1;
    d, next := d[3 := fw[next]], next + 1;
    d, next := d[4 := fw[next]], next + 1;
    d, next := d[5 := fw[next]], next + 1;
    d, next := d[6 := fw[next]], next + 1;
    d, next := d[7 := fw[next]], next + 1;
    assert d == fw[index..index + 8];
    r := frame.(kind := PAGE_FILL, dlc := 8, data := d);
  }

  /** The part of main behind the connection, for the frames that arrive before the program ends. The frame
      that is sent is one variable, so bytes that a command does not use are left from an earlier one. */
  method Converse(fw: array<Byte>, size: nat, source: Bits9, node: Bits9, skipUpgrade: bool, received: seq<Frame>)
    returns (sent: seq<Frame>, status: Status)
    ensures var u := Run(Begin(skipUpgrade), fw[..], size, node, received);
      AllCarry(sent, u.sent, source, node) && status == u.status
  {
    hide Run, AllCarry, Counts, Bump, Digits;
    var seqnum: nat, page: nat, index: nat := 0, 0, 0;
    var frame := Frame(HIGH, NODE_UPGRADE, seqnum % 32, node, source, 0, NO_DATA);
    if skipUpgrade {
      frame := PageStart(frame, page);
    }
    seqnum := Bump(seqnum);
    sent, status := [frame], Listening;
    ghost var u := Begin(skipUpgrade);
    FirstCarries(frame, u.sent[0], source, node);
    for i := 0 to |received|
      invariant u == Uploader(page, index, u.sent, Listening) && status == Listening
      invariant AllCarry(sent, u.sent, source, node) && |sent| == |u.sent|
      invariant page < 0x1_0000 && Counts(seqnum, |sent|)
      invariant frame.priority == HIGH && frame.source == source && frame.destination == node
      invariant Run(u, fw[..], size, node, received[i..]) == Run(Begin(skipUpgrade), fw[..], size, node, received)
    {
      var f := received[i];
      RunStep(u, fw[..], size, node, received, i);
      ghost var u' := React(u, fw[..], size, node, f);
      if f.source != node {
        continue;
      }
      if f.kind == BOOTLOADER_TURNED_ON || f.kind == PAGE_WRITED {
        if f.kind == PAGE_WRITED {
          if size == 0 {
            Ended(u', fw[..], size, node, received[i + 1..]);
            return sent, Crashed;
          }
          if index >= size {
            frame := frame.(kind := QUIT_BOOTLOADER, dlc := 0, seqnum := seqnum % 32);
            AppendCarries(sent, u.sent, frame, QuitBootloader, seqnum, source, node);
            Ended(u', fw[..], size, node, received[i + 1..]);
            return sent + [frame], Done;
          }
          page := (page + 1) % 0x1_0000;
        }
        frame := PageStart(frame, page);
        frame := frame.(seqnum := seqnum % 32);
        AppendCarries(sent, u.sent, frame, StartPage(page), seqnum, source, node);
        sent, seqnum := sent + [frame], Bump(seqnum);
      } else if f.kind == PAGE_FILL_NEXT {
        if index + 8 > fw.Length {
          Ended(u', fw[..], size, node, received[i + 1..]);
          return sent, Overrun;
        }
        frame, index := PageFill(frame, fw, index);
        frame := frame.(seqnum := seqnum % 32);
        AppendCarries(sent, u.sent, frame, Fill(frame.data), seqnum, source, node);
        sent, seqnum := sent + [frame], Bump(seqnum);
      }
      u := u';
    }
    assert received[|received|..] == [];
    Ended(u, fw[..], size, node, []);
  }

  lemma FirstCarries(f: Frame, c: Command, source: Bits9, node: Bits9)
    requires Carries(f, c, 0, source, node)
    ensures AllCarry([f], [c], source, node) && Counts(Bump(0), |[f]|)
  {
  }

  lemma RunStep(u: Uploader, fw: seq<Byte>, size: nat, node: Bits9, frames: seq<Frame>, i: nat)
    requires i < |frames|
    ensures Run(u, fw, size, node, frames[i..])
      == Run(React(u, fw, size, node, frames[i]), fw, size, node, frames[i + 1..])
  {
    assert frames[i..][1..] == frames[i + 1..];
  }

  lemma {:induction false} Ended(u: Uploader, fw: seq<Byte>, size: nat, node: Bits9, frames: seq<Frame>)
    requires frames == [] || u.status != Listening
    ensures Run(u, fw, size, node, frames) == u
  {
    if frames != [] {
      Ended(u, fw, size, node, frames[1..]);
    }
  }

  // ---------------------------------------------------------------- what every run keeps

  /** The firmware bytes that the commands carry. */
  function Filled(sent: seq<Command>): seq<Byte> {
    if sent == [] then []
    else Filled(sent[..|sent| - 1]) + (if sent[|sent| - 1].Fill? then sent[|sent| - 1].bytes else [])
  }

  /** The pages that the node has reported as written. */
  function Written(node: Bits9, frames: seq<Frame>): nat {
    if frames == [] then 0
    else
      var last := frames[|frames| - 1];
      Written(node, frames[..|frames| - 1]) + (if last.source == node && last.kind == PAGE_WRITED then 1 else 0)
  }

  /** The bytes sent are the firmware up to the index; the upload quits once, at its end, and only behind the
      whole firmware. */
  ghost predicate Inv(u: Uploader, fw: seq<Byte>, size: nat) {
    && u.sent != [] && u.index <= |fw| && u.index % 8 == 0
    && Filled(u.sent) == fw[..u.index]
    && (forall i :: 0 <= i < |u.sent| && u.sent[i].QuitBootloader? ==> i == |u.sent| - 1 && u.status == Done)
    && (u.status == Done ==> u.sent[|u.sent| - 1] == QuitBootloader && u.index >= size > 0)
    && (u.status == Crashed ==> size == 0)
    && (u.status == Overrun ==> u.index + 8 > |fw|)
  }

  ghost predicate AllSendable(u: Uploader) {
    u.page < 0x1_0000 && forall i :: 0 <= i < |u.sent| ==> Sendable(u.sent[i])
  }

  lemma ReactIsSendable(u: Uploader, fw: seq<Byte>, size: nat, node: Bits9, f: Frame)
    requires AllSendable(u)
    ensures AllSendable(React(u, fw, size, node, f))
  {
  }

  /** All commands of a run can be sent as they are. */
  lemma {:induction false} RunIsSendable(u: Uploader, fw: seq<Byte>, size: nat, node: Bits9, frames: seq<Frame>)
    requires AllSendable(u)
    ensures AllSendable(Run(u, fw, size, node, frames))
    decreases |frames|
  {
    hide React, AllSendable;
    if frames != [] {
      ReactIsSendable(u, fw, size, node, frames[0]);
      RunIsSendable(React(u, fw, size, node, frames[0]), fw, size, node, frames[1..]);
    }
  }

  /** Main result: the frames that are sent are read as the run's commands, page numbers and bytes among them. */
  lemma FramesAreRead(skipUpgrade: bool, fw: seq<Byte>, size: nat, source: Bits9, node: Bits9, received: seq<Frame>,
      sent: seq<Frame>)
    requires AllCarry(sent, Run(Begin(skipUpgrade), fw, size, node, received).sent, source, node)
    ensures var u := Run(Begin(skipUpgrade), fw, size, node, received);
      |sent| == |u.sent| && forall i :: 0 <= i < |sent| ==> CommandOf(sent[i]) == Some(u.sent[i])
  {
    hide Carries, CommandOf, Run;
    var u := Run(Begin(skipUpgrade), fw, size, node, received);
    RunIsSendable(Begin(skipUpgrade), fw, size, node, received);
    forall i | 0 <= i < |sent|
      ensures CommandOf(sent[i]) == Some(u.sent[i])
    {
      CarriedIsRead(sent[i], u.sent[i], i, source, node);
    }
  }

  lemma SentOne(sent: seq<Command>, c: Command)
    ensures Filled(sent + [c]) == Filled(sent) + if c.Fill? then c.bytes else []
  {
    assert (sent + [c])[..|sent|] == sent;
  }

  lemma ReactKeepsInv(u: Uploader, fw: seq<Byte>, size: nat, node: Bits9, f: Frame)
    requires Inv(u, fw, size)
    ensures Inv(React(u, fw, size, node, f), fw, size)
  {
    hide Filled;
    var u' := React(u, fw, size, node, f);
    if |u'.sent| > |u.sent| {
      SentOne(u.sent, u'.sent[|u.sent|]);
    }
  }

  lemma {:induction false} RunKeepsInv(u: Uploader, fw: seq<Byte>, size: nat, node: Bits9, frames: seq<Frame>)
    requires Inv(u, fw, size)
    ensures Inv(Run(u, fw, size, node, frames), fw, size)
    decreases |frames|
  {
    if frames != [] {
      ReactKeepsInv(u, fw, size, node, frames[0]);
      RunKeepsInv(React(u, fw, size, node, frames[0]), fw, size, node, frames[1..]);
    }
  }

  /** Main result: whatever frames arrive, the payloads sent are a prefix of the firmware in its order, and
      the bootloader is told to quit only behind all of it, as the last command. */
  lemma PayloadsAreAPrefix(skipUpgrade: bool, fw: seq<Byte>, size: nat, node: Bits9, frames: seq<Frame>)
    ensures var u := Run(Begin(skipUpgrade), fw, size, node, frames);
      && u.index <= |fw| && Filled(u.sent) == fw[..u.index]
      && (forall i :: 0 <= i < |u.sent| && u.sent[i].QuitBootloader? ==> i == |u.sent| - 1 && u.index >= size)
      && (u.status == Crashed ==> size == 0)
  {
    SentOne([], Begin(skipUpgrade).sent[0]);
    assert [] + [Begin(skipUpgrade).sent[0]] == Begin(skipUpgrade).sent;
    RunKeepsInv(Begin(skipUpgrade), fw, size, node, frames);
  }

  lemma {:induction false} RunSplit(u: Uploader, fw: seq<Byte>, size: nat, node: Bits9, a: seq<Frame>, b: seq<Frame>)
    ensures Run(u, fw, size, node, a + b) == Run(Run(u, fw, size, node, a), fw, size, node, b)
    decreases |a|
  {
    hide React;
    if a == [] {
      assert a + b == b;
    } else {
      assert (a + b)[0] == a[0] && (a + b)[1..] == a[1..] + b;
      RunSplit(React(u, fw, size, node, a[0]), fw, size, node, a[1..], b);
    }
  }

  lemma OneMore(u: Uploader, fw: seq<Byte>, size: nat, node: Bits9, f: Frame)
    ensures Run(u, fw, size, node, [f]) == React(u, fw, size, node, f)
  {
    assert [f][1..] == [];
  }

  lemma PageStep(u: Uploader, fw: seq<Byte>, size: nat, node: Bits9, f: Frame, written: nat)
    requires React(u, fw, size, node, f).status == Listening
    ensures u.status == Listening
    ensures u.page == written % 0x1_0000 ==>
      React(u, fw, size, node, f).page
        == (written + if f.source == node && f.kind == PAGE_WRITED then 1 else 0) % 0x1_0000
  {
    assert written == 0x1_0000 * (written / 0x1_0000) + written % 0x1_0000;
  }

  /** Main result: while the upload goes on, the page it is at is the number of pages written, mod 2^16. */
  lemma {:induction false} PageCountsWrites(skipUpgrade: bool, fw: seq<Byte>, size: nat, node: Bits9,
      frames: seq<Frame>)
    requires Run(Begin(skipUpgrade), fw, size, node, frames).status == Listening
    ensures Run(Begin(skipUpgrade), fw, size, node, frames).page == Written(node, frames) % 0x1_0000
    decreases |frames|
  {
    if frames != [] {
      var n := |frames| - 1;
      assert frames == frames[..n] + [frames[n]];
      RunSplit(Begin(skipUpgrade), fw, size, node, frames[..n], [frames[n]]);
      var u := Run(Begin(skipUpgrade), fw, size, node, frames[..n]);
      OneMore(u, fw, size, node, frames[n]);
      hide Run;
      PageStep(u, fw, size, node, frames[n], Written(node, frames[..n]));
      PageCountsWrites(skipUpgrade, fw, size, node, frames[..n]);
    }
  }
}
