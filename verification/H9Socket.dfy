/**
The length-prefixed byte stream between the programs of H9. recv keeps a partly read frame in its
fields across calls, whatever pieces the operating system hands out; recv_complete_msg calls it
until a message is whole.
*/
module H9Socket {
  import opened Bytes

  datatype ReadResult = Got(bytes: seq<Byte>) | Closed | WouldBlock | Failed

  /** The receiving end of a stream connection. unread is everything the peer still delivers before
      it closes; how much of it one read returns is the operating system's choice. */
  class Wire {
    var unread: seq<Byte>
    ghost var failures: nat // how many reads have failed

    constructor (bytes: seq<Byte>)
      ensures unread == bytes && failures == 0
    {
      unread := bytes;
      failures := 0;
    }

    /** One recv call for n bytes. A read that may not wait can find nothing there yet. */
    method Read(n: nat, mayWait: bool) returns (r: ReadResult)
      modifies this
      ensures r.Got? ==> 1 <= |r.bytes| <= n && old(unread) == r.bytes + unread
      ensures !r.Got? ==> unread == old(unread)
      ensures r.Closed? ==> n == 0 || unread == []
      ensures n == 0 ==> r.Closed?
      ensures r.WouldBlock? ==> !mayWait
      ensures failures == old(failures) + if r.Failed? then 1 else 0
    {
      if n == 0 {
        return Closed;
      }
      if * {
        failures := failures + 1;
        return Failed;
      }
      if !mayWait {
        if * {
          return WouldBlock;
        }
      }
      if unread == [] {
        return Closed;
      }
      var k: nat :| 1 <= k <= n && k <= |unread|;
      r := Got(unread[..k]);
      unread := unread[k..];
    }
  }

  /** What a read puts into a buffer at a place; every write is inside the buffer. */
  method Store(bytes: seq<Byte>, buffer: array<Byte>, at: nat)
    requires at + |bytes| <= buffer.Length
    modifies buffer
    ensures buffer[..at + |bytes|] == old(buffer[..at]) + bytes
  {
    for i := 0 to |bytes|
      invariant buffer[..at + i] == old(buffer[..at]) + bytes[..i]
    {
      buffer[at + i] := bytes[i];
    }
    assert bytes[..|bytes|] == bytes;
  }

  /** realloc to a larger size. */
  method Enlarge(buffer: array<Byte>, size: nat) returns (bigger: array<Byte>)
    requires size >= buffer.Length
    ensures fresh(bigger) && bigger.Length == size && bigger[..buffer.Length] == buffer[..]
  {
    bigger := new Byte[size];
    forall i | 0 <= i < buffer.Length {
      bigger[i] := buffer[i];
    }
  }

  datatype Outcome = Message(text: seq<Byte>) | PeerClosed | Again | Error

  class Socket {
    const wire: Wire
    const header: array<Byte>
    var data: array<Byte>
    var dataLen: nat
    var recvBytes: nat
    var bytesToRecv: nat
    ghost var taken: seq<Byte> // the bytes of the current frame read so far

    ghost predicate Valid()
      reads this, header, data
    {
      && header.Length == 4 && data.Length == dataLen + 1 && header != data
      && if recvBytes < 4 then bytesToRecv == 4 && recvBytes == |taken| && header[..recvBytes] == taken
         else Whole() && (recvBytes < bytesToRecv || recvBytes == 4)
    }

    /** The header is complete and the body is complete or on its way. */
    ghost predicate Whole()
      reads this, header, data
    {
      && header.Length == 4 && data.Length == dataLen + 1 && header != data
      && 4 <= recvBytes == |taken| <= bytesToRecv && bytesToRecv == 4 + Value(taken[..4]) <= 4 + dataLen
      && header[..] == taken[..4] && data[..recvBytes - 4] == taken[4..]
    }

    /** The part of the stream that no message has been delivered from. */
    ghost function Stream(): seq<Byte>
      reads this, wire
    {
      taken + wire.unread
    }

    constructor (w: Wire)
      ensures Valid() && taken == [] && wire == w && fresh(header) && fresh(data)
    {
      wire := w;
      header := new Byte[4];
      recvBytes, bytesToRecv := 0, 4;
      dataLen := 4096;
      data := new Byte[4097];
      taken := [];
    }

    /** Reads into the header and, once it is complete, makes room for the frame it announces. */
    method RecvHeader() returns (r: ReadResult)
      requires Valid() && recvBytes < 4
      modifies this, header, wire
      ensures Valid() && (data == old(data) || fresh(data)) && recvBytes <= 4
      ensures Stream() == old(Stream()) && |wire.unread| + |taken| == |old(wire.unread)| + |old(taken)|
      ensures if r.Got? then |wire.unread| < |old(wire.unread)|
        else taken == old(taken) && wire.unread == old(wire.unread)
      ensures !r.WouldBlock? && (r.Closed? ==> wire.unread == [])
      ensures wire.failures == old(wire.failures) + if r.Failed? then 1 else 0
    {
      r := wire.Read(4 - recvBytes, true);
      if !r.Got? {
        return;
      }
      var k := recvBytes;
      Store(r.bytes, header, k);
      assert taken + old(wire.unread) == (taken + r.bytes) + wire.unread;
      taken := taken + r.bytes;
      recvBytes := k + |r.bytes|;
      if recvBytes == 4 {
        assert header[..] == header[..4] == taken[..4] == taken;
        var n := Value(header[..]);
        if n > dataLen {
          data := Enlarge(data, n + 1);
          dataLen := n;
        }
        bytesToRecv := bytesToRecv + n;
      }
    }

    /** Reads into the frame's body, at most what is missing of it. A frame that is now complete is
        left for Recv to deliver. */
    method RecvBody(mayWait: bool) returns (r: ReadResult)
      requires Valid() && recvBytes >= 4
      modifies this`recvBytes, this`taken, data, wire
      ensures Whole()
      ensures Stream() == old(Stream()) && |wire.unread| + |taken| == |old(wire.unread)| + |old(taken)|
      ensures if r.Got? then |wire.unread| < |old(wire.unread)|
        else taken == old(taken) && wire.unread == old(wire.unread)
      ensures r.Closed? ==> wire.unread == [] || bytesToRecv == 4
      ensures bytesToRecv == 4 ==> r.Closed?
      ensures r.WouldBlock? ==> !mayWait
      ensures wire.failures == old(wire.failures) + if r.Failed? then 1 else 0
    {
      r := wire.Read(bytesToRecv - recvBytes, mayWait);
      if !r.Got? {
        return;
      }
      var k := recvBytes - 4;
      Store(r.bytes, data, k);
      assert taken + old(wire.unread) == (taken + r.bytes) + wire.unread;
      taken := taken + r.bytes;
      recvBytes := recvBytes + |r.bytes|;
      assert taken[..4] == old(taken[..4]) && taken[4..] == old(taken[4..]) + r.bytes;
    }

    /** Main result for one call: either the first frame of the stream is complete and is delivered as
        the C string of its body, or nothing is lost and the fields hold exactly the bytes read; an error is
        reported exactly if a read has failed. */
    method Recv() returns (r: Outcome)
      requires Valid()
      modifies this, header, data, wire
      ensures Valid() && (data == old(data) || fresh(data))
      ensures RecvSpec(old(Stream()), old(wire.unread), r, taken, wire.unread)
      ensures wire.failures == old(wire.failures) + if r.Error? then 1 else 0
    {
      var mayWait := true;
      if recvBytes < 4 {
        var h := RecvHeader();
        mayWait := false;
        if !h.Got? {
          return if h.Closed? then PeerClosed else Error;
        }
      }
      if recvBytes >= 4 {
        var b := RecvBody(mayWait);
        if !b.Got? {
          return if b.Closed? then PeerClosed else if b.WouldBlock? then Again else Error;
        }
      }
      if recvBytes < bytesToRecv {
        return Again;
      }
      TakenIsFirst(taken, wire.unread, CStr(taken[4..]));
      var text := Deliver();
      return Message(text);
    }

    /** Terminates the complete body, copies it out and forgets it. */
    method Deliver() returns (text: seq<Byte>)
      requires Whole() && recvBytes == bytesToRecv
      modifies this, data
      ensures Valid() && data == old(data) && taken == [] && text == CStr(old(taken[4..]))
    {
      data[recvBytes - 4] := 0;
      text := ReadCString(recvBytes - 4);
      assert data[..recvBytes - 4] == taken[4..];
      bytesToRecv, recvBytes, taken := 4, 0, [];
    }

    /** std::string's constructor from data_buf: up to the first NUL, which is there at index n. */
    method ReadCString(n: nat) returns (text: seq<Byte>)
      requires n < data.Length && data[n] == 0
      ensures text == CStr(data[..n])
    {
      text := [];
      while data[|text|] != 0
        invariant |text| <= n
        invariant text + CStr(data[|text|..n]) == CStr(data[..n])
        decreases n - |text|
      {
        var i := |text|;
        assert data[i..n][1..] == data[i + 1..n];
        text := text + [data[i]];
      }
    }

    /** recv_complete_msg: calls Recv until it is no longer told to try again. The loop ends because
        each such answer has used up a byte of the stream. Main result: it returns what the stream says,
        its first message if it holds one and the close if not, unless a read has failed. */
    method RecvComplete() returns (r: Outcome, ghost calls: nat)
      requires Valid()
      modifies this, header, data, wire
      ensures Valid() && !r.Again? && (data == old(data) || fresh(data))
      ensures calls <= 1 + |old(wire.unread)| - |wire.unread|
      ensures r.Message? ==> |wire.unread| < |old(wire.unread)|
      ensures var (msgs, rest) := Decode(old(Stream()));
        && (r.Message? ==> msgs != [] && r.text == msgs[0] && Decode(Stream()) == (msgs[1..], rest))
        && (r.PeerClosed? ==> msgs == [] && Stream() == rest == old(Stream()))
        && (r.Error? ==> Stream() == old(Stream()))
        && (wire.failures == old(wire.failures) ==> (msgs != [] ==> r.Message?) && (msgs == [] ==> r.PeerClosed?))
      ensures wire.failures == old(wire.failures) + if r.Error? then 1 else 0
    {
      ghost var stream := Stream();
      r := Recv();
      calls := 1;
      while r.Again?
        invariant Valid() && (data == old(data) || fresh(data))
        invariant RecvSpec(stream, old(wire.unread), r, taken, wire.unread)
        invariant wire.failures == old(wire.failures) + if r.Error? then 1 else 0
        invariant calls + (if r.Again? then 1 else 0) <= 1 + |old(wire.unread)| - |wire.unread|
        decreases |wire.unread| + if r.Again? then 1 else 0
      {
        r := Recv();
        calls := calls + 1;
      }
      RecvMeaning(stream, old(wire.unread), r, taken, wire.unread);
    }

    /** Main result over many calls: whatever the pieces, what has been delivered followed by what the
        rest of the stream decodes to is what the whole stream decodes to; and once the stream is used up
        or the close is reported, all that the whole stream decodes to has been delivered. If no read
        fails, as many calls as there are bytes and one more are enough. */
    method RecvMany(limit: nat) returns (delivered: seq<seq<Byte>>, closed: bool)
      requires Valid()
      modifies this, header, data, wire
      ensures Valid() && (data == old(data) || fresh(data))
      ensures Splits(old(Stream()), delivered, Stream())
      ensures closed || wire.unread == [] ==> (delivered, Stream()) == Decode(old(Stream()))
      ensures wire.failures == old(wire.failures) && limit > |old(wire.unread)| ==> closed
    {
      delivered, closed := [], false;
      ghost var stream := Stream();
      assert [] + Decode(stream).0 == Decode(stream).0;
      for calls := 0 to limit
        invariant Valid() && (data == old(data) || fresh(data))
        invariant Splits(stream, delivered, Stream())
        invariant wire.failures >= old(wire.failures)
        invariant wire.failures == old(wire.failures) ==> calls + |wire.unread| <= |old(wire.unread)|
      {
        ghost var before, unread := Stream(), wire.unread;
        var r := Recv();
        RecvMeaning(before, unread, r, taken, wire.unread);
        if r.Message? {
          SplitsFurther(stream, delivered, before, r.text, Stream());
          delivered := delivered + [r.text];
        } else if r.PeerClosed? {
          NothingLeft(stream, delivered, Stream());
          return delivered, true;
        }
      }
      if wire.unread == [] {
        UsedUpMeansDelivered();
        NothingLeft(stream, delivered, Stream());
      }
    }

    /** Complete messages, one after the other, until there is none: what a client's thread does. The
        loop ends because every message uses up bytes of the stream. Main result: if it ends with the
        close, it has delivered all messages of the stream, and otherwise some from its front; it ends with
        the close exactly if no read has failed. */
    method RecvAll() returns (delivered: seq<seq<Byte>>, last: Outcome)
      requires Valid()
      modifies this, header, data, wire
      ensures Valid() && (last.PeerClosed? || last.Error?)
      ensures Splits(old(Stream()), delivered, Stream())
      ensures last.PeerClosed? ==> (delivered, Stream()) == Decode(old(Stream()))
      ensures last.PeerClosed? <==> wire.failures == old(wire.failures)
    {
      hide Decode, RecvSpec;
      delivered := [];
      ghost var stream := Stream();
      assert [] + Decode(stream).0 == Decode(stream).0;
      while true
        invariant Valid() && (data == old(data) || fresh(data))
        invariant Splits(stream, delivered, Stream())
        invariant wire.failures == old(wire.failures)
        decreases |wire.unread|
      {
        ghost var before := Stream();
        ghost var calls;
        last, calls := RecvComplete();
        if !last.Message? {
          if last.PeerClosed? {
            NothingLeft(stream, delivered, Stream());
          }
          return;
        }
        FirstOfRest(Decode(before).0, last.text);
        SplitsFurther(stream, delivered, before, last.text, Stream());
        delivered := delivered + [last.text];
      }
    }

    /** When the peer has sent everything, what is left is an incomplete frame or an empty one. */
    lemma UsedUpMeansDelivered()
      requires Valid() && wire.unread == []
      ensures Decode(Stream()) == ([], Stream())
    {
      assert Stream() == taken;
    }
  }

  // ---------------------------------------------------------------- the stream's meaning

  /** Bytes that end before the frame they start does, or that start an empty frame, on which recv
      reads zero bytes and takes the answer for a closed connection. */
  ghost predicate Incomplete(t: seq<Byte>) {
    |t| < 4 || |t| < 4 + Value(t[..4]) || Value(t[..4]) == 0
  }

  ghost predicate FirstFrame(stream: seq<Byte>, rest: seq<Byte>, text: seq<Byte>) {
    && !Incomplete(stream)
    && var n := Value(stream[..4]);
    && text == CStr(stream[4..4 + n]) && rest == stream[4 + n..]
  }

  /** The messages a stream holds and the incomplete frame it ends in. */
  function Decode(stream: seq<Byte>): (seq<seq<Byte>>, seq<Byte>) {
    if |stream| < 4 || Value(stream[..4]) == 0 || |stream| < 4 + Value(stream[..4]) then ([], stream)
    else
      var n := Value(stream[..4]);
      var (msgs, rest) := Decode(stream[4 + n..]);
      ([CStr(stream[4..4 + n])] + msgs, rest)
  }

  /** What one call of recv does to the stream: before it (and the part not read then), its result,
      the bytes it holds afterwards and the part not read. */
  ghost predicate RecvSpec(before: seq<Byte>, unreadBefore: seq<Byte>, r: Outcome, taken: seq<Byte>,
      unread: seq<Byte>) {
    && |unread| <= |unreadBefore|
    && (r.Message? ==> taken == [] && |unread| < |unreadBefore| && FirstFrame(before, unread, r.text))
    && (!r.Message? ==> taken + unread == before && Incomplete(taken))
    && (r.Again? ==> |unread| < |unreadBefore|)
    && (r.PeerClosed? ==> unread == [] || (|taken| == 4 && Value(taken[..4]) == 0))
  }

  /** A stream is delivered messages followed by what the remaining stream holds. */
  ghost predicate Splits(stream: seq<Byte>, delivered: seq<seq<Byte>>, remaining: seq<Byte>) {
    Decode(stream) == (delivered + Decode(remaining).0, Decode(remaining).1)
  }

  lemma TakenIsFirst(taken: seq<Byte>, unread: seq<Byte>, text: seq<Byte>)
    requires |taken| > 4 && |taken| == 4 + Value(taken[..4]) && text == CStr(taken[4..])
    ensures FirstFrame(taken + unread, unread, text)
  {
    assert (taken + unread)[..4] == taken[..4];
    assert (taken + unread)[4..|taken|] == taken[4..];
  }

  lemma RecvMeaning(before: seq<Byte>, unreadBefore: seq<Byte>, r: Outcome, taken: seq<Byte>, unread: seq<Byte>)
    requires RecvSpec(before, unreadBefore, r, taken, unread)
    ensures r.Message? ==> taken + unread == unread && Decode(before) == ([r.text] + Decode(unread).0, Decode(unread).1)
    ensures !r.Message? ==> taken + unread == before
    ensures r.PeerClosed? ==> Decode(before) == ([], before)
  {
    if r.PeerClosed? {
      assert |taken| >= 4 ==> before[..4] == taken[..4];
      assert unread == [] ==> before == taken;
    }
  }

  lemma SplitsFurther(stream: seq<Byte>, delivered: seq<seq<Byte>>, before: seq<Byte>, text: seq<Byte>,
      after: seq<Byte>)
    requires Splits(stream, delivered, before)
    requires Decode(before) == ([text] + Decode(after).0, Decode(after).1)
    ensures Splits(stream, delivered + [text], after)
  {
    assert delivered + ([text] + Decode(after).0) == (delivered + [text]) + Decode(after).0;
  }

  lemma NothingLeft(stream: seq<Byte>, delivered: seq<seq<Byte>>, remaining: seq<Byte>)
    requires Splits(stream, delivered, remaining) && Decode(remaining) == ([], remaining)
    ensures (delivered, remaining) == Decode(stream)
  {
    assert delivered + [] == delivered;
  }

  lemma FirstOfRest(msgs: seq<seq<Byte>>, first: seq<Byte>)
    requires msgs != [] && msgs[0] == first
    ensures msgs == [first] + msgs[1..]
  {
  }

  lemma EmptyFrame()
    ensures Value([0, 0, 0, 0]) == 0
  {
    BE32RoundTrip(0);
    assert ToBE32(0) == [0, 0, 0, 0];
  }

  /** What send puts on the wire; the size goes through a 32-bit integer. */
  function Encode(msg: seq<Byte>): seq<Byte> { ToBE32(|msg|) + msg }

  function EncodeAll(msgs: seq<seq<Byte>>): seq<Byte> {
    if msgs == [] then [] else Encode(msgs[0]) + EncodeAll(msgs[1..])
  }

  /** What a sender can check before it sends. */
  ghost predicate Sendable(msg: seq<Byte>) { 1 <= |msg| < 0x1_0000_0000 && 0 !in msg }

  lemma DecodeEncoded(msg: seq<Byte>, rest: seq<Byte>)
    ensures Sendable(msg) ==> Decode(Encode(msg) + rest) == ([msg] + Decode(rest).0, Decode(rest).1)
    ensures !Sendable(msg) ==> var d := Decode(Encode(msg) + rest).0; d == [] || d[0] != msg
  {
    hide Digits, Value, CStr;
    var stream := Encode(msg) + rest;
    assert stream[..4] == ToBE32(|msg|);
    BE32RoundTrip(|msg|);
    var n := |msg| % 0x1_0000_0000;
    assert |msg| >= n;
    assert stream[4..4 + n] == msg[..n];
    CStrWhole(msg[..n]);
    if n == |msg| {
      assert msg[..n] == msg;
      assert stream[4 + n..] == rest;
    }
  }

  /** Main result: the stream of a list of messages decodes to that list exactly when every message is
      non-empty, NUL-free and shorter than 4 GiB. */
  lemma {:induction false} RoundTripExactly(msgs: seq<seq<Byte>>)
    ensures Decode(EncodeAll(msgs)) == (msgs, []) <==> forall i :: 0 <= i < |msgs| ==> Sendable(msgs[i])
  {
    if msgs == [] {
      assert Decode([]) == ([], []);
    } else {
      var m, tail := msgs[0], msgs[1..];
      DecodeEncoded(m, EncodeAll(tail));
      RoundTripExactly(tail);
      assert EncodeAll(msgs) == Encode(m) + EncodeAll(tail);
      hide Encode, Decode, EncodeAll, Sendable;
      SameHead(m, Decode(EncodeAll(tail)).0, msgs);
      assert (forall i :: 0 <= i < |msgs| ==> Sendable(msgs[i]))
        <==> Sendable(m) && (forall i :: 0 <= i < |tail| ==> Sendable(tail[i])) by {
        assert forall i :: 0 <= i < |tail| ==> tail[i] == msgs[i + 1];
        assert forall i :: 1 <= i < |msgs| ==> msgs[i] == tail[i - 1];
      }
    }
  }

  lemma SameHead<T>(x: T, d: seq<T>, s: seq<T>)
    requires s != [] && x == s[0]
    ensures [x] + d == s <==> d == s[1..]
  {
    assert [x] + d == s ==> d == ([x] + d)[1..];
    assert s == [s[0]] + s[1..];
  }

  /** Main result: fed with the frames of sendable messages, a receiver that has delivered some of them,
      through whatever pieces, has delivered a prefix of the list and still holds the rest. */
  lemma DeliveredIsPrefix(msgs: seq<seq<Byte>>, delivered: seq<seq<Byte>>, remaining: seq<Byte>)
    requires forall i :: 0 <= i < |msgs| ==> Sendable(msgs[i])
    requires Splits(EncodeAll(msgs), delivered, remaining)
    ensures delivered <= msgs && Decode(remaining) == (msgs[|delivered|..], [])
  {
    RoundTripExactly(msgs);
    assert msgs == delivered + Decode(remaining).0;
  }

  /** Main result: when the close is reported, what has been delivered is the whole list, and no byte is
      left over. */
  lemma ClosedMeansAllDelivered(msgs: seq<seq<Byte>>, delivered: seq<seq<Byte>>, remaining: seq<Byte>)
    requires forall i :: 0 <= i < |msgs| ==> Sendable(msgs[i])
    requires (delivered, remaining) == Decode(EncodeAll(msgs))
    ensures delivered == msgs && remaining == []
  {
    RoundTripExactly(msgs);
  }

  /** An empty message stops the receiver for good: no later message is ever delivered. */
  lemma EmptyMessageBlocksTheRest(msgs: seq<seq<Byte>>)
    ensures Decode(EncodeAll([[]] + msgs)) == ([], [0, 0, 0, 0] + EncodeAll(msgs))
  {
    assert ([[]] + msgs)[1..] == msgs;
    EmptyFrame();
    assert Encode([]) == [0, 0, 0, 0];
    assert EncodeAll([[]] + msgs) == [0, 0, 0, 0] + EncodeAll(msgs);
    assert EncodeAll([[]] + msgs)[..4] == [0, 0, 0, 0];
  }

  // ---------------------------------------------------------------- sending

  /** The sending end: a write accepts part of what it is given, or nothing. */
  class Outgoing {
    var written: seq<Byte>
    ghost var results: seq<int> // what the writes returned

    constructor ()
      ensures written == [] && results == []
    {
      written, results := [], [];
    }

    method Write(bytes: seq<Byte>) returns (n: int)
      modifies this
      ensures -1 <= n <= |bytes|
      ensures written == old(written) + (if n > 0 then bytes[..n] else []) && results == old(results) + [n]
    {
      n :| -1 <= n <= |bytes|;
      results := results + [n];
      if n > 0 {
        written := written + bytes[..n];
      }
    }

    /** send reports success only when the whole body was accepted; it does not look at how much of
        the header was, so the frame is whole exactly if the header was taken in one piece. Main result:
        the answer is that of the first write that accepted nothing, success exactly if the second one
        accepted the whole of a body that is not empty, and else a failure. */
    method Send(msg: seq<Byte>) returns (r: int)
      modifies this
      ensures r > 0 ==> r == |msg| + 4 && msg != []
      ensures r > 0 ==> exists k :: 1 <= k <= 4 && written == old(written) + ToBE32(|msg|)[..k] + msg
      ensures r > 0 ==>
        (written == old(written) + Encode(msg) <==> |written| == |old(written)| + 4 + |msg|)
      ensures old(results) < results
      ensures var ns := results[|old(results)|..];
        if ns[0] <= 0 then ns == [ns[0]] && r == ns[0]
        else
          && |ns| == 2
          && (ns[1] <= 0 ==> r == ns[1])
          && (ns[1] == |msg| > 0 ==> r == |msg| + 4)
          && (0 < ns[1] < |msg| ==> r == -1)
    {
      var header := ToBE32(|msg|);
      var n := Write(header);
      if n <= 0 {
        return n;
      }
      var k := n;
      n := Write(msg);
      if n <= 0 {
        return n;
      }
      if n != |msg| {
        return -1;
      }
      assert msg[..n] == msg;
      assert written == old(written) + header[..k] + msg;
      assert k == 4 ==> header[..k] == header && old(written) + header + msg == old(written) + Encode(msg);
      return n + 4;
    }
  }
}
