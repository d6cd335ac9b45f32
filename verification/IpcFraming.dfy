/** Length-prefixed framing over a byte stream that may arrive in pieces and may break off. */
module IpcFraming {
  import opened Common

  const MAX_MESSAGE_BYTES: nat := 4 * 1024 * 1024

  const HEADER: nat := 4

  datatype IoError = UnexpectedEof | OtherIo(code: nat)

  datatype IpcError = MessageTooLarge(size: nat) | ConnectionClosed | Io(error: IoError)

  /** `u32::to_be_bytes` */
  function ToBigEndian(n: nat): (b: ByteString)
    requires n < TWO_32
    ensures |b| == HEADER
  {
    [n / 0x100_0000, n / 0x1_0000 % 256, n / 256 % 256, n % 256]
  }

  /** `u32::from_be_bytes` */
  function FromBigEndian(b: ByteString): nat
    requires |b| == HEADER
  {
    var b0: nat, b1: nat, b2: nat, b3: nat := b[0], b[1], b[2], b[3];
    ((b0 * 256 + b1) * 256 + b2) * 256 + b3
  }

  lemma BigEndianRoundTrip(n: nat)
    requires n < TWO_32
    ensures FromBigEndian(ToBigEndian(n)) == n
  {
    assert n / 256 / 256 == n / 0x1_0000 && n / 0x1_0000 / 256 == n / 0x100_0000;
  }

  lemma BigEndianInverse(b: ByteString)
    requires |b| == HEADER
    ensures FromBigEndian(b) < TWO_32 && ToBigEndian(FromBigEndian(b)) == b
  {
    var b0: nat, b1: nat, b2: nat := b[0], b[1], b[2];
    var high := (b0 * 256 + b1) * 256 + b2;
    var n := FromBigEndian(b);
    assert n / 256 == high && n % 256 == b[3];
    assert high / 256 == b0 * 256 + b1 && high % 256 == b2;
    assert n / 0x1_0000 == high / 256 && n / 0x100_0000 == (high / 256) / 256;
  }

  /** The length field: a cast to 32 bits, big-endian. */
  function LengthField(size: nat): (b: ByteString)
    ensures |b| == HEADER
  {
    ToBigEndian(size % TWO_32)
  }

  /** The cast loses nothing of a size within the limit. */
  lemma LengthFieldIsExact(size: nat)
    requires size <= MAX_MESSAGE_BYTES
    ensures FromBigEndian(LengthField(size)) == size
  {
    assert size % TWO_32 == size;
    BigEndianRoundTrip(size);
  }

  function Frame(payload: ByteString): ByteString {
    LengthField(|payload|) + payload
  }

  // ------------------------------------------------------------- writing

  /** A peer that takes `room` more bytes and then breaks. */
  class ByteSink {
    var written: ByteString
    var room: nat
    const failure: IoError

    constructor (room: nat, failure: IoError)
      ensures written == [] && this.room == room && this.failure == failure
    {
      this.written, this.room, this.failure := [], room, failure;
    }

    method WriteAll(bytes: ByteString) returns (r: Result<(), IoError>)
      modifies this
      ensures written == old(written) + Take(bytes, old(room))
      ensures room == old(room) - |Take(bytes, old(room))|
      ensures r == if |bytes| <= old(room) then Success(()) else Failure(failure)
    {
      written := written + Take(bytes, room);
      r := if |bytes| <= room then Success(()) else Failure(failure);
      room := room - |Take(bytes, room)|;
    }

    /** `flushes` is whether the transport can flush now. */
    method Flush(flushes: bool) returns (r: Result<(), IoError>)
      ensures r == if flushes then Success(()) else Failure(failure)
    {
      r := if flushes then Success(()) else Failure(failure);
    }
  }

  /** A payload to send, and whether the flush behind it will succeed. */
  datatype Message = Message(payload: ByteString, flushes: bool)

  /** The bytes one send puts on the wire, and what it reports. */
  function Sending(m: Message, room: nat, failure: IoError): (ByteString, Result<(), IpcError>) {
    var frame := Frame(m.payload);
    if |m.payload| > MAX_MESSAGE_BYTES then ([], Failure(MessageTooLarge(|m.payload|)))
    else if |frame| <= room then (frame, if m.flushes then Success(()) else Failure(Io(failure)))
    else (frame[..room], Failure(Io(failure)))
  }

  method WriteFrame(sink: ByteSink, payload: ByteString, flushes: bool) returns (r: Result<(), IpcError>)
    modifies sink
    ensures var sent := Sending(Message(payload, flushes), old(sink.room), sink.failure);
      && sink.written == old(sink.written) + sent.0
      && sink.room == old(sink.room) - |sent.0|
      && r == sent.1
  {
    if |payload| > MAX_MESSAGE_BYTES {
      return Failure(MessageTooLarge(|payload|));
    }
    ghost var before, room := sink.written, sink.room;
    var header := LengthField(|payload|);
    var w := sink.WriteAll(header);
    if w.Failure? {
      return Failure(Io(w.error));
    }
    assert sink.written == before + header;
    w := sink.WriteAll(payload);
    assert Take(Frame(payload), room) == header + Take(payload, room - HEADER);
    Reassociate(before, header, Take(payload, room - HEADER));
    if w.Failure? {
      return Failure(Io(w.error));
    }
    w := sink.Flush(flushes);
    r := if w.Success? then Success(()) else Failure(Io(w.error));
  }

  /** A sender's whole session: what went on the wire, and the messages written to the last byte. */
  datatype Sent = Sent(wire: ByteString, written: seq<Message>)

  function Session(messages: seq<Message>, room: nat, failure: IoError): Sent {
    if messages == [] then Sent([], [])
    else
      var m, bytes := messages[0], Sending(messages[0], room, failure).0;
      var rest := Session(messages[1..], room - |bytes|, failure);
      Sent(bytes + rest.wire, if bytes == Frame(m.payload) then [m] + rest.written else rest.written)
  }

  function Payloads(messages: seq<Message>): seq<ByteString> {
    if messages == [] then [] else [messages[0].payload] + Payloads(messages[1..])
  }

  /** The payloads whose send succeeds, over a whole session. */
  function Acknowledged(messages: seq<Message>, room: nat, failure: IoError): seq<ByteString> {
    if messages == [] then []
    else
      var (bytes, r) := Sending(messages[0], room, failure);
      var rest := Acknowledged(messages[1..], room - |bytes|, failure);
      if r.Success? then [messages[0].payload] + rest else rest
  }

  // ------------------------------------------------------------- reading

  function Flatten(chunks: seq<ByteString>): ByteString {
    if chunks == [] then [] else chunks[0] + Flatten(chunks[1..])
  }

  lemma PushedBack(left: ByteString, chunks: seq<ByteString>)
    ensures Flatten((if left != [] then [left] else []) + chunks) == left + Flatten(chunks)
  {
    if left != [] {
      assert ([left] + chunks)[1..] == chunks;
    } else {
      assert [] + chunks == chunks;
    }
  }

  method Fill(buf: array<Byte>, at: nat, bytes: ByteString)
    requires at + |bytes| <= buf.Length
    modifies buf
    ensures buf[..at] == old(buf[..at])
    ensures buf[at..at + |bytes|] == bytes
  {
    for k := 0 to |bytes|
      invariant buf[..at] == old(buf[..at])
      invariant buf[at..at + k] == bytes[..k]
    {
      buf[at + k] := bytes[k];
    }
  }

  /** A stream that delivers its bytes in pieces of any size and then ends, cleanly or not. */
  class ByteSource {
    var chunks: seq<ByteString>
    const end: IoError

    ghost predicate Valid()
      reads this
    {
      forall i :: 0 <= i < |chunks| ==> chunks[i] != []
    }

    ghost function Unread(): ByteString
      reads this
    {
      Flatten(chunks)
    }

    constructor (chunks: seq<ByteString>, end: IoError)
      requires forall i :: 0 <= i < |chunks| ==> chunks[i] != []
      ensures Valid() && this.chunks == chunks && this.end == end
    {
      this.chunks, this.end := chunks, end;
    }

    /** One `read` into `buf` from index `at`: at least one byte unless the stream is over. */
    method Read(buf: array<Byte>, at: nat) returns (n: nat)
      requires Valid() && at < buf.Length
      modifies this, buf
      ensures Valid() && at + n <= buf.Length
      ensures buf[..at] == old(buf[..at])
      ensures old(Unread()) == buf[at..at + n] + Unread()
      ensures n == 0 <==> old(chunks) == []
    {
      if chunks == [] {
        assert buf[at..at + 0] + Unread() == Unread();
        return 0;
      }
      var first := chunks[0];
      n := |Take(first, buf.Length - at)|;
      Fill(buf, at, first[..n]);
      Reassociate(first[..n], first[n..], Flatten(chunks[1..]));
      assert first == first[..n] + first[n..];
      PushedBack(first[n..], chunks[1..]);
      chunks := (if first[n..] != [] then [first[n..]] else []) + chunks[1..];
    }

    /** `read_exact`: fills `buf`, however the bytes are split. */
    method ReadExact(buf: array<Byte>) returns (r: Result<(), IoError>)
      requires Valid()
      modifies this, buf
      ensures Valid()
      ensures r == if buf.Length <= |old(Unread())| then Success(()) else Failure(end)
      ensures Unread() == Drop(old(Unread()), buf.Length)
      ensures r.Success? ==> buf[..] == Take(old(Unread()), buf.Length)
    {
      ghost var all := Unread();
      var filled := 0;
      while filled < buf.Length
        invariant Valid() && 0 <= filled <= buf.Length
        invariant all == buf[..filled] + Unread()
        decreases buf.Length - filled
      {
        ghost var had, unread := buf[..filled], Unread();
        var n := Read(buf, filled);
        if n == 0 {
          return Failure(end);
        }
        assert buf[..filled + n] == had + buf[filled..filled + n];
        Reassociate(had, buf[filled..filled + n], Unread());
        filled := filled + n;
      }
      r := Success(());
    }
  }

  datatype Reading = Reading(result: Result<ByteString, IpcError>, rest: ByteString)

  /** One receive from a stream holding `s` and then ending with `end`. */
  function ReadOne(s: ByteString, end: IoError): Reading {
    if |s| < HEADER then Reading(Failure(if end == UnexpectedEof then ConnectionClosed else Io(end)), [])
    else ReadBody(FromBigEndian(s[..HEADER]), s[HEADER..], end)
  }

  /** The rest of the receive, once the header announced `size` bytes. */
  function ReadBody(size: nat, body: ByteString, end: IoError): Reading {
    if size > MAX_MESSAGE_BYTES then Reading(Failure(MessageTooLarge(size)), body)
    else if |body| < size then Reading(Failure(Io(end)), [])
    else Reading(Success(body[..size]), body[size..])
  }

  /** A receive sees only the bytes, never how they were split. */
  method ReadFrame(source: ByteSource) returns (r: Result<ByteString, IpcError>)
    requires source.Valid()
    modifies source
    ensures source.Valid()
    ensures Reading(r, source.Unread()) == ReadOne(old(source.Unread()), source.end)
  {
    ghost var all := source.Unread();
    var header := new Byte[HEADER];
    var got := source.ReadExact(header);
    if got.Failure? {
      return Failure(if got.error == UnexpectedEof then ConnectionClosed else Io(got.error));
    }
    var size := FromBigEndian(header[..]);
    ghost var body := all[HEADER..];
    assert header[..] == all[..HEADER] && source.Unread() == body;
    assert ReadOne(all, source.end) == ReadBody(size, body, source.end);
    if size > MAX_MESSAGE_BYTES {
      return Failure(MessageTooLarge(size));
    }
    var buf := new Byte[size];
    got := source.ReadExact(buf);
    if got.Failure? {
      return Failure(Io(got.error));
    }
    assert buf[..] == body[..size] && source.Unread() == body[size..];
    r := Success(buf[..]);
  }

  /** What a receiver gets by receiving until the first error, and that error. */
  datatype Received = Received(payloads: seq<ByteString>, error: IpcError)

  function Receive(s: ByteString, end: IoError): Received
    decreases |s|
  {
    var one := ReadOne(s, end);
    if one.result.Failure? then Received([], one.result.error)
    else
      var more := Receive(one.rest, end);
      Received([one.result.value] + more.payloads, more.error)
  }

  // ------------------------------------------------------ unique decoding

  predicate Legal(payloads: seq<ByteString>) {
    forall i :: 0 <= i < |payloads| ==> |payloads[i]| <= MAX_MESSAGE_BYTES
  }

  /** The concatenated frames. */
  function Stream(payloads: seq<ByteString>): ByteString {
    if payloads == [] then [] else Frame(payloads[0]) + Stream(payloads[1..])
  }

  /** One receive from a stream with a complete header. */
  lemma ReadAfterHeader(header: ByteString, body: ByteString, end: IoError)
    requires |header| == HEADER
    ensures ReadOne(header + body, end) == ReadBody(FromBigEndian(header), body, end)
  {
    assert (header + body)[..HEADER] == header && (header + body)[HEADER..] == body;
  }

  lemma ReadOneFrame(p: ByteString, tail: ByteString, end: IoError)
    requires |p| <= MAX_MESSAGE_BYTES
    ensures ReadOne(Frame(p) + tail, end) == Reading(Success(p), tail)
  {
    var header := LengthField(|p|);
    LengthFieldIsExact(|p|);
    Reassociate(header, p, tail);
    ReadAfterHeader(header, p + tail, end);
    assert (p + tail)[..|p|] == p && (p + tail)[|p|..] == tail;
  }

  /** The inverse: whatever is received was framed in exactly one way. */
  lemma ReadOneInverse(s: ByteString, end: IoError)
    requires ReadOne(s, end).result.Success?
    ensures var one := ReadOne(s, end);
      |one.result.value| <= MAX_MESSAGE_BYTES && s == Frame(one.result.value) + one.rest
  {
    var header, body := s[..HEADER], s[HEADER..];
    assert s == header + body;
    HeaderInverse(header);
    BodyInverse(FromBigEndian(header), body, end);
    var one := ReadBody(FromBigEndian(header), body, end);
    Reassociate(header, one.result.value, one.rest);
  }

  lemma HeaderInverse(b: ByteString)
    requires |b| == HEADER
    ensures LengthField(FromBigEndian(b)) == b
  {
    BigEndianInverse(b);
    assert FromBigEndian(b) % TWO_32 == FromBigEndian(b);
  }

  lemma BodyInverse(size: nat, body: ByteString, end: IoError)
    requires ReadBody(size, body, end).result.Success?
    ensures var one := ReadBody(size, body, end);
      |one.result.value| == size <= MAX_MESSAGE_BYTES && body == one.result.value + one.rest
  {
  }

  lemma FrameComesFirst(p: ByteString, tail: ByteString, end: IoError)
    requires |p| <= MAX_MESSAGE_BYTES
    ensures Receive(Frame(p) + tail, end) == Received([p] + Receive(tail, end).payloads, Receive(tail, end).error)
  {
    ReadOneFrame(p, tail, end);
  }

  /** Frames in front of any stream are received first, unchanged, and the rest as if alone. */
  lemma {:induction false} FramesComeFirst(payloads: seq<ByteString>, tail: ByteString, end: IoError)
    requires Legal(payloads)
    ensures var all, rest := Receive(Stream(payloads) + tail, end), Receive(tail, end);
      all == Received(payloads + rest.payloads, rest.error)
  {
    if payloads == [] {
      assert Stream(payloads) + tail == tail;
    } else {
      var p, others := payloads[0], payloads[1..];
      Reassociate(Frame(p), Stream(others), tail);
      FrameComesFirst(p, Stream(others) + tail, end);
      FramesComeFirst(others, tail, end);
      Reassociate([p], others, Receive(tail, end).payloads);
      assert [p] + others == payloads;
    }
  }

  /** Receiving a whole conversation returns it, then reports a closed connection. */
  lemma RoundTrip(payloads: seq<ByteString>)
    requires Legal(payloads)
    ensures Receive(Stream(payloads), UnexpectedEof) == Received(payloads, ConnectionClosed)
  {
    FramesComeFirst(payloads, [], UnexpectedEof);
    assert Stream(payloads) + [] == Stream(payloads);
  }

  /**
   * What is received, exactly: `got` iff the stream is the frames of `got.payloads` and then
   * something on which a receive reports `got.error`.
   */
  lemma {:induction false} ReceiveIff(s: ByteString, end: IoError, got: Received)
    ensures Receive(s, end) == got <==>
      (Legal(got.payloads) && exists rest :: s == Stream(got.payloads) + rest && ReadOne(rest, end).result == Failure(got.error))
    decreases |s|
  {
    var one := ReadOne(s, end);
    if Receive(s, end) == got {
      var _ := Remainder(s, end);
    }
    if rest :| Legal(got.payloads) && s == Stream(got.payloads) + rest && ReadOne(rest, end).result == Failure(got.error) {
      FramesComeFirst(got.payloads, rest, end);
      assert got.payloads + [] == got.payloads;
    }
  }

  lemma {:induction false} Remainder(s: ByteString, end: IoError) returns (rest: ByteString)
    ensures var got := Receive(s, end);
      Legal(got.payloads) && s == Stream(got.payloads) + rest && ReadOne(rest, end).result == Failure(got.error)
    decreases |s|
  {
    var one := ReadOne(s, end);
    if one.result.Failure? {
      rest := s;
      assert [] + s == s;
    } else {
      ReadOneInverse(s, end);
      rest := Remainder(one.rest, end);
      var more := Receive(one.rest, end).payloads;
      Reassociate(Frame(one.result.value), Stream(more), rest);
      assert ([one.result.value] + more)[1..] == more;
    }
  }

  /** No conversation's bytes begin with another's unless the conversation does: the code is prefix-free. */
  lemma PrefixFree(ps: seq<ByteString>, qs: seq<ByteString>)
    requires Legal(ps) && Legal(qs)
    ensures Stream(ps) <= Stream(qs) <==> ps <= qs
  {
    if Stream(ps) <= Stream(qs) {
      var tail := Stream(qs)[|Stream(ps)|..];
      assert Stream(qs) == Stream(ps) + tail;
      FramesComeFirst(ps, tail, UnexpectedEof);
      RoundTrip(qs);
    }
    if ps <= qs {
      assert qs == ps + qs[|ps|..];
      StreamOfAppend(ps, qs[|ps|..]);
    }
  }

  lemma {:induction false} StreamOfAppend(ps: seq<ByteString>, qs: seq<ByteString>)
    ensures Stream(ps + qs) == Stream(ps) + Stream(qs)
  {
    if ps == [] {
      assert ps + qs == qs;
    } else {
      assert (ps + qs)[1..] == ps[1..] + qs;
      StreamOfAppend(ps[1..], qs);
      Reassociate(Frame(ps[0]), Stream(ps[1..]), Stream(qs));
    }
  }

  // ------------------------------------------------------------ truncation

  /** Exactly the first `n` frames lie within the first `cut` bytes. */
  predicate WholeFrames(payloads: seq<ByteString>, cut: nat, n: nat) {
    && n <= |payloads|
    && |Stream(payloads[..n])| <= cut
    && (n < |payloads| ==> cut < |Stream(payloads[..n])| + |Frame(payloads[n])|)
  }

  /** A stream cut inside a frame of `p`: a cut header looks like an orderly close, a cut body does not. */
  lemma ReadPartFrame(p: ByteString, cut: nat)
    requires |p| <= MAX_MESSAGE_BYTES && cut < |Frame(p)|
    ensures ReadOne(Frame(p)[..cut], UnexpectedEof).result
            == Failure(if cut < HEADER then ConnectionClosed else Io(UnexpectedEof))
  {
    if HEADER <= cut {
      var header, part := LengthField(|p|), p[..cut - HEADER];
      LengthFieldIsExact(|p|);
      assert Frame(p)[..cut] == header + part;
      ReadAfterHeader(header, part, UnexpectedEof);
    }
  }

  /**
   * A conversation cut anywhere yields exactly the messages that lie wholly before the cut, and
   * then an error; the error is an orderly close iff the cut is fewer than four bytes past a frame.
   */
  lemma Truncation(payloads: seq<ByteString>, cut: nat, n: nat)
    requires Legal(payloads) && cut <= |Stream(payloads)| && WholeFrames(payloads, cut, n)
    ensures Receive(Stream(payloads)[..cut], UnexpectedEof)
      == Received(payloads[..n], if cut - |Stream(payloads[..n])| < HEADER then ConnectionClosed else Io(UnexpectedEof))
  {
    var front, back := payloads[..n], payloads[n..];
    assert payloads == front + back;
    StreamOfAppend(front, back);
    assert |Stream(payloads)| == |Stream(front)| + |Stream(back)|;
    var tail := Stream(back)[..cut - |Stream(front)|];
    assert Stream(payloads)[..cut] == Stream(front) + tail;
    FramesComeFirst(front, tail, UnexpectedEof);
    if n < |payloads| {
      assert tail == Frame(payloads[n])[..|tail|];
      ReadPartFrame(payloads[n], |tail|);
    }
    assert front + [] == front;
  }

  lemma {:induction false} WholeFramesExist(payloads: seq<ByteString>, cut: nat) returns (n: nat)
    ensures WholeFrames(payloads, cut, n)
  {
    if payloads == [] || cut < |Frame(payloads[0])| {
      n := 0;
    } else {
      var m := WholeFramesExist(payloads[1..], cut - |Frame(payloads[0])|);
      n := m + 1;
      assert payloads[..n] == [payloads[0]] + payloads[1..][..m];
    }
  }

  // ------------------------------------------------------------- both ends

  lemma {:induction false} BrokenSinkTakesNothing(messages: seq<Message>, failure: IoError)
    ensures Session(messages, 0, failure) == Sent([], []) && Acknowledged(messages, 0, failure) == []
  {
    if messages == [] {
    } else {
      BrokenSinkTakesNothing(messages[1..], failure);
    }
  }

  /** The three ways a session goes on from its first send. */
  lemma SessionStep(m: Message, others: seq<Message>, room: nat, failure: IoError)
    ensures var sent := Session([m] + others, room, failure);
      if |m.payload| > MAX_MESSAGE_BYTES then sent == Session(others, room, failure)
      else if |Frame(m.payload)| <= room then
        var rest := Session(others, room - |Frame(m.payload)|, failure);
        sent == Sent(Frame(m.payload) + rest.wire, [m] + rest.written)
      else sent == Sent(Frame(m.payload)[..room], [])
    ensures var told := Acknowledged([m] + others, room, failure);
      if |m.payload| > MAX_MESSAGE_BYTES then told == Acknowledged(others, room, failure)
      else if |Frame(m.payload)| <= room then
        var rest := Acknowledged(others, room - |Frame(m.payload)|, failure);
        told == if m.flushes then [m.payload] + rest else rest
      else told == []
  {
    var p := m.payload;
    assert ([m] + others)[1..] == others;
    if |p| > MAX_MESSAGE_BYTES {
      assert [] + Session(others, room, failure).wire == Session(others, room, failure).wire;
    } else if |Frame(p)| > room {
      BrokenSinkTakesNothing(others, failure);
      assert Frame(p)[..room] + [] == Frame(p)[..room];
    }
  }

  /**
   * End to end, for any messages, oversized ones included, over a connection that may break after any
   * byte: the receiver gets exactly the messages written to the last byte, in order, and then an error.
   */
  lemma {:induction false} ReceivedIsWritten(messages: seq<Message>, room: nat, failure: IoError)
    ensures var sent := Session(messages, room, failure);
      var got := Receive(sent.wire, UnexpectedEof);
      got.payloads == Payloads(sent.written) && !got.error.MessageTooLarge?
  {
    if messages == [] {
    } else {
      var m, others := messages[0], messages[1..];
      assert messages == [m] + others;
      SessionStep(m, others, room, failure);
      if |m.payload| > MAX_MESSAGE_BYTES {
        ReceivedIsWritten(others, room, failure);
      } else if |Frame(m.payload)| <= room {
        var rest := Session(others, room - |Frame(m.payload)|, failure);
        ReceivedIsWritten(others, room - |Frame(m.payload)|, failure);
        FrameComesFirst(m.payload, rest.wire, UnexpectedEof);
        assert ([m] + rest.written)[1..] == rest.written;
      } else {
        ReadPartFrame(m.payload, room);
      }
    }
  }

  function Flushed(messages: seq<Message>): seq<Message> {
    if messages == [] then []
    else if messages[0].flushes then [messages[0]] + Flushed(messages[1..])
    else Flushed(messages[1..])
  }

  /** A send succeeds exactly for a message written to the last byte and flushed. */
  lemma {:induction false} AcknowledgedIsFlushed(messages: seq<Message>, room: nat, failure: IoError)
    ensures Acknowledged(messages, room, failure) == Payloads(Flushed(Session(messages, room, failure).written))
  {
    if messages == [] {
    } else {
      var m, others := messages[0], messages[1..];
      assert messages == [m] + others;
      SessionStep(m, others, room, failure);
      if |m.payload| > MAX_MESSAGE_BYTES {
        AcknowledgedIsFlushed(others, room, failure);
      } else if |Frame(m.payload)| <= room {
        var rest := Session(others, room - |Frame(m.payload)|, failure).written;
        AcknowledgedIsFlushed(others, room - |Frame(m.payload)|, failure);
        assert ([m] + rest)[1..] == rest && ([m] + Flushed(rest))[1..] == Flushed(rest);
      }
    }
  }

  /**
   * So the receiver gets exactly the messages whose send succeeded if and only if no flush failed
   * behind a message that was written; a failed flush reports a loss that did not happen.
   */
  lemma ReceivedIsAcknowledgedIff(messages: seq<Message>, room: nat, failure: IoError)
    ensures var written := Session(messages, room, failure).written;
      Receive(Session(messages, room, failure).wire, UnexpectedEof).payloads == Acknowledged(messages, room, failure)
      <==> forall i :: 0 <= i < |written| ==> written[i].flushes
  {
    ReceivedIsWritten(messages, room, failure);
    AcknowledgedIsFlushed(messages, room, failure);
    FlushedLength(Session(messages, room, failure).written);
  }

  lemma {:induction false} FlushedLength(messages: seq<Message>)
    ensures |Payloads(messages)| == |messages| && |Flushed(messages)| <= |messages|
    ensures |Payloads(Flushed(messages))| == |Flushed(messages)|
    ensures (forall i :: 0 <= i < |messages| ==> messages[i].flushes) ==> Flushed(messages) == messages
    ensures |Flushed(messages)| == |messages| ==> forall i :: 0 <= i < |messages| ==> messages[i].flushes
  {
    if messages == [] {
    } else {
      var rest := messages[1..];
      FlushedLength(rest);
      assert messages == [messages[0]] + rest;
      assert ([messages[0]] + Flushed(rest))[1..] == Flushed(rest);
    }
  }

  /** On a connection with room for everything, what is written is what is within the limit. */
  lemma {:induction false} WrittenIff(messages: seq<Message>, room: nat, failure: IoError)
    requires |Stream(Payloads(WithinLimit(messages)))| <= room
    ensures Session(messages, room, failure) == Sent(Stream(Payloads(WithinLimit(messages))), WithinLimit(messages))
  {
    if messages == [] {
    } else {
      var m, others := messages[0], messages[1..];
      var p, rest := m.payload, WithinLimit(others);
      assert messages == [m] + others;
      SessionStep(m, others, room, failure);
      if |p| <= MAX_MESSAGE_BYTES {
        assert ([m] + rest)[1..] == rest && ([p] + Payloads(rest))[1..] == Payloads(rest);
        WrittenIff(others, room - |Frame(p)|, failure);
      } else {
        WrittenIff(others, room, failure);
      }
    }
  }

  function WithinLimit(messages: seq<Message>): seq<Message> {
    if messages == [] then []
    else if |messages[0].payload| <= MAX_MESSAGE_BYTES then [messages[0]] + WithinLimit(messages[1..])
    else WithinLimit(messages[1..])
  }

  // ------------------------------------------------------- the header itself

  /** Earlier bytes count first. */
  predicate LexLess(b: ByteString, c: ByteString)
    requires |b| == |c|
  {
    b != [] && (b[0] < c[0] || (b[0] == c[0] && LexLess(b[1..], c[1..])))
  }

  /** Big-endian: headers compare byte by byte from the front as the numbers they hold. */
  lemma HeaderOrder(b: ByteString, c: ByteString)
    requires |b| == |c| == HEADER
    ensures FromBigEndian(b) < FromBigEndian(c) <==> LexLess(b, c)
  {
    var b1, b2, b3 := b[1..], b[1..][1..], b[1..][1..][1..];
    var c1, c2, c3 := c[1..], c[1..][1..], c[1..][1..][1..];
    assert b1[0] == b[1] && b2[0] == b[2] && b3[0] == b[3] && b3[1..] == [];
    assert c1[0] == c[1] && c2[0] == c[2] && c3[0] == c[3] && c3[1..] == [];
    assert LexLess(b3, c3) <==> b[3] < c[3];
    assert LexLess(b2, c2) <==> b[2] < c[2] || (b[2] == c[2] && b[3] < c[3]);
    assert LexLess(b1, c1) <==> b[1] < c[1] || (b[1] == c[1] && LexLess(b2, c2));
  }

  /** A header over the limit is answered with the size it names, and no byte behind it is read. */
  lemma OversizedHeader(size: nat, body: ByteString, end: IoError)
    requires MAX_MESSAGE_BYTES < size < TWO_32
    ensures ReadOne(ToBigEndian(size) + body, end) == Reading(Failure(MessageTooLarge(size)), body)
  {
    BigEndianRoundTrip(size);
    ReadAfterHeader(ToBigEndian(size), body, end);
  }
}
