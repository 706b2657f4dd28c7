/** Frames on a byte stream (tcp/tcp.go, readFrame). */
module TcpFraming {
  import opened Bytes
  import opened Buffers
  import opened SomeIp
  import opened Results
  import opened Codec

  const MAX_FRAME_SIZE: int := 0x400_0000

  datatype ReadError =
    | EndOfInput
    | UnexpectedEnd
    | ReaderFailed
    | MalformedMessage
    | PayloadTooLarge
    | Undecodable(error: DecodeError)

  /** How the bytes of a reader end: the input is over, or reading fails with an error of its own. */
  datatype End = Over | Broken

  /** io.ReadFull for n > 0: all n bytes, or an error that tells whether any byte was read before the input
      was over; an error of the reader is passed on. */
  function Take(stream: seq<byte>, n: nat, end: End): (Result<seq<byte>, ReadError>, seq<byte>) {
    if |stream| >= n then (Success(stream[..n]), stream[n..])
    else if end == Broken then (Failure(ReaderFailed), [])
    else if stream == [] then (Failure(EndOfInput), [])
    else (Failure(UnexpectedEnd), [])
  }

  /** One readFrame: what it returns and what it leaves on the stream. */
  function NextFrame(stream: seq<byte>, end: End): (r: (Result<Message, ReadError>, seq<byte>))
    ensures |r.1| <= |stream|
    ensures r.0.Success? ==> |r.1| < |stream|
  {
    var (hdr, rest) := Take(stream, HEADER_SIZE, end);
    if hdr.Failure? then (Failure(hdr.error), rest)
    else
      var length: int := U32(hdr.value[4..]);
      if length < 8 then (Failure(MalformedMessage), rest)
      else if HEADER_SIZE + (length - 8) > MAX_FRAME_SIZE then (Failure(PayloadTooLarge), rest)
      else
        var (payload, rest') := if length > 8 then Take(rest, length - 8, end) else (Success([]), rest);
        if payload.Failure? then (Failure(payload.error), rest')
        else
          match Decode(hdr.value + payload.value)
          case Success(msg) => (Success(msg), rest')
          case Failure(error) => (Failure(Undecodable(error)), rest')
  }

  // ---------------------------------------------------------------- readFrame on a reader

  class Reader {
    var rest: seq<byte>
    const end: End

    constructor (bytes: seq<byte>, end: End)
      ensures rest == bytes && this.end == end
    {
      rest := bytes;
      this.end := end;
    }

    method ReadFull(n: nat) returns (r: Result<seq<byte>, ReadError>)
      modifies this
      ensures (r, rest) == Take(old(rest), n, end)
    {
      if |rest| >= n {
        r, rest := Success(rest[..n]), rest[n..];
      } else {
        r := Failure(if end == Broken then ReaderFailed else if rest == [] then EndOfInput else UnexpectedEnd);
        rest := [];
      }
    }
  }

  method ReadFrame(conn: Reader) returns (r: Result<Message, ReadError>)
    modifies conn
    ensures (r, conn.rest) == NextFrame(old(conn.rest), conn.end)
  {
    hide Decode;
    var header := conn.ReadFull(HEADER_SIZE);
    if header.Failure? {
      return Failure(header.error);
    }
    var hdr := header.value;
    var length: int := U32(hdr[4..]);
    if length < 8 {
      return Failure(MalformedMessage);
    }
    var payloadLen := length - 8;
    if HEADER_SIZE + payloadLen > MAX_FRAME_SIZE {
      return Failure(PayloadTooLarge);
    }
    var frame := new byte[HEADER_SIZE + payloadLen](_ => 0);
    Copy(frame, 0, hdr);
    if payloadLen > 0 {
      var payload := conn.ReadFull(payloadLen);
      if payload.Failure? {
        return Failure(payload.error);
      }
      Copy(frame, HEADER_SIZE, payload.value);
      assert frame[..] == hdr + payload.value;
    } else {
      assert frame[..] == hdr + [];
    }
    var decoded := Decode(frame[..]);
    match decoded
    case Success(msg) => return Success(msg);
    case Failure(error) => return Failure(Undecodable(error));
  }

  // ---------------------------------------------------------------- framing is exact

  /** What readFrame can return: a canonical message whose frame is within the limit. */
  predicate Receivable(msg: Message) {
    msg.protocolVersion == PROTOCOL_VERSION && HEADER_SIZE + |msg.payload| <= MAX_FRAME_SIZE
  }

  /** readFrame returns msg and leaves rest exactly when the stream is msg's frame followed by rest. */
  lemma NextFrameIff(stream: seq<byte>, end: End, msg: Message, rest: seq<byte>)
    ensures NextFrame(stream, end) == (Success(msg), rest) <==> stream == Frame(msg) + rest && Receivable(msg)
  {
    hide U32, BE16, BE32, LengthField, Decode;
    if NextFrame(stream, end) == (Success(msg), rest) {
      NextFrameSound(stream, end, msg, rest);
    }
    if stream == Frame(msg) + rest && Receivable(msg) {
      NextFrameComplete(end, msg, rest);
    }
  }

  lemma NextFrameSound(stream: seq<byte>, end: End, msg: Message, rest: seq<byte>)
    requires NextFrame(stream, end) == (Success(msg), rest)
    ensures stream == Frame(msg) + rest && Receivable(msg)
  {
    hide U32, Decode, Frame;
    var hdr := stream[..HEADER_SIZE];
    var n := U32(hdr[4..]) - 8;
    var frame := stream[..HEADER_SIZE + n];
    assert stream == frame + stream[HEADER_SIZE + n..];
    assert hdr + stream[HEADER_SIZE..][..n] == frame;
    assert stream[HEADER_SIZE..][n..] == stream[HEADER_SIZE + n..];
    assert hdr + [] == hdr;
    assert Decode(frame) == Success(msg);
    FrameOfDecode(frame);
  }

  lemma NextFrameComplete(end: End, msg: Message, rest: seq<byte>)
    requires Receivable(msg)
    ensures NextFrame(Frame(msg) + rest, end) == (Success(msg), rest)
  {
    hide U32, BE16, BE32, Decode;
    var stream := Frame(msg) + rest;
    var hdr := stream[..HEADER_SIZE];
    var n := |msg.payload|;
    FrameFields(msg, []);
    assert Frame(msg) + [] == Frame(msg);
    assert hdr == Header(msg);
    HeaderLength(msg);
    assert stream[HEADER_SIZE..] == msg.payload + rest;
    assert hdr + msg.payload == Frame(msg);
    DecodeOfFrame(msg);
  }

  lemma HeaderLength(msg: Message)
    ensures U32(Header(msg)[4..]) == LengthField(msg.payload)
  {
    hide U32, BE16, BE32, LengthField;
    var last := [PROTOCOL_VERSION, msg.interfaceVersion, msg.messageType, msg.returnCode];
    var tail := BE16(msg.clientID) + BE16(msg.sessionID) + last;
    assert Header(msg)[4..] == BE32(LengthField(msg.payload)) + tail;
    U32OfBE32(LengthField(msg.payload), tail);
  }

  /** When readFrame fails, and with what: the input is over, breaks or ends too early; the header announces
      less than a header or more than 64 MiB; or the version is not 1. */
  lemma FailuresInNumbers(stream: seq<byte>, end: End)
    ensures var r := NextFrame(stream, end).0;
      if |stream| < 16 then
        r == Failure(if end == Broken then ReaderFailed else if |stream| == 0 then EndOfInput else UnexpectedEnd)
      else
        var length := Number(stream[4..8]);
        if length < 8 then r == Failure(MalformedMessage)
        else if length > 67108856 then r == Failure(PayloadTooLarge)
        else if |stream| < 8 + length then
          r == Failure(if end == Broken then ReaderFailed else if |stream| == 16 then EndOfInput else UnexpectedEnd)
        else if stream[12] != 1 then r == Failure(Undecodable(WrongProtocolVersion))
        else r.Success?
  {
    hide U32, Number, Decode;
    if |stream| >= 16 {
      var hdr := stream[..16];
      NumberIs(hdr[4..]);
      assert stream[4..8] == hdr[4..][..4];
      var length := Number(stream[4..8]);
      if 8 <= length <= 67108856 && |stream| >= 8 + length {
        var payload := if length > 8 then stream[16..][..length - 8] else [];
        var frame := hdr + payload;
        DecodeInNumbers(frame);
        assert frame[4..8] == stream[4..8] && frame[12] == stream[12];
      }
    }
  }

  // ---------------------------------------------------------------- a whole stream

  /** The read loop: messages until the first error. */
  function ReadAll(stream: seq<byte>, end: End): (seq<Message>, ReadError)
    decreases |stream|
  {
    var (r, rest) := NextFrame(stream, end);
    match r
    case Failure(error) => ([], error)
    case Success(msg) =>
      var (msgs, error) := ReadAll(rest, end);
      ([msg] + msgs, error)
  }

  function Frames(msgs: seq<Message>): seq<byte> {
    if msgs == [] then [] else Frame(msgs[0]) + Frames(msgs[1..])
  }

  predicate Announces(tail: seq<byte>, payloadLen: int) {
    |tail| >= HEADER_SIZE && U32(tail[4..]) == 8 + payloadLen &&
    0 <= payloadLen && HEADER_SIZE + payloadLen <= MAX_FRAME_SIZE
  }

  /** A stream that ends cleanly, or right behind a header that announces a payload: io.ReadFull reports
      the end of input in both cases. */
  predicate CleanEnd(tail: seq<byte>) {
    tail == [] || (|tail| == HEADER_SIZE && U32(tail[4..]) > 8 && Announces(tail, U32(tail[4..]) - 8))
  }

  /** A stream that ends inside a frame, or between two. */
  predicate CutShort(tail: seq<byte>) {
    |tail| < HEADER_SIZE ||
    (U32(tail[4..]) >= 8 && Announces(tail, U32(tail[4..]) - 8) && |tail| < 8 + U32(tail[4..]))
  }

  lemma EndIff(stream: seq<byte>)
    ensures NextFrame(stream, Over).0 == Failure(EndOfInput) <==> CleanEnd(stream)
    ensures NextFrame(stream, Broken).0 == Failure(ReaderFailed) <==> CutShort(stream)
  {
    hide U32, Decode;
    if |stream| >= HEADER_SIZE {
      SameLength(stream);
    }
  }

  lemma SameLength(stream: seq<byte>)
    requires |stream| >= HEADER_SIZE
    ensures U32(stream[..HEADER_SIZE][4..]) == U32(stream[4..])
  {
    assert stream[..HEADER_SIZE][4..][2..] == stream[6..HEADER_SIZE] && stream[4..][2..] == stream[6..];
  }

  /** The stream is the frames of msgs, then a tail on which readFrame reports the error. */
  ghost predicate StreamOf(stream: seq<byte>, end: End, msgs: seq<Message>, tail: seq<byte>, error: ReadError) {
    && NextFrame(tail, end).0 == Failure(error)
    && stream == Frames(msgs) + tail && forall m | m in msgs :: Receivable(m)
  }

  lemma {:induction false} ReadAllComplete(end: End, msgs: seq<Message>, tail: seq<byte>, error: ReadError)
    requires NextFrame(tail, end).0 == Failure(error) && forall m | m in msgs :: Receivable(m)
    ensures ReadAll(Frames(msgs) + tail, end) == (msgs, error)
    decreases |msgs|
  {
    hide NextFrame, Frame;
    var stream := Frames(msgs) + tail;
    if msgs == [] {
      assert stream == tail;
    } else {
      assert stream == Frame(msgs[0]) + (Frames(msgs[1..]) + tail);
      NextFrameComplete(end, msgs[0], Frames(msgs[1..]) + tail);
      ReadAllComplete(end, msgs[1..], tail, error);
      assert NextFrame(stream, end) == (Success(msgs[0]), Frames(msgs[1..]) + tail);
      assert [msgs[0]] + msgs[1..] == msgs;
    }
  }

  lemma {:induction false} ReadAllSound(stream: seq<byte>, end: End) returns (tail: seq<byte>)
    ensures StreamOf(stream, end, ReadAll(stream, end).0, tail, ReadAll(stream, end).1)
    decreases |stream|
  {
    hide NextFrame, Frame;
    var (r, rest) := NextFrame(stream, end);
    if r.Failure? {
      tail := stream;
      assert Frames([]) + tail == tail;
    } else {
      tail := ReadAllSound(rest, end);
      var msgs := ReadAll(rest, end).0;
      NextFrameSound(stream, end, r.value, rest);
      assert ([r.value] + msgs)[1..] == msgs;
      assert stream == Frame(r.value) + (Frames(msgs) + tail) == Frames([r.value] + msgs) + tail;
    }
  }

  /** Reading a stream until an error yields exactly the messages whose frames stand before the tail that
      causes it. */
  lemma ReadAllIff(stream: seq<byte>, end: End, msgs: seq<Message>, error: ReadError)
    ensures ReadAll(stream, end) == (msgs, error) <==> exists tail :: StreamOf(stream, end, msgs, tail, error)
  {
    hide NextFrame, Frame;
    if ReadAll(stream, end) == (msgs, error) {
      var tail := ReadAllSound(stream, end);
    }
    if tail :| StreamOf(stream, end, msgs, tail, error) {
      ReadAllComplete(end, msgs, tail, error);
    }
  }

  /** Messages of any contents within the limit come through a stream unchanged but for the version, whether
      it then is over or breaks. */
  lemma FramesComeThrough(msgs: seq<Message>, end: End)
    requires forall m | m in msgs :: |m.payload| <= 67108848
    ensures ReadAll(Frames(msgs), end) ==
      (seq(|msgs|, i requires 0 <= i < |msgs| => Normal(msgs[i])), if end == Over then EndOfInput else ReaderFailed)
  {
    hide NextFrame, Frame, ReadAll;
    var normal := seq(|msgs|, i requires 0 <= i < |msgs| => Normal(msgs[i]));
    NormalFrames(msgs, normal);
    EndIff([]);
    ReadAllComplete(end, normal, [], if end == Over then EndOfInput else ReaderFailed);
    assert Frames(normal) + [] == Frames(normal);
  }

  lemma {:induction false} NormalFrames(msgs: seq<Message>, normal: seq<Message>)
    requires |normal| == |msgs| && forall i | 0 <= i < |msgs| :: normal[i] == Normal(msgs[i])
    ensures Frames(normal) == Frames(msgs)
    decreases |msgs|
  {
    hide BE16, BE32;
    if msgs != [] {
      NormalFrames(msgs[1..], normal[1..]);
    }
  }
}
