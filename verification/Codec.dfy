/** The SOME/IP wire frame (codec/codec.go). */
module Codec {
  import opened Bytes
  import opened Buffers
  import opened SomeIp
  import opened Results

  const HEADER_SIZE: int := 16
  const MIN_LENGTH: int := 8

  datatype DecodeError = ShortFrame | LengthMismatch | WrongProtocolVersion

  /** The Length field counts ClientID to the end of the payload; it is stored modulo 2^32. */
  function LengthField(payload: seq<byte>): uint32 {
    (MIN_LENGTH + |payload|) % 0x1_0000_0000
  }

  function Header(msg: Message): (h: seq<byte>)
    ensures |h| == HEADER_SIZE
  {
    BE16(msg.serviceID) + BE16(msg.methodID) + BE32(LengthField(msg.payload)) +
    BE16(msg.clientID) + BE16(msg.sessionID) +
    [PROTOCOL_VERSION, msg.interfaceVersion, msg.messageType, msg.returnCode]
  }

  /** The bytes of a message on the wire: every frame carries the canonical protocol version. */
  function Frame(msg: Message): (f: seq<byte>)
    ensures |f| == HEADER_SIZE + |msg.payload|
  {
    Header(msg) + msg.payload
  }

  function Decode(b: seq<byte>): Result<Message, DecodeError> {
    if |b| < HEADER_SIZE then Failure(ShortFrame)
    else
      var length: int := U32(b[4..]);
      if length < MIN_LENGTH then Failure(LengthMismatch)
      else if |b| != 8 + length then Failure(LengthMismatch)
      else if b[12] != PROTOCOL_VERSION then Failure(WrongProtocolVersion)
      else
        Success(Message(U16(b), U16(b[2..]), U16(b[8..]), U16(b[10..]), b[12], b[13], b[14], b[15], b[HEADER_SIZE..]))
  }

  // ---------------------------------------------------------------- the two are inverse

  /** The message as a receiver sees it. */
  function Normal(msg: Message): Message {
    msg.(protocolVersion := PROTOCOL_VERSION)
  }

  /** The Length field can express the frame. */
  predicate Encodable(msg: Message) {
    MIN_LENGTH + |msg.payload| < 0x1_0000_0000
  }

  lemma FrameFields(msg: Message, rest: seq<byte>)
    ensures var b := Frame(msg) + rest;
      && U16(b) == msg.serviceID && U16(b[2..]) == msg.methodID && U32(b[4..]) == LengthField(msg.payload)
      && U16(b[8..]) == msg.clientID && U16(b[10..]) == msg.sessionID
      && b[12..16] == [PROTOCOL_VERSION, msg.interfaceVersion, msg.messageType, msg.returnCode]
      && b[16..] == msg.payload + rest
  {
    hide U16, U32, BE16, BE32, LengthField, Frame;
    var b := Frame(msg) + rest;
    var t16 := msg.payload + rest;
    var t12 := [PROTOCOL_VERSION, msg.interfaceVersion, msg.messageType, msg.returnCode] + t16;
    var t10 := BE16(msg.sessionID) + t12;
    var t8 := BE16(msg.clientID) + t10;
    var t4 := BE32(LengthField(msg.payload)) + t8;
    var t2 := BE16(msg.methodID) + t4;
    FrameNested(msg, rest);
    assert b[2..] == t2 && t2[2..] == t4 && t4[4..] == t8 && t8[2..] == t10 && t10[2..] == t12 && t12[4..] == t16;
    assert b[4..] == t2[2..];
    assert b[8..] == t4[4..] && b[10..] == t8[2..] && b[12..] == t10[2..] && b[16..] == t12[4..];
    U16OfBE16(msg.serviceID, t2);
    U16OfBE16(msg.methodID, t4);
    U32OfBE32(LengthField(msg.payload), t8);
    U16OfBE16(msg.clientID, t10);
    U16OfBE16(msg.sessionID, t12);
    assert b[12..16] == b[12..][..4] == t12[..4];
  }

  lemma FrameNested(msg: Message, rest: seq<byte>)
    ensures Frame(msg) + rest ==
      BE16(msg.serviceID) + (BE16(msg.methodID) + (BE32(LengthField(msg.payload)) +
      (BE16(msg.clientID) + (BE16(msg.sessionID) +
      ([PROTOCOL_VERSION, msg.interfaceVersion, msg.messageType, msg.returnCode] + (msg.payload + rest))))))
  {
    hide BE16, BE32, LengthField;
  }

  /** Decoding an encoded message gives it back, with the protocol version made canonical, exactly when
      the Length field does not wrap. */
  lemma DecodeOfFrame(msg: Message)
    ensures Decode(Frame(msg)) == Success(Normal(msg)) <==> Encodable(msg)
  {
    FrameFields(msg, []);
    var b := Frame(msg);
    assert b + [] == b && msg.payload + [] == msg.payload;
    assert b[12..16] == [b[12], b[13], b[14], b[15]];
  }

  /** Every accepted byte slice is the encoding of what it decodes to: Decode is injective and exact. */
  lemma FrameOfDecode(b: seq<byte>)
    requires Decode(b).Success?
    ensures Frame(Decode(b).value) == b
    ensures Encodable(Decode(b).value) && Decode(b).value.protocolVersion == PROTOCOL_VERSION
  {
    hide U16, U32, BE16, BE32;
    var m := Decode(b).value;
    BE16OfU16(b);
    BE16OfU16(b[2..]);
    BE32OfU32(b[4..]);
    BE16OfU16(b[8..]);
    BE16OfU16(b[10..]);
    assert LengthField(m.payload) == U32(b[4..]);
    Pieces(b);
  }

  lemma Pieces(b: seq<byte>)
    requires |b| >= HEADER_SIZE
    ensures b ==
      b[..2] + b[2..][..2] + b[4..][..4] + b[8..][..2] + b[10..][..2] + [b[12], b[13], b[14], b[15]] + b[16..]
  {
  }

  // ---------------------------------------------------------------- Encode in place

  /** Encode(dst, msg) for a slice dst = buf[..len] of capacity buf.Length. The frame is appended; the
      result shares the backing array when the capacity allows, and is a grown copy otherwise. */
  method Encode(buf: array<byte>, len: nat, msg: Message) returns (out: array<byte>, outLen: nat)
    requires len <= buf.Length
    modifies buf
    ensures outLen == len + HEADER_SIZE + |msg.payload| <= out.Length
    ensures out[..outLen] == old(buf[..len]) + Frame(msg)
    ensures if buf.Length - len < HEADER_SIZE + |msg.payload|
            then fresh(out) && out.Length == outLen && buf[..] == old(buf[..])
            else out == buf && buf[outLen..] == old(buf[outLen..])
  {
    var payloadLen := |msg.payload|;
    var frameLen := HEADER_SIZE + payloadLen;
    out := buf;
    if buf.Length - len < frameLen {
      out := new byte[len + frameLen](_ => 0);
      Copy(out, 0, buf[..len]);
    }
    ghost var before := out[..];
    assert before[..len] == old(buf[..len]);
    outLen := len + frameLen;
    WriteFrame(out, len, msg);
    assert out[..outLen] == before[..len] + Frame(msg);
    assert out[outLen..] == before[outLen..];
  }

  method WriteFrame(b: array<byte>, start: nat, msg: Message)
    requires start + HEADER_SIZE + |msg.payload| <= b.Length
    modifies b
    ensures b[..] == Overlay(old(b[..]), start, Frame(msg))
  {
    hide Overlay, BE16, BE32, LengthField;
    ghost var s := b[..];
    PutUint16(b, start, msg.serviceID);
    ghost var written := BE16(msg.serviceID);
    PutUint16(b, start + 2, msg.methodID);
    written := Written(s, start, written, BE16(msg.methodID));
    PutUint32(b, start + 4, LengthField(msg.payload));
    written := Written(s, start, written, BE32(LengthField(msg.payload)));
    PutUint16(b, start + 8, msg.clientID);
    written := Written(s, start, written, BE16(msg.clientID));
    PutUint16(b, start + 10, msg.sessionID);
    written := Written(s, start, written, BE16(msg.sessionID));
    Copy(b, start + 12, [PROTOCOL_VERSION, msg.interfaceVersion, msg.messageType, msg.returnCode]);
    written := Written(s, start, written, [PROTOCOL_VERSION, msg.interfaceVersion, msg.messageType, msg.returnCode]);
    Copy(b, start + HEADER_SIZE, msg.payload);
    written := Written(s, start, written, msg.payload);
  }

  lemma Written(s: seq<byte>, at: nat, a: seq<byte>, b: seq<byte>) returns (both: seq<byte>)
    requires at + |a| + |b| <= |s|
    ensures both == a + b
    ensures Overlay(Overlay(s, at, a), at + |a|, b) == Overlay(s, at, both)
  {
    both := a + b;
    OverlayNext(s, at, a, b);
  }

  // ---------------------------------------------------------------- the frame byte by byte

  /** Which bytes decode, to what, and the error otherwise: too short, then an inconsistent length, then a
      protocol version other than 1. All numbers are big-endian. */
  lemma DecodeInNumbers(b: seq<byte>)
    ensures Decode(b) ==
      if |b| < 16 then Failure(ShortFrame)
      else if |b| != 8 + Number(b[4..8]) then Failure(LengthMismatch)
      else if b[12] != 1 then Failure(WrongProtocolVersion)
      else Success(Message(Number(b[0..2]), Number(b[2..4]), Number(b[8..10]), Number(b[10..12]),
                           1, b[13], b[14], b[15], b[16..]))
  {
    hide U16, U32, Number;
    if |b| >= 16 {
      NumberIs(b);
      NumberIs(b[2..]);
      NumberIs(b[4..]);
      NumberIs(b[8..]);
      NumberIs(b[10..]);
      assert b[0..2] == b[..2] && b[2..4] == b[2..][..2] && b[4..8] == b[4..][..4];
      assert b[8..10] == b[8..][..2] && b[10..12] == b[10..][..2];
    }
  }

  /** The bytes of an encoded message. */
  lemma FrameInNumbers(msg: Message)
    ensures var f := Frame(msg);
      && |f| == 16 + |msg.payload| && f[16..] == msg.payload
      && Number(f[0..2]) == msg.serviceID && Number(f[2..4]) == msg.methodID
      && Number(f[4..8]) == (8 + |msg.payload|) % 0x1_0000_0000
      && Number(f[8..10]) == msg.clientID && Number(f[10..12]) == msg.sessionID
      && f[12] == 1 && f[13] == msg.interfaceVersion && f[14] == msg.messageType && f[15] == msg.returnCode
  {
    hide U16, U32, BE16, BE32, Number, Frame;
    var f := Frame(msg);
    FrameFields(msg, []);
    assert f + [] == f && msg.payload + [] == msg.payload;
    NumberIs(f);
    NumberIs(f[2..]);
    NumberIs(f[4..]);
    NumberIs(f[8..]);
    NumberIs(f[10..]);
    assert f[0..2] == f[..2] && f[2..4] == f[2..][..2] && f[4..8] == f[4..][..4];
    assert f[8..10] == f[8..][..2] && f[10..12] == f[10..][..2];
    assert f[12..16] == [f[12], f[13], f[14], f[15]];
  }
}
