/** SOME/IP-TP segmentation (tp/tp.go): the message-type flag, the 4-byte TP header and Segment. */
module TpSegment {
  import opened Bytes
  import opened Buffers
  import opened SomeIp
  import opened Results

  const DEFAULT_SEGMENT_SIZE: int := 1392
  const MAX_REASSEMBLED_SIZE: int := 0x400_0000
  const TP_HEADER_SIZE: int := 4

  datatype SegmentError = SegmentTooLarge

  // ---------------------------------------------------------------- message type, bit 5

  predicate HasTpBit(messageType: byte) {
    messageType / 0x20 % 2 == 1
  }

  function SetTpBit(messageType: byte): byte {
    if HasTpBit(messageType) then messageType else
      var n: int := messageType; n + 0x20
  }

  function ClearTpBit(messageType: byte): byte {
    if HasTpBit(messageType) then messageType - 0x20 else messageType
  }

  /** The three functions above are the bit operations & 0x20, | 0x20 and &^ 0x20. */
  lemma TpBitIsBitFive(b: bv8)
    ensures b as int < 0x100
    ensures HasTpBit(b as int) <==> b & 0x20 != 0
    ensures SetTpBit(b as int) == (b | 0x20) as int
    ensures ClearTpBit(b as int) == (b & !0x20) as int
  {
  }

  predicate IsTP(msg: Message) {
    HasTpBit(msg.messageType)
  }

  function BaseMessageType(messageType: byte): (base: byte)
    ensures !HasTpBit(base)
  {
    ClearTpBit(messageType)
  }

  lemma BaseUndoesSet(messageType: byte)
    ensures HasTpBit(SetTpBit(messageType))
    ensures BaseMessageType(SetTpBit(messageType)) == messageType <==> !HasTpBit(messageType)
  {
  }

  // ---------------------------------------------------------------- TP header

  /** What Add learns from one incoming message before it looks at its own state. */
  datatype Parsed =
    | NotTP
    | Malformed
    | Chunk(offset: int, more: bool, data: seq<byte>)

  function Parse(seg: Message): (p: Parsed)
  {
    if !IsTP(seg) then NotTP
    else if |seg.payload| < TP_HEADER_SIZE then Malformed
    else
      var tpWord: int := U32(seg.payload);
      var offset := tpWord / 16 * 16;
      var data := seg.payload[TP_HEADER_SIZE..];
      if offset > MAX_REASSEMBLED_SIZE || offset + |data| > MAX_REASSEMBLED_SIZE then Malformed
      else Chunk(offset, tpWord % 2 != 0, data)
  }

  lemma ParseInRange(seg: Message)
    requires Parse(seg).Chunk?
    ensures Parse(seg).offset % 16 == 0
    ensures 0 <= Parse(seg).offset && Parse(seg).offset + |Parse(seg).data| <= MAX_REASSEMBLED_SIZE
  {
  }

  // ---------------------------------------------------------------- what Segment emits

  /** The segment size in force: zero selects the default. */
  function Effective(segmentSize: int): int {
    if segmentSize == 0 then DEFAULT_SEGMENT_SIZE else segmentSize
  }

  /** The chunk length used once a payload has to be split: a multiple of 16. */
  function Stride(segmentSize: int): int {
    Effective(segmentSize) / 16 * 16
  }

  function Min(a: int, b: int): int {
    if a <= b then a else b
  }

  function ChunkEnd(len: int, stride: int, i: nat): int {
    Min((i + 1) * stride, len)
  }

  /** The TP header word: a 28-bit offset in units of 16 bytes, wrapped to 32 bits, and More in bit 0. */
  function HeaderWord(offset: int, more: bool): uint32
    requires offset >= 0
  {
    offset / 16 * 16 % 0x1_0000_0000 + (if more then 1 else 0)
  }

  /** The TP-framed message that carries payload[offset..end] of msg. */
  function SegmentOf(msg: Message, offset: nat, end: nat): Message
    requires offset <= end <= |msg.payload|
  {
    msg.(messageType := SetTpBit(msg.messageType),
         payload := BE32(HeaderWord(offset, end < |msg.payload|)) + msg.payload[offset..end])
  }

  /** Segment i of msg, counted from zero, for chunks of `stride` bytes. */
  function SegmentAt(msg: Message, stride: int, i: nat): Message
    requires stride > 0 && i * stride < |msg.payload|
  {
    assert (i + 1) * stride == i * stride + stride;
    SegmentOf(msg, i * stride, ChunkEnd(|msg.payload|, stride, i))
  }

  /** How many chunks of `stride` bytes cover `len` bytes. */
  function ChunkCount(len: nat, stride: int): (n: nat)
    requires stride > 0
  {
    (len + stride - 1) / stride
  }

  lemma ChunkCountBounds(len: nat, stride: int, i: nat)
    requires stride > 0
    ensures i < ChunkCount(len, stride) <==> i * stride < len
  {
    var n := ChunkCount(len, stride);
    assert n * stride <= len + stride - 1 < n * stride + stride;
    if i < n {
      MulMonotone(i, n - 1, stride);
      assert (n - 1) * stride == n * stride - stride;
    } else {
      MulMonotone(n, i, stride);
    }
  }

  lemma MulMonotone(a: int, b: int, c: int)
    requires a <= b && 0 <= c
    ensures a * c <= b * c
  {
  }

  /** Segment's result in closed form: one entry per chunk, each determined by its index alone. */
  function Segments(msg: Message, segmentSize: int): (r: Result<seq<Message>, SegmentError>)
    ensures r.Success? <==> Effective(segmentSize) >= 16
    ensures r.Success? && |msg.payload| > Effective(segmentSize) ==>
      |r.value| == ChunkCount(|msg.payload|, Stride(segmentSize)) >= 2
  {
    var len, size := |msg.payload|, Effective(segmentSize);
    if size < 16 then Failure(SegmentTooLarge)
    else if len <= size then Success([msg])
    else
      var stride := Stride(segmentSize);
      var n := ChunkCount(len, stride);
      ChunkCountBounds(len, stride, 1);
      Success(seq(n, i requires 0 <= i < n => ChunkCountBounds(len, stride, i); SegmentAt(msg, stride, i)))
  }

  method Segment(msg: Message, segmentSize: int) returns (r: Result<seq<Message>, SegmentError>)
    ensures r == Segments(msg, segmentSize)
  {
    var size := segmentSize;
    if size == 0 {
      size := DEFAULT_SEGMENT_SIZE;
    }
    if size < 16 {
      return Failure(SegmentTooLarge);
    }
    var payload := msg.payload;
    if |payload| <= size {
      return Success([msg]);
    }
    if size % 16 != 0 {
      size := size / 16 * 16;
    }

    var segments := Split(msg, size);
    assert segments == Segments(msg, segmentSize).value;
    return Success(segments);
  }

  /** segments are the first chunks of msg, in order. */
  ghost predicate FirstSegments(msg: Message, stride: int, segments: seq<Message>)
    requires stride > 0
  {
    forall j | 0 <= j < |segments| ::
      j * stride < |msg.payload| && segments[j] == SegmentAt(msg, stride, j)
  }

  /** The segmentation loop. */
  method Split(msg: Message, size: int) returns (segments: seq<Message>)
    requires size > 0
    ensures |segments| == ChunkCount(|msg.payload|, size)
    ensures FirstSegments(msg, size, segments)
  {
    var len := |msg.payload|;
    segments := [];
    var offset := 0;
    while offset < len
      invariant 0 <= offset == Min(|segments| * size, len)
      invariant |segments| <= ChunkCount(len, size)
      invariant FirstSegments(msg, size, segments)
    {
      AdvanceOffset(len, size, |segments|);
      var end := offset + size;
      var more := true;
      if end >= len {
        end := len;
        more := false;
      }
      var seg := BuildSegment(msg, offset, end, more);
      AppendSegment(msg, size, segments, seg);
      segments := segments + [seg];
      offset := end;
    }
    ChunkCountBounds(len, size, |segments|);
  }

  lemma AdvanceOffset(len: nat, stride: int, i: nat)
    requires stride > 0 && Min(i * stride, len) < len
    ensures i < ChunkCount(len, stride)
    ensures ChunkEnd(len, stride, i) == Min(i * stride + stride, len)
  {
    assert (i + 1) * stride == i * stride + stride;
    ChunkCountBounds(len, stride, i);
  }

  lemma AppendSegment(msg: Message, stride: int, segments: seq<Message>, seg: Message)
    requires stride > 0 && FirstSegments(msg, stride, segments)
    requires |segments| * stride < |msg.payload| && seg == SegmentAt(msg, stride, |segments|)
    ensures FirstSegments(msg, stride, segments + [seg])
  {
  }

  method BuildSegment(msg: Message, offset: nat, end: nat, more: bool) returns (seg: Message)
    requires offset <= end <= |msg.payload| && more == (end < |msg.payload|)
    ensures seg == SegmentOf(msg, offset, end)
  {
    var chunk := msg.payload[offset..end];
    var tpHdr := TpHeader(offset, more);
    var segPayload := new byte[TP_HEADER_SIZE + |chunk|];
    Copy(segPayload, 0, tpHdr);
    Copy(segPayload, TP_HEADER_SIZE, chunk);
    assert segPayload[..] == tpHdr + chunk;
    seg := Message(msg.serviceID, msg.methodID, msg.clientID, msg.sessionID,
                   msg.protocolVersion, msg.interfaceVersion,
                   SetTpBit(msg.messageType), msg.returnCode, segPayload[..]);
  }

  method TpHeader(offset: nat, more: bool) returns (hdr: seq<byte>)
    ensures hdr == BE32(HeaderWord(offset, more))
  {
    var offsetUnits := offset / 16 % 0x1_0000_0000;
    var word := offsetUnits * 16 % 0x1_0000_0000;
    var tpHdr := new byte[TP_HEADER_SIZE];
    PutUint32(tpHdr, 0, word);
    ShiftWraps(offset / 16);
    LowBitOfWord(word);
    if more {
      tpHdr[3] := SetLowBit(tpHdr[3]);
      assert tpHdr[..] == BE32(word)[..3] + [SetLowBit(BE32(word)[3])];
    }
    return tpHdr[..];
  }

  /** b | 0x01. */
  function SetLowBit(b: byte): byte {
    if b % 2 == 0 then var n: int := b; n + 1 else b
  }

  lemma LowBitOfWord(word: uint32)
    requires word % 16 == 0
    ensures BE32(word)[..3] + [SetLowBit(BE32(word)[3])] == BE32(word + 1)
  {
    var low: int := word % 0x1_0000;
    assert low % 16 == 0 && (word + 1) % 0x1_0000 == low + 1 && (word + 1) / 0x1_0000 == word / 0x1_0000;
    assert (low + 1) / 0x100 == low / 0x100 && (low + 1) % 0x100 == low % 0x100 + 1;
  }

  lemma HeaderWordFields(offset: nat, more: bool)
    requires offset % 16 == 0 && offset < 0x1_0000_0000
    ensures HeaderWord(offset, more) / 16 * 16 == offset
    ensures HeaderWord(offset, more) % 2 != 0 <==> more
  {
    var low := if more then 1 else 0;
    WordIsSum(offset, more);
    hide HeaderWord;
    UnitsOfWord(offset / 16, low);
    ParityOfWord(offset / 16 * 8, low);
  }

  lemma WordIsSum(offset: nat, more: bool)
    requires offset % 16 == 0 && offset < 0x1_0000_0000
    ensures HeaderWord(offset, more) == offset / 16 * 16 + if more then 1 else 0
    ensures offset / 16 * 16 == offset
  {
  }

  lemma UnitsOfWord(units: nat, low: int)
    requires 0 <= low <= 1
    ensures (units * 16 + low) / 16 == units
  {
    var x, q := units * 16 + low, (units * 16 + low) / 16;
    assert 0 <= x - q * 16 < 16;
  }

  lemma ParityOfWord(half: nat, low: int)
    requires 0 <= low <= 1
    ensures (half * 2 + low) % 2 == low
  {
    var x, q := half * 2 + low, (half * 2 + low) / 2;
    assert 0 <= x - q * 2 < 2 && x % 2 == x - q * 2;
  }

  lemma ShiftWraps(units: nat)
    ensures units % 0x1_0000_0000 * 16 % 0x1_0000_0000 == units * 16 % 0x1_0000_0000
    ensures units * 16 % 0x1_0000_0000 % 16 == 0
  {
    var q := units / 0x1_0000_0000;
    assert units * 16 == q * 16 * 0x1_0000_0000 + units % 0x1_0000_0000 * 16;
    ModAddMultiple(units % 0x1_0000_0000 * 16, q * 16);
    var m := units * 16 / 0x1_0000_0000;
    assert units * 16 % 0x1_0000_0000 == 16 * (units - m * 0x1000_0000);
  }

  lemma ModAddMultiple(a: nat, k: nat)
    ensures (k * 0x1_0000_0000 + a) % 0x1_0000_0000 == a % 0x1_0000_0000
  {
    if k > 0 {
      ModAddMultiple(a, k - 1);
    }
  }

  /** Reading a segment back gives the chunk that was cut, as long as the message is within the bound. */
  lemma ParseSegmentAt(msg: Message, stride: int, i: nat)
    requires stride > 0 && i * stride % 16 == 0
    requires i * stride < |msg.payload| <= MAX_REASSEMBLED_SIZE
    ensures i * stride <= ChunkEnd(|msg.payload|, stride, i)
    ensures Parse(SegmentAt(msg, stride, i)) ==
      Chunk(i * stride, (i + 1) * stride < |msg.payload|, msg.payload[i * stride..ChunkEnd(|msg.payload|, stride, i)])
  {
    var offset, end := i * stride, ChunkEnd(|msg.payload|, stride, i);
    assert (i + 1) * stride == offset + stride;
    var seg := SegmentAt(msg, stride, i);
    BaseUndoesSet(msg.messageType);
    HeaderWordFields(offset, end < |msg.payload|);
    U32OfBE32(HeaderWord(offset, end < |msg.payload|), msg.payload[offset..end]);
    assert seg.payload[TP_HEADER_SIZE..] == msg.payload[offset..end];
  }

  // ---------------------------------------------------------------- the same in plain numbers

  /** The first four bytes as a number. */
  function Word(b: seq<byte>): (w: uint32)
    requires |b| >= 4
  {
    NumberIs(b);
    Number(b[..4])
  }

  lemma WordIsU32(b: seq<byte>)
    requires |b| >= 4
    ensures U32(b) == Word(b)
  {
    NumberIs(b);
  }

  /** What Add takes a message for: bit 5 of the type marks a TP segment, whose first four bytes hold the
      offset in their upper 28 bits and More in the lowest; nothing may reach beyond 64 MiB. */
  lemma ParseInNumbers(seg: Message)
    ensures var tp, p := seg.messageType / 32 % 2 == 1, seg.payload;
      && (Parse(seg).NotTP? <==> !tp)
      && (Parse(seg).Malformed? <==> tp && (|p| < 4 || Word(p) / 16 * 16 + (|p| - 4) > 67108864))
      && (Parse(seg).Chunk? ==>
            Parse(seg).offset == Word(p) / 16 * 16 && Parse(seg).data == p[4..] &&
            (Parse(seg).more <==> Word(p) % 2 == 1))
  {
    if |seg.payload| >= 4 {
      WordIsU32(seg.payload);
    }
  }

  /** A size below 16 is an error; a payload within the size goes out as it is. */
  lemma SegmentsOfSmall(msg: Message, segmentSize: int)
    ensures var size := if segmentSize == 0 then 1392 else segmentSize;
      && (Segments(msg, segmentSize) == Failure(SegmentTooLarge) <==> size < 16)
      && (size >= 16 && |msg.payload| <= size ==> Segments(msg, segmentSize) == Success([msg]))
  {
  }

  /** Segment i of a longer payload: every segment but the last carries exactly the size rounded down to a
      multiple of 16, the last one what is left, and each says where its bytes belong. */
  lemma SegmentInNumbers(msg: Message, segmentSize: int, i: nat)
    requires var size := if segmentSize == 0 then 1392 else segmentSize; 16 <= size < |msg.payload|
    requires i < |Segments(msg, segmentSize).value|
    ensures var segs, size := Segments(msg, segmentSize).value, if segmentSize == 0 then 1392 else segmentSize;
      var chunk, p, last := size - size % 16, segs[i].payload, i == |segs| - 1;
      && |p| >= 5
      && |p| - 4 == (if last then |msg.payload| - i * chunk else chunk) <= chunk
      && i * chunk + (|p| - 4) <= |msg.payload|
      && p[4..] == msg.payload[i * chunk..i * chunk + (|p| - 4)]
      && (i * chunk < 0x1_0000_0000 ==> Word(p) == i * chunk + if last then 0 else 1)
      && segs[i] == msg.(messageType := segs[i].messageType, payload := p)
      && segs[i].messageType == msg.messageType + if msg.messageType / 32 % 2 == 1 then 0 else 32
  {
    hide BE32, U32;
    var size, chunk, len := Effective(segmentSize), Stride(segmentSize), |msg.payload|;
    var n := |Segments(msg, segmentSize).value|;
    assert size - size % 16 == size / 16 * 16 == chunk;
    ChunkCountBounds(len, chunk, i);
    ChunkCountBounds(len, chunk, i + 1);
    assert (i + 1) * chunk == i * chunk + chunk;
    var end := ChunkEnd(len, chunk, i);
    SegmentWord(msg, i, chunk, end);
  }

  lemma SegmentWord(msg: Message, i: nat, chunk: int, end: nat)
    requires chunk > 0 && chunk % 16 == 0 && i * chunk <= end <= |msg.payload|
    ensures var p, more := SegmentOf(msg, i * chunk, end).payload, end < |msg.payload|;
      && |p| == 4 + (end - i * chunk) && p[4..] == msg.payload[i * chunk..end]
      && (i * chunk < 0x1_0000_0000 ==> Word(p) == i * chunk + if more then 1 else 0)
  {
    hide BE32, U32, Word;
    var offset, more := i * chunk, end < |msg.payload|;
    var p := SegmentOf(msg, offset, end).payload;
    assert offset % 16 == 0 by {
      assert offset == i * (chunk / 16) * 16;
    }
    U32OfBE32(HeaderWord(offset, more), msg.payload[offset..end]);
    WordIsU32(p);
    if offset < 0x1_0000_0000 {
      WordIsSum(offset, more);
    }
  }
}
