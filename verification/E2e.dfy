/** AUTOSAR E2E protection (e2e/e2e.go): Profile 01 over CRC-8 and Profile 05 over CRC-32, and which
    corruptions they detect. The E2E functions only exchange byte slices, so bytes are bit-vectors here. */
module E2e {
  import opened Results
  import C8 = Crc8
  import C32 = Crc32

  datatype CheckError = ShortFrame | CRCMismatch | CounterMismatch
  datatype ProtectError = InvalidCounter

  type Checked = Result<seq<bv8>, CheckError>

  // ---------------------------------------------------------------- Profile 01

  const PROFILE01_HEADER_SIZE: int := 2

  function LowByte(id: bv16): bv8 {
    (id & 0xFF) as bv8
  }

  function HighByte(id: bv16): bv8 {
    (id >> 8) as bv8
  }

  function Header01(id: bv16, counter: bv8): bv8 {
    (LowByte(id) & 0xF0) | (counter & 0x0F)
  }

  /** The CRC over DataID, header byte 1 and payload. */
  function Crc01(id: bv16, rest: seq<bv8>): bv8 {
    C8.Checksum(0xFF, [LowByte(id), HighByte(id)] + rest)
  }

  function Protected01(id: bv16, payload: seq<bv8>, counter: bv8): Result<seq<bv8>, ProtectError> {
    if counter > 14 then Failure(InvalidCounter)
    else
      var rest := [Header01(id, counter)] + payload;
      Success([Crc01(id, rest)] + rest)
  }

  function Checked01(id: bv16, frame: seq<bv8>, expectedCounter: bv8): Checked {
    if |frame| < PROFILE01_HEADER_SIZE then Failure(ShortFrame)
    else if frame[0] != Crc01(id, frame[1..]) then Failure(CRCMismatch)
    else if frame[1] & 0x0F != expectedCounter & 0x0F then Failure(CounterMismatch)
    else Success(frame[PROFILE01_HEADER_SIZE..])
  }

  class Profile01 {
    const dataID: bv16
    /** crc8Table, filled once by BuildTable. */
    const table: array<bv8>

    ghost predicate Valid()
      reads table
    {
      C8.IsTable(table[..])
    }

    constructor (dataID: bv16, table: array<bv8>)
      requires C8.IsTable(table[..])
      ensures Valid() && this.dataID == dataID && this.table == table
    {
      this.dataID, this.table := dataID, table;
    }

    method Protect(payload: seq<bv8>, counter: bv8) returns (r: Result<seq<bv8>, ProtectError>)
      requires Valid()
      ensures r == Protected01(dataID, payload, counter)
    {
      hide C8.Checksum;
      if counter > 14 {
        return Failure(InvalidCounter);
      }
      var hdr1 := (LowByte(dataID) & 0xF0) | (counter & 0x0F);
      assert [LowByte(dataID), HighByte(dataID), hdr1] + payload ==
             [LowByte(dataID), HighByte(dataID)] + ([hdr1] + payload);
      var crc := C8.Crc8(table, 0xFF, [LowByte(dataID), HighByte(dataID), hdr1] + payload);
      var out := new bv8[PROFILE01_HEADER_SIZE + |payload|](_ => 0);
      out[0] := crc;
      out[1] := hdr1;
      forall k | 0 <= k < |payload| {
        out[PROFILE01_HEADER_SIZE + k] := payload[k];
      }
      assert out[..] == [crc] + ([hdr1] + payload);
      return Success(out[..]);
    }

    method Check(frame: seq<bv8>, expectedCounter: bv8) returns (r: Checked)
      requires Valid()
      ensures r == Checked01(dataID, frame, expectedCounter)
    {
      hide C8.Checksum;
      if |frame| < PROFILE01_HEADER_SIZE {
        return Failure(ShortFrame);
      }
      var receivedCRC := frame[0];
      var hdr1 := frame[1];
      var counter := hdr1 & 0x0F;
      var payload := frame[PROFILE01_HEADER_SIZE..];
      assert [LowByte(dataID), HighByte(dataID), hdr1] + payload == [LowByte(dataID), HighByte(dataID)] + frame[1..];
      var want := C8.Crc8(table, 0xFF, [LowByte(dataID), HighByte(dataID), hdr1] + payload);
      if receivedCRC != want {
        return Failure(CRCMismatch);
      }
      if counter != expectedCounter & 0x0F {
        return Failure(CounterMismatch);
      }
      return Success(payload);
    }
  }

  // ---------------------------------------------------------------- Profile 05

  const PROFILE05_HEADER_SIZE: int := 8

  function LE32(v: bv32): (s: seq<bv8>)
    ensures |s| == 4
  {
    [(v & 0xFF) as bv8, ((v >> 8) & 0xFF) as bv8, ((v >> 16) & 0xFF) as bv8, (v >> 24) as bv8]
  }

  function FromLE32(s: seq<bv8>): bv32
    requires |s| >= 4
  {
    (s[0] as bv32) | ((s[1] as bv32) << 8) | ((s[2] as bv32) << 16) | ((s[3] as bv32) << 24)
  }

  lemma FromLE32Inverse(v: bv32, rest: seq<bv8>)
    ensures FromLE32(LE32(v) + rest) == v
  {
  }

  lemma FromLE32Injective(a: seq<bv8>, b: seq<bv8>)
    requires |a| >= 4 && |b| >= 4 && FromLE32(a) == FromLE32(b)
    ensures a[..4] == b[..4]
  {
  }

  /** The CRC over DataID, counter, reserved bytes and payload. */
  function Crc05(id: bv8, rest: seq<bv8>): bv32 {
    C32.Checksum(0xFFFF_FFFF, [id] + rest)
  }

  function Protected05(id: bv8, payload: seq<bv8>, counter: bv8): seq<bv8> {
    var rest := [counter, 0, 0, 0] + payload;
    LE32(Crc05(id, rest)) + rest
  }

  function Checked05(id: bv8, frame: seq<bv8>, expectedCounter: bv8): Checked {
    if |frame| < PROFILE05_HEADER_SIZE then Failure(ShortFrame)
    else if FromLE32(frame) != Crc05(id, frame[4..]) then Failure(CRCMismatch)
    else if frame[4] != expectedCounter then Failure(CounterMismatch)
    else Success(frame[PROFILE05_HEADER_SIZE..])
  }

  class Profile05 {
    const dataID: bv8
    /** crc32Table, filled once by BuildTable. */
    const table: array<bv32>

    ghost predicate Valid()
      reads table
    {
      C32.IsTable(table[..])
    }

    constructor (dataID: bv8, table: array<bv32>)
      requires C32.IsTable(table[..])
      ensures Valid() && this.dataID == dataID && this.table == table
    {
      this.dataID, this.table := dataID, table;
    }

    method Protect(payload: seq<bv8>, counter: bv8) returns (r: seq<bv8>)
      requires Valid()
      ensures r == Protected05(dataID, payload, counter)
    {
      hide C32.Checksum, LE32;
      var out := new bv8[PROFILE05_HEADER_SIZE + |payload|](_ => 0);
      out[4] := counter;
      forall k | 0 <= k < |payload| {
        out[PROFILE05_HEADER_SIZE + k] := payload[k];
      }
      assert out[4..] == [counter, 0, 0, 0] + payload;
      ghost var rest := out[4..];
      var checksum := C32.Crc32(table, 0xFFFF_FFFF, [dataID] + out[4..]);
      var crc := LE32(checksum);
      out[0], out[1], out[2], out[3] := crc[0], crc[1], crc[2], crc[3];
      assert out[4..] == rest;
      assert out[..] == crc + rest;
      return out[..];
    }

    method Check(frame: seq<bv8>, expectedCounter: bv8) returns (r: Checked)
      requires Valid()
      ensures r == Checked05(dataID, frame, expectedCounter)
    {
      hide C32.Checksum, FromLE32;
      if |frame| < PROFILE05_HEADER_SIZE {
        return Failure(ShortFrame);
      }
      var receivedCRC := FromLE32(frame);
      var counter := frame[4];
      var payload := frame[PROFILE05_HEADER_SIZE..];
      var want := C32.Crc32(table, 0xFFFF_FFFF, [dataID] + frame[4..]);
      if receivedCRC != want {
        return Failure(CRCMismatch);
      }
      if counter != expectedCounter {
        return Failure(CounterMismatch);
      }
      return Success(payload);
    }
  }

  // ---------------------------------------------------------------- the frames byte by byte

  /** A Profile 01 frame: CRC, then the counter below the upper half of the low DataID byte, then the payload;
      the CRC runs over the two DataID bytes, low one first, and everything behind it. */
  lemma Layout01(id: bv16, payload: seq<bv8>, counter: bv8)
    ensures Protected01(id, payload, counter) == Failure(InvalidCounter) <==> counter > 14
    ensures counter <= 14 ==>
      var f := Protected01(id, payload, counter).value;
      && |f| == 2 + |payload| && f[2..] == payload
      && f[1] & 0x0F == counter && f[1] & 0xF0 == ((id & 0x00F0) as bv8)
      && f[0] == C8.Checksum(0xFF, [(id & 0xFF) as bv8, (id >> 8) as bv8, f[1]] + payload)
  {
    hide C8.Checksum;
    HeaderNibbles(id, counter);
    assert [LowByte(id), HighByte(id)] + ([Header01(id, counter)] + payload) ==
           [LowByte(id), HighByte(id), Header01(id, counter)] + payload;
  }

  lemma HeaderNibbles(id: bv16, counter: bv8)
    ensures counter <= 14 ==> Header01(id, counter) & 0x0F == counter
    ensures Header01(id, counter) & 0xF0 == ((id & 0x00F0) as bv8)
  {
  }

  /** When Check accepts a Profile 01 frame, and the error when it does not: length, then CRC, then counter. */
  lemma Accepted01(id: bv16, frame: seq<bv8>, expected: bv8)
    ensures Checked01(id, frame, expected) ==
      if |frame| < 2 then Failure(ShortFrame)
      else if frame[0] != C8.Checksum(0xFF, [(id & 0xFF) as bv8, (id >> 8) as bv8] + frame[1..])
      then Failure(CRCMismatch)
      else if frame[1] & 0x0F != expected & 0x0F then Failure(CounterMismatch)
      else Success(frame[2..])
  {
    hide C8.Checksum;
  }

  /** A Profile 05 frame: the CRC, lowest byte first, the counter, three zeros and the payload; the CRC runs
      over the DataID and everything behind it. */
  lemma Layout05(id: bv8, payload: seq<bv8>, counter: bv8)
    ensures var f := Protected05(id, payload, counter);
      && |f| == 8 + |payload| && f[8..] == payload && f[4] == counter && f[5] == f[6] == f[7] == 0
      && (f[0] as bv32) | ((f[1] as bv32) << 8) | ((f[2] as bv32) << 16) | ((f[3] as bv32) << 24) ==
           C32.Checksum(0xFFFF_FFFF, [id, counter, 0, 0, 0] + payload)
  {
    hide C32.Checksum, LE32;
    var rest := [counter, 0, 0, 0] + payload;
    assert [id] + rest == [id, counter, 0, 0, 0] + payload;
    FromLE32Inverse(Crc05(id, rest), rest);
  }

  lemma Accepted05(id: bv8, frame: seq<bv8>, expected: bv8)
    ensures Checked05(id, frame, expected) ==
      if |frame| < 8 then Failure(ShortFrame)
      else if (frame[0] as bv32) | ((frame[1] as bv32) << 8) | ((frame[2] as bv32) << 16) |
              ((frame[3] as bv32) << 24) != C32.Checksum(0xFFFF_FFFF, [id] + frame[4..])
      then Failure(CRCMismatch)
      else if frame[4] != expected then Failure(CounterMismatch)
      else Success(frame[8..])
  {
    hide C32.Checksum;
  }

  // ---------------------------------------------------------------- round trips

  lemma LowNibble(high: bv8, counter: bv8)
    requires counter <= 14
    ensures ((high & 0xF0) | (counter & 0x0F)) & 0x0F == counter & 0x0F == counter
  {
  }

  /** A protected frame is accepted exactly when the counter is the expected one, and gives the payload back. */
  lemma RoundTrip01(id: bv16, payload: seq<bv8>, counter: bv8, expected: bv8)
    requires counter <= 14
    ensures Checked01(id, Protected01(id, payload, counter).value, expected) ==
      if counter == expected & 0x0F then Success(payload) else Failure(CounterMismatch)
  {
    hide Crc01;
    var rest := [Header01(id, counter)] + payload;
    var frame := [Crc01(id, rest)] + rest;
    assert frame[1..] == rest && frame[2..] == payload;
    LowNibble(LowByte(id), counter);
  }

  lemma RoundTrip05(id: bv8, payload: seq<bv8>, counter: bv8, expected: bv8)
    ensures Checked05(id, Protected05(id, payload, counter), expected) ==
      if counter == expected then Success(payload) else Failure(CounterMismatch)
  {
    hide Crc05, LE32, FromLE32;
    var rest := [counter, 0, 0, 0] + payload;
    var frame := LE32(Crc05(id, rest)) + rest;
    assert frame[4..] == rest && frame[8..] == payload;
    FromLE32Inverse(Crc05(id, rest), rest);
  }

  // ---------------------------------------------------------------- corruption

  /** x and y have the same length, differ, and agree outside n consecutive positions starting at k. */
  ghost predicate DifferWithin<T>(x: seq<T>, y: seq<T>, k: nat, n: nat) {
    |x| == |y| && x != y && forall i | 0 <= i < |x| && (i < k || i >= k + n) :: x[i] == y[i]
  }

  lemma SplitBurst<T>(x: seq<T>, y: seq<T>, k: nat, n: nat) returns (head: seq<T>, a: seq<T>, b: seq<T>, tail: seq<T>)
    requires DifferWithin(x, y, k, n)
    ensures |head| == k && |a| == |b| <= n && a != b
    ensures x == head + a + tail && y == head + b + tail
  {
    if k >= |x| {
      assert false;
    }
    var hi := if k + n <= |x| then k + n else |x|;
    head, a, b, tail := x[..k], x[k..hi], y[k..hi], x[hi..];
    assert y[..k] == head && y[hi..] == tail;
    assert x == head + a + tail && y == head + b + tail;
  }

  lemma JoinBurst<T>(head: seq<T>, a: seq<T>, b: seq<T>, tail: seq<T>, n: nat)
    requires |a| == |b| <= n && a != b
    ensures DifferWithin(head + a + tail, head + b + tail, |head|, n)
  {
    var x, y := head + a + tail, head + b + tail;
    assert a == x[|head|..|head| + |a|];
    assert b == y[|head|..|head| + |b|];
  }

  /** The frame's CRC field is right for its contents. */
  predicate Sound01(id: bv16, frame: seq<bv8>) {
    |frame| >= PROFILE01_HEADER_SIZE && frame[0] == Crc01(id, frame[1..])
  }

  predicate Sound05(id: bv8, frame: seq<bv8>) {
    |frame| >= PROFILE05_HEADER_SIZE && FromLE32(frame) == Crc05(id, frame[4..])
  }

  /** The register before the bits of `rest` are fed. */
  function Start01(id: bv16): bv8 {
    C8.Serial(0xFF, C8.Bits([LowByte(id), HighByte(id)]))
  }

  lemma Crc01Is(id: bv16, rest: seq<bv8>)
    ensures Crc01(id, rest) == C8.Xor(C8.Serial(Start01(id), C8.Bits(rest)), 0xFF)
  {
    hide C8.Serial, C8.Bits, C8.Xor;
    C8.BitsAppend([LowByte(id), HighByte(id)], rest);
    C8.SerialAppend(0xFF, C8.Bits([LowByte(id), HighByte(id)]), C8.Bits(rest));
  }

  lemma SameCrc01(id: bv16, x: seq<bv8>, y: seq<bv8>)
    ensures Crc01(id, x) == Crc01(id, y) <==>
      C8.Serial(Start01(id), C8.Bits(x)) == C8.Serial(Start01(id), C8.Bits(y))
  {
    hide C8.Serial, C8.Bits, C8.Xor, Crc01, Start01;
    Crc01Is(id, x);
    Crc01Is(id, y);
    C8.XorCancel(C8.Serial(Start01(id), C8.Bits(x)), 0xFF);
    C8.XorCancel(C8.Serial(Start01(id), C8.Bits(y)), 0xFF);
  }

  /** Profile 01 detects every error burst of up to 8 bits in the protected part, for payloads of any length. */
  lemma BurstDetected01(id: bv16, frame: seq<bv8>, corrupt: seq<bv8>, k: nat, expected: bv8)
    requires Sound01(id, frame)
    requires |corrupt| == |frame| && corrupt[0] == frame[0]
    requires DifferWithin(C8.Bits(frame[1..]), C8.Bits(corrupt[1..]), k, 8)
    ensures Checked01(id, corrupt, expected) == Failure(CRCMismatch)
  {
    hide C8.Serial, C8.Bits, Crc01, Start01;
    var head, a, b, tail := SplitBurst(C8.Bits(frame[1..]), C8.Bits(corrupt[1..]), k, 8);
    C8.BurstDetected(Start01(id), head, a, b, tail);
    SameCrc01(id, frame[1..], corrupt[1..]);
  }

  /** A change of one byte, the CRC byte included, is always reported. */
  lemma ByteDetected01(id: bv16, frame: seq<bv8>, corrupt: seq<bv8>, i: nat, expected: bv8)
    requires Sound01(id, frame)
    requires i < |frame| && DifferWithin(frame, corrupt, i, 1)
    ensures Checked01(id, corrupt, expected) == Failure(CRCMismatch)
  {
    hide C8.Bits, Crc01;
    assert corrupt == frame[i := corrupt[i]];
    if i == 0 {
      assert corrupt[1..] == frame[1..];
    } else {
      var x, y := frame[1..], corrupt[1..];
      assert x[i - 1] == frame[i] && y[i - 1] == corrupt[i];
      BytesToBits8(x, y, i - 1, 1);
      BurstDetected01(id, frame, corrupt, 8 * (i - 1), expected);
    }
  }

  lemma BytesToBits8(x: seq<bv8>, y: seq<bv8>, k: nat, n: nat)
    requires DifferWithin(x, y, k, n)
    ensures DifferWithin(C8.Bits(x), C8.Bits(y), 8 * k, 8 * n)
  {
    hide C8.Bits, DifferWithin;
    var head, a, b, tail := SplitBurst(x, y, k, n);
    C8.BitsAppend(head + a, tail);
    C8.BitsAppend(head + b, tail);
    C8.BitsAppend(head, a);
    C8.BitsAppend(head, b);
    if C8.Bits(a) == C8.Bits(b) {
      C8.BitsInjective(a, b);
    }
    JoinBurst(C8.Bits(head), C8.Bits(a), C8.Bits(b), C8.Bits(tail), 8 * n);
  }

  lemma BytesToBits32(x: seq<bv8>, y: seq<bv8>, k: nat, n: nat)
    requires DifferWithin(x, y, k, n)
    ensures DifferWithin(C32.Bits(x), C32.Bits(y), 8 * k, 8 * n)
  {
    hide C32.Bits, DifferWithin;
    var head, a, b, tail := SplitBurst(x, y, k, n);
    C32.BitsAppend(head + a, tail);
    C32.BitsAppend(head + b, tail);
    C32.BitsAppend(head, a);
    C32.BitsAppend(head, b);
    if C32.Bits(a) == C32.Bits(b) {
      C32.BitsInjective(a, b);
    }
    JoinBurst(C32.Bits(head), C32.Bits(a), C32.Bits(b), C32.Bits(tail), 8 * n);
  }

  /** Exactly which corruptions of a sound frame pass the CRC: those whose error pattern, run through the
      empty register, gives the error in the CRC byte. */
  lemma UndetectedIff01(id: bv16, frame: seq<bv8>, corrupt: seq<bv8>, expected: bv8)
    requires Sound01(id, frame) && |corrupt| == |frame|
    ensures Checked01(id, corrupt, expected) != Failure(CRCMismatch) <==>
      C8.Serial(0, C8.XorBits(C8.Bits(frame[1..]), C8.Bits(corrupt[1..]))) == C8.Xor(frame[0], corrupt[0])
  {
    hide C8.Serial, C8.Bits, C8.Xor, Crc01, Start01;
    var s := Start01(id);
    var x, y := C8.Serial(s, C8.Bits(frame[1..])), C8.Serial(s, C8.Bits(corrupt[1..]));
    C8.SerialLinear(s, s, C8.Bits(frame[1..]), C8.Bits(corrupt[1..]));
    C8.XorCancel(s, s);
    Crc01Is(id, frame[1..]);
    Crc01Is(id, corrupt[1..]);
    C8.XorDifference(x, y, 0xFF, corrupt[0]);
  }

  // ---------------------------------------------------------------- Profile 01 and foreign DataIDs

  lemma Start01Is(id: bv16)
    ensures Start01(id) == C8.Entry(C8.Xor(C8.Entry(C8.Xor(0xFF, LowByte(id))), HighByte(id)))
  {
    hide C8.Serial, C8.Bits, C8.Xor, C8.Entry;
    C8.SerialNextByte(0xFF, [], LowByte(id));
    C8.SerialNextByte(0xFF, [LowByte(id)], HighByte(id));
    C8.SerialNone(0xFF);
    assert [] + [LowByte(id)] == [LowByte(id)];
    assert [LowByte(id)] + [HighByte(id)] == [LowByte(id), HighByte(id)];
  }

  /** The bytes of the two DataIDs compensate each other in the register. */
  predicate Collide(a: bv16, b: bv16) {
    C8.Xor(HighByte(a), HighByte(b)) == C8.Entry(C8.Xor(LowByte(a), LowByte(b)))
  }

  lemma SameStartIff(a: bv16, b: bv16)
    ensures Start01(a) == Start01(b) <==> Collide(a, b)
  {
    hide C8.Xor, C8.Entry, Start01;
    var la, lb, ha, hb := LowByte(a), LowByte(b), HighByte(a), HighByte(b);
    var ea, eb := C8.Entry(C8.Xor(0xFF, la)), C8.Entry(C8.Xor(0xFF, lb));
    Start01Is(a);
    Start01Is(b);
    C8.EntryInjective(C8.Xor(ea, ha), C8.Xor(eb, hb));
    C8.EntryLinear(C8.Xor(0xFF, la), C8.Xor(0xFF, lb));
    C8.XorSwap(0xFF, la, 0xFF, lb);
    C8.XorCancel(C8.Xor(la, lb), 0);
    C8.XorCancel(0xFF, 0xFF);
    C8.XorCancel(C8.Xor(ea, ha), C8.Xor(eb, hb));
    C8.XorSwap(ea, ha, eb, hb);
    C8.XorCancel(C8.Xor(ea, eb), C8.Xor(ha, hb));
  }

  /** A receiver rejects the frames of a sender with another DataID exactly when the two DataIDs do not
      collide; Profile 01 does not tell all 65536 of them apart. */
  lemma ForeignDataIDRejectedIff01(sender: bv16, receiver: bv16, payload: seq<bv8>, counter: bv8, expected: bv8)
    requires counter <= 14
    ensures Checked01(receiver, Protected01(sender, payload, counter).value, expected) == Failure(CRCMismatch) <==>
      !Collide(sender, receiver)
  {
    hide C8.Serial, C8.Bits, C8.Xor, Crc01, Start01, Collide;
    var rest := [Header01(sender, counter)] + payload;
    var frame := [Crc01(sender, rest)] + rest;
    assert frame[1..] == rest;
    var bits := C8.Bits(rest);
    Crc01Is(sender, rest);
    Crc01Is(receiver, rest);
    C8.XorCancel(C8.Serial(Start01(sender), bits), 0xFF);
    C8.XorCancel(C8.Serial(Start01(receiver), bits), 0xFF);
    C8.SerialInjective(Start01(sender), Start01(receiver), bits);
    SameStartIff(sender, receiver);
  }

  /** DataIDs that differ in exactly one byte never collide. */
  lemma OneByteApart(a: bv16, b: bv16)
    requires (LowByte(a) == LowByte(b)) != (HighByte(a) == HighByte(b))
    ensures !Collide(a, b)
  {
    hide C8.Xor, C8.Entry;
    C8.XorCancel(LowByte(a), LowByte(b));
    C8.XorCancel(HighByte(a), HighByte(b));
    C8.EntryInjective(C8.Xor(LowByte(a), LowByte(b)), 0);
    C8.EntryOfZero();
  }

  /** Two DataIDs that do collide: a receiver for 0x1D01 accepts every frame sent under 0x0000. */
  lemma CollidingDataIDs()
    ensures Collide(0x0000, 0x1D01)
  {
    hide C8.ShiftN, C8.Shift;
    C8.EntryOfOne();
  }

  // ---------------------------------------------------------------- Profile 05

  lemma Crc05Is(id: bv8, rest: seq<bv8>)
    ensures Crc05(id, rest) == C32.Xor(C32.Serial(0xFFFF_FFFF, C32.Bits([id]) + C32.Bits(rest)), 0xFFFF_FFFF)
  {
    hide C32.Serial, C32.Bits, C32.Xor;
    C32.BitsAppend([id], rest);
  }

  lemma SameCrc05(a: bv8, x: seq<bv8>, b: bv8, y: seq<bv8>)
    ensures Crc05(a, x) == Crc05(b, y) <==>
      C32.Serial(0xFFFF_FFFF, C32.Bits([a]) + C32.Bits(x)) == C32.Serial(0xFFFF_FFFF, C32.Bits([b]) + C32.Bits(y))
  {
    hide C32.Serial, C32.Bits, C32.Xor, Crc05;
    Crc05Is(a, x);
    Crc05Is(b, y);
    C32.XorCancel(C32.Serial(0xFFFF_FFFF, C32.Bits([a]) + C32.Bits(x)), 0xFFFF_FFFF);
    C32.XorCancel(C32.Serial(0xFFFF_FFFF, C32.Bits([b]) + C32.Bits(y)), 0xFFFF_FFFF);
  }

  /** Profile 05 detects every error burst of up to 32 bits after the CRC field, aligned to bytes or not,
      for payloads of any length. */
  lemma BurstDetected05(id: bv8, frame: seq<bv8>, corrupt: seq<bv8>, k: nat, expected: bv8)
    requires Sound05(id, frame)
    requires |corrupt| == |frame| && FromLE32(corrupt) == FromLE32(frame)
    requires DifferWithin(C32.Bits(frame[4..]), C32.Bits(corrupt[4..]), k, 32)
    ensures Checked05(id, corrupt, expected) == Failure(CRCMismatch)
  {
    hide C32.Serial, C32.Bits, Crc05, FromLE32;
    var head, a, b, tail := SplitBurst(C32.Bits(frame[4..]), C32.Bits(corrupt[4..]), k, 32);
    var first := C32.Bits([id]);
    C32.BurstDetected(0xFFFF_FFFF, first + head, a, b, tail);
    assert first + head + a + tail == first + (head + a + tail);
    assert first + head + b + tail == first + (head + b + tail);
    SameCrc05(id, frame[4..], id, corrupt[4..]);
  }

  /** Any change confined to four consecutive bytes after the CRC field, or to the CRC field, is reported. */
  lemma FourBytesDetected05(id: bv8, frame: seq<bv8>, corrupt: seq<bv8>, i: nat, expected: bv8)
    requires Sound05(id, frame)
    requires DifferWithin(frame, corrupt, i, 4) && (i == 0 || i >= 4)
    ensures Checked05(id, corrupt, expected) == Failure(CRCMismatch)
  {
    hide C32.Bits, Crc05, FromLE32;
    var x, y := frame[4..], corrupt[4..];
    assert frame == frame[..4] + x && corrupt == corrupt[..4] + y;
    if i == 0 {
      assert x == y;
      if FromLE32(frame) == FromLE32(corrupt) {
        FromLE32Injective(frame, corrupt);
      }
    } else {
      assert frame[..4] == corrupt[..4];
      SameField(frame, corrupt);
      assert forall j | 0 <= j < |x| :: x[j] == frame[j + 4] && y[j] == corrupt[j + 4];
      BytesToBits32(x, y, i - 4, 4);
      BurstDetected05(id, frame, corrupt, 8 * (i - 4), expected);
    }
  }

  lemma SameField(a: seq<bv8>, b: seq<bv8>)
    requires |a| >= 4 && |b| >= 4 && a[..4] == b[..4]
    ensures FromLE32(a) == FromLE32(b)
  {
    assert forall i | 0 <= i < 4 :: a[i] == a[..4][i] && b[i] == b[..4][i];
  }

  /** Exactly which corruptions of a sound frame pass the CRC. */
  lemma UndetectedIff05(id: bv8, frame: seq<bv8>, corrupt: seq<bv8>, expected: bv8)
    requires Sound05(id, frame) && |corrupt| == |frame|
    ensures Checked05(id, corrupt, expected) != Failure(CRCMismatch) <==>
      C32.Serial(0, C32.XorBits(C32.Bits(frame[4..]), C32.Bits(corrupt[4..]))) ==
        C32.Xor(FromLE32(frame), FromLE32(corrupt))
  {
    hide C32.Serial, C32.Bits, C32.Xor, Crc05, FromLE32;
    var u, v := C32.Bits(frame[4..]), C32.Bits(corrupt[4..]);
    var s := C32.Serial(0xFFFF_FFFF, C32.Bits([id]));
    C32.SerialAppend(0xFFFF_FFFF, C32.Bits([id]), u);
    C32.SerialAppend(0xFFFF_FFFF, C32.Bits([id]), v);
    Crc05Is(id, frame[4..]);
    Crc05Is(id, corrupt[4..]);
    C32.SerialLinear(s, s, u, v);
    C32.XorSelf(s);
    C32.XorDifference(C32.Serial(s, u), C32.Serial(s, v), 0xFFFF_FFFF, FromLE32(corrupt));
  }

  /** A receiver with another DataID rejects every protected frame. */
  lemma ForeignDataIDRejected05(sender: bv8, receiver: bv8, payload: seq<bv8>, counter: bv8, expected: bv8)
    requires sender != receiver
    ensures Checked05(receiver, Protected05(sender, payload, counter), expected) == Failure(CRCMismatch)
  {
    hide C32.Serial, C32.ByteBits, C32.Xor, Crc05, LE32, FromLE32;
    var rest := [counter, 0, 0, 0] + payload;
    var frame := LE32(Crc05(sender, rest)) + rest;
    assert frame[4..] == rest;
    FromLE32Inverse(Crc05(sender, rest), rest);
    var bits := C32.Bits(rest);
    if C32.ByteBits(sender) == C32.ByteBits(receiver) {
      C32.ByteBitsInjective(sender, receiver);
    }
    OneByteBits32(sender);
    OneByteBits32(receiver);
    C32.BurstDetected(0xFFFF_FFFF, [], C32.ByteBits(sender), C32.ByteBits(receiver), bits);
    assert [] + C32.ByteBits(sender) + bits == C32.ByteBits(sender) + bits;
    assert [] + C32.ByteBits(receiver) + bits == C32.ByteBits(receiver) + bits;
    SameCrc05(sender, rest, receiver, rest);
  }

  lemma OneByteBits32(b: bv8)
    ensures C32.Bits([b]) == C32.ByteBits(b)
  {
    hide C32.ByteBits;
    assert C32.Bits([b]) == C32.ByteBits(b) + C32.Bits([]);
  }
}
