/** CRC-32/Ethernet of e2e/e2e.go: the reflected lookup table against the bit-serial shift register,
    and the error bursts that the register always detects. */
module Crc32 {

  const POLYNOMIAL: bv32 := 0xEDB88320

  function Xor(a: bv32, b: bv32): bv32 {
    a ^ b
  }

  function Half(c: bv32): bv32 {
    c >> 1
  }

  function Double(c: bv32): bv32 {
    c << 1
  }

  predicate Odd(c: bv32) {
    c & 1 != 0
  }

  /** One turn of the shift register with a zero input bit. */
  function Shift(c: bv32): bv32 {
    if Odd(c) then Xor(Half(c), POLYNOMIAL) else Half(c)
  }

  function ShiftN(c: bv32, n: nat): bv32
    decreases n
  {
    if n == 0 then c else ShiftN(Shift(c), n - 1)
  }

  function Bit(b: bool): bv32 {
    if b then 1 else 0
  }

  /** The shift register fed one input bit at a time. */
  function Serial(c: bv32, bits: seq<bool>): bv32
    decreases |bits|
  {
    if bits == [] then c else Serial(Shift(Xor(c, Bit(bits[0]))), bits[1..])
  }

  /** The n low bits of w in the order they enter the register: least significant first. */
  function LowBits(w: bv32, n: nat): (bits: seq<bool>)
    ensures |bits| == n
    decreases n
  {
    if n == 0 then [] else [Odd(w)] + LowBits(Half(w), n - 1)
  }

  function ByteBits(b: bv8): (bits: seq<bool>)
    ensures |bits| == 8
  {
    LowBits(b as bv32, 8)
  }

  function Bits(data: seq<bv8>): (bits: seq<bool>)
    ensures |bits| == 8 * |data|
  {
    if data == [] then [] else ByteBits(data[0]) + Bits(data[1..])
  }

  // ---------------------------------------------------------------- exclusive or

  lemma XorIs(a: bv32, b: bv32)
    ensures Xor(a, b) == a ^ b
  {
  }

  lemma XorAssoc(x: bv32, y: bv32, z: bv32)
    ensures Xor(Xor(x, y), z) == Xor(x, Xor(y, z))
  {
  }

  lemma XorComm(x: bv32, y: bv32)
    ensures Xor(x, y) == Xor(y, x)
  {
  }

  lemma XorSelf(x: bv32)
    ensures Xor(x, x) == 0 && Xor(x, 0) == x && Xor(0, x) == x
  {
  }

  lemma XorCancel(x: bv32, y: bv32)
    ensures Xor(Xor(x, y), y) == x
    ensures Xor(x, y) == 0 ==> x == y
  {
    hide Xor;
    XorAssoc(x, y, y);
    XorSelf(x);
    XorSelf(y);
  }

  lemma XorSwap(a: bv32, b: bv32, c: bv32, d: bv32)
    ensures Xor(Xor(a, b), Xor(c, d)) == Xor(Xor(a, c), Xor(b, d))
  {
    hide Xor;
    XorAssoc(a, b, Xor(c, d));
    XorAssoc(b, c, d);
    XorComm(b, c);
    XorAssoc(c, b, d);
    XorAssoc(a, c, Xor(b, d));
  }

  lemma HalfXor(x: bv32, y: bv32)
    ensures Half(Xor(x, y)) == Xor(Half(x), Half(y))
  {
    calc {
      Half(Xor(x, y));
      (x ^ y) >> 1;
      (x >> 1) ^ (y >> 1);
      Xor(Half(x), Half(y));
    }
  }

  lemma OddXor(x: bv32, y: bv32)
    ensures Odd(Xor(x, y)) <==> Odd(x) != Odd(y)
  {
  }

  lemma XorDifference(x: bv32, y: bv32, m: bv32, field: bv32)
    ensures field == Xor(y, m) <==> Xor(x, y) == Xor(Xor(x, m), field)
  {
    hide Xor;
    XorAssoc(x, m, field);
    XorComm(m, field);
    XorCancel(field, m);
    XorCancel(y, m);
    XorComm(x, y);
    XorComm(x, Xor(m, field));
    XorCancel(y, x);
    XorCancel(Xor(m, field), x);
  }

  // ---------------------------------------------------------------- the shift step is linear and injective

  lemma ShiftLinear(a: bv32, b: bv32)
    ensures Shift(Xor(a, b)) == Xor(Shift(a), Shift(b))
  {
    hide Xor, Half, Odd;
    var x, y := Half(a), Half(b);
    HalfXor(a, b);
    OddXor(a, b);
    XorSwap(x, POLYNOMIAL, y, POLYNOMIAL);
    XorSelf(POLYNOMIAL);
    XorSelf(Xor(x, y));
    XorAssoc(x, y, POLYNOMIAL);
    XorAssoc(x, POLYNOMIAL, y);
    XorComm(POLYNOMIAL, y);
  }

  lemma ShiftInjective(a: bv32, b: bv32)
    ensures Shift(a) == Shift(b) ==> a == b
  {
  }

  lemma {:induction false} ShiftNLinear(a: bv32, b: bv32, n: nat)
    ensures ShiftN(Xor(a, b), n) == Xor(ShiftN(a, n), ShiftN(b, n))
    decreases n
  {
    hide Xor, Shift;
    if n > 0 {
      ShiftLinear(a, b);
      ShiftNLinear(Shift(a), Shift(b), n - 1);
    }
  }

  lemma {:induction false} ShiftNInjective(a: bv32, b: bv32, n: nat)
    ensures ShiftN(a, n) == ShiftN(b, n) ==> a == b
    decreases n
  {
    hide Shift;
    if n > 0 {
      ShiftInjective(a, b);
      ShiftNInjective(Shift(a), Shift(b), n - 1);
    }
  }

  lemma {:induction false} SerialAppend(c: bv32, a: seq<bool>, b: seq<bool>)
    ensures Serial(c, a + b) == Serial(Serial(c, a), b)
    decreases |a|
  {
    hide Xor, Shift;
    if a == [] {
      assert a + b == b;
    } else {
      assert (a + b)[1..] == a[1..] + b;
      SerialAppend(Shift(Xor(c, Bit(a[0]))), a[1..], b);
    }
  }

  lemma {:induction false} SerialInjective(c: bv32, d: bv32, bits: seq<bool>)
    ensures Serial(c, bits) == Serial(d, bits) ==> c == d
    decreases |bits|
  {
    hide Xor, Shift;
    if bits != [] {
      var b := Bit(bits[0]);
      SerialInjective(Shift(Xor(c, b)), Shift(Xor(d, b)), bits[1..]);
      ShiftInjective(Xor(c, b), Xor(d, b));
      XorCancel(c, b);
      XorCancel(d, b);
    }
  }

  function XorBits(a: seq<bool>, b: seq<bool>): seq<bool>
    requires |a| == |b|
  {
    seq(|a|, i requires 0 <= i < |a| => a[i] != b[i])
  }

  /** The register of a corrupted message differs from the original's by the register of the error. */
  lemma {:induction false} SerialLinear(c: bv32, d: bv32, a: seq<bool>, b: seq<bool>)
    requires |a| == |b|
    ensures Serial(Xor(c, d), XorBits(a, b)) == Xor(Serial(c, a), Serial(d, b))
    decreases |a|
  {
    hide Xor, Shift;
    if a != [] {
      var x, y := Bit(a[0]), Bit(b[0]);
      assert XorBits(a, b)[1..] == XorBits(a[1..], b[1..]);
      BitXor(a[0], b[0]);
      XorSwap(c, x, d, y);
      ShiftLinear(Xor(c, x), Xor(d, y));
      SerialLinear(Shift(Xor(c, x)), Shift(Xor(d, y)), a[1..], b[1..]);
    }
  }

  lemma BitXor(a: bool, b: bool)
    ensures Bit(a != b) == Xor(Bit(a), Bit(b))
  {
  }

  // ---------------------------------------------------------------- up to 32 bits load the register

  /** The bits as a word, first bit least significant. */
  function Word(bits: seq<bool>): bv32 {
    if bits == [] then 0 else Xor(Bit(bits[0]), Double(Word(bits[1..])))
  }

  /** Ones from bit m upwards. */
  function HighMask(m: nat): bv32 {
    match m
    case 0 => 0xFFFF_FFFF case 1 => 0xFFFF_FFFE case 2 => 0xFFFF_FFFC case 3 => 0xFFFF_FFF8
    case 4 => 0xFFFF_FFF0 case 5 => 0xFFFF_FFE0 case 6 => 0xFFFF_FFC0 case 7 => 0xFFFF_FF80
    case 8 => 0xFFFF_FF00 case 9 => 0xFFFF_FE00 case 10 => 0xFFFF_FC00 case 11 => 0xFFFF_F800
    case 12 => 0xFFFF_F000 case 13 => 0xFFFF_E000 case 14 => 0xFFFF_C000 case 15 => 0xFFFF_8000
    case 16 => 0xFFFF_0000 case 17 => 0xFFFE_0000 case 18 => 0xFFFC_0000 case 19 => 0xFFF8_0000
    case 20 => 0xFFF0_0000 case 21 => 0xFFE0_0000 case 22 => 0xFFC0_0000 case 23 => 0xFF80_0000
    case 24 => 0xFF00_0000 case 25 => 0xFE00_0000 case 26 => 0xFC00_0000 case 27 => 0xF800_0000
    case 28 => 0xF000_0000 case 29 => 0xE000_0000 case 30 => 0xC000_0000 case 31 => 0x8000_0000
    case _ => 0
  }

  lemma MaskStep(m: nat)
    requires m < 32
    ensures HighMask(m + 1) == Double(HighMask(m))
    ensures HighMask(m) & 0x8000_0000 != 0
    ensures HighMask(m) & HighMask(m + 1) == HighMask(m + 1)
  {
    match m
    case 0 => case 1 => case 2 => case 3 => case 4 => case 5 => case 6 => case 7 =>
    case 8 => case 9 => case 10 => case 11 => case 12 => case 13 => case 14 => case 15 =>
    case 16 => case 17 => case 18 => case 19 => case 20 => case 21 => case 22 => case 23 =>
    case 24 => case 25 => case 26 => case 27 => case 28 => case 29 => case 30 => case 31 =>
    case _ =>
  }

  predicate Misses(w: bv32, h: bv32) {
    w & h == 0
  }

  predicate TopClear(w: bv32) {
    w & 0x8000_0000 == 0
  }

  /** w has no bit at position m or above. */
  predicate Fits(w: bv32, m: nat) {
    Misses(w, HighMask(m))
  }

  lemma MissesTop(w: bv32, h: bv32)
    requires Misses(w, h) && h & 0x8000_0000 != 0
    ensures TopClear(w)
  {
  }

  lemma MissesCons(b: bool, w: bv32, h: bv32)
    requires Misses(w, h)
    ensures Misses(Xor(Bit(b), Double(w)), Double(h))
  {
  }

  lemma MissesDouble(w: bv32, h: bv32)
    requires Misses(w, h)
    ensures Misses(Double(w), Double(h))
  {
  }

  lemma MissesHalf(w: bv32, h: bv32)
    requires Misses(w, Double(h))
    ensures Misses(Half(w), h)
  {
  }

  lemma MissesLess(w: bv32, h: bv32, h2: bv32)
    requires Misses(w, h) && h & h2 == h2
    ensures Misses(w, h2)
  {
  }

  lemma FitsBelowTop(w: bv32, m: nat)
    requires m < 32 && Fits(w, m)
    ensures TopClear(w)
  {
    hide HighMask, Misses, TopClear;
    MaskStep(m);
    MissesTop(w, HighMask(m));
  }

  lemma FitsCons(b: bool, w: bv32, m: nat)
    requires m < 32 && Fits(w, m)
    ensures Fits(Xor(Bit(b), Double(w)), m + 1)
    ensures Fits(Double(w), m + 1)
  {
    hide HighMask, Misses, Xor, Double, Bit;
    MaskStep(m);
    MissesCons(b, w, HighMask(m));
    MissesDouble(w, HighMask(m));
  }

  lemma FitsHalf(w: bv32, m: nat)
    requires m < 32 && Fits(w, m + 1)
    ensures Fits(Half(w), m)
  {
    hide HighMask, Misses, Half, Double;
    MaskStep(m);
    MissesHalf(w, HighMask(m));
  }

  lemma FitsMore(w: bv32, m: nat)
    requires m < 32 && Fits(w, m)
    ensures Fits(w, m + 1)
  {
    hide HighMask, Misses, Double;
    MaskStep(m);
    MissesLess(w, HighMask(m), HighMask(m + 1));
  }

  lemma {:induction false} WordFits(bits: seq<bool>)
    requires |bits| <= 32
    ensures Fits(Word(bits), |bits|)
  {
    if bits == [] {
      assert Fits(0, 0);
    } else {
      hide Fits, Xor, Double, Bit;
      WordFits(bits[1..]);
      FitsCons(bits[0], Word(bits[1..]), |bits| - 1);
    }
  }

  lemma WordTopClear(bits: seq<bool>)
    requires |bits| < 32
    ensures TopClear(Word(bits))
  {
    hide Word, Fits, TopClear;
    WordFits(bits);
    FitsBelowTop(Word(bits), |bits|);
  }

  lemma DoubleEven(w: bv32)
    ensures !Odd(Double(w))
    ensures TopClear(w) ==> Half(Double(w)) == w
  {
  }

  lemma ShiftDouble(w: bv32)
    requires TopClear(w)
    ensures Shift(Double(w)) == w
  {
    hide Xor, Half, Double, Odd, TopClear;
    DoubleEven(w);
  }

  lemma ConsInjective(a: bool, b: bool, v: bv32, w: bv32)
    requires TopClear(v) && TopClear(w)
    requires Xor(Bit(a), Double(v)) == Xor(Bit(b), Double(w))
    ensures a == b && v == w
  {
  }

  lemma {:induction false} WordInjective(a: seq<bool>, b: seq<bool>)
    requires |a| == |b| <= 32 && Word(a) == Word(b)
    ensures a == b
    decreases |a|
  {
    hide Xor, Double, Bit, TopClear;
    if a != [] {
      WordTopClear(a[1..]);
      WordTopClear(b[1..]);
      ConsInjective(a[0], b[0], Word(a[1..]), Word(b[1..]));
      WordInjective(a[1..], b[1..]);
      assert a == [a[0]] + a[1..] && b == [b[0]] + b[1..];
    }
  }

  /** Feeding at most 32 bits is the same as loading them all and then shifting. */
  lemma {:induction false} SerialLoads(c: bv32, bits: seq<bool>)
    requires |bits| <= 32
    ensures Serial(c, bits) == ShiftN(Xor(c, Word(bits)), |bits|)
    decreases |bits|
  {
    hide Xor, Shift, Double, Bit, TopClear;
    if bits == [] {
      XorSelf(c);
    } else {
      var b, w := Bit(bits[0]), Word(bits[1..]);
      WordTopClear(bits[1..]);
      ShiftDouble(w);
      XorAssoc(c, b, Double(w));
      ShiftLinear(Xor(c, b), Double(w));
      SerialLoads(Shift(Xor(c, b)), bits[1..]);
    }
  }

  /** An error burst of up to 32 bits, wherever it lies and however long the message is, changes the register. */
  lemma BurstDetected(c: bv32, head: seq<bool>, a: seq<bool>, b: seq<bool>, tail: seq<bool>)
    requires |a| == |b| <= 32 && a != b
    ensures Serial(c, head + a + tail) != Serial(c, head + b + tail)
  {
    hide Xor, Shift, ShiftN, Word, Serial;
    var d := Serial(c, head);
    SerialAppend(c, head + a, tail);
    SerialAppend(c, head + b, tail);
    SerialAppend(c, head, a);
    SerialAppend(c, head, b);
    if Serial(c, head + a + tail) == Serial(c, head + b + tail) {
      SerialInjective(Serial(d, a), Serial(d, b), tail);
      SerialLoads(d, a);
      SerialLoads(d, b);
      ShiftNInjective(Xor(d, Word(a)), Xor(d, Word(b)), |a|);
      XorComm(d, Word(a));
      XorComm(d, Word(b));
      XorCancel(Word(a), d);
      XorCancel(Word(b), d);
      WordInjective(a, b);
    }
  }

  // ---------------------------------------------------------------- the lookup table

  /** Entry b of crc32Table, as init computes it. */
  function Entry(b: bv8): bv32 {
    ShiftN(b as bv32, 8)
  }

  /** One turn of the loop in crc32. */
  function TableStep(c: bv32, b: bv8): bv32 {
    Xor(Entry(((c & 0xFF) as bv8) ^ b), c >> 8)
  }

  lemma ConsOfHalf(w: bv32)
    ensures Xor(Bit(Odd(w)), Double(Half(w))) == w
  {
  }

  lemma {:induction false} WordOfLowBits(w: bv32, n: nat)
    requires n <= 32 && Fits(w, n)
    ensures Word(LowBits(w, n)) == w
    decreases n
  {
    if n == 0 {
      assert w == 0;
    } else {
      hide Xor, Double, Half, Odd, Bit, Fits;
      FitsHalf(w, n - 1);
      WordOfLowBits(Half(w), n - 1);
      ConsOfHalf(w);
      assert LowBits(w, n)[1..] == LowBits(Half(w), n - 1);
    }
  }

  lemma ByteFits(b: bv8)
    ensures Fits(b as bv32, 8)
  {
  }

  function DoubleN(c: bv32, n: nat): bv32 {
    if n == 0 then c else Double(DoubleN(c, n - 1))
  }

  lemma {:induction false} DoubleNFits(c: bv32, n: nat, m: nat)
    requires n + m <= 32 && Fits(c, m)
    ensures Fits(DoubleN(c, n), n + m)
    decreases n
  {
    hide Fits, Double;
    if n > 0 {
      DoubleNFits(c, n - 1, m);
      FitsCons(false, DoubleN(c, n - 1), n - 1 + m);
    }
  }

  /** A word whose low n bits are zero passes through n turns as a plain shift. */
  lemma {:induction false} ShiftNDoubleN(c: bv32, n: nat)
    requires n <= 32 && Fits(c, 32 - n)
    ensures ShiftN(DoubleN(c, n), n) == c
    decreases n
  {
    hide Fits, Shift, Double, TopClear;
    if n > 0 {
      DoubleNFits(c, n - 1, 32 - n);
      FitsBelowTop(DoubleN(c, n - 1), 31);
      ShiftDouble(DoubleN(c, n - 1));
      FitsMore(c, 32 - n);
      ShiftNDoubleN(c, n - 1);
    }
  }

  lemma EightDoubles(x: bv32)
    ensures DoubleN(x, 8) == Double(Double(Double(Double(Double(Double(Double(Double(x))))))))
  {
    hide Double;
    assert DoubleN(x, 1) == Double(x);
    assert DoubleN(x, 2) == Double(Double(x));
    assert DoubleN(x, 4) == Double(Double(DoubleN(x, 2)));
    assert DoubleN(x, 6) == Double(Double(DoubleN(x, 4)));
  }

  lemma SplitRegister(c: bv32, b: bv8)
    ensures Xor(c, b as bv32) == Xor((((c & 0xFF) as bv8) ^ b) as bv32, DoubleN(c >> 8, 8))
    ensures Fits(c >> 8, 24)
  {
    hide DoubleN;
    EightDoubles(c >> 8);
  }

  /** One table lookup is eight turns of the bit-serial register. */
  lemma TableStepIsSerial(c: bv32, b: bv8)
    ensures TableStep(c, b) == Serial(c, ByteBits(b))
  {
    hide Xor, Shift, ShiftN, Word, Fits, Serial, LowBits, DoubleN;
    SerialLoads(c, ByteBits(b));
    ByteFits(b);
    WordOfLowBits(b as bv32, 8);
    SplitRegister(c, b);
    ShiftNLinear((((c & 0xFF) as bv8) ^ b) as bv32, DoubleN(c >> 8, 8), 8);
    ShiftNDoubleN(c >> 8, 8);
  }

  // ---------------------------------------------------------------- the checksum

  /** CRC-32 as the standard describes it: the bits of the data through the register, then inverted. */
  function Checksum(initVal: bv32, data: seq<bv8>): bv32 {
    Xor(Serial(initVal, Bits(data)), 0xFFFF_FFFF)
  }

  lemma {:induction false} BitsAppend(a: seq<bv8>, b: seq<bv8>)
    ensures Bits(a + b) == Bits(a) + Bits(b)
    decreases |a|
  {
    hide ByteBits;
    if a == [] {
      assert a + b == b;
    } else {
      assert (a + b)[1..] == a[1..] + b;
      BitsAppend(a[1..], b);
    }
  }

  lemma SerialNextByte(c: bv32, data: seq<bv8>, b: bv8)
    ensures Serial(c, Bits(data + [b])) == TableStep(Serial(c, Bits(data)), b)
  {
    hide Xor, Shift, TableStep, Serial, ByteBits;
    BitsAppend(data, [b]);
    assert Bits([b]) == ByteBits(b) + Bits([]) == ByteBits(b);
    SerialAppend(c, Bits(data), ByteBits(b));
    TableStepIsSerial(Serial(c, Bits(data)), b);
  }

  ghost predicate IsTable(t: seq<bv32>) {
    |t| == 256 && forall b: bv8 :: t[b as int] == Entry(b)
  }

  /** The init function of crc32Table. */
  method BuildTable() returns (table: array<bv32>)
    ensures IsTable(table[..]) && fresh(table)
  {
    hide Shift, Entry;
    table := new bv32[256](_ => 0);
    for i := 0 to 256
      invariant forall b: bv8 | b as int < i :: table[b as int] == Entry(b)
    {
      var crc := BuildEntry(i as bv8);
      table[i] := crc;
      forall b: bv8 | b as int == i ensures Entry(b) == crc {
        assert b == i as bv8;
      }
    }
  }

  method BuildEntry(i: bv8) returns (crc: bv32)
    ensures crc == Entry(i)
  {
    hide Shift;
    crc := i as bv32;
    for j := 0 to 8
      invariant ShiftN(crc, 8 - j) == Entry(i)
    {
      crc := ShiftOnce(crc);
    }
  }

  method ShiftOnce(c: bv32) returns (r: bv32)
    ensures r == Shift(c)
  {
    if c & 1 != 0 {
      r := (c >> 1) ^ POLYNOMIAL;
    } else {
      r := c >> 1;
    }
  }

  method Crc32(table: array<bv32>, initVal: bv32, data: seq<bv8>) returns (r: bv32)
    requires IsTable(table[..])
    ensures r == Checksum(initVal, data)
  {
    hide Xor, Shift, ShiftN, Serial, Bits, Entry;
    var crc := initVal;
    SerialNone(initVal);
    for i := 0 to |data|
      invariant crc == Serial(initVal, Bits(data[..i]))
    {
      var b := data[i];
      crc := Lookup(table, crc, b);
      SerialNextByte(initVal, data[..i], b);
      assert data[..i + 1] == data[..i] + [b];
    }
    assert data[..|data|] == data;
    XorIs(crc, 0xFFFF_FFFF);
    return crc ^ 0xFFFF_FFFF;
  }

  lemma SerialNone(c: bv32)
    ensures Serial(c, Bits([])) == c
  {
  }

  lemma TableAt(t: seq<bv32>, b: bv8)
    requires IsTable(t)
    ensures b as int < |t| && t[b as int] == Entry(b)
  {
    hide Entry;
    assert (b as int) as bv8 == b;
  }

  method Lookup(table: array<bv32>, crc: bv32, b: bv8) returns (r: bv32)
    requires IsTable(table[..])
    ensures r == TableStep(crc, b)
  {
    hide Entry, IsTable, Xor;
    var index := ((crc & 0xFF) as bv8) ^ b;
    TableAt(table[..], index);
    XorIs(Entry(index), crc >> 8);
    r := table[index as int] ^ (crc >> 8);
  }

  lemma {:induction false} BitsInjective(a: seq<bv8>, b: seq<bv8>)
    requires |a| == |b| && Bits(a) == Bits(b)
    ensures a == b
    decreases |a|
  {
    hide ByteBits;
    if a != [] {
      assert ByteBits(a[0]) == Bits(a)[..8] == Bits(b)[..8] == ByteBits(b[0]);
      assert Bits(a[1..]) == Bits(a)[8..] == Bits(b)[8..] == Bits(b[1..]);
      ByteBitsInjective(a[0], b[0]);
      BitsInjective(a[1..], b[1..]);
      assert a == [a[0]] + a[1..] && b == [b[0]] + b[1..];
    }
  }

  lemma ByteBitsInjective(a: bv8, b: bv8)
    requires ByteBits(a) == ByteBits(b)
    ensures a == b
  {
    hide Word, LowBits, Fits;
    ByteFits(a);
    ByteFits(b);
    WordOfLowBits(a as bv32, 8);
    WordOfLowBits(b as bv32, 8);
  }
}
