/** The two checksums of e2e/e2e.go against their definition: division by the generator polynomial. The
    generators are written by their powers, so nothing here goes through the constants of the tables. */
module CrcStandard {
  import C8 = Crc8
  import C32 = Crc32
  import opened Gf2

  // ---------------------------------------------------------------- CRC-32

  /** x^32 + x^26 + x^23 + x^22 + x^16 + x^12 + x^11 + x^10 + x^8 + x^7 + x^5 + x^4 + x^2 + x + 1 */
  const GENERATOR32: seq<bool> := Polynomial([32, 26, 23, 22, 16, 12, 11, 10, 8, 7, 5, 4, 2, 1, 0])

  lemma {:induction false} LowBitsXor(a: bv32, b: bv32, n: nat)
    ensures C32.LowBits(C32.Xor(a, b), n) == Add(C32.LowBits(a, n), C32.LowBits(b, n))
    decreases n
  {
    hide C32.Xor, C32.Half, C32.Odd, Add;
    if n == 0 {
      AddNothing();
    } else {
      C32.HalfXor(a, b);
      C32.OddXor(a, b);
      LowBitsXor(C32.Half(a), C32.Half(b), n - 1);
      AddCons(C32.Odd(a), C32.LowBits(C32.Half(a), n - 1), C32.Odd(b), C32.LowBits(C32.Half(b), n - 1));
    }
  }

  lemma {:induction false} LowBitsEnd(w: bv32, n: nat)
    requires n <= 32 && C32.Fits(w, n)
    ensures C32.LowBits(w, n + 1) == C32.LowBits(w, n) + [false]
    decreases n
  {
    hide C32.Half, C32.Fits;
    if n == 0 {
      NothingFits(w);
    } else {
      C32.FitsHalf(w, n - 1);
      LowBitsEnd(C32.Half(w), n - 1);
    }
  }

  lemma NothingFits(w: bv32)
    requires C32.Fits(w, 0)
    ensures !C32.Odd(w)
  {
  }

  lemma FitsWord(w: bv32)
    ensures C32.Fits(w, 32)
  {
  }

  lemma LowBitsHalf(w: bv32)
    ensures C32.LowBits(C32.Half(w), 32) == C32.LowBits(w, 32)[1..] + [false]
  {
    hide C32.Half, C32.Odd, C32.Fits;
    FitsWord(w);
    LowBitsEnd(w, 32);
    var bits := C32.LowBits(w, 33);
    assert bits == [C32.Odd(w)] + C32.LowBits(C32.Half(w), 32);
    assert C32.LowBits(C32.Half(w), 32) == bits[1..];
    assert (C32.LowBits(w, 32) + [false])[1..] == C32.LowBits(w, 32)[1..] + [false];
  }

  lemma EightBits(w: bv32, n: nat)
    requires n >= 8
    ensures C32.LowBits(w, n) ==
      [w & 1 != 0, w & 2 != 0, w & 4 != 0, w & 8 != 0, w & 16 != 0, w & 32 != 0, w & 64 != 0, w & 128 != 0] +
      C32.LowBits(w >> 8, n - 8)
  {
    FourBits(w, n);
    FourBits(w >> 4, n - 4);
    assert w >> 4 >> 4 == w >> 8;
    assert (w >> 4) & 1 != 0 <==> w & 16 != 0;
    assert (w >> 4) & 2 != 0 <==> w & 32 != 0;
    assert (w >> 4) & 4 != 0 <==> w & 64 != 0;
    assert (w >> 4) & 8 != 0 <==> w & 128 != 0;
  }

  lemma FourBits(w: bv32, n: nat)
    requires n >= 4
    ensures C32.LowBits(w, n) == [w & 1 != 0, w & 2 != 0, w & 4 != 0, w & 8 != 0] + C32.LowBits(w >> 4, n - 4)
  {
    BitsByHalves(w);
    hide C32.Half, C32.Odd;
    var h1 := C32.Half(w);
    var h2 := C32.Half(h1);
    var h3 := C32.Half(h2);
    assert C32.LowBits(w, n) == [C32.Odd(w)] + C32.LowBits(h1, n - 1);
    assert C32.LowBits(h1, n - 1) == [C32.Odd(h1)] + C32.LowBits(h2, n - 2);
    assert C32.LowBits(h2, n - 2) == [C32.Odd(h2)] + C32.LowBits(h3, n - 3);
    assert C32.LowBits(h3, n - 3) == [C32.Odd(h3)] + C32.LowBits(C32.Half(h3), n - 4);
  }

  lemma BitsByHalves(w: bv32)
    ensures C32.Odd(w) == (w & 1 != 0) && C32.Odd(C32.Half(w)) == (w & 2 != 0)
    ensures C32.Odd(C32.Half(C32.Half(w))) == (w & 4 != 0)
    ensures C32.Odd(C32.Half(C32.Half(C32.Half(w)))) == (w & 8 != 0)
    ensures C32.Half(C32.Half(C32.Half(C32.Half(w)))) == w >> 4
  {
  }

  const BITS20: seq<bool> := [false, false, false, false, false, true, false, false]
  const BITS83: seq<bool> := [true, true, false, false, false, false, false, true]
  const BITSB8: seq<bool> := [false, false, false, true, true, true, false, true]
  const BITSED: seq<bool> := [true, false, true, true, false, true, true, true]

  lemma Word32()
    ensures C32.LowBits(0xEDB8_8320, 32) == BITS20 + (BITS83 + (BITSB8 + BITSED))
  {
    EightBits(0xEDB8_8320, 32);
    EightBits(0x00ED_B883, 24);
    EightBits(0x0000_EDB8, 16);
    EightBits(0x0000_00ED, 8);
    assert C32.LowBits(0, 0) == [];
    hide C32.LowBits;
    assert BITSED + [] == BITSED;
  }

  lemma Generator32()
    ensures |GENERATOR32| == 33 && GENERATOR32[0] && GENERATOR32[1..9] == BITS20 && GENERATOR32[9..17] == BITS83
    ensures GENERATOR32[17..25] == BITSB8 && GENERATOR32[25..33] == BITSED
  {
    HighHalf32();
    LowHalf32();
  }

  lemma HighHalf32()
    ensures |GENERATOR32| == 33 && GENERATOR32[0] && GENERATOR32[1..9] == BITS20 && GENERATOR32[9..17] == BITS83
  {
  }

  lemma LowHalf32()
    ensures |GENERATOR32| == 33 && GENERATOR32[17..25] == BITSB8 && GENERATOR32[25..33] == BITSED
  {
  }

  lemma Tail32()
    ensures C32.LowBits(0xEDB8_8320, 32) == GENERATOR32[1..] && GENERATOR32[0]
  {
    Word32();
    Generator32();
    hide C32.LowBits, GENERATOR32;
    var g := GENERATOR32;
    assert g[1..] == g[1..9] + (g[9..17] + (g[17..25] + g[25..33]));
  }

  lemma Turn32(c: bv32, b: bool)
    ensures C32.LowBits(C32.Shift(C32.Xor(c, C32.Bit(b))), 32) == Turn(C32.LowBits(c, 32), b, GENERATOR32)
  {
    hide C32.LowBits, C32.Half, C32.Odd, C32.Xor, GENERATOR32;
    Generator32();
    Tail32();
    var x := C32.Xor(c, C32.Bit(b));
    FedBit32(c, b);
    LowBitsHalf(c);
    LowBitsXor(C32.Half(c), 0xEDB8_8320, 32);
    FirstBit32(c);
    var shifted := C32.LowBits(c, 32)[1..] + [false];
    assert Add(shifted, Zero(32)) == shifted;
  }

  lemma FedBit32(c: bv32, b: bool)
    ensures C32.Half(C32.Xor(c, C32.Bit(b))) == C32.Half(c)
    ensures C32.Odd(C32.Xor(c, C32.Bit(b))) <==> C32.Odd(c) != b
  {
  }

  lemma FirstBit32(c: bv32)
    ensures C32.LowBits(c, 32)[0] == C32.Odd(c)
  {
  }

  lemma {:induction false} SerialIsRegister32(c: bv32, bits: seq<bool>)
    ensures C32.LowBits(C32.Serial(c, bits), 32) == Register(C32.LowBits(c, 32), bits, GENERATOR32)
    decreases |bits|
  {
    hide C32.LowBits, C32.Shift, C32.Xor, GENERATOR32;
    Generator32();
    if bits != [] {
      Turn32(c, bits[0]);
      SerialIsRegister32(C32.Shift(C32.Xor(c, C32.Bit(bits[0]))), bits[1..]);
    }
  }

  /** CRC-32: for every message and initial value, the checksum before its final inversion is the remainder
      of the message, led by the initial value, under division by the generator; and there is no other. */
  lemma Crc32IsRemainder(initVal: bv32, data: seq<bv8>, r: seq<bool>)
    ensures var g := Polynomial([32, 26, 23, 22, 16, 12, 11, 10, 8, 7, 5, 4, 2, 1, 0]);
      Remainder(Dividend(C32.LowBits(initVal, 32), C32.Bits(data)), g, r) <==>
      r == C32.LowBits(C32.Checksum(initVal, data) ^ 0xFFFF_FFFF, 32)
  {
    hide C32.LowBits, C32.Bits, C32.Xor, C32.Serial, GENERATOR32;
    var c, bits := C32.LowBits(initVal, 32), C32.Bits(data);
    Generator32();
    Uninverted32(initVal, data);
    SerialIsRegister32(initVal, bits);
    var q := RegisterIsRemainder(c, bits, GENERATOR32);
    if q' :| Divided(Dividend(c, bits), GENERATOR32, q', r) {
      RemainderUnique(Dividend(c, bits), GENERATOR32, q, Register(c, bits, GENERATOR32), q', r);
    }
    SameGenerator32();
  }

  lemma SameGenerator32()
    ensures GENERATOR32 == Polynomial([32, 26, 23, 22, 16, 12, 11, 10, 8, 7, 5, 4, 2, 1, 0])
  {
  }

  lemma Uninverted32(initVal: bv32, data: seq<bv8>)
    ensures C32.Checksum(initVal, data) ^ 0xFFFF_FFFF == C32.Serial(initVal, C32.Bits(data))
  {
    hide C32.Serial, C32.Bits;
  }

  // ---------------------------------------------------------------- CRC-8

  /** x^8 + x^4 + x^3 + x^2 + 1 */
  const GENERATOR8: seq<bool> := Polynomial([8, 4, 3, 2, 0])

  lemma {:induction false} HighBitsXor(a: bv8, b: bv8, n: nat)
    ensures C8.HighBits(C8.Xor(a, b), n) == Add(C8.HighBits(a, n), C8.HighBits(b, n))
    decreases n
  {
    hide C8.Xor, C8.Double, C8.Top, Add;
    if n == 0 {
      AddNothing();
    } else {
      C8.DoubleXor(a, b);
      C8.TopXor(a, b);
      HighBitsXor(C8.Double(a), C8.Double(b), n - 1);
      AddCons(C8.Top(a) != 0, C8.HighBits(C8.Double(a), n - 1), C8.Top(b) != 0, C8.HighBits(C8.Double(b), n - 1));
    }
  }

  lemma EightDoublings(w: bv8)
    ensures C8.HighBits(w, 8) == [w & 0x80 != 0, w & 0x40 != 0, w & 0x20 != 0, w & 0x10 != 0,
                                  w & 0x08 != 0, w & 0x04 != 0, w & 0x02 != 0, w & 0x01 != 0]
  {
    HighFour(w, 8);
    HighFour(w << 4, 4);
    assert C8.HighBits(w << 4 << 4, 0) == [];
    assert (w << 4) & 0x80 != 0 <==> w & 0x08 != 0;
    assert (w << 4) & 0x40 != 0 <==> w & 0x04 != 0;
    assert (w << 4) & 0x20 != 0 <==> w & 0x02 != 0;
    assert (w << 4) & 0x10 != 0 <==> w & 0x01 != 0;
  }

  lemma HighFour(w: bv8, n: nat)
    requires n >= 4
    ensures C8.HighBits(w, n) ==
      [w & 0x80 != 0, w & 0x40 != 0, w & 0x20 != 0, w & 0x10 != 0] + C8.HighBits(w << 4, n - 4)
  {
    BitsByDoubles(w);
    hide C8.Double, C8.Top;
    var d1 := C8.Double(w);
    var d2 := C8.Double(d1);
    var d3 := C8.Double(d2);
    assert C8.HighBits(w, n) == [C8.Top(w) != 0] + C8.HighBits(d1, n - 1);
    assert C8.HighBits(d1, n - 1) == [C8.Top(d1) != 0] + C8.HighBits(d2, n - 2);
    assert C8.HighBits(d2, n - 2) == [C8.Top(d2) != 0] + C8.HighBits(d3, n - 3);
    assert C8.HighBits(d3, n - 3) == [C8.Top(d3) != 0] + C8.HighBits(C8.Double(d3), n - 4);
  }

  lemma BitsByDoubles(w: bv8)
    ensures (C8.Top(w) != 0) == (w & 0x80 != 0) && (C8.Top(C8.Double(w)) != 0) == (w & 0x40 != 0)
    ensures (C8.Top(C8.Double(C8.Double(w))) != 0) == (w & 0x20 != 0)
    ensures (C8.Top(C8.Double(C8.Double(C8.Double(w)))) != 0) == (w & 0x10 != 0)
    ensures C8.Double(C8.Double(C8.Double(C8.Double(w)))) == w << 4
  {
  }

  lemma HighBitsDouble(w: bv8)
    ensures C8.HighBits(C8.Double(w), 8) == C8.HighBits(w, 8)[1..] + [false]
  {
    EightDoublings(w);
    EightDoublings(C8.Double(w));
    hide C8.HighBits;
    assert (w << 1) & 0x80 != 0 <==> w & 0x40 != 0;
    assert (w << 1) & 0x40 != 0 <==> w & 0x20 != 0;
    assert (w << 1) & 0x20 != 0 <==> w & 0x10 != 0;
    assert (w << 1) & 0x10 != 0 <==> w & 0x08 != 0;
    assert (w << 1) & 0x08 != 0 <==> w & 0x04 != 0;
    assert (w << 1) & 0x04 != 0 <==> w & 0x02 != 0;
    assert (w << 1) & 0x02 != 0 <==> w & 0x01 != 0;
    assert (w << 1) & 0x01 == 0;
  }

  lemma Tail8()
    ensures |GENERATOR8| == 9 && GENERATOR8[0] && C8.HighBits(0x1D, 8) == GENERATOR8[1..]
  {
    EightDoublings(0x1D);
    hide C8.HighBits;
  }

  lemma Turn8(c: bv8, b: bool)
    ensures |GENERATOR8| == 9 &&
      C8.HighBits(C8.Shift(C8.Xor(c, C8.Bit(b))), 8) == Turn(C8.HighBits(c, 8), b, GENERATOR8)
  {
    hide C8.HighBits, C8.Double, C8.Top, C8.Xor, GENERATOR8;
    Tail8();
    FedBit8(c, b);
    HighBitsDouble(c);
    HighBitsXor(C8.Double(c), 0x1D, 8);
    FirstBit8(c);
    var shifted := C8.HighBits(c, 8)[1..] + [false];
    assert Add(shifted, Zero(8)) == shifted;
  }

  lemma FedBit8(c: bv8, b: bool)
    ensures C8.Double(C8.Xor(c, C8.Bit(b))) == C8.Double(c)
    ensures C8.Top(C8.Xor(c, C8.Bit(b))) != 0 <==> (C8.Top(c) != 0) != b
  {
  }

  lemma FirstBit8(c: bv8)
    ensures C8.HighBits(c, 8)[0] == (C8.Top(c) != 0)
  {
  }

  lemma {:induction false} SerialIsRegister8(c: bv8, bits: seq<bool>)
    ensures |GENERATOR8| == 9 &&
      C8.HighBits(C8.Serial(c, bits), 8) == Register(C8.HighBits(c, 8), bits, GENERATOR8)
    decreases |bits|
  {
    hide C8.HighBits, C8.Shift, C8.Xor, GENERATOR8;
    Tail8();
    if bits != [] {
      Turn8(c, bits[0]);
      SerialIsRegister8(C8.Shift(C8.Xor(c, C8.Bit(bits[0]))), bits[1..]);
    }
  }

  /** CRC-8/SAE-J1850: the same for its generator. */
  lemma Crc8IsRemainder(init: bv8, data: seq<bv8>, r: seq<bool>)
    ensures Remainder(Dividend(C8.HighBits(init, 8), C8.Bits(data)), Polynomial([8, 4, 3, 2, 0]), r) <==>
      r == C8.HighBits(C8.Checksum(init, data) ^ 0xFF, 8)
  {
    hide C8.HighBits, C8.Bits, C8.Xor, C8.Serial, GENERATOR8;
    var c, bits := C8.HighBits(init, 8), C8.Bits(data);
    Tail8();
    Uninverted8(init, data);
    SerialIsRegister8(init, bits);
    var q := RegisterIsRemainder(c, bits, GENERATOR8);
    if q' :| Divided(Dividend(c, bits), GENERATOR8, q', r) {
      RemainderUnique(Dividend(c, bits), GENERATOR8, q, Register(c, bits, GENERATOR8), q', r);
    }
    SameGenerator8();
  }

  lemma SameGenerator8()
    ensures GENERATOR8 == Polynomial([8, 4, 3, 2, 0])
  {
  }

  lemma Uninverted8(init: bv8, data: seq<bv8>)
    ensures C8.Checksum(init, data) ^ 0xFF == C8.Serial(init, C8.Bits(data))
  {
    hide C8.Serial, C8.Bits;
  }

  // ---------------------------------------------------------------- check values

  /** The nine characters "123456789". */
  const DIGITS: seq<bv8> := [0x31, 0x32, 0x33, 0x34, 0x35, 0x36, 0x37, 0x38, 0x39]

  lemma Next32(n: nat, c: bv32, next: bv32)
    requires n < 9 && C32.Serial(0xFFFF_FFFF, C32.Bits(DIGITS[..n])) == c && C32.TableStep(c, DIGITS[n]) == next
    ensures C32.Serial(0xFFFF_FFFF, C32.Bits(DIGITS[..n + 1])) == next
  {
    hide C32.Serial, C32.Bits, C32.TableStep;
    C32.SerialNextByte(0xFFFF_FFFF, DIGITS[..n], DIGITS[n]);
    assert DIGITS[..n + 1] == DIGITS[..n] + [DIGITS[n]];
  }

  lemma Steps32()
    ensures C32.TableStep(0xFFFF_FFFF, 0x31) == 0x7C23_1048
    ensures C32.TableStep(0x7C23_1048, 0x32) == 0xB0AC_BB32
    ensures C32.TableStep(0xB0AC_BB32, 0x33) == 0x77B7_9C2D
    ensures C32.TableStep(0x77B7_9C2D, 0x34) == 0x641C_1F5C
    ensures C32.TableStep(0x641C_1F5C, 0x35) == 0x340A_C5E3
    ensures C32.TableStep(0x340A_C5E3, 0x36) == 0xF68D_2C9E
    ensures C32.TableStep(0xF68D_2C9E, 0x37) == 0xAFFC_9660
    ensures C32.TableStep(0xAFFC_9660, 0x38) == 0x651F_2550
    ensures C32.TableStep(0x651F_2550, 0x39) == 0x340B_C6D9
  {
  }

  /** The published check value of CRC-32. */
  lemma CheckValue32()
    ensures C32.Checksum(0xFFFF_FFFF, [0x31, 0x32, 0x33, 0x34, 0x35, 0x36, 0x37, 0x38, 0x39]) == 0xCBF4_3926
  {
    Steps32();
    Uninverted32(0xFFFF_FFFF, DIGITS);
    hide C32.Serial, C32.Bits, C32.TableStep, C32.Checksum;
    C32.SerialNone(0xFFFF_FFFF);
    assert DIGITS[..0] == [] && DIGITS[..9] == DIGITS;
    Next32(0, 0xFFFF_FFFF, 0x7C23_1048);
    Next32(1, 0x7C23_1048, 0xB0AC_BB32);
    Next32(2, 0xB0AC_BB32, 0x77B7_9C2D);
    Next32(3, 0x77B7_9C2D, 0x641C_1F5C);
    Next32(4, 0x641C_1F5C, 0x340A_C5E3);
    Next32(5, 0x340A_C5E3, 0xF68D_2C9E);
    Next32(6, 0xF68D_2C9E, 0xAFFC_9660);
    Next32(7, 0xAFFC_9660, 0x651F_2550);
    Next32(8, 0x651F_2550, 0x340B_C6D9);
    assert C32.Checksum(0xFFFF_FFFF, DIGITS) == (C32.Checksum(0xFFFF_FFFF, DIGITS) ^ 0xFFFF_FFFF) ^ 0xFFFF_FFFF;
  }

  lemma Next8(n: nat, c: bv8, next: bv8)
    requires n < 9 && C8.Serial(0xFF, C8.Bits(DIGITS[..n])) == c && C8.Entry(c ^ DIGITS[n]) == next
    ensures C8.Serial(0xFF, C8.Bits(DIGITS[..n + 1])) == next
  {
    hide C8.Serial, C8.Bits, C8.Entry;
    C8.SerialNextByte(0xFF, DIGITS[..n], DIGITS[n]);
    assert DIGITS[..n + 1] == DIGITS[..n] + [DIGITS[n]];
  }

  lemma Steps8()
    ensures C8.Entry(0xCE) == 0x93
    ensures C8.Entry(0xA1) == 0xBC
    ensures C8.Entry(0x8F) == 0x9D
    ensures C8.Entry(0xA9) == 0x54
    ensures C8.Entry(0x61) == 0x89
    ensures C8.Entry(0xBF) == 0xD7
    ensures C8.Entry(0xE0) == 0xB2
    ensures C8.Entry(0x8A) == 0xF4
    ensures C8.Entry(0xCD) == 0xB4
  {
  }

  /** The published check value of CRC-8/SAE-J1850. */
  lemma CheckValue8()
    ensures C8.Checksum(0xFF, [0x31, 0x32, 0x33, 0x34, 0x35, 0x36, 0x37, 0x38, 0x39]) == 0x4B
  {
    Steps8();
    Uninverted8(0xFF, DIGITS);
    hide C8.Serial, C8.Bits, C8.Entry, C8.Checksum;
    C8.SerialNone(0xFF);
    assert DIGITS[..0] == [] && DIGITS[..9] == DIGITS;
    Next8(0, 0xFF, 0x93);
    Next8(1, 0x93, 0xBC);
    Next8(2, 0xBC, 0x9D);
    Next8(3, 0x9D, 0x54);
    Next8(4, 0x54, 0x89);
    Next8(5, 0x89, 0xD7);
    Next8(6, 0xD7, 0xB2);
    Next8(7, 0xB2, 0xF4);
    Next8(8, 0xF4, 0xB4);
    assert C8.Checksum(0xFF, DIGITS) == (C8.Checksum(0xFF, DIGITS) ^ 0xFF) ^ 0xFF;
  }
}
