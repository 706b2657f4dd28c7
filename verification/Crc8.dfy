/** CRC-8/SAE-J1850 of e2e/e2e.go: the lookup table against the bit-serial shift register, and the
    error bursts that the register always detects. */
module Crc8 {

  const POLYNOMIAL: bv8 := 0x1D

  function Xor(a: bv8, b: bv8): bv8 {
    a ^ b
  }

  function Double(c: bv8): bv8 {
    c << 1
  }

  function Top(c: bv8): bv8 {
    c & 0x80
  }

  /** One turn of the shift register with a zero input bit. */
  function Shift(c: bv8): bv8 {
    if Top(c) != 0 then Xor(Double(c), POLYNOMIAL) else Double(c)
  }

  function ShiftN(c: bv8, n: nat): bv8
    decreases n
  {
    if n == 0 then c else ShiftN(Shift(c), n - 1)
  }

  function Bit(b: bool): bv8 {
    if b then 0x80 else 0
  }

  /** The shift register fed one input bit at a time. */
  function Serial(c: bv8, bits: seq<bool>): bv8
    decreases |bits|
  {
    if bits == [] then c else Serial(Shift(Xor(c, Bit(bits[0]))), bits[1..])
  }

  /** The n high bits of w in the order they enter the register: most significant first. */
  function HighBits(w: bv8, n: nat): (bits: seq<bool>)
    ensures |bits| == n
    decreases n
  {
    if n == 0 then [] else [Top(w) != 0] + HighBits(Double(w), n - 1)
  }

  function ByteBits(b: bv8): (bits: seq<bool>)
    ensures |bits| == 8
  {
    HighBits(b, 8)
  }

  function Bits(data: seq<bv8>): (bits: seq<bool>)
    ensures |bits| == 8 * |data|
  {
    if data == [] then [] else ByteBits(data[0]) + Bits(data[1..])
  }

  // ---------------------------------------------------------------- exclusive or

  lemma XorLaws(x: bv8, y: bv8, z: bv8)
    ensures Xor(Xor(x, y), z) == Xor(x, Xor(y, z))
    ensures Xor(x, y) == Xor(y, x)
  {
  }

  lemma XorCancel(x: bv8, y: bv8)
    ensures Xor(Xor(x, y), y) == x
    ensures Xor(x, 0) == x && Xor(0, x) == x && Xor(x, x) == 0
    ensures Xor(x, y) == 0 <==> x == y
  {
  }

  lemma XorSwap(a: bv8, b: bv8, c: bv8, d: bv8)
    ensures Xor(Xor(a, b), Xor(c, d)) == Xor(Xor(a, c), Xor(b, d))
  {
    hide Xor;
    XorLaws(a, b, Xor(c, d));
    XorLaws(b, c, d);
    XorLaws(c, b, d);
    XorLaws(a, c, Xor(b, d));
  }

  lemma XorDifference(x: bv8, y: bv8, m: bv8, field: bv8)
    ensures field == Xor(y, m) <==> Xor(x, y) == Xor(Xor(x, m), field)
  {
    hide Xor;
    XorLaws(x, m, field);
    XorLaws(m, field, 0);
    XorCancel(field, m);
    XorCancel(y, m);
    XorLaws(x, y, x);
    XorLaws(x, Xor(m, field), x);
    XorCancel(y, x);
    XorCancel(Xor(m, field), x);
  }

  // ---------------------------------------------------------------- the shift step is linear and injective

  lemma DoubleXor(x: bv8, y: bv8)
    ensures Double(Xor(x, y)) == Xor(Double(x), Double(y))
  {
  }

  lemma TopXor(x: bv8, y: bv8)
    ensures Top(Xor(x, y)) != 0 <==> (Top(x) != 0) != (Top(y) != 0)
  {
  }

  lemma ShiftLinear(a: bv8, b: bv8)
    ensures Shift(Xor(a, b)) == Xor(Shift(a), Shift(b))
  {
    hide Xor, Double, Top;
    var x, y := Double(a), Double(b);
    DoubleXor(a, b);
    TopXor(a, b);
    XorSwap(x, POLYNOMIAL, y, POLYNOMIAL);
    XorCancel(POLYNOMIAL, POLYNOMIAL);
    XorCancel(Xor(x, y), 0);
    XorLaws(x, y, POLYNOMIAL);
    XorLaws(x, POLYNOMIAL, y);
    XorLaws(y, POLYNOMIAL, x);
  }

  lemma ShiftInjective(a: bv8, b: bv8)
    ensures Shift(a) == Shift(b) ==> a == b
  {
  }

  lemma {:induction false} ShiftNLinear(a: bv8, b: bv8, n: nat)
    ensures ShiftN(Xor(a, b), n) == Xor(ShiftN(a, n), ShiftN(b, n))
    decreases n
  {
    hide Xor, Shift;
    if n > 0 {
      ShiftLinear(a, b);
      ShiftNLinear(Shift(a), Shift(b), n - 1);
    }
  }

  lemma {:induction false} ShiftNInjective(a: bv8, b: bv8, n: nat)
    ensures ShiftN(a, n) == ShiftN(b, n) ==> a == b
    decreases n
  {
    hide Shift;
    if n > 0 {
      ShiftInjective(a, b);
      ShiftNInjective(Shift(a), Shift(b), n - 1);
    }
  }

  lemma {:induction false} SerialAppend(c: bv8, a: seq<bool>, b: seq<bool>)
    ensures Serial(c, a + b) == Serial(Serial(c, a), b)
    decreases |a|
  {
    hide Xor, Shift;
    if a == [] {
      assert a + b == b;
    } else {
      assert (a + b)[1..] == a[1..] + b;
      SerialAppend(Shift(Xor(c, Bit(a[0]))), a[1..], b);
    }
  }

  lemma {:induction false} SerialInjective(c: bv8, d: bv8, bits: seq<bool>)
    ensures Serial(c, bits) == Serial(d, bits) ==> c == d
    decreases |bits|
  {
    hide Xor, Shift;
    if bits != [] {
      var b := Bit(bits[0]);
      SerialInjective(Shift(Xor(c, b)), Shift(Xor(d, b)), bits[1..]);
      ShiftInjective(Xor(c, b), Xor(d, b));
      XorCancel(c, b);
      XorCancel(d, b);
    }
  }

  function XorBits(a: seq<bool>, b: seq<bool>): seq<bool>
    requires |a| == |b|
  {
    seq(|a|, i requires 0 <= i < |a| => a[i] != b[i])
  }

  /** The register of a corrupted message differs from the original's by the register of the error. */
  lemma {:induction false} SerialLinear(c: bv8, d: bv8, a: seq<bool>, b: seq<bool>)
    requires |a| == |b|
    ensures Serial(Xor(c, d), XorBits(a, b)) == Xor(Serial(c, a), Serial(d, b))
    decreases |a|
  {
    hide Xor, Shift;
    if a != [] {
      var x, y := Bit(a[0]), Bit(b[0]);
      assert XorBits(a, b)[1..] == XorBits(a[1..], b[1..]);
      BitXor(a[0], b[0]);
      XorSwap(c, x, d, y);
      ShiftLinear(Xor(c, x), Xor(d, y));
      SerialLinear(Shift(Xor(c, x)), Shift(Xor(d, y)), a[1..], b[1..]);
    }
  }

  lemma BitXor(a: bool, b: bool)
    ensures Bit(a != b) == Xor(Bit(a), Bit(b))
  {
  }

  // ---------------------------------------------------------------- one byte loads the register

  function DoubleN(c: bv8, n: nat): bv8
    decreases n
  {
    if n == 0 then c else DoubleN(Double(c), n - 1)
  }

  function Low(b: bv8): bv8 {
    b & 0x7F
  }

  lemma SplitTop(b: bv8)
    ensures b == Xor(Bit(Top(b) != 0), Low(b))
    ensures Top(Low(b)) == 0 && Double(Low(b)) == Double(b)
  {
  }

  lemma ShiftOne(c: bv8, b: bv8)
    ensures Shift(Xor(c, b)) == Xor(Shift(Xor(c, Bit(Top(b) != 0))), Double(b))
  {
    hide Xor, Double, Top, Bit, Low;
    var high := Bit(Top(b) != 0);
    SplitTop(b);
    XorLaws(c, high, Low(b));
    ShiftLinear(Xor(c, high), Low(b));
  }

  /** Feeding n bits of b is loading b and shifting n times, up to the bits of b not yet fed. */
  lemma {:induction false} SerialLoads(c: bv8, b: bv8, n: nat)
    ensures Serial(c, HighBits(b, n)) == Xor(ShiftN(Xor(c, b), n), DoubleN(b, n))
    decreases n
  {
    hide Xor, Shift, Double, Top, Bit;
    if n == 0 {
      XorCancel(c, b);
    } else {
      var d := Shift(Xor(c, Bit(Top(b) != 0)));
      assert HighBits(b, n)[1..] == HighBits(Double(b), n - 1);
      SerialLoads(d, Double(b), n - 1);
      ShiftOne(c, b);
    }
  }

  lemma EightDoubles(x: bv8)
    ensures DoubleN(x, 8) == 0
  {
    hide Double;
    var y := Double(Double(x));
    var z := Double(Double(y));
    var u := Double(Double(z));
    assert DoubleN(u, 2) == Double(Double(u));
    assert DoubleN(z, 4) == DoubleN(u, 2);
    assert DoubleN(y, 6) == DoubleN(z, 4);
    assert DoubleN(x, 8) == DoubleN(y, 6);
    ShiftedOut(x);
  }

  lemma ShiftedOut(x: bv8)
    ensures Double(Double(Double(Double(Double(Double(Double(Double(x)))))))) == 0
  {
  }

  lemma SerialByte(c: bv8, b: bv8)
    ensures Serial(c, ByteBits(b)) == ShiftN(Xor(c, b), 8)
  {
    hide Xor, Shift, ShiftN, Serial, HighBits, DoubleN;
    SerialLoads(c, b, 8);
    EightDoubles(b);
    XorCancel(ShiftN(Xor(c, b), 8), 0);
  }

  function OfBits(e: seq<bool>): bv8
    requires |e| == 8
  {
    (if e[0] then 0x80 else 0) | (if e[1] then 0x40 else 0) | (if e[2] then 0x20 else 0) | (if e[3] then 0x10 else 0) |
    (if e[4] then 0x08 else 0) | (if e[5] then 0x04 else 0) | (if e[6] then 0x02 else 0) | (if e[7] then 0x01 else 0)
  }

  lemma {:induction false} HighBitsAt(w: bv8, n: nat, k: nat)
    requires k < n
    ensures HighBits(w, n)[k] == (Top(DoubleN(w, k)) != 0)
    decreases k
  {
    hide Top, Double;
    if k > 0 {
      HighBitsAt(Double(w), n - 1, k - 1);
    }
  }

  lemma DoubleTwice(w: bv8, k: nat)
    ensures DoubleN(w, 0) == w && DoubleN(w, 1) == Double(w)
    ensures DoubleN(w, k + 2) == DoubleN(Double(Double(w)), k)
  {
    hide Double;
    assert DoubleN(w, k + 2) == DoubleN(Double(w), k + 1);
  }

  lemma BitOfOfBits(e: seq<bool>, k: nat)
    requires |e| == 8 && k < 8
    ensures (Top(DoubleN(OfBits(e), k)) != 0) == e[k]
  {
    hide DoubleN;
    var w := OfBits(e);
    var w2 := Double(Double(w));
    var w4 := Double(Double(w2));
    var w6 := Double(Double(w4));
    DoubleTwice(w, if k >= 2 then k - 2 else 0);
    DoubleTwice(w2, if k >= 4 then k - 4 else 0);
    DoubleTwice(w4, if k >= 6 then k - 6 else 0);
    DoubleTwice(w6, 0);
  }

  lemma BitsOfOfBits(e: seq<bool>)
    requires |e| == 8
    ensures ByteBits(OfBits(e)) == e
  {
    hide OfBits, HighBits, Top;
    forall k | 0 <= k < 8 ensures ByteBits(OfBits(e))[k] == e[k] {
      HighBitsAt(OfBits(e), 8, k);
      BitOfOfBits(e, k);
    }
  }

  /** An error burst of up to 8 bits, wherever it lies and however long the message is, changes the register. */
  lemma BurstDetected(c: bv8, head: seq<bool>, a: seq<bool>, b: seq<bool>, tail: seq<bool>)
    requires |a| == |b| <= 8 && a != b
    ensures Serial(c, head + a + tail) != Serial(c, head + b + tail)
  {
    hide Xor, Shift, ShiftN, Serial, ByteBits, OfBits;
    var d := Serial(c, head);
    SerialAppend(c, head + a, tail);
    SerialAppend(c, head + b, tail);
    SerialAppend(c, head, a);
    SerialAppend(c, head, b);
    if Serial(c, head + a + tail) == Serial(c, head + b + tail) {
      SerialInjective(Serial(d, a), Serial(d, b), tail);
      ShortBurst(d, a, b);
    }
  }

  lemma ShortBurst(d: bv8, a: seq<bool>, b: seq<bool>)
    requires |a| == |b| <= 8 && Serial(d, a) == Serial(d, b)
    ensures a == b
  {
    hide Xor, Shift, ShiftN, Serial, ByteBits, OfBits;
    var pad := seq(8 - |a|, _ => false);
    var x, y := OfBits(a + pad), OfBits(b + pad);
    SerialAppend(d, a, pad);
    SerialAppend(d, b, pad);
    BitsOfOfBits(a + pad);
    BitsOfOfBits(b + pad);
    SerialByte(d, x);
    SerialByte(d, y);
    ShiftNInjective(Xor(d, x), Xor(d, y), 8);
    XorLaws(d, x, 0);
    XorLaws(d, y, 0);
    XorCancel(x, d);
    XorCancel(y, d);
    assert a == (a + pad)[..|a|] && b == (b + pad)[..|b|];
  }

  // ---------------------------------------------------------------- the lookup table

  /** Entry b of crc8Table, as init computes it. */
  function Entry(b: bv8): bv8 {
    ShiftN(b, 8)
  }

  /** The table is a permutation of the byte values. */
  lemma EntryInjective(a: bv8, b: bv8)
    ensures Entry(a) == Entry(b) <==> a == b
  {
    hide ShiftN;
    ShiftNInjective(a, b, 8);
  }

  lemma EntryLinear(a: bv8, b: bv8)
    ensures Entry(Xor(a, b)) == Xor(Entry(a), Entry(b))
  {
    hide ShiftN, Xor;
    ShiftNLinear(a, b, 8);
  }

  lemma EntryOfZero()
    ensures Entry(0) == 0
  {
    hide ShiftN;
    EntryLinear(0, 0);
    XorCancel(Entry(0), 0);
    XorCancel(0, 0);
  }

  lemma EntryOfOne()
    ensures Entry(1) == POLYNOMIAL
  {
    assert Shift(1) == 2 && Shift(2) == 4 && Shift(4) == 8 && Shift(8) == 16;
    assert Shift(16) == 32 && Shift(32) == 64 && Shift(64) == 128 && Shift(128) == 0x1D;
    hide Shift;
    assert ShiftN(16, 4) == ShiftN(32, 3) == ShiftN(64, 2) == ShiftN(128, 1) == ShiftN(0x1D, 0);
    assert ShiftN(1, 8) == ShiftN(2, 7) == ShiftN(4, 6) == ShiftN(8, 5) == ShiftN(16, 4);
  }

  // ---------------------------------------------------------------- the checksum

  /** CRC-8 as the standard describes it: the bits of the data through the register, then inverted. */
  function Checksum(init: bv8, data: seq<bv8>): bv8 {
    Xor(Serial(init, Bits(data)), 0xFF)
  }

  lemma {:induction false} BitsAppend(a: seq<bv8>, b: seq<bv8>)
    ensures Bits(a + b) == Bits(a) + Bits(b)
    decreases |a|
  {
    hide ByteBits;
    if a == [] {
      assert a + b == b;
    } else {
      assert (a + b)[1..] == a[1..] + b;
      BitsAppend(a[1..], b);
    }
  }

  lemma SerialNextByte(c: bv8, data: seq<bv8>, b: bv8)
    ensures Serial(c, Bits(data + [b])) == Entry(Xor(Serial(c, Bits(data)), b))
  {
    hide Xor, Shift, ShiftN, Serial, ByteBits;
    BitsAppend(data, [b]);
    assert Bits([b]) == ByteBits(b) + Bits([]) == ByteBits(b);
    SerialAppend(c, Bits(data), ByteBits(b));
    SerialByte(Serial(c, Bits(data)), b);
  }

  lemma SerialNone(c: bv8)
    ensures Serial(c, Bits([])) == c
  {
  }

  ghost predicate IsTable(t: seq<bv8>) {
    |t| == 256 && forall b: bv8 :: t[b as int] == Entry(b)
  }

  /** The init function of crc8Table. */
  method BuildTable() returns (table: array<bv8>)
    ensures IsTable(table[..]) && fresh(table)
  {
    hide Shift, Entry;
    table := new bv8[256](_ => 0);
    for i := 0 to 256
      invariant forall b: bv8 | b as int < i :: table[b as int] == Entry(b)
    {
      var crc := BuildEntry(i as bv8);
      table[i] := crc;
      forall b: bv8 | b as int == i ensures Entry(b) == crc {
        assert b == i as bv8;
      }
    }
  }

  method BuildEntry(i: bv8) returns (crc: bv8)
    ensures crc == Entry(i)
  {
    hide Shift;
    crc := i;
    for j := 0 to 8
      invariant ShiftN(crc, 8 - j) == Entry(i)
    {
      crc := ShiftOnce(crc);
    }
  }

  method ShiftOnce(c: bv8) returns (r: bv8)
    ensures r == Shift(c)
  {
    if c & 0x80 != 0 {
      r := (c << 1) ^ POLYNOMIAL;
    } else {
      r := c << 1;
    }
  }

  method Crc8(table: array<bv8>, init: bv8, data: seq<bv8>) returns (r: bv8)
    requires IsTable(table[..])
    ensures r == Checksum(init, data)
  {
    hide Xor, Shift, ShiftN, Serial, Bits, Entry, IsTable;
    var crc := init;
    SerialNone(init);
    for i := 0 to |data|
      invariant crc == Serial(init, Bits(data[..i]))
    {
      var b := data[i];
      crc := Lookup(table, crc, b);
      SerialNextByte(init, data[..i], b);
      assert data[..i + 1] == data[..i] + [b];
    }
    assert data[..|data|] == data;
    XorIs(crc, 0xFF);
    return crc ^ 0xFF;
  }

  lemma XorIs(a: bv8, b: bv8)
    ensures Xor(a, b) == a ^ b
  {
  }

  lemma TableAt(t: seq<bv8>, b: bv8)
    requires IsTable(t)
    ensures b as int < |t| && t[b as int] == Entry(b)
  {
  }

  method Lookup(table: array<bv8>, crc: bv8, b: bv8) returns (r: bv8)
    requires IsTable(table[..])
    ensures r == Entry(Xor(crc, b))
  {
    hide Entry, IsTable, Xor;
    XorIs(crc, b);
    TableAt(table[..], crc ^ b);
    r := table[(crc ^ b) as int];
  }

  lemma {:induction false} BitsInjective(a: seq<bv8>, b: seq<bv8>)
    requires |a| == |b| && Bits(a) == Bits(b)
    ensures a == b
    decreases |a|
  {
    hide ByteBits;
    if a != [] {
      assert ByteBits(a[0]) == Bits(a)[..8] == Bits(b)[..8] == ByteBits(b[0]);
      assert Bits(a[1..]) == Bits(a)[8..] == Bits(b)[8..] == Bits(b[1..]);
      ByteBitsInjective(a[0], b[0]);
      BitsInjective(a[1..], b[1..]);
      assert a == [a[0]] + a[1..] && b == [b[0]] + b[1..];
    }
  }

  lemma ByteBitsInjective(a: bv8, b: bv8)
    requires ByteBits(a) == ByteBits(b)
    ensures a == b
  {
    hide Serial, ShiftN, HighBits, Xor;
    SerialByte(0, a);
    SerialByte(0, b);
    ShiftNInjective(Xor(0, a), Xor(0, b), 8);
    XorCancel(a, 0);
    XorCancel(b, 0);
  }
}
