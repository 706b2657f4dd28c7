/** Fixed-width unsigned integers and their big-endian encodings.
    Bytes are integers below 256; a word is written out with division and modulus, which is
    what byte(v >> 8k) and the shift-and-or readers of encoding/binary compute. */
module Bytes {

  type byte = x: int | 0 <= x < 0x100
  type uint16 = x: int | 0 <= x < 0x1_0000
  type uint32 = x: int | 0 <= x < 0x1_0000_0000

  function BE16(v: uint16): (s: seq<byte>)
    ensures |s| == 2
  {
    [v / 0x100, v % 0x100]
  }

  function BE32(v: uint32): (s: seq<byte>)
    ensures |s| == 4
  {
    BE16(v / 0x1_0000) + BE16(v % 0x1_0000)
  }

  function U16(s: seq<byte>): (v: uint16)
    requires |s| >= 2
  {
    var high: int, low: int := s[0], s[1];
    high * 0x100 + low
  }

  function U32(s: seq<byte>): (v: uint32)
    requires |s| >= 4
  {
    var high: int, low: int := U16(s), U16(s[2..]);
    high * 0x1_0000 + low
  }

  lemma U16OfBE16(v: uint16, rest: seq<byte>)
    ensures U16(BE16(v) + rest) == v
  {
  }

  lemma U32OfBE32(v: uint32, rest: seq<byte>)
    ensures U32(BE32(v) + rest) == v
  {
    var s := BE32(v) + rest;
    assert s[2..] == BE16(v % 0x1_0000) + rest;
    U16OfBE16(v / 0x1_0000, s[2..]);
    U16OfBE16(v % 0x1_0000, rest);
  }

  lemma BE16OfU16(s: seq<byte>)
    requires |s| >= 2
    ensures BE16(U16(s)) == s[..2]
  {
  }

  lemma BE32OfU32(s: seq<byte>)
    requires |s| >= 4
    ensures BE32(U32(s)) == s[..4]
  {
    BE16OfU16(s);
    BE16OfU16(s[2..]);
    var high: int, low: int := U16(s), U16(s[2..]);
    assert (high * 0x1_0000 + low) / 0x1_0000 == high;
  }

  /** The big-endian number that bytes stand for, of any length. */
  function Number(b: seq<byte>): (n: nat)
    ensures |b| <= 1 ==> n < 0x100
    ensures |b| <= 2 ==> n < 0x1_0000
    ensures |b| <= 3 ==> n < 0x100_0000
    ensures |b| <= 4 ==> n < 0x1_0000_0000
  {
    if b == [] then 0 else var last: int := b[|b| - 1]; 256 * Number(b[..|b| - 1]) + last
  }

  lemma NumberIs(b: seq<byte>)
    ensures |b| >= 2 ==> Number(b[..2]) == U16(b)
    ensures |b| >= 4 ==> Number(b[..4]) == U32(b)
  {
    if |b| >= 2 {
      assert b[..2][..1] == b[..1] && b[..1][..0] == [];
      assert Number(b[..1]) == b[0];
    }
    if |b| >= 4 {
      assert b[..4][..3] == b[..3] && b[..3][..2] == b[..2];
      assert Number(b[..3]) == 256 * Number(b[..2]) + b[2];
      assert Number(b[..4]) == 256 * Number(b[..3]) + b[3];
    }
  }
}
