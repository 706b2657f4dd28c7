/** Writes into byte slices: the copy builtin and binary.BigEndian's Put functions. */
module Buffers {
  import opened Bytes

  /** s with the bytes of `data` laid over it from position `at`. */
  function Overlay(s: seq<byte>, at: nat, data: seq<byte>): (t: seq<byte>)
    requires at + |data| <= |s|
    ensures |t| == |s|
  {
    s[..at] + data + s[at + |data|..]
  }

  /** Two writes side by side are one write of both. */
  lemma OverlayNext(s: seq<byte>, at: nat, a: seq<byte>, b: seq<byte>)
    requires at + |a| + |b| <= |s|
    ensures Overlay(Overlay(s, at, a), at + |a|, b) == Overlay(s, at, a + b)
  {
  }

  function Zeros(n: nat): (s: seq<byte>)
    ensures |s| == n
  {
    seq(n, _ => 0)
  }

  /** A zeroed buffer whose front is written: n bytes are still zero. */
  function Filled(done: seq<byte>, n: nat): (s: seq<byte>)
    ensures |s| == |done| + n
    ensures n == 0 ==> s == done
  {
    done + Zeros(n)
  }

  /** The next write goes right behind what is written. */
  lemma FillNext(done: seq<byte>, n: nat, data: seq<byte>) returns (more: seq<byte>)
    requires |data| <= n
    ensures more == done + data
    ensures Overlay(Filled(done, n), |done|, data) == Filled(more, n - |data|)
  {
    more := done + data;
  }

  /** Reserved bytes stay zero. */
  lemma SkipZeros(done: seq<byte>, n: nat, zeros: seq<byte>)
    requires |zeros| <= n && forall i | 0 <= i < |zeros| :: zeros[i] == 0
    ensures Filled(done, n) == Filled(done + zeros, n - |zeros|)
  {
  }

  method ZeroBuffer(n: nat) returns (b: array<byte>)
    ensures fresh(b) && b.Length == n && b[..] == Filled([], n)
  {
    b := new byte[n](_ => 0);
  }

  method Copy(b: array<byte>, at: nat, data: seq<byte>)
    requires at + |data| <= b.Length
    modifies b
    ensures b[..] == Overlay(old(b[..]), at, data)
  {
    forall k | 0 <= k < |data| {
      b[at + k] := data[k];
    }
  }

  method PutUint16(b: array<byte>, at: nat, v: uint16)
    requires at + 2 <= b.Length
    modifies b
    ensures b[..] == Overlay(old(b[..]), at, BE16(v))
  {
    b[at], b[at + 1] := v / 0x100, v % 0x100;
  }

  method PutUint32(b: array<byte>, at: nat, v: uint32)
    requires at + 4 <= b.Length
    modifies b
    ensures b[..] == Overlay(old(b[..]), at, BE32(v))
  {
    var high, low := v / 0x1_0000, v % 0x1_0000;
    b[at], b[at + 1] := high / 0x100, high % 0x100;
    b[at + 2], b[at + 3] := low / 0x100, low % 0x100;
  }
}
