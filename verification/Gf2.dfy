/** Polynomials over the two-element field, as their coefficients from the highest power down, and what a
    checksum register computes on them. */
module Gf2 {

  function Add(a: seq<bool>, b: seq<bool>): (s: seq<bool>)
    requires |a| == |b|
    ensures |s| == |a|
  {
    seq(|a|, i requires 0 <= i < |a| => a[i] != b[i])
  }

  lemma AddCons(a: bool, aa: seq<bool>, b: bool, bb: seq<bool>)
    requires |aa| == |bb|
    ensures Add([a] + aa, [b] + bb) == [a != b] + Add(aa, bb)
  {
  }

  lemma AddNothing()
    ensures Add([], []) == []
  {
  }

  function Zero(n: nat): (s: seq<bool>)
    ensures |s| == n
  {
    seq(n, _ => false)
  }

  /** The polynomial with the given powers, the first of them the highest. */
  function Polynomial(powers: seq<nat>): (g: seq<bool>)
    requires powers != []
    ensures |g| == powers[0] + 1
  {
    seq(powers[0] + 1, i => powers[0] - i in powers)
  }

  function Scale(q: bool, g: seq<bool>): (s: seq<bool>)
    ensures |s| == |g|
  {
    if q then g else Zero(|g|)
  }

  /** The product of two polynomials. */
  function Times(q: seq<bool>, g: seq<bool>): (p: seq<bool>)
    requires g != []
    ensures |p| == |q| + |g| - 1
    decreases |q|
  {
    if q == [] then Zero(|g| - 1)
    else Add(Scale(q[0], g) + Zero(|q| - 1), [false] + Times(q[1..], g))
  }

  /** a == q * g + r, with r of lower degree than g. */
  ghost predicate Divided(a: seq<bool>, g: seq<bool>, q: seq<bool>, r: seq<bool>) {
    g != [] && |r| == |g| - 1 && |a| == |q| + |r| && a == Add(Times(q, g), Zero(|q|) + r)
  }

  ghost predicate Remainder(a: seq<bool>, g: seq<bool>, r: seq<bool>) {
    exists q :: Divided(a, g, q, r)
  }

  /** A polynomial has at most one remainder. */
  lemma {:induction false} RemainderUnique(
    a: seq<bool>, g: seq<bool>, q: seq<bool>, r: seq<bool>, q': seq<bool>, r': seq<bool>)
    requires g != [] && g[0] && Divided(a, g, q, r) && Divided(a, g, q', r')
    ensures r == r' && q == q'
    decreases |q|
  {
    if q == [] {
      forall i | 0 <= i < |r| ensures r[i] == r'[i] {
        assert a[i] == (Times(q, g)[i] != (Zero(0) + r)[i]);
        assert a[i] == (Times(q', g)[i] != (Zero(0) + r')[i]);
      }
    } else {
      FirstDigit(a, g, q, r);
      FirstDigit(a, g, q', r');
      RemainderUnique(Add(a, Scale(q[0], g) + Zero(|q| - 1))[1..], g, q[1..], r, q'[1..], r');
      assert q == [q[0]] + q[1..] && q' == [q'[0]] + q'[1..];
    }
  }

  /** One step of long division. */
  lemma FirstDigit(a: seq<bool>, g: seq<bool>, q: seq<bool>, r: seq<bool>)
    requires g != [] && g[0] && q != [] && Divided(a, g, q, r)
    ensures q[0] == a[0]
    ensures Divided(Add(a, Scale(q[0], g) + Zero(|q| - 1))[1..], g, q[1..], r)
  {
    var rest := Times(q[1..], g);
    var first := Scale(q[0], g) + Zero(|q| - 1);
    var b := Add(a, first)[1..];
    assert a[0] == (Times(q, g)[0] != (Zero(|q|) + r)[0]);
    forall i | 0 <= i < |b| ensures b[i] == Add(rest, Zero(|q| - 1) + r)[i] {
      assert a[i + 1] == (Times(q, g)[i + 1] != (Zero(|q|) + r)[i + 1]);
      assert Times(q, g)[i + 1] == (first[i + 1] != rest[i]);
      assert (Zero(|q|) + r)[i + 1] == (Zero(|q| - 1) + r)[i];
    }
  }

  // ---------------------------------------------------------------- the shift register

  /** One turn of the register that divides by g, fed the coefficient b. */
  function Turn(r: seq<bool>, b: bool, g: seq<bool>): (r': seq<bool>)
    requires |g| == |r| + 1 && r != []
    ensures |r'| == |r|
  {
    Add(r[1..] + [false], Scale(r[0] != b, g[1..]))
  }

  function Register(r: seq<bool>, bits: seq<bool>, g: seq<bool>): (r': seq<bool>)
    requires |g| == |r| + 1 && r != []
    ensures |r'| == |r|
    decreases |bits|
  {
    if bits == [] then r else Register(Turn(r, bits[0], g), bits[1..], g)
  }

  /** The message times x^n plus the initial register times x^|bits|, for a register of n bits. */
  function Dividend(r: seq<bool>, bits: seq<bool>): (a: seq<bool>)
    ensures |a| == |bits| + |r|
  {
    Add(bits + Zero(|r|), r + Zero(|bits|))
  }

  /** The register ends with the remainder of the message it was fed. */
  lemma {:induction false} RegisterIsRemainder(r: seq<bool>, bits: seq<bool>, g: seq<bool>) returns (q: seq<bool>)
    requires |g| == |r| + 1 && r != [] && g[0]
    ensures Divided(Dividend(r, bits), g, q, Register(r, bits, g))
    decreases |bits|
  {
    var a := Dividend(r, bits);
    if bits == [] {
      q := [];
      assert Add(Times(q, g), Zero(0) + r) == a;
    } else {
      var r' := Turn(r, bits[0], g);
      var q' := RegisterIsRemainder(r', bits[1..], g);
      q := [r[0] != bits[0]] + q';
      var final := Register(r, bits, g);
      var first := Scale(q[0], g) + Zero(|q| - 1);
      assert q[1..] == q';
      DividendStep(r, bits, g);
      forall i | 0 <= i < |a| ensures a[i] == Add(Times(q, g), Zero(|q|) + final)[i] {
        if i > 0 {
          assert Dividend(r', bits[1..])[i - 1] == (Times(q', g)[i - 1] != (Zero(|q'|) + final)[i - 1]);
          assert Times(q, g)[i] == (first[i] != Times(q', g)[i - 1]);
        }
      }
    }
  }

  lemma DividendStep(r: seq<bool>, bits: seq<bool>, g: seq<bool>)
    requires |g| == |r| + 1 && r != [] && g[0] && bits != []
    ensures var first := Scale(r[0] != bits[0], g) + Zero(|bits| - 1);
      Dividend(r, bits) == Add(first, [false] + Dividend(Turn(r, bits[0], g), bits[1..]))
  {
    var a, rest := Dividend(r, bits), Dividend(Turn(r, bits[0], g), bits[1..]);
    var first := Scale(r[0] != bits[0], g) + Zero(|bits| - 1);
    forall i | 0 <= i < |a| ensures a[i] == Add(first, [false] + rest)[i] {
      if i > 0 {
        assert (bits[1..] + Zero(|r|))[i - 1] == (bits + Zero(|r|))[i];
      }
    }
  }
}
