/** Arithmetic shared by the models: finite sums of reals and C's conversions and division on `int`. */
module RealArithmetic {

  function Min(a: real, b: real): real { if a <= b then a else b }

  function Max(a: real, b: real): real { if a >= b then a else b }

  /** Product and quotient by name, so that proofs can keep them folded. */
  function Mul(a: real, b: real): real { a * b }

  function Quot(a: real, b: real): real
    requires b != 0.0
  {
    a / b
  }

  /** C's `(int) x`: truncation toward zero. */
  function Trunc(x: real): int {
    if x >= 0.0 then x.Floor else -((-x).Floor)
  }

  /** The whole part: the integer next to `x` on the side of zero. */
  lemma TruncMeans(x: real)
    ensures x >= 0.0 ==> Trunc(x) as real <= x < Trunc(x) as real + 1.0
    ensures x <= 0.0 ==> Trunc(x) as real - 1.0 < x <= Trunc(x) as real
  {
  }

  /** C's `a / b` for a positive divisor: truncation toward zero. */
  function CDiv(a: int, b: nat): int
    requires b > 0
  {
    if a >= 0 then a / b else -((-a) / b)
  }

  /** C's `a % b` for a positive divisor: takes the sign of `a`. */
  function CMod(a: int, b: nat): int
    requires b > 0
  {
    a - CDiv(a, b) * b
  }

  lemma CModBounds(a: int, b: nat)
    requires b > 0
    ensures a >= 0 ==> 0 <= CMod(a, b) < b && 0 <= CDiv(a, b)
    ensures a < 0 ==> 0 <= -CMod(a, b) < b
    ensures a == CDiv(a, b) * b + CMod(a, b)
  {
    if a >= 0 {
      Euclid(a, b);
    } else {
      Euclid(-a, b);
      NegatedProduct((-a) / b, b);
    }
  }

  lemma Euclid(a: nat, b: nat)
    requires b > 0
    ensures 0 <= a / b && 0 <= a - (a / b) * b < b
  {
    assert a == (a / b) * b + a % b;
  }

  lemma NegatedProduct(q: int, b: int)
    ensures (-q) * b == -(q * b)
  {
  }

  lemma ScaleSign(a: real, k: real)
    requires k > 0.0
    ensures a * k <= 0.0 ==> a <= 0.0
    ensures a * k >= 0.0 ==> a >= 0.0
    ensures a * k < 0.0 ==> a < 0.0
    ensures a * k > 0.0 ==> a > 0.0
  {
  }

  lemma ProductNonNegative(a: real, b: real)
    requires a >= 0.0 && b >= 0.0
    ensures a * b >= 0.0
  {
  }

  lemma MulAssociates(a: real, b: real, c: real)
    ensures Mul(Mul(a, b), c) == Mul(a, Mul(b, c))
  {
    assert (a * b) * c == a * (b * c);
  }

  lemma QuotUnique(a: real, b: real, q: real)
    requires b > 0.0 && a == Mul(b, q)
    ensures Quot(a, b) == q
  {
    assert (a / b - q) * b == 0.0;
    ScaleSign(a / b - q, b);
  }

  lemma ProductAsReal(q: int, n: int)
    ensures (q * n) as real == q as real * n as real
  {
  }

  function Sum(s: seq<real>): real {
    if s == [] then 0.0 else Sum(s[..|s| - 1]) + s[|s| - 1]
  }

  lemma {:induction false} SumUpdate(s: seq<real>, c: nat, v: real)
    requires c < |s|
    ensures Sum(s[c := v]) == Sum(s) + v - s[c]
  {
    var last := |s| - 1;
    if c == last {
      assert s[c := v][..last] == s[..last];
    } else {
      assert s[c := v][..last] == s[..last][c := v];
      SumUpdate(s[..last], c, v);
    }
  }
}
