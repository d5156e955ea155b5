/** Sums of a function over a range of integers, and powers. */
module FiniteSums {
  import opened RealArithmetic

  function Pow(r: real, n: nat): real {
    if n == 0 then 1.0 else r * Pow(r, n - 1)
  }

  lemma {:induction false} PowAdd(r: real, a: nat, b: nat)
    ensures Pow(r, a + b) == Pow(r, a) * Pow(r, b)
  {
    if a > 0 { PowAdd(r, a - 1, b); }
  }

  lemma {:induction false} PowPositive(r: real, n: nat)
    requires r > 0.0
    ensures Pow(r, n) > 0.0
  {
    if n > 0 { PowPositive(r, n - 1); }
  }

  /** The sum of `f` over `lo <= k < hi`. */
  function SumRange(f: int -> real, lo: int, hi: int): real
    requires lo <= hi
    decreases hi - lo
  {
    if lo == hi then 0.0 else SumRange(f, lo, hi - 1) + f(hi - 1)
  }

  lemma {:induction false} SumRangeEqual(f: int -> real, g: int -> real, lo: int, hi: int)
    requires lo <= hi
    requires forall k :: lo <= k < hi ==> f(k) == g(k)
    ensures SumRange(f, lo, hi) == SumRange(g, lo, hi)
    decreases hi - lo
  {
    if lo < hi { SumRangeEqual(f, g, lo, hi - 1); }
  }

  lemma {:induction false} SumRangeFirst(f: int -> real, lo: int, hi: int)
    requires lo < hi
    ensures SumRange(f, lo, hi) == f(lo) + SumRange(f, lo + 1, hi)
    decreases hi - lo
  {
    if lo + 1 < hi { SumRangeFirst(f, lo, hi - 1); }
  }

  lemma {:induction false} SumRangeScale(f: int -> real, a: real, g: int -> real, lo: int, hi: int)
    requires lo <= hi
    requires forall k :: lo <= k < hi ==> g(k) == Mul(a, f(k))
    ensures SumRange(g, lo, hi) == Mul(a, SumRange(f, lo, hi))
    decreases hi - lo
  {
    if lo < hi { SumRangeScale(f, a, g, lo, hi - 1); }
  }

  function Scaled(a: real, f: int -> real): int -> real { k => Mul(a, f(k)) }

  lemma SumScaled(a: real, f: int -> real, lo: int, hi: int)
    requires lo <= hi
    ensures SumRange(Scaled(a, f), lo, hi) == Mul(a, SumRange(f, lo, hi))
  {
    SumRangeScale(f, a, Scaled(a, f), lo, hi);
  }

  lemma {:induction false} SumRangeAdd(f: int -> real, g: int -> real, h: int -> real, lo: int, hi: int)
    requires lo <= hi
    requires forall k :: lo <= k < hi ==> h(k) == f(k) + g(k)
    ensures SumRange(h, lo, hi) == SumRange(f, lo, hi) + SumRange(g, lo, hi)
    decreases hi - lo
  {
    if lo < hi { SumRangeAdd(f, g, h, lo, hi - 1); }
  }

  lemma {:induction false} SumRangeMonotone(f: int -> real, g: int -> real, lo: int, hi: int)
    requires lo <= hi
    requires forall k :: lo <= k < hi ==> f(k) <= g(k)
    ensures SumRange(f, lo, hi) <= SumRange(g, lo, hi)
    decreases hi - lo
  {
    if lo < hi { SumRangeMonotone(f, g, lo, hi - 1); }
  }

  /** Row `a` of a table, and column `b` of it. */
  function RowOf(f: (int, int) -> real, a: int): int -> real { b => f(a, b) }

  function ColumnOf(f: (int, int) -> real, b: int): int -> real { a => f(a, b) }

  function RowSums(f: (int, int) -> real, lo: int, hi: int): int -> real
    requires lo <= hi
  {
    a => SumRange(RowOf(f, a), lo, hi)
  }

  function ColumnSums(f: (int, int) -> real, lo: int, hi: int): int -> real
    requires lo <= hi
  {
    b => SumRange(ColumnOf(f, b), lo, hi)
  }

  /** The sum over a rectangle, row by row. */
  function SumRect(f: (int, int) -> real, lo: int, hi: int): real
    requires lo <= hi
  {
    SumRange(RowSums(f, lo, hi), lo, hi)
  }

  /** Exchanging the order of a finite double sum. */
  lemma {:induction false} SumExchange(f: (int, int) -> real, lo: int, hi: int, top: int)
    requires lo <= top && lo <= hi
    ensures SumRange(RowSums(f, lo, hi), lo, top) == SumRange(ColumnSums(f, lo, top), lo, hi)
    decreases top - lo
  {
    if lo == top {
      SumZero(ColumnSums(f, lo, top), lo, hi);
    } else {
      SumExchange(f, lo, hi, top - 1);
      SumRangeAdd(ColumnSums(f, lo, top - 1), RowOf(f, top - 1), ColumnSums(f, lo, top), lo, hi);
    }
  }

  lemma {:induction false} SumZero(f: int -> real, lo: int, hi: int)
    requires lo <= hi
    requires forall k :: lo <= k < hi ==> f(k) == 0.0
    ensures SumRange(f, lo, hi) == 0.0
    decreases hi - lo
  {
    if lo < hi { SumZero(f, lo, hi - 1); }
  }
}
