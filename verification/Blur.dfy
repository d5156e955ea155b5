/** The blur of clutter-blur.c: the fragment shader as a loop, the convolution it computes, the two
    passes, and the choice of the downscale factor. */
module Blur {
  import opened RealArithmetic
  import opened FiniteSums

  // --- sampling --------------------------------------------------------------------------------

  type Texture = (int, int) -> real

  function Lerp(a: real, b: real, f: real): real { a * (1.0 - f) + b * f }

  function Fraction(x: real): real { x - x.Floor as real }

  /** Bilinear filtering at pixel coordinates; integers are texel centres. */
  function Sample(t: Texture, x: real, y: real): real {
    var i, j := x.Floor, y.Floor;
    Lerp(Lerp(t(i, j), t(i + 1, j), Fraction(x)), Lerp(t(i, j + 1), t(i + 1, j + 1), Fraction(x)), Fraction(y))
  }

  datatype Direction = Vertical | Horizontal

  /** The texel `k` steps away from `(x, y)`. */
  function Along(t: Texture, d: Direction, x: int, y: int, k: int): real {
    if d.Horizontal? then t(x + k, y) else t(x, y + k)
  }

  function SampleAlong(t: Texture, d: Direction, x: int, y: int, offset: real): real {
    if d.Horizontal? then Sample(t, x as real + offset, y as real)
    else Sample(t, x as real, y as real + offset)
  }

  lemma FloorOf(i: int, f: real)
    requires 0.0 <= f < 1.0
    ensures (i as real + f).Floor == i && Fraction(i as real + f) == f
  {
  }

  /** Between two texels on the line of the blur, filtering is linear interpolation. */
  lemma SampleBetween(t: Texture, d: Direction, x: int, y: int, i: int, f: real)
    requires 0.0 <= f < 1.0
    ensures SampleAlong(t, d, x, y, i as real + f) == Lerp(Along(t, d, x, y, i), Along(t, d, x, y, i + 1), f)
  {
    hide Fraction;
    FloorOf(x, 0.0);
    FloorOf(y, 0.0);
    FloorOf(x + i, f);
    FloorOf(y + i, f);
    assert x as real + (i as real + f) == (x + i) as real + f;
    assert y as real + (i as real + f) == (y + i) as real + f;
    assert x as real + 0.0 == x as real && y as real + 0.0 == y as real;
  }

  // --- the kernel ------------------------------------------------------------------------------

  function Square(k: int): nat {
    if k >= 0 then k * k else (-k) * (-k)
  }

  /** The Gaussian weight of tap `k`: `c * r^(k^2)` with `r = exp (-1/(2 sigma^2))`. */
  function Weight(c: real, r: real, k: int): real {
    c * Pow(r, Square(k))
  }

  function Weights(c: real, r: real): int -> real { k => Weight(c, r, k) }

  function Taps(t: Texture, d: Direction, x: int, y: int, c: real, r: real): int -> real {
    k => Mul(Weight(c, r, k), Along(t, d, x, y, k))
  }

  /** The direct form: the weighted sum of the texels from `-n` to `n`, to be divided by the total. */
  function Weighted(t: Texture, d: Direction, x: int, y: int, c: real, r: real, n: nat): real {
    SumRange(Taps(t, d, x, y, c, r), 0 - n, n + 1)
  }

  function TotalWeight(c: real, r: real, n: nat): real {
    SumRange(Weights(c, r), 0 - n, n + 1)
  }

  lemma WeightPositive(c: real, r: real, k: int)
    requires c > 0.0 && r > 0.0
    ensures Weight(c, r, k) > 0.0
  {
    PowPositive(r, Square(k));
  }

  lemma TotalPositive(c: real, r: real, n: nat)
    requires c > 0.0 && r > 0.0
    ensures TotalWeight(c, r, n) > 0.0
  {
    hide Weight;
    var w, zero := Weights(c, r), (_: int) => 0.0;
    forall k ensures Weight(c, r, k) > 0.0 {
      WeightPositive(c, r, k);
    }
    SumRangeFirst(w, 0 - n, n + 1);
    SumRangeMonotone(zero, w, 1 - n, n + 1);
    SumZero(zero, 1 - n, n + 1);
  }

  function Convolve(t: Texture, d: Direction, x: int, y: int, c: real, r: real, n: nat): real
    requires c > 0.0 && r > 0.0
  {
    TotalPositive(c, r, n);
    Quot(Weighted(t, d, x, y, c, r, n), TotalWeight(c, r, n))
  }

  lemma SquareNext(k: nat)
    ensures Square(k + 1) == Square(k) + (2 * k + 1)
  {
  }

  /** The incremental coefficients: `x` is the weight of tap `k`, `y` the ratio to the next. */
  lemma NextCoefficient(c: real, r: real, k: nat)
    ensures Weight(c, r, k) * Pow(r, 2 * k + 1) == Weight(c, r, k + 1)
    ensures Pow(r, 2 * k + 1) * (r * r) == Pow(r, 2 * (k + 1) + 1)
  {
    hide Square, Pow;
    SquareNext(k);
    PowAdd(r, Square(k), 2 * k + 1);
    PowAdd(r, 2, 2 * k + 1);
    PowTwo(r);
  }

  lemma PowTwo(r: real)
    ensures Pow(r, 2) == r * r && Pow(r, 1) == r && Pow(r, 0) == 1.0
  {
    assert Pow(r, 1) == r * Pow(r, 0);
  }

  lemma WeightSymmetric(c: real, r: real, k: int)
    ensures Weight(c, r, -k) == Weight(c, r, k)
  {
  }

  /** Widening the window by one tap on each side. */
  lemma WidenWindow(f: int -> real, n: nat)
    ensures SumRange(f, 0 - (n + 1), n + 2) == SumRange(f, 0 - n, n + 1) + f(n + 1) + f(0 - (n + 1))
  {
    SumRangeFirst(f, 0 - (n + 1), n + 2);
  }

  /** One off-centre fetch, scaled by two weights, is the weighted sum of two texels. */
  lemma PairedFetch(a: real, b: real, v: real, w: real)
    requires v > 0.0 && w > 0.0
    ensures var s := v + w;
            && 0.0 < w / s < 1.0
            && Mul(Lerp(a, b, w / s), s) == Mul(v, a) + Mul(w, b)
            && Mul(Lerp(b, a, 1.0 - w / s), s) == Mul(v, a) + Mul(w, b)
  {
    var s := v + w;
    var f := w / s;
    assert f * s == w;
    assert (1.0 - f) * s == v;
    ScaleSign(f, s);
    ScaleSign(1.0 - f, s);
    assert Lerp(a, b, f) * s == a * ((1.0 - f) * s) + b * (f * s);
    assert Lerp(b, a, 1.0 - f) * s == b * (f * s) + a * ((1.0 - f) * s);
  }

  lemma WidenTwice(f: int -> real, i: nat)
    requires i >= 1
    ensures SumRange(f, 0 - (i + 1), i + 2) ==
            SumRange(f, 0 - (i - 1), i) + f(i) + f(i + 1) + f(0 - i) + f(0 - (i + 1))
  {
    hide SumRange;
    WidenWindow(f, i - 1);
    WidenWindow(f, i);
  }

  lemma TapsOf(t: Texture, d: Direction, x: int, y: int, c: real, r: real, k: nat)
    ensures var f, g, w := Taps(t, d, x, y, c, r), Weights(c, r), Weight(c, r, k);
            && f(k) == Mul(w, Along(t, d, x, y, k)) && f(0 - k) == Mul(w, Along(t, d, x, y, 0 - k))
            && g(k) == w == g(0 - k)
  {
    hide Weight, Along, Mul;
    WeightSymmetric(c, r, k);
  }

  /** The window grows by two taps on each side. */
  lemma WindowGrows(t: Texture, d: Direction, x: int, y: int, c: real, r: real, i: nat)
    requires i >= 1
    ensures var v, w := Weight(c, r, i), Weight(c, r, i + 1);
            && Weighted(t, d, x, y, c, r, i + 1) ==
               Weighted(t, d, x, y, c, r, i - 1) +
               (Mul(v, Along(t, d, x, y, i)) + Mul(w, Along(t, d, x, y, i + 1))) +
               (Mul(v, Along(t, d, x, y, 0 - i)) + Mul(w, Along(t, d, x, y, 0 - (i + 1))))
            && TotalWeight(c, r, i + 1) == TotalWeight(c, r, i - 1) + 2.0 * (v + w)
  {
    hide Along, Weight, Taps, Weights, SumRange, Mul;
    WidenTwice(Taps(t, d, x, y, c, r), i);
    WidenTwice(Weights(c, r), i);
    TapsOf(t, d, x, y, c, r, i);
    TapsOf(t, d, x, y, c, r, i + 1);
  }

  /** The two fetches at `i + w/(v+w)` on either side, scaled by `v + w`. */
  lemma FetchesWeighted(t: Texture, d: Direction, x: int, y: int, i: nat, v: real, w: real)
    requires v > 0.0 && w > 0.0
    ensures var s, offset := v + w, i as real + w / (v + w);
            && Mul(SampleAlong(t, d, x, y, offset), s) ==
               Mul(v, Along(t, d, x, y, i)) + Mul(w, Along(t, d, x, y, i + 1))
            && Mul(SampleAlong(t, d, x, y, -offset), s) ==
               Mul(v, Along(t, d, x, y, 0 - i)) + Mul(w, Along(t, d, x, y, 0 - (i + 1)))
  {
    hide SampleAlong, Along, Lerp, Mul;
    var s := v + w;
    PairedFetch(Along(t, d, x, y, i), Along(t, d, x, y, i + 1), v, w);
    PairedFetch(Along(t, d, x, y, 0 - i), Along(t, d, x, y, 0 - (i + 1)), v, w);
    SampleBetween(t, d, x, y, i, w / s);
    SampleBetween(t, d, x, y, -(i + 1), 1.0 - w / s);
    assert -(i as real + w / s) == (-(i + 1)) as real + (1.0 - w / s);
  }

  lemma WeightsPositive(c: real, r: real, i: nat)
    requires c > 0.0 && r > 0.0
    ensures Weight(c, r, i) > 0.0 && Weight(c, r, i + 1) > 0.0
  {
    WeightPositive(c, r, i);
    WeightPositive(c, r, i + 1);
  }

  /** `int (ceil (1.5 * sigma)) * 2`. */
  function Steps(sigma: real): (n: nat)
    requires sigma > 0.0
    ensures n >= 2 && n % 2 == 0 && 3.0 * sigma <= n as real < 3.0 * sigma + 2.0
  {
    var h := -((-1.5 * sigma).Floor);
    h * 2
  }

  lemma WindowOfOne(t: Texture, d: Direction, x: int, y: int, c: real, r: real)
    ensures Weighted(t, d, x, y, c, r, 0) == Along(t, d, x, y, 0) * c
    ensures TotalWeight(c, r, 0) == c
    ensures SampleAlong(t, d, x, y, 0.0) == Along(t, d, x, y, 0)
    ensures c == Weight(c, r, 0) && r == Pow(r, 1)
  {
    SampleBetween(t, d, x, y, 0, 0.0);
    assert 0 as real + 0.0 == 0.0;
    PowTwo(r);
    var f, g := Taps(t, d, x, y, c, r), Weights(c, r);
    assert SumRange(f, 0, 1) == SumRange(f, 0, 0) + f(0);
    assert SumRange(g, 0, 1) == SumRange(g, 0, 0) + g(0);
  }

  /** `gauss_coefficient.xy *= gauss_coefficient.yz`: from tap `k` to tap `k + 1`. */
  method AdvanceCoefficient(gx: real, gy: real, gz: real, ghost c: real, ghost r: real, ghost k: nat)
    returns (x: real, y: real)
    requires gx == Weight(c, r, k) && gy == Pow(r, 2 * k + 1) && gz == r * r
    ensures x == Weight(c, r, k + 1) && y == Pow(r, 2 * (k + 1) + 1)
  {
    hide Weight, Pow;
    NextCoefficient(c, r, k);
    x, y := gx * gy, gy * gz;
  }

  /** What the shader reads along the blur line, at a distance in steps from the centre. */
  type Line = real -> real

  /** Where the shader reads for tap `k`: taps `i` and `i + 1` with `i` odd are read together, at the one
      point between them that their weights choose. */
  function FetchPoint(c: real, r: real, k: int): real
    requires c > 0.0 && r > 0.0
  {
    if k == 0 then 0.0 else if k > 0 then PairPoint(c, r, k) else -PairPoint(c, r, -k)
  }

  function PairPoint(c: real, r: real, k: nat): real
    requires c > 0.0 && r > 0.0 && k > 0
  {
    var i := if k % 2 == 1 then k else k - 1;
    WeightsPositive(c, r, i);
    i as real + Weight(c, r, i + 1) / (Weight(c, r, i) + Weight(c, r, i + 1))
  }

  /** The line as the shader sees it: one value per tap. */
  function Fetched(s: Line, c: real, r: real): Texture
    requires c > 0.0 && r > 0.0
  {
    (k, _) => s(FetchPoint(c, r, k))
  }

  /** The normalised weighted sum of what is fetched for the taps from `-n` to `n`. */
  function ConvolveLine(s: Line, c: real, r: real, n: nat): real
    requires c > 0.0 && r > 0.0
  {
    Convolve(Fetched(s, c, r), Horizontal, 0, 0, c, r, n)
  }

  lemma PairFetched(s: Line, c: real, r: real, i: nat)
    requires c > 0.0 && r > 0.0 && i % 2 == 1
    ensures Weight(c, r, i) + Weight(c, r, i + 1) > 0.0
    ensures var f := Fetched(s, c, r);
            var offset := i as real + Weight(c, r, i + 1) / (Weight(c, r, i) + Weight(c, r, i + 1));
            && Along(f, Horizontal, 0, 0, i) == s(offset) == Along(f, Horizontal, 0, 0, i + 1)
            && Along(f, Horizontal, 0, 0, 0 - i) == s(-offset) == Along(f, Horizontal, 0, 0, -(i + 1))
  {
    hide Weight;
    WeightsPositive(c, r, i);
    var f := Fetched(s, c, r);
    var offset := PairPoint(c, r, i);
    assert FetchPoint(c, r, i) == offset == FetchPoint(c, r, i + 1);
    assert FetchPoint(c, r, 0 - i) == -offset == FetchPoint(c, r, -(i + 1));
    assert f(0 + i, 0) == s(offset) == f(0 + (i + 1), 0);
    assert f(0 + (0 - i), 0) == s(-offset) == f(0 - (i + 1), 0);
  }

  lemma MulSplit(a: real, v: real, w: real)
    ensures Mul(a, v + w) == Mul(v, a) + Mul(w, a)
  {
  }

  /** Two fetches, scaled by the two weights, make up four taps. */
  lemma FetchedGrows(s: Line, c: real, r: real, i: nat)
    requires c > 0.0 && r > 0.0 && i % 2 == 1
    ensures Weight(c, r, i) + Weight(c, r, i + 1) > 0.0
    ensures var v, w := Weight(c, r, i), Weight(c, r, i + 1);
            var offset := i as real + w / (v + w);
            && Weighted(Fetched(s, c, r), Horizontal, 0, 0, c, r, i + 1) ==
               Weighted(Fetched(s, c, r), Horizontal, 0, 0, c, r, i - 1) +
               Mul(s(offset), v + w) + Mul(s(-offset), v + w)
            && TotalWeight(c, r, i + 1) == TotalWeight(c, r, i - 1) + 2.0 * (v + w)
  {
    hide Weighted, TotalWeight, Weight, Along, Fetched, Mul;
    PairFetched(s, c, r, i);
    WindowGrows(Fetched(s, c, r), Horizontal, 0, 0, c, r, i);
    var v, w := Weight(c, r, i), Weight(c, r, i + 1);
    var offset := i as real + w / (v + w);
    MulSplit(s(offset), v, w);
    MulSplit(s(-offset), v, w);
  }

  /** The two fetches of one iteration, on either side of the centre. */
  method FetchPair(s: Line, i: nat, v: real, w: real, ghost c: real, ghost r: real) returns (sum: real)
    requires c > 0.0 && r > 0.0 && i % 2 == 1
    requires v == Weight(c, r, i) && w == Weight(c, r, i + 1)
    ensures Weighted(Fetched(s, c, r), Horizontal, 0, 0, c, r, i + 1) ==
            Weighted(Fetched(s, c, r), Horizontal, 0, 0, c, r, i - 1) + sum
    ensures TotalWeight(c, r, i + 1) == TotalWeight(c, r, i - 1) + 2.0 * (v + w)
  {
    hide Weighted, TotalWeight, Weight, Along, Fetched, Mul;
    FetchedGrows(s, c, r, i);
    var subtotal := v + w;
    var ratio := w / subtotal;
    var offset := i as real + ratio;
    sum := Mul(s(offset), subtotal);
    sum := sum + Mul(s(-offset), subtotal);
  }

  /** The fragment shader, whatever it reads.  `c` and `r` stand for `1 / (sqrt (2 pi) sigma)` and
      `exp (-0.5 / (sigma * sigma))`. */
  method GaussianBlur(s: Line, sigma: real, c: real, r: real) returns (texel: real)
    requires sigma > 0.0 && c > 0.0 && r > 0.0
    ensures texel == ConvolveLine(s, c, r, Steps(sigma))
  {
    hide Weighted, TotalWeight, Weight, Pow, Fetched;
    LineOfOne(s, c, r);
    ghost var f := Fetched(s, c, r);
    var gx, gy, gz := c, r, r * r;
    var total := gx;
    var ret := s(0.0) * gx;
    gx, gy := AdvanceCoefficient(gx, gy, gz, c, r, 0);

    var n := Steps(sigma);
    var i := 1;
    while i <= n
      invariant 1 <= i <= n + 1 && i % 2 == 1
      invariant gx == Weight(c, r, i) && gy == Pow(r, 2 * i + 1)
      invariant ret == Weighted(f, Horizontal, 0, 0, c, r, i - 1)
      invariant total == TotalWeight(c, r, i - 1)
    {
      var first := gx;
      gx, gy := AdvanceCoefficient(gx, gy, gz, c, r, i);
      var sum := FetchPair(s, i, first, gx, c, r);
      ret := ret + sum;
      total := total + 2.0 * (first + gx);
      gx, gy := AdvanceCoefficient(gx, gy, gz, c, r, i + 1);
      i := i + 2;
    }
    TotalPositive(c, r, n);
    texel := Quot(ret, total);
  }

  lemma LineOfOne(s: Line, c: real, r: real)
    requires c > 0.0 && r > 0.0
    ensures Weighted(Fetched(s, c, r), Horizontal, 0, 0, c, r, 0) == s(0.0) * c
    ensures TotalWeight(c, r, 0) == c
    ensures c == Weight(c, r, 0) && r == Pow(r, 1)
  {
    WindowOfOne(Fetched(s, c, r), Horizontal, 0, 0, c, r);
    assert Along(Fetched(s, c, r), Horizontal, 0, 0, 0) == s(FetchPoint(c, r, 0));
  }

  function LineAlong(t: Texture, d: Direction, x: int, y: int): Line { o => SampleAlong(t, d, x, y, o) }

  /** Over texels one step apart, the paired fetches read every texel with its own weight. */
  lemma {:induction false} FetchesReadTexels(t: Texture, d: Direction, x: int, y: int, c: real, r: real, n: nat)
    requires c > 0.0 && r > 0.0 && n % 2 == 0
    ensures Weighted(Fetched(LineAlong(t, d, x, y), c, r), Horizontal, 0, 0, c, r, n) == Weighted(t, d, x, y, c, r, n)
  {
    hide Weighted, Weight, Along, Fetched, SampleAlong, Mul;
    var s := LineAlong(t, d, x, y);
    WindowOfOne(t, d, x, y, c, r);
    LineOfOne(s, c, r);
    if n > 0 {
      var i := n - 1;
      var v, w := Weight(c, r, i), Weight(c, r, i + 1);
      FetchesReadTexels(t, d, x, y, c, r, n - 2);
      WindowGrows(t, d, x, y, c, r, i);
      FetchedGrows(s, c, r, i);
      WeightsPositive(c, r, i);
      FetchesWeighted(t, d, x, y, i, v, w);
      var offset := i as real + w / (v + w);
      assert s(offset) == SampleAlong(t, d, x, y, offset) && s(-offset) == SampleAlong(t, d, x, y, -offset);
    }
  }

  /** The shader over texels one step apart computes the convolution. */
  lemma LineIsConvolution(t: Texture, d: Direction, x: int, y: int, c: real, r: real, n: nat)
    requires c > 0.0 && r > 0.0 && n % 2 == 0
    ensures ConvolveLine(LineAlong(t, d, x, y), c, r, n) == Convolve(t, d, x, y, c, r, n)
  {
    hide Weighted, TotalWeight, Fetched, LineAlong;
    FetchesReadTexels(t, d, x, y, c, r, n);
  }

  // --- the convolution as a weighted mean ----------------------------------------------------------

  /** Blurring stays within the range of the texels it reads; in particular it keeps constants. */
  lemma ConvolveWithinRange(t: Texture, d: Direction, x: int, y: int, c: real, r: real, n: nat, lo: real, hi: real)
    requires c > 0.0 && r > 0.0
    requires forall k :: -(n as int) <= k <= n ==> lo <= Along(t, d, x, y, k) <= hi
    ensures lo <= Convolve(t, d, x, y, c, r, n) <= hi
  {
    hide Weight, Along, Taps, Weights, Scaled, Mul, Quot;
    var w, f := Weights(c, r), Taps(t, d, x, y, c, r);
    forall k | 0 - n <= k < n + 1 ensures Scaled(lo, w)(k) <= f(k) <= Scaled(hi, w)(k) {
      TapWithinRange(t, d, x, y, c, r, k, lo, hi);
    }
    SumRangeMonotone(Scaled(lo, w), f, 0 - n, n + 1);
    SumRangeMonotone(f, Scaled(hi, w), 0 - n, n + 1);
    SumScaled(lo, w, 0 - n, n + 1);
    SumScaled(hi, w, 0 - n, n + 1);
    TotalPositive(c, r, n);
    MeanWithinRange(Weighted(t, d, x, y, c, r, n), TotalWeight(c, r, n), lo, hi);
  }

  lemma TapWithinRange(t: Texture, d: Direction, x: int, y: int, c: real, r: real, k: int, lo: real, hi: real)
    requires c > 0.0 && r > 0.0 && lo <= Along(t, d, x, y, k) <= hi
    ensures Scaled(lo, Weights(c, r))(k) <= Taps(t, d, x, y, c, r)(k) <= Scaled(hi, Weights(c, r))(k)
  {
    hide Weight, Along, Mul;
    WeightPositive(c, r, k);
    MulWithinRange(Weight(c, r, k), Along(t, d, x, y, k), lo, hi);
  }

  lemma MulWithinRange(w: real, a: real, lo: real, hi: real)
    requires w > 0.0 && lo <= a <= hi
    ensures Mul(lo, w) <= Mul(w, a) <= Mul(hi, w)
  {
    ProductNonNegative(w, a - lo);
    ProductNonNegative(w, hi - a);
    assert w * (a - lo) == w * a - lo * w && w * (hi - a) == hi * w - w * a;
  }

  lemma MeanWithinRange(s: real, total: real, lo: real, hi: real)
    requires total > 0.0 && Mul(lo, total) <= s <= Mul(hi, total)
    ensures lo <= Quot(s, total) <= hi
  {
    var m := s / total;
    assert (m - lo) * total == s - lo * total;
    assert (hi - m) * total == hi * total - s;
    ScaleSign(m - lo, total);
    ScaleSign(hi - m, total);
  }

  // --- two passes ------------------------------------------------------------------------------------

  function Clamp(i: int, size: int): int {
    if i < 0 then 0 else if i >= size then size - 1 else i
  }

  /** `CLAMP_TO_EDGE` addressing. */
  function EdgeClamped(t: Texture, width: nat, height: nat): Texture {
    (x, y) => t(Clamp(x, width), Clamp(y, height))
  }

  /** What one pass leaves in its framebuffer, read back through the clamped sampler. */
  function Pass(t: Texture, d: Direction, width: nat, height: nat, c: real, r: real, n: nat): Texture
    requires c > 0.0 && r > 0.0
  {
    (x, y) => Convolve(EdgeClamped(t, width, height), d, x, y, c, r, n)
  }

  function ProductWeights(c: real, r: real): (int, int) -> real {
    (j, k) => Mul(Weight(c, r, j), Weight(c, r, k))
  }

  function ProductTaps(t: Texture, x: int, y: int, c: real, r: real): (int, int) -> real {
    (j, k) => Mul(Weight(c, r, j), Mul(Weight(c, r, k), t(x + j, y + k)))
  }

  /** One two-dimensional convolution with the product kernel. */
  function Convolve2D(t: Texture, x: int, y: int, c: real, r: real, n: nat): real
    requires c > 0.0 && r > 0.0
  {
    ProductTotal(c, r, n);
    Quot(SumRect(ProductTaps(t, x, y, c, r), 0 - n, n + 1), SumRect(ProductWeights(c, r), 0 - n, n + 1))
  }

  lemma MulCommutes(a: real, b: real)
    ensures Mul(a, b) == Mul(b, a)
    ensures a > 0.0 && b > 0.0 ==> Mul(a, b) > 0.0
  {
  }

  lemma MulSwap(a: real, b: real, c: real)
    ensures Mul(a, Mul(b, c)) == Mul(b, Mul(a, c))
  {
    assert a * (b * c) == b * (a * c);
  }

  lemma MulQuot(a: real, b: real)
    requires b > 0.0
    ensures Mul(b, Quot(a, b)) == a
  {
  }

  /** Normalising twice by `w` is normalising once by its square. */
  lemma QuotTwice(s: real, w: real)
    requires w > 0.0
    ensures Mul(w, w) > 0.0 && Quot(Mul(w, s), Mul(w, w)) == Quot(s, w)
  {
    hide Mul, Quot;
    MulCommutes(w, w);
    MulQuot(s, w);
    MulAssociates(w, w, Quot(s, w));
    QuotUnique(Mul(w, s), Mul(w, w), Quot(s, w));
  }

  lemma ProductTotal(c: real, r: real, n: nat)
    requires c > 0.0 && r > 0.0
    ensures SumRect(ProductWeights(c, r), 0 - n, n + 1) == Mul(TotalWeight(c, r, n), TotalWeight(c, r, n))
    ensures SumRect(ProductWeights(c, r), 0 - n, n + 1) > 0.0
  {
    hide Weight, Mul;
    var w, f, total := Weights(c, r), ProductWeights(c, r), TotalWeight(c, r, n);
    forall j ensures RowSums(f, 0 - n, n + 1)(j) == Mul(total, w(j)) {
      SumRangeScale(w, Weight(c, r, j), RowOf(f, j), 0 - n, n + 1);
      MulCommutes(Weight(c, r, j), total);
    }
    SumRangeScale(w, total, RowSums(f, 0 - n, n + 1), 0 - n, n + 1);
    TotalPositive(c, r, n);
    MulCommutes(total, total);
  }

  /** A clamped index is the one inside that is nearest. */
  lemma ClampNearest(i: int, size: int, j: int)
    requires 0 <= j < size
    ensures 0 <= Clamp(i, size) < size
    ensures Apart(i, Clamp(i, size)) <= Apart(i, j)
  {
  }

  function Apart(a: int, b: int): nat { if a >= b then a - b else b - a }

  lemma ClampTwice(i: int, size: int)
    requires size > 0
    ensures Clamp(Clamp(i, size), size) == Clamp(i, size)
    ensures 0 <= i < size ==> Clamp(i, size) == i
  {
  }

  /** A tap of the second pass reads a pixel of the first. */
  lemma SecondPassTap(t: Texture, d: Direction, x: int, y: int, i: int, width: nat, height: nat,
                      c: real, r: real, n: nat)
    requires c > 0.0 && r > 0.0
    requires 0 <= x < width && 0 <= y < height
    ensures var e, first := EdgeClamped(t, width, height), Pass(t, d, width, height, c, r, n);
            && Along(EdgeClamped(first, width, height), Horizontal, x, y, i) ==
               Convolve(e, d, Clamp(x + i, width), y, c, r, n)
            && Along(EdgeClamped(first, width, height), Vertical, x, y, i) ==
               Convolve(e, d, x, Clamp(y + i, height), c, r, n)
  {
    hide Convolve, Clamp;
    ClampTwice(x, width);
    ClampTwice(y, height);
  }

  lemma Neighbour(t: Texture, x: int, y: int, j: int, k: int, width: nat, height: nat)
    requires 0 <= x < width && 0 <= y < height
    ensures var e := EdgeClamped(t, width, height);
            && e(x + j, y + k) == Along(e, Vertical, Clamp(x + j, width), y, k)
            && e(x + j, y + k) == Along(e, Horizontal, x, Clamp(y + k, height), j)
  {
    hide Clamp;
    ClampTwice(x + j, width);
    ClampTwice(y + k, height);
  }

  /** One tap of the horizontal pass, as a row of the double sum. */
  lemma RowIsTap(t: Texture, x: int, y: int, j: int, width: nat, height: nat, c: real, r: real, n: nat)
    requires c > 0.0 && r > 0.0
    requires 0 <= x < width && 0 <= y < height
    ensures var v := Pass(t, Vertical, width, height, c, r, n);
            RowSums(ProductTaps(EdgeClamped(t, width, height), x, y, c, r), 0 - n, n + 1)(j) ==
            Mul(TotalWeight(c, r, n), Taps(EdgeClamped(v, width, height), Horizontal, x, y, c, r)(j))
  {
    hide Weight, TotalWeight, Mul, Quot, EdgeClamped, Along, Pass, Clamp, SumRange;
    var e := EdgeClamped(t, width, height);
    var column := Taps(e, Vertical, Clamp(x + j, width), y, c, r);
    var w, total, s := Weight(c, r, j), TotalWeight(c, r, n), SumRange(column, 0 - n, n + 1);
    TotalPositive(c, r, n);
    forall k ensures RowOf(ProductTaps(e, x, y, c, r), j)(k) == Mul(w, column(k)) {
      Neighbour(t, x, y, j, k, width, height);
    }
    SumRangeScale(column, w, RowOf(ProductTaps(e, x, y, c, r), j), 0 - n, n + 1);
    SecondPassTap(t, Vertical, x, y, j, width, height, c, r, n);
    MulQuot(s, total);
    MulSwap(total, w, Quot(s, total));
  }

  /** One tap of the vertical pass, as a column of the double sum. */
  lemma ColumnIsTap(t: Texture, x: int, y: int, k: int, width: nat, height: nat, c: real, r: real, n: nat)
    requires c > 0.0 && r > 0.0
    requires 0 <= x < width && 0 <= y < height
    ensures var h := Pass(t, Horizontal, width, height, c, r, n);
            ColumnSums(ProductTaps(EdgeClamped(t, width, height), x, y, c, r), 0 - n, n + 1)(k) ==
            Mul(TotalWeight(c, r, n), Taps(EdgeClamped(h, width, height), Vertical, x, y, c, r)(k))
  {
    hide Weight, TotalWeight, Mul, Quot, EdgeClamped, Along, Pass, Clamp, SumRange;
    var e := EdgeClamped(t, width, height);
    var row := Taps(e, Horizontal, x, Clamp(y + k, height), c, r);
    var w, total, s := Weight(c, r, k), TotalWeight(c, r, n), SumRange(row, 0 - n, n + 1);
    TotalPositive(c, r, n);
    forall j ensures ColumnOf(ProductTaps(e, x, y, c, r), k)(j) == Mul(w, row(j)) {
      Neighbour(t, x, y, j, k, width, height);
      MulSwap(Weight(c, r, j), w, e(x + j, y + k));
    }
    SumRangeScale(row, w, ColumnOf(ProductTaps(e, x, y, c, r), k), 0 - n, n + 1);
    SecondPassTap(t, Horizontal, x, y, k, width, height, c, r, n);
    MulQuot(s, total);
    MulSwap(total, w, Quot(s, total));
  }

  /** Separability: the vertical pass followed by the horizontal one is the two-dimensional
      convolution with clamped coordinates, at every pixel; the other order gives the same. */
  lemma PassesAreConvolution(t: Texture, x: int, y: int, width: nat, height: nat, c: real, r: real, n: nat)
    requires c > 0.0 && r > 0.0
    requires 0 <= x < width && 0 <= y < height
    ensures Pass(Pass(t, Vertical, width, height, c, r, n), Horizontal, width, height, c, r, n)(x, y) ==
            Convolve2D(EdgeClamped(t, width, height), x, y, c, r, n)
    ensures Pass(Pass(t, Horizontal, width, height, c, r, n), Vertical, width, height, c, r, n)(x, y) ==
            Convolve2D(EdgeClamped(t, width, height), x, y, c, r, n)
  {
    hide Weight, TotalWeight, Mul, Quot, EdgeClamped, Taps, ProductTaps, RowSums, ColumnSums;
    var v, h := Pass(t, Vertical, width, height, c, r, n), Pass(t, Horizontal, width, height, c, r, n);
    var f, total := ProductTaps(EdgeClamped(t, width, height), x, y, c, r), TotalWeight(c, r, n);
    var across := Taps(EdgeClamped(v, width, height), Horizontal, x, y, c, r);
    var down := Taps(EdgeClamped(h, width, height), Vertical, x, y, c, r);
    forall j ensures RowSums(f, 0 - n, n + 1)(j) == Mul(total, across(j)) {
      RowIsTap(t, x, y, j, width, height, c, r, n);
    }
    forall k ensures ColumnSums(f, 0 - n, n + 1)(k) == Mul(total, down(k)) {
      ColumnIsTap(t, x, y, k, width, height, c, r, n);
    }
    SumRangeScale(across, total, RowSums(f, 0 - n, n + 1), 0 - n, n + 1);
    SumRangeScale(down, total, ColumnSums(f, 0 - n, n + 1), 0 - n, n + 1);
    SumExchange(f, 0 - n, n + 1, n + 1);
    ProductTotal(c, r, n);
    TotalPositive(c, r, n);
    QuotTwice(SumRange(across, 0 - n, n + 1), total);
    QuotTwice(SumRange(down, 0 - n, n + 1), total);
  }

  // --- the two draws ---------------------------------------------------------------------------------

  /** The contents of a texture or framebuffer, row by row. */
  datatype Image = Image(width: nat, height: nat, rows: seq<seq<real>>) {
    ghost predicate Valid() {
      |rows| == height > 0 && width > 0 && forall y :: 0 <= y < height ==> |rows[y]| == width
    }
  }

  function Texel(rows: seq<seq<real>>, x: int, y: int): real {
    if 0 <= y < |rows| && 0 <= x < |rows[y]| then rows[y][x] else 0.0
  }

  function AsTexture(image: Image): Texture {
    (x, y) => Texel(image.rows, x, y)
  }

  /** The sampler the shader reads through. */
  function Sampler(image: Image): Texture {
    EdgeClamped(AsTexture(image), image.width, image.height)
  }

  /** The texel coordinate, in a texture of `from` texels, of position `p` in a framebuffer of `size` pixels
      that shows the whole texture. */
  function TexelAt(p: real, size: nat, from: nat): real
    requires size > 0
  {
    Mul(Quot(p + 0.5, size as real), from as real) - 0.5
  }

  /** What the shader reads for pixel `(x, y)` of a framebuffer: a step is a pixel of the framebuffer, so
      over a larger texture it is wider than a texel. */
  function LineOf(source: Image, d: Direction, width: nat, height: nat, x: int, y: int): Line
    requires width > 0 && height > 0
  {
    o =>
      if d.Horizontal? then
        Sample(Sampler(source), TexelAt(x as real + o, width, source.width), TexelAt(y as real, height, source.height))
      else
        Sample(Sampler(source), TexelAt(x as real, width, source.width), TexelAt(y as real + o, height, source.height))
  }

  /** One pass over an image, into a framebuffer of any size. */
  function Drawn(source: Image, d: Direction, width: nat, height: nat, c: real, r: real, n: nat): Texture
    requires width > 0 && height > 0 && c > 0.0 && r > 0.0
  {
    (x, y) => ConvolveLine(LineOf(source, d, width, height, x, y), c, r, n)
  }

  ghost predicate Shows(image: Image, t: Texture, width: nat, height: nat) {
    && image.Valid() && image.width == width && image.height == height
    && forall x, y :: 0 <= x < width && 0 <= y < height ==> image.rows[y][x] == t(x, y)
  }

  /** Drawing one pass: the shader runs once for every pixel of the framebuffer. */
  method ApplyBlurPass(source: Image, d: Direction, width: nat, height: nat, sigma: real, c: real, r: real)
    returns (target: Image)
    requires width > 0 && height > 0 && sigma > 0.0 && c > 0.0 && r > 0.0
    ensures Shows(target, Drawn(source, d, width, height, c, r, Steps(sigma)), width, height)
  {
    hide ConvolveLine, LineOf;
    ghost var drawn := Drawn(source, d, width, height, c, r, Steps(sigma));
    var rows: seq<seq<real>> := [];
    for y := 0 to height
      invariant |rows| == y
      invariant forall j :: 0 <= j < y ==> |rows[j]| == width
      invariant forall i, j :: 0 <= i < width && 0 <= j < y ==> rows[j][i] == drawn(i, j)
    {
      var row: seq<real> := [];
      for x := 0 to width
        invariant |row| == x
        invariant forall i :: 0 <= i < x ==> row[i] == drawn(i, y)
      {
        var texel := GaussianBlur(LineOf(source, d, width, height, x, y), sigma, c, r);
        row := row + [texel];
      }
      rows := rows + [row];
    }
    target := Image(width, height, rows);
  }

  lemma TexelAtSameSize(p: real, size: nat)
    requires size > 0
    ensures TexelAt(p, size, size) == p
  {
    var k := size as real;
    assert (p + 0.5) / k * k == p + 0.5;
  }

  /** Into a framebuffer of the same size, a pass is the convolution of the texels. */
  lemma SameSizeDraw(source: Image, d: Direction, x: int, y: int, c: real, r: real, n: nat)
    requires source.Valid() && c > 0.0 && r > 0.0 && n % 2 == 0
    ensures Drawn(source, d, source.width, source.height, c, r, n)(x, y) == Convolve(Sampler(source), d, x, y, c, r, n)
  {
    hide Convolve, Sampler, Sample, TexelAt, FetchPoint;
    var a, b := LineOf(source, d, source.width, source.height, x, y), LineAlong(Sampler(source), d, x, y);
    TexelAtSameSize(x as real, source.width);
    TexelAtSameSize(y as real, source.height);
    forall o ensures a(o) == b(o) {
      TexelAtSameSize(x as real + o, source.width);
      TexelAtSameSize(y as real + o, source.height);
    }
    ConvolveCongruent(Fetched(a, c, r), Fetched(b, c, r), Horizontal, 0, 0, c, r, n);
    LineIsConvolution(Sampler(source), d, x, y, c, r, n);
  }

  lemma ConvolveCongruent(t: Texture, u: Texture, d: Direction, x: int, y: int, c: real, r: real, n: nat)
    requires c > 0.0 && r > 0.0
    requires forall i, j :: t(i, j) == u(i, j)
    ensures Convolve(t, d, x, y, c, r, n) == Convolve(u, d, x, y, c, r, n)
  {
    hide Weight, Mul, Quot;
    SumRangeEqual(Taps(t, d, x, y, c, r), Taps(u, d, x, y, c, r), 0 - n, n + 1);
  }

  /** A framebuffer shows the whole of a texture evenly: edge on edge, and as many texels to a pixel everywhere. */
  lemma TexelAtWhole(size: nat, from: nat, p: real, d: real)
    requires size > 0
    ensures TexelAt(-0.5, size, from) == -0.5
    ensures TexelAt(size as real - 0.5, size, from) == from as real - 0.5
    ensures TexelAt(p + d, size, from) - TexelAt(p, size, from) == Mul(d, Quot(from as real, size as real))
  {
    var k, m := size as real, from as real;
    assert (-0.5 + 0.5) / k == 0.0;
    assert (k - 0.5 + 0.5) / k == 1.0;
    var u, v := (p + 0.5) / k, (p + d + 0.5) / k;
    assert u * k == p + 0.5 && v * k == p + d + 0.5;
    var w := d / k;
    assert w * k == d;
    assert (v - u - w) * k == 0.0;
    ScaleSign(v - u - w, k);
    assert v * m - u * m == w * m;
    QuotCommutes(d, m, k);
  }

  lemma QuotCommutes(d: real, m: real, k: real)
    requires k > 0.0
    ensures (d / k) * m == d * (m / k)
  {
    var a, b := d / k, m / k;
    assert a * k == d && b * k == m;
    assert (a * m - d * b) * k == (a * k) * m - d * (b * k);
    ScaleSign(a * m - d * b, k);
  }

  /** With `f` texels to a pixel, pixel `x` is read in the middle of its texels. */
  lemma TexelAtMiddle(x: int, size: nat, f: nat)
    requires size > 0
    ensures TexelAt(x as real, size, f * size) == f as real * x as real + (f as real - 1.0) / 2.0
  {
    var k, q := size as real, (x as real + 0.5) / size as real;
    assert q * k == x as real + 0.5;
    ProductAsReal(f, size);
    assert q * (f as real * k) == f as real * (q * k);
  }

  /** A texture that does not change along the line is drawn as it is at the line. */
  lemma ConstantLine(s: Line, c: real, r: real, n: nat)
    requires c > 0.0 && r > 0.0 && forall o :: s(o) == s(0.0)
    ensures ConvolveLine(s, c, r, n) == s(0.0)
  {
    hide Convolve, FetchPoint;
    var f := Fetched(s, c, r);
    forall k ensures s(0.0) <= Along(f, Horizontal, 0, 0, k) <= s(0.0) {
    }
    ConvolveWithinRange(f, Horizontal, 0, 0, c, r, n, s(0.0), s(0.0));
  }

  /** The first row of an image, or its first column. */
  function Profile(image: Image, d: Direction, i: int): real {
    if d.Vertical? then Texel(image.rows, Clamp(i, image.width), 0) else Texel(image.rows, 0, Clamp(i, image.height))
  }

  /** Every row, or every column, is the same: the image does not change in the direction of the blur. */
  ghost predicate ConstantAlong(image: Image, d: Direction) {
    && image.Valid()
    && forall x, y :: 0 <= x < image.width && 0 <= y < image.height ==>
         image.rows[y][x] == Profile(image, d, if d.Vertical? then x else y)
  }

  lemma LerpSame(a: real, f: real)
    ensures Lerp(a, a, f) == a
  {
  }

  lemma SampleProfile(image: Image, d: Direction, x: real, y: real)
    requires ConstantAlong(image, d)
    ensures var p := if d.Vertical? then x else y;
            Sample(Sampler(image), x, y) ==
            Lerp(Profile(image, d, p.Floor), Profile(image, d, p.Floor + 1), Fraction(p))
  {
    hide Lerp, Fraction;
    var t, i, j := Sampler(image), x.Floor, y.Floor;
    forall a, b ensures t(a, b) == Profile(image, d, if d.Vertical? then a else b) {
      var u, v := Clamp(a, image.width), Clamp(b, image.height);
      assert t(a, b) == Texel(image.rows, u, v) == image.rows[v][u];
      assert image.rows[v][u] == Profile(image, d, if d.Vertical? then u else v);
    }
    if d.Vertical? {
      LerpSame(Lerp(t(i, j), t(i + 1, j), Fraction(x)), Fraction(y));
    } else {
      LerpSame(t(i, j), Fraction(x));
      LerpSame(t(i, j + 1), Fraction(x));
    }
  }

  /** Drawn at any size, such an image is read across the blur where the framebuffer shows it. */
  lemma DrawnProfile(source: Image, d: Direction, width: nat, height: nat, c: real, r: real, n: nat, x: int, y: int)
    requires ConstantAlong(source, d) && width > 0 && height > 0 && c > 0.0 && r > 0.0
    ensures var p := if d.Vertical? then TexelAt(x as real, width, source.width)
                     else TexelAt(y as real, height, source.height);
            Drawn(source, d, width, height, c, r, n)(x, y) ==
            Lerp(Profile(source, d, p.Floor), Profile(source, d, p.Floor + 1), Fraction(p))
  {
    hide Lerp, Fraction, Sample, Sampler, TexelAt, ConvolveLine, ConstantAlong, Profile;
    var s := LineOf(source, d, width, height, x, y);
    forall o ensures s(o) == s(0.0) {
      var across := if d.Horizontal? then x as real + o else x as real;
      var down := if d.Horizontal? then y as real else y as real + o;
      SampleProfile(source, d, TexelAt(across, width, source.width), TexelAt(down, height, source.height));
      SampleProfile(source, d, TexelAt(x as real, width, source.width), TexelAt(y as real, height, source.height));
      assert x as real + 0.0 == x as real && y as real + 0.0 == y as real;
    }
    SampleProfile(source, d, TexelAt(x as real, width, source.width), TexelAt(y as real, height, source.height));
    assert x as real + 0.0 == x as real && y as real + 0.0 == y as real;
    ConstantLine(s, c, r, n);
  }

  /** With an even number `f` of texels to a pixel each way, a pixel of such a draw is the mean of the two texels
      in the middle of its own. */
  lemma ReducedDraw(source: Image, d: Direction, width: nat, height: nat, f: nat, c: real, r: real, n: nat,
                    x: int, y: int)
    requires ConstantAlong(source, d) && c > 0.0 && r > 0.0 && f > 0 && f % 2 == 0
    requires source.width == f * width && source.height == f * height
    requires 0 <= x < width && 0 <= y < height
    ensures var middle := f * (if d.Vertical? then x else y) + f / 2;
            Drawn(source, d, width, height, c, r, n)(x, y) ==
            (Profile(source, d, middle - 1) + Profile(source, d, middle)) / 2.0
  {
    hide Drawn, Profile, TexelAt, ConstantAlong, Fraction;
    DrawnProfile(source, d, width, height, c, r, n, x, y);
    TexelAtMiddle(x, width, f);
    TexelAtMiddle(y, height, f);
    MiddleOf(f, x);
    MiddleOf(f, y);
  }

  lemma MiddleOf(f: nat, x: int)
    requires f % 2 == 0
    ensures var p := f as real * x as real + (f as real - 1.0) / 2.0;
            p.Floor == f * x + f / 2 - 1 && Fraction(p) == 0.5
  {
    ProductAsReal(f, x);
    var i := f * x + f / 2 - 1;
    assert f as real == 2.0 * (f / 2) as real;
    assert f as real * x as real + (f as real - 1.0) / 2.0 == i as real + 0.5;
    FloorOf(i, 0.5);
  }

  // --- downscaling -----------------------------------------------------------------------------------

  const MIN_DOWNSCALE_SIZE := 256.0
  const MAX_SIGMA := 6.0

  /** Where the loop stops: the blur is narrow enough or the texture small enough. */
  predicate Stops(width: real, height: real, sigma: real, f: real)
    requires f > 0.0
  {
    !(sigma / f > MAX_SIGMA && width / f > MIN_DOWNSCALE_SIZE && height / f > MIN_DOWNSCALE_SIZE)
  }

  function PowerOfTwo(k: nat): (f: real)
    ensures f >= 1.0
  {
    if k == 0 then 1.0 else 2.0 * PowerOfTwo(k - 1)
  }

  /** `k` is the least exponent at which the loop stops. */
  ghost predicate LeastExponent(width: real, height: real, sigma: real, k: nat) {
    && Stops(width, height, sigma, PowerOfTwo(k))
    && forall j: nat :: j < k ==> !Stops(width, height, sigma, PowerOfTwo(j))
  }

  lemma HalfDown(x: real, f: real)
    requires f > 0.0
    ensures x / (2.0 * f) == (x / f) / 2.0
  {
  }

  method CalculateDownscaleFactor(width: real, height: real, sigma: real) returns (factor: real)
    ensures exists k: nat :: factor == PowerOfTwo(k) && LeastExponent(width, height, sigma, k)
  {
    factor := 1.0;
    var scaledWidth, scaledHeight, scaledSigma := width, height, sigma;
    ghost var k: nat := 0;
    while scaledSigma > MAX_SIGMA && scaledWidth > MIN_DOWNSCALE_SIZE && scaledHeight > MIN_DOWNSCALE_SIZE
      invariant factor == PowerOfTwo(k)
      invariant scaledWidth == width / factor && scaledHeight == height / factor && scaledSigma == sigma / factor
      invariant forall j: nat :: j < k ==> !Stops(width, height, sigma, PowerOfTwo(j))
      decreases scaledSigma.Floor
    {
      HalfDown(sigma, factor);
      assert !Stops(width, height, sigma, PowerOfTwo(k));
      factor := factor * 2.0;
      scaledWidth, scaledHeight, scaledSigma := width / factor, height / factor, sigma / factor;
      k := k + 1;
    }
    assert LeastExponent(width, height, sigma, k);
  }

  /** The least exponent is unique; a blur is downscaled at all only if the full size does not stop
      the loop, and then both framebuffer sides keep 128 pixels and the sigma in force exceeds 3. */
  lemma DownscaleKeepsDetail(width: real, height: real, sigma: real, k: nat)
    requires LeastExponent(width, height, sigma, k)
    ensures k > 0 <==> sigma > 6.0 && width > 256.0 && height > 256.0
    ensures k > 0 ==>
              && (width / PowerOfTwo(k)).Floor >= 128 && (height / PowerOfTwo(k)).Floor >= 128
              && sigma / PowerOfTwo(k) > 3.0
    ensures forall j: nat :: LeastExponent(width, height, sigma, j) ==> j == k
  {
    assert PowerOfTwo(0) == 1.0;
    assert Stops(width, height, sigma, PowerOfTwo(0)) <==>
           !(sigma > MAX_SIGMA && width > MIN_DOWNSCALE_SIZE && height > MIN_DOWNSCALE_SIZE);
    if k > 0 {
      assert !Stops(width, height, sigma, PowerOfTwo(k - 1));
      HalfDown(width, PowerOfTwo(k - 1));
      HalfDown(height, PowerOfTwo(k - 1));
      HalfDown(sigma, PowerOfTwo(k - 1));
    }
  }

  // --- the whole blur ----------------------------------------------------------------------------------

  const FLT_EPSILON := 0.00000011920928955078125

  /** The distance of 1 from the next `float`. */
  lemma EpsilonMeans()
    ensures FLT_EPSILON * PowerOfTwo(23) == 1.0
  {
    PowerOfTwoSum(10, 10);
    PowerOfTwoSum(20, 3);
    assert PowerOfTwo(3) == 2.0 * PowerOfTwo(2) == 4.0 * PowerOfTwo(1) == 8.0 * PowerOfTwo(0);
    PowerOfTwoSum(3, 3);
    PowerOfTwoSum(6, 3);
    assert PowerOfTwo(10) == 2.0 * PowerOfTwo(9) == 1024.0;
  }

  lemma {:induction false} PowerOfTwoSum(a: nat, b: nat)
    ensures PowerOfTwo(a + b) == PowerOfTwo(a) * PowerOfTwo(b)
  {
    if a > 0 { PowerOfTwoSum(a - 1, b); }
  }

  /** Every factor other than 1 is even, and divides the sides it is a divisor of. */
  lemma {:induction false} EvenFactor(k: nat) returns (f: nat)
    ensures f > 0 && PowerOfTwo(k) == f as real && (k == 0 ==> f == 1) && (k > 0 ==> f % 2 == 0)
    ensures forall side: nat :: ScaledSide(f * side, k) == side
  {
    if k == 0 {
      f := 1;
    } else {
      var h := EvenFactor(k - 1);
      f := 2 * h;
    }
    forall side: nat ensures ScaledSide(f * side, k) == side {
      ProductAsReal(f, side);
      QuotUnique((f * side) as real, f as real, side as real);
    }
  }

  /** A side of the framebuffers. */
  function ScaledSide(side: nat, k: nat): int { (side as real / PowerOfTwo(k)).Floor }

  /** The steps of a pass; in pixels of the source they reach three sigma, and not more than two steps further. */
  function ScaledSteps(sigma: real, k: nat): (n: nat)
    requires sigma > 0.0
    ensures n % 2 == 0
    ensures 3.0 * sigma <= Mul(n as real, PowerOfTwo(k)) < 3.0 * sigma + 2.0 * PowerOfTwo(k)
  {
    ScaledSigma(sigma, k);
    ScaledReach(sigma, k);
    Steps(sigma / PowerOfTwo(k))
  }

  lemma ScaledReach(sigma: real, k: nat)
    requires sigma > 0.0 && sigma / PowerOfTwo(k) > 0.0
    ensures var n, f := Steps(sigma / PowerOfTwo(k)) as real, PowerOfTwo(k);
            3.0 * sigma <= Mul(n, f) < 3.0 * sigma + 2.0 * f
  {
    hide Steps, PowerOfTwo, Mul;
    ReachOf(Steps(sigma / PowerOfTwo(k)) as real, sigma, PowerOfTwo(k));
  }

  lemma ReachOf(n: real, sigma: real, f: real)
    requires f >= 1.0 && 3.0 * (sigma / f) <= n < 3.0 * (sigma / f) + 2.0
    ensures 3.0 * sigma <= Mul(n, f) < 3.0 * sigma + 2.0 * f
  {
    hide Mul;
    var s := sigma / f;
    MulParts(s, f);
    MulOrder(3.0 * s, n, f);
    MulOrder(n, 3.0 * s + 2.0, f);
    assert Mul(s, f) == sigma by { QuotTimes(sigma, f); }
  }

  lemma QuotTimes(a: real, b: real)
    requires b > 0.0
    ensures Mul(a / b, b) == a
  {
  }

  lemma MulParts(s: real, f: real)
    ensures Mul(3.0 * s, f) == 3.0 * Mul(s, f) && Mul(3.0 * s + 2.0, f) == 3.0 * Mul(s, f) + 2.0 * f
  {
  }

  lemma MulOrder(a: real, b: real, f: real)
    requires f > 0.0
    ensures a <= b ==> Mul(a, f) <= Mul(b, f)
    ensures a < b ==> Mul(a, f) < Mul(b, f)
  {
    var d := b - a;
    assert d * f == b * f - a * f;
    ScaleSign(d, f);
    if d > 0.0 { assert d * f > 0.0; }
  }

  lemma ScaledSigma(sigma: real, k: nat)
    requires sigma > 0.0
    ensures sigma / PowerOfTwo(k) > 0.0
  {
    var f := PowerOfTwo(k);
    assert sigma / f * f == sigma;
    ScaleSign(sigma / f, f);
  }

  lemma ScaledSides(width: nat, height: nat, sigma: real, k: nat)
    requires width > 0 && height > 0 && LeastExponent(width as real, height as real, sigma, k)
    ensures ScaledSide(width, k) > 0 && ScaledSide(height, k) > 0
    ensures k == 0 ==> ScaledSide(width, k) == width && ScaledSide(height, k) == height
    ensures k > 0 ==> ScaledSide(width, k) >= 128 && ScaledSide(height, k) >= 128
  {
    DownscaleKeepsDetail(width as real, height as real, sigma, k);
    assert PowerOfTwo(0) == 1.0;
  }

  /** The result for downscale factor `2^k`: the vertical pass is drawn from the source into the smaller size,
      the horizontal pass is the exact convolution of what was drawn. */
  ghost predicate Blurred(source: Image, result: Image, sigma: real, c: real, r: real, k: nat)
    requires sigma > 0.0 && c > 0.0 && r > 0.0
  {
    var width, height, n := ScaledSide(source.width, k), ScaledSide(source.height, k), ScaledSteps(sigma, k);
    && width > 0 && height > 0
    && var first := Drawn(source, Vertical, width, height, c, r, n);
       Shows(result, Pass(first, Horizontal, width, height, c, r, n), width, height)
  }

  ghost predicate BlurredByFactor(source: Image, result: Image, sigma: real, c: real, r: real)
    requires sigma > 0.0 && c > 0.0 && r > 0.0
  {
    exists k: nat ::
      Blurred(source, result, sigma, c, r, k) && LeastExponent(source.width as real, source.height as real, sigma, k)
  }

  /** The whole blur, downscaled or not; a vanishing radius leaves the source.  `c` and `r` belong to the
      sigma in force after downscaling. */
  method BlurTexture(source: Image, radius: real, c: real, r: real) returns (result: Image)
    requires source.Valid() && radius >= 0.0 && c > 0.0 && r > 0.0
    ensures radius / 2.0 < FLT_EPSILON ==> result == source
    ensures radius / 2.0 >= FLT_EPSILON ==>
              BlurredByFactor(source, result, radius / 2.0, c, r)
  {
    hide Drawn, Pass, PowerOfTwo, Steps;
    var sigma := radius / 2.0;
    var factor := CalculateDownscaleFactor(source.width as real, source.height as real, sigma);
    if sigma < FLT_EPSILON { return source; }
    ghost var k: nat :| factor == PowerOfTwo(k) && LeastExponent(source.width as real, source.height as real, sigma, k);
    ScaledSides(source.width, source.height, sigma, k);
    ScaledSigma(sigma, k);
    var width, height := (source.width as real / factor).Floor, (source.height as real / factor).Floor;
    var vpass := ApplyBlurPass(source, Vertical, width, height, sigma / factor, c, r);
    result := ApplyBlurPass(vpass, Horizontal, width, height, sigma / factor, c, r);
    SecondDraw(source, vpass, result, c, r, Steps(sigma / factor));
    assert Blurred(source, result, sigma, c, r, k);
  }

  lemma SecondDraw(source: Image, vpass: Image, result: Image, c: real, r: real, n: nat)
    requires vpass.Valid() && c > 0.0 && r > 0.0 && n % 2 == 0
    requires Shows(vpass, Drawn(source, Vertical, vpass.width, vpass.height, c, r, n), vpass.width, vpass.height)
    requires Shows(result, Drawn(vpass, Horizontal, vpass.width, vpass.height, c, r, n), vpass.width, vpass.height)
    ensures var first := Drawn(source, Vertical, vpass.width, vpass.height, c, r, n);
            Shows(result, Pass(first, Horizontal, vpass.width, vpass.height, c, r, n), vpass.width, vpass.height)
  {
    hide Drawn, Convolve;
    var width, height := vpass.width, vpass.height;
    var first := Drawn(source, Vertical, width, height, c, r, n);
    forall x, y | 0 <= x < width && 0 <= y < height
      ensures result.rows[y][x] == Pass(first, Horizontal, width, height, c, r, n)(x, y)
    {
      SameSizeDraw(vpass, Horizontal, x, y, c, r, n);
      SamplerOfDraw(vpass, first);
      ConvolveCongruent(Sampler(vpass), EdgeClamped(first, width, height), Horizontal, x, y, c, r, n);
    }
  }

  /** Clamped reads of a framebuffer see what was drawn into it. */
  lemma SamplerOfDraw(image: Image, t: Texture)
    requires Shows(image, t, image.width, image.height)
    ensures forall i, j :: Sampler(image)(i, j) == EdgeClamped(t, image.width, image.height)(i, j)
  {
    forall i, j ensures Sampler(image)(i, j) == EdgeClamped(t, image.width, image.height)(i, j) {
      var x, y := Clamp(i, image.width), Clamp(j, image.height);
      assert Texel(image.rows, x, y) == image.rows[y][x];
    }
  }

  /** Without downscaling the result is the two-dimensional convolution of the source. */
  lemma BlurredFullSize(source: Image, result: Image, sigma: real, c: real, r: real, x: int, y: int)
    requires source.Valid() && sigma > 0.0 && c > 0.0 && r > 0.0
    requires Blurred(source, result, sigma, c, r, 0) && 0 <= x < source.width && 0 <= y < source.height
    ensures result.width == source.width && result.height == source.height
    ensures result.rows[y][x] == Convolve2D(Sampler(source), x, y, c, r, Steps(sigma))
  {
    hide Convolve2D, Drawn, Steps, Pass, Sampler, ScaledSide, ScaledSteps;
    FullSizeSides(source.width, source.height, sigma);
    FullSizePass(source, c, r, Steps(sigma), x, y);
  }

  lemma FullSizeSides(width: nat, height: nat, sigma: real)
    requires sigma > 0.0
    ensures ScaledSide(width, 0) == width && ScaledSide(height, 0) == height && ScaledSteps(sigma, 0) == Steps(sigma)
  {
    assert PowerOfTwo(0) == 1.0;
  }

  lemma FullSizePass(source: Image, c: real, r: real, n: nat, x: int, y: int)
    requires source.Valid() && c > 0.0 && r > 0.0 && n % 2 == 0
    requires 0 <= x < source.width && 0 <= y < source.height
    ensures var first := Drawn(source, Vertical, source.width, source.height, c, r, n);
            Pass(first, Horizontal, source.width, source.height, c, r, n)(x, y) ==
            Convolve2D(Sampler(source), x, y, c, r, n)
  {
    hide Convolve, Convolve2D, Drawn, Clamp;
    var width, height := source.width, source.height;
    var first := Drawn(source, Vertical, width, height, c, r, n);
    var v := Pass(AsTexture(source), Vertical, width, height, c, r, n);
    forall i, j ensures EdgeClamped(first, width, height)(i, j) == EdgeClamped(v, width, height)(i, j) {
      SameSizeDraw(source, Vertical, Clamp(i, width), Clamp(j, height), c, r, n);
    }
    ConvolveCongruent(EdgeClamped(first, width, height), EdgeClamped(v, width, height), Horizontal, x, y, c, r, n);
    PassesAreConvolution(AsTexture(source), x, y, width, height, c, r, n);
  }

  /** The columns of an image at `1/f` of its width: of the `f` texels to a pixel, the mean of the two in the middle. */
  function Reduced(source: Image, f: nat): Texture {
    (x, _) => (Profile(source, Vertical, f * x + f / 2 - 1) + Profile(source, Vertical, f * x + f / 2)) / 2.0
  }

  /** Downscaled by a factor that divides its sides, an image whose rows are all the same is blurred as its reduced
      columns are: the vertical pass only reduces it, and the horizontal pass blurs the result. */
  lemma BlurredReduced(source: Image, result: Image, sigma: real, c: real, r: real, k: nat, f: nat, x: int, y: int)
    requires ConstantAlong(source, Vertical) && sigma > 0.0 && c > 0.0 && r > 0.0 && f > 0 && f % 2 == 0
    requires Blurred(source, result, sigma, c, r, k)
    requires source.width == f * result.width && source.height == f * result.height
    requires 0 <= x < result.width && 0 <= y < result.height
    ensures result.rows[y][x] ==
            Convolve(EdgeClamped(Reduced(source, f), result.width, result.height), Horizontal, x, y, c, r,
                     ScaledSteps(sigma, k))
  {
    hide Convolve, Drawn, ScaledSide, ScaledSteps, Profile, ConstantAlong;
    var width, height, n := result.width, result.height, ScaledSteps(sigma, k);
    var first := Drawn(source, Vertical, width, height, c, r, n);
    forall i, j
      ensures EdgeClamped(first, width, height)(i, j) == EdgeClamped(Reduced(source, f), width, height)(i, j)
    {
      ReducedDraw(source, Vertical, width, height, f, c, r, n, Clamp(i, width), Clamp(j, height));
    }
    ConvolveCongruent(EdgeClamped(first, width, height), EdgeClamped(Reduced(source, f), width, height),
                      Horizontal, x, y, c, r, n);
  }

  lemma LerpWithinRange(a: real, b: real, f: real, lo: real, hi: real)
    requires 0.0 <= f <= 1.0 && lo <= a <= hi && lo <= b <= hi
    ensures lo <= Lerp(a, b, f) <= hi
  {
    ProductNonNegative(a - lo, 1.0 - f);
    ProductNonNegative(b - lo, f);
    ProductNonNegative(hi - a, 1.0 - f);
    ProductNonNegative(hi - b, f);
  }

  lemma SampleWithinRange(t: Texture, x: real, y: real, lo: real, hi: real)
    requires forall i, j :: lo <= t(i, j) <= hi
    ensures lo <= Sample(t, x, y) <= hi
  {
    hide Lerp;
    var i, j := x.Floor, y.Floor;
    LerpWithinRange(t(i, j), t(i + 1, j), Fraction(x), lo, hi);
    LerpWithinRange(t(i, j + 1), t(i + 1, j + 1), Fraction(x), lo, hi);
    LerpWithinRange(Lerp(t(i, j), t(i + 1, j), Fraction(x)), Lerp(t(i, j + 1), t(i + 1, j + 1), Fraction(x)),
                    Fraction(y), lo, hi);
  }

  /** A pass, whatever the size of its framebuffer, stays within the range of the source. */
  lemma DrawnWithinRange(source: Image, d: Direction, width: nat, height: nat, c: real, r: real, n: nat,
                         x: int, y: int, lo: real, hi: real)
    requires source.Valid() && width > 0 && height > 0 && c > 0.0 && r > 0.0
    requires forall i, j :: 0 <= i < source.width && 0 <= j < source.height ==> lo <= source.rows[j][i] <= hi
    ensures lo <= Drawn(source, d, width, height, c, r, n)(x, y) <= hi
  {
    hide Convolve, Sample, TexelAt, FetchPoint;
    var t := Sampler(source);
    forall i, j ensures lo <= t(i, j) <= hi {
      assert t(i, j) == source.rows[Clamp(j, source.height)][Clamp(i, source.width)];
    }
    var s := LineOf(source, d, width, height, x, y);
    forall k ensures lo <= Along(Fetched(s, c, r), Horizontal, 0, 0, k) <= hi {
      var o := FetchPoint(c, r, k);
      var across := if d.Horizontal? then x as real + o else x as real;
      var down := if d.Horizontal? then y as real else y as real + o;
      SampleWithinRange(t, TexelAt(across, width, source.width), TexelAt(down, height, source.height), lo, hi);
    }
    ConvolveWithinRange(Fetched(s, c, r), Horizontal, 0, 0, c, r, n, lo, hi);
  }

  /** Downscaled or not, the whole blur stays within the range of the source. */
  lemma BlurWithinRange(source: Image, result: Image, sigma: real, c: real, r: real, k: nat,
                        x: int, y: int, lo: real, hi: real)
    requires source.Valid() && sigma > 0.0 && c > 0.0 && r > 0.0 && Blurred(source, result, sigma, c, r, k)
    requires forall i, j :: 0 <= i < source.width && 0 <= j < source.height ==> lo <= source.rows[j][i] <= hi
    requires 0 <= x < result.width && 0 <= y < result.height
    ensures lo <= result.rows[y][x] <= hi
  {
    hide Convolve, Drawn, ScaledSide, ScaledSteps;
    var width, height, n := ScaledSide(source.width, k), ScaledSide(source.height, k), ScaledSteps(sigma, k);
    var first := Drawn(source, Vertical, width, height, c, r, n);
    var clamped := EdgeClamped(first, width, height);
    forall i ensures lo <= Along(clamped, Horizontal, x, y, i) <= hi {
      DrawnWithinRange(source, Vertical, width, height, c, r, n, Clamp(x + i, width), Clamp(y, height), lo, hi);
    }
    ConvolveWithinRange(clamped, Horizontal, x, y, c, r, n, lo, hi);
  }
}
