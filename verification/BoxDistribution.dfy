/** The space distribution loop of the box layout (clutter-box-layout.c). */
module BoxDistribution {
  import opened RealArithmetic

  datatype RequestedSize = RequestedSize(minimum: real, natural: real)

  function Gap(r: RequestedSize): real { r.natural - r.minimum }

  // ---------------------------------------------------------------------------------------------
  // The loop on a row of gaps.  `g` is in the order of the sorted `spreading` array: the last
  // element is served first.
  // ---------------------------------------------------------------------------------------------

  /** What one of `m` remaining children would get if it were never satisfied. */
  function Glue(e: real, m: nat): real
    requires m > 0
  {
    (e + (m - 1) as real) / m as real
  }

  /** The amount handed out by one iteration; nothing once the space has run out. */
  function Take(e: real, m: nat, gap: real): real
    requires m > 0
  {
    if e <= 0.0 then 0.0 else Min(Glue(e, m), gap)
  }

  function Grants(e: real, g: seq<real>): (x: seq<real>)
    ensures |x| == |g|
    decreases |g|
  {
    if g == [] then [] else
      var last := |g| - 1;
      var x := Take(e, |g|, g[last]);
      Grants(e - x, g[..last]) + [x]
  }

  function Remainder(e: real, g: seq<real>): real
    decreases |g|
  {
    if g == [] then e else Remainder(e - Take(e, |g|, g[|g| - 1]), g[..|g| - 1])
  }

  ghost predicate NonNegative(g: seq<real>) {
    forall i :: 0 <= i < |g| ==> g[i] >= 0.0
  }

  /** All that the sort guarantees: it compares the gaps after truncation to `int`. */
  ghost predicate TruncatedSorted(g: seq<real>) {
    forall i, j :: 0 <= i < j < |g| ==> g[j].Floor <= g[i].Floor
  }

  /** Gaps in exact order, as integral gaps are after the sort; fractional gaps need not be. */
  ghost predicate SortedRow(g: seq<real>) {
    forall i, j :: 0 <= i < j < |g| ==> g[j] <= g[i]
  }

  lemma PrefixOfRow(g: seq<real>, m: nat)
    requires m <= |g|
    ensures NonNegative(g) ==> NonNegative(g[..m])
    ensures TruncatedSorted(g) ==> TruncatedSorted(g[..m])
    ensures SortedRow(g) ==> SortedRow(g[..m])
  {
  }

  function Harmonic(n: nat): real {
    if n == 0 then 0.0 else Harmonic(n - 1) + 1.0 / n as real
  }

  // --- one step --------------------------------------------------------------------------------

  lemma GlueProduct(e: real, m: nat)
    requires m > 0
    ensures Glue(e, m) * m as real == e + (m - 1) as real
  {
  }

  /** How the glue moves when `x` is handed out. */
  lemma GlueStep(e: real, m: nat, x: real)
    requires m > 1
    ensures (Glue(e - x, m - 1) - Glue(e, m)) * (m - 1) as real == Glue(e, m) - x - 1.0
  {
    hide Glue;
    var k := (m - 1) as real;
    var a, b := Glue(e, m), Glue(e - x, m - 1);
    GlueProduct(e, m);
    GlueProduct(e - x, m - 1);
    assert m as real == k + 1.0;
    assert a * (k + 1.0) == a * k + a;
    assert (b - a) * k == b * k - a * k;
  }

  lemma GlueFalls(e: real, m: nat, x: real)
    requires m > 1
    requires Glue(e, m) - x <= 1.0
    ensures Glue(e - x, m - 1) <= Glue(e, m)
  {
    hide Glue;
    GlueStep(e, m, x);
    ScaleSign(Glue(e - x, m - 1) - Glue(e, m), (m - 1) as real);
  }

  lemma GlueFallsSlowly(e: real, m: nat, x: real)
    requires m > 1
    requires x <= Glue(e, m)
    ensures Glue(e - x, m - 1) >= Glue(e, m) - 1.0 / (m - 1) as real
  {
    hide Glue;
    GlueStep(e, m, x);
    var k := (m - 1) as real;
    var d := Glue(e - x, m - 1) - Glue(e, m);
    assert (d + 1.0 / k) * k == d * k + 1.0;
    ScaleSign(d + 1.0 / k, k);
  }

  lemma GluePositive(e: real, m: nat)
    requires m > 0 && e > 0.0
    ensures Glue(e, m) > 0.0
  {
    hide Glue;
    GlueProduct(e, m);
    ScaleSign(Glue(e, m), m as real);
  }

  /** What a child cut short leaves is below the floor of its gap for each of the others. */
  lemma ShortStep(e: real, m: nat, r: real)
    requires m > 1
    requires Glue(e, m) < r + 1.0
    ensures e - Glue(e, m) < (m - 1) as real * r
  {
    hide Glue;
    var k, a := (m - 1) as real, Glue(e, m);
    GlueProduct(e, m);
    assert e - a == (a - 1.0) * k;
    var d := r - (a - 1.0);
    assert k * r == (a - 1.0) * k + d * k;
    assert d * k > 0.0;
  }

  /** Overshoot is always less than a pixel. */
  lemma GlueOvershoot(e: real, m: nat)
    requires m > 0 && e > 0.0
    ensures e - Glue(e, m) > -1.0
  {
    hide Glue;
    GlueProduct(e, m);
    var k := m as real;
    var d := e - Glue(e, m) + 1.0;
    ProductNonNegative(e, k - 1.0);
    assert d * k == e * (k - 1.0) + 1.0;
    ScaleSign(d, k);
  }

  // --- invariants of the whole loop ------------------------------------------------------------

  lemma {:induction false} StoppedLoop(e: real, g: seq<real>)
    requires e <= 0.0
    ensures Remainder(e, g) == e
    ensures forall i :: 0 <= i < |g| ==> Grants(e, g)[i] == 0.0
  {
    if g != [] {
      StoppedLoop(e, g[..|g| - 1]);
    }
  }

  lemma {:induction false} GrantsConserve(e: real, g: seq<real>)
    ensures Sum(Grants(e, g)) + Remainder(e, g) == e
    decreases |g|
  {
    hide Glue;
    if g != [] {
      var last := |g| - 1;
      var x := Take(e, |g|, g[last]);
      GrantsConserve(e - x, g[..last]);
      assert Grants(e, g)[..last] == Grants(e - x, g[..last]);
    }
  }

  lemma {:induction false} GrantsBounded(e: real, g: seq<real>)
    requires NonNegative(g)
    ensures forall i :: 0 <= i < |g| ==> 0.0 <= Grants(e, g)[i] <= g[i]
    decreases |g|
  {
    hide Glue;
    if g != [] {
      var last := |g| - 1;
      if e > 0.0 { GluePositive(e, |g|); }
      GrantsBounded(e - Take(e, |g|, g[last]), g[..last]);
    }
  }

  lemma {:induction false} RemainderAboveMinusOne(e: real, g: seq<real>)
    requires e > -1.0
    ensures Remainder(e, g) > -1.0
    decreases |g|
  {
    hide Glue;
    if g != [] {
      if e > 0.0 { GlueOvershoot(e, |g|); }
      RemainderAboveMinusOne(e - Take(e, |g|, g[|g| - 1]), g[..|g| - 1]);
    }
  }

  lemma {:induction false} SumLowerBound(g: seq<real>, lo: real)
    requires forall i :: 0 <= i < |g| ==> g[i] >= lo
    ensures Sum(g) >= |g| as real * lo
  {
    if g != [] {
      var k := (|g| - 1) as real;
      SumLowerBound(g[..|g| - 1], lo);
      assert (k + 1.0) * lo == k * lo + lo;
    }
  }

  /** The `+ i` in the glue pays for gaps that the truncating sort places up to a pixel too early. */
  lemma GlueReaches(e: real, m: nat, gap: real)
    requires m > 0
    requires e >= gap + (m - 1) as real * (gap - 1.0)
    ensures Glue(e, m) >= gap
  {
    hide Glue;
    var k := (m - 1) as real;
    GlueProduct(e, m);
    assert (Glue(e, m) - gap) * (k + 1.0) == e - gap - k * (gap - 1.0);
    ScaleSign(Glue(e, m) - gap, k + 1.0);
  }

  /** With at least the sum of the gaps, the glue never cuts a gap short. */
  lemma {:induction false} EnoughForAll(e: real, g: seq<real>)
    requires NonNegative(g) && TruncatedSorted(g)
    requires e >= Sum(g)
    ensures Grants(e, g) == g
    decreases |g|
  {
    hide Glue;
    if g != [] {
      var last := |g| - 1;
      EnoughForNext(e, g);
      EnoughForAll(e - g[last], g[..last]);
    }
  }

  lemma RestAboveFloor(g: seq<real>)
    requires TruncatedSorted(g) && g != []
    ensures var last := |g| - 1;
            forall i :: 0 <= i < last ==> g[..last][i] >= g[last].Floor as real
  {
    var last := |g| - 1;
    forall i | 0 <= i < last ensures g[..last][i] >= g[last].Floor as real {
      assert g[i].Floor >= g[last].Floor;
    }
  }

  lemma TruncatedSortedSum(g: seq<real>)
    requires NonNegative(g) && TruncatedSorted(g) && g != []
    ensures Sum(g) >= g[|g| - 1] + (|g| - 1) as real * (g[|g| - 1] - 1.0)
    ensures Sum(g) >= g[|g| - 1]
  {
    hide TruncatedSorted;
    var last := |g| - 1;
    var gap, rest := g[last], g[..last];
    RestAboveFloor(g);
    SumLowerBound(rest, gap - 1.0);
    SumLowerBound(rest, 0.0);
    assert last as real * 0.0 == 0.0;
  }

  lemma EnoughForNext(e: real, g: seq<real>)
    requires NonNegative(g) && TruncatedSorted(g) && g != []
    requires e >= Sum(g)
    ensures Take(e, |g|, g[|g| - 1]) == g[|g| - 1]
  {
    hide Glue, Sum, TruncatedSorted;
    TruncatedSortedSum(g);
    if e > 0.0 {
      GlueReaches(e, |g|, g[|g| - 1]);
    }
  }

  /** Once the space is below the floor of every remaining gap, none of it is left over. */
  lemma {:induction false} BelowFloorLeavesNothing(e: real, g: seq<real>, f: int)
    requires g != [] && f >= 0
    requires forall i :: 0 <= i < |g| ==> g[i] >= f as real
    requires e < |g| as real * f as real
    ensures Remainder(e, g) <= 0.0
    decreases |g|
  {
    hide Glue;
    if e <= 0.0 {
      StoppedLoop(e, g);
    } else {
      var last := |g| - 1;
      var x := Take(e, |g|, g[last]);
      if last == 0 {
        GlueProduct(e, 1);
        assert Remainder(e, g) == e - x;
      } else {
        BelowFloorStep(e, |g|, g[last], f as real);
        BelowFloorLeavesNothing(e - x, g[..last], f);
      }
    }
  }

  lemma BelowFloorStep(e: real, m: nat, gap: real, r: real)
    requires m > 1 && e > 0.0 && gap >= r
    requires e < m as real * r
    ensures e - Take(e, m, gap) < (m - 1) as real * r
  {
    hide Glue;
    var k, a := (m - 1) as real, Glue(e, m);
    assert m as real * r == k * r + r;
    if Take(e, m, gap) == a {
      GlueProduct(e, m);
      assert (a - 1.0 - r) * (k + 1.0) == e - 1.0 - (k * r + r);
      ScaleSign(a - 1.0 - r, k + 1.0);
      ShortStep(e, m, r);
    }
  }

  /** Space is left over only when every child reached its natural size. */
  lemma {:induction false} LeftoverMeansSatisfied(e: real, g: seq<real>)
    requires NonNegative(g) && TruncatedSorted(g)
    requires Remainder(e, g) > 0.0
    ensures Grants(e, g) == g
    decreases |g|
  {
    hide Take, TruncatedSorted, NonNegative;
    if g != [] {
      var last := |g| - 1;
      LeftoverServesFirst(e, g);
      PrefixOfRow(g, last);
      LeftoverMeansSatisfied(e - g[last], g[..last]);
    }
  }

  lemma LeftoverServesFirst(e: real, g: seq<real>)
    requires NonNegative(g) && TruncatedSorted(g) && g != []
    requires Remainder(e, g) > 0.0
    ensures Take(e, |g|, g[|g| - 1]) == g[|g| - 1]
  {
    hide Glue, Remainder, TruncatedSorted, NonNegative;
    if e <= 0.0 {
      StoppedLoop(e, g);
    } else if Take(e, |g|, g[|g| - 1]) != g[|g| - 1] {
      ShortLeavesNothing(e, g);
    }
  }

  lemma ShortLeavesNothing(e: real, g: seq<real>)
    requires NonNegative(g) && TruncatedSorted(g)
    requires g != [] && e > 0.0 && Glue(e, |g|) < g[|g| - 1]
    ensures Remainder(e, g) <= 0.0
  {
    hide Glue, TruncatedSorted;
    var last := |g| - 1;
    var gap, a := g[last], Glue(e, |g|);
    GlueProduct(e, |g|);
    assert Take(e, |g|, gap) == a;
    if last == 0 {
      assert Remainder(e, g) == Remainder(e - a, g[..last]);
    } else {
      var r := gap.Floor as real;
      ShortStep(e, |g|, r);
      RestAboveFloor(g);
      BelowFloorLeavesNothing(e - a, g[..last], gap.Floor);
    }
  }

  // --- fairness --------------------------------------------------------------------------------

  /** After a child is cut short at glue `b`, nobody served later gets more than `b`. */
  lemma {:induction false} LaterGrantsBelow(e: real, g: seq<real>, f: int, b: real)
    requires f >= 0
    requires forall i :: 0 <= i < |g| ==> g[i] >= f as real
    requires 0.0 <= b < f as real + 1.0
    requires g != [] && e > 0.0 ==> Glue(e, |g|) <= b
    ensures forall i :: 0 <= i < |g| ==> Grants(e, g)[i] <= b
    decreases |g|
  {
    hide Glue;
    if e <= 0.0 {
      StoppedLoop(e, g);
    } else if g != [] {
      var last := |g| - 1;
      var x := Take(e, |g|, g[last]);
      if last > 0 {
        GlueFalls(e, |g|, x);
      }
      LaterGrantsBelow(e - x, g[..last], f, b);
    }
  }

  lemma {:induction false} ShortChildGetsNoLessThanLater(e: real, g: seq<real>, i: nat, j: nat)
    requires NonNegative(g) && TruncatedSorted(g)
    requires j < i < |g|
    requires Grants(e, g)[i] < g[i]
    ensures Grants(e, g)[j] <= Grants(e, g)[i]
    decreases |g|
  {
    hide Glue;
    var last := |g| - 1;
    var x := Take(e, |g|, g[last]);
    if e <= 0.0 {
      StoppedLoop(e, g);
    } else if i < last {
      ShortChildGetsNoLessThanLater(e - x, g[..last], i, j);
    } else {
      var f := g[last].Floor;
      RestAboveFloor(g);
      GluePositive(e, |g|);
      GlueFalls(e, |g|, x);
      LaterGrantsBelow(e - x, g[..last], f, x);
    }
  }

  lemma {:induction false} HarmonicGrows(n: nat)
    requires n > 0
    ensures Harmonic(n) >= 1.0
  {
    if n > 1 { HarmonicGrows(n - 1); }
  }

  lemma {:induction false} HarmonicMonotone(a: nat, b: nat)
    requires a <= b
    ensures Harmonic(a) <= Harmonic(b)
    ensures a == 0 ==> Harmonic(a) == 0.0
  {
    if a < b { HarmonicMonotone(a, b - 1); }
  }

  lemma StoppedGlue(e: real, m: nat)
    requires m > 0 && e <= 0.0
    ensures Glue(e, m) <= 1.0 - 1.0 / m as real
  {
    hide Glue;
    var k := m as real;
    GlueProduct(e, m);
    assert (Glue(e, m) - 1.0 + 1.0 / k) * k == e;
    ScaleSign(Glue(e, m) - 1.0 + 1.0 / k, k);
  }

  /** The glue in force before a child cut short exceeds what that child gets by the slack at most. */
  lemma {:induction false} GlueNearShortGrant(e: real, g: seq<real>, i: nat)
    requires i < |g| && e > 0.0
    requires NonNegative(g)
    requires Grants(e, g)[i] < g[i]
    ensures Glue(e, |g|) <= Grants(e, g)[i] + Harmonic(|g| - 1)
    decreases |g|
  {
    hide Glue;
    var last := |g| - 1;
    var x := Take(e, |g|, g[last]);
    if i == last {
      HarmonicMonotone(0, last);
    } else {
      GlueFallsSlowly(e, |g|, x);
      if e - x > 0.0 {
        GlueNearShortGrant(e - x, g[..last], i);
      } else {
        StoppedLoop(e - x, g[..last]);
        StoppedGlue(e - x, last);
        HarmonicGrows(last);
      }
    }
  }

  lemma {:induction false} EarlierGrantsWithinSlack(e: real, g: seq<real>, i: nat, j: nat)
    requires NonNegative(g)
    requires i < j < |g|
    requires Grants(e, g)[i] < g[i]
    ensures Grants(e, g)[j] <= Grants(e, g)[i] + Harmonic(j)
    decreases |g|
  {
    hide Glue;
    var last := |g| - 1;
    var x := Take(e, |g|, g[last]);
    if e <= 0.0 {
      StoppedLoop(e, g);
      HarmonicMonotone(0, j);
    } else if j == last {
      GlueNearShortGrant(e, g, i);
    } else {
      EarlierGrantsWithinSlack(e - x, g[..last], i, j);
    }
  }

  /** The slack is attained: with gaps no glue reaches, first and last child differ by all of it. */
  lemma {:induction false} SlackAttained(e: real, g: seq<real>)
    requires g != []
    requires e > Harmonic(|g|) * |g| as real
    requires forall i :: 0 <= i < |g| ==> g[i] > Glue(e, |g|)
    ensures Grants(e, g)[|g| - 1] == Glue(e, |g|)
    ensures Grants(e, g)[0] == Glue(e, |g|) - Harmonic(|g| - 1)
    decreases |g|
  {
    hide Glue;
    var last := |g| - 1;
    HarmonicGrows(|g|);
    ProductNonNegative(Harmonic(|g|) - 1.0, |g| as real);
    assert Take(e, |g|, g[last]) == Glue(e, |g|);
    if last > 0 {
      UncutStep(e, |g|);
      SlackAttained(e - Glue(e, |g|), g[..last]);
    }
  }

  /** One iteration that hands out the whole glue lowers it by exactly `1/(m-1)`. */
  lemma UncutStep(e: real, m: nat)
    requires m > 1
    requires e > Harmonic(m) * m as real
    ensures Glue(e - Glue(e, m), m - 1) == Glue(e, m) - 1.0 / (m - 1) as real
    ensures e - Glue(e, m) > Harmonic(m - 1) * (m - 1) as real
  {
    hide Glue;
    var k := (m - 1) as real;
    var a, h := Glue(e, m), Harmonic(m - 1);
    var b := Glue(e - a, m - 1);
    GlueStep(e, m, a);
    assert (b - a + 1.0 / k) * k == 0.0;
    ScaleSign(b - a + 1.0 / k, k);
    GlueProduct(e, m);
    assert e - a == (a - 1.0) * k;
    assert Harmonic(m) * (k + 1.0) == h * (k + 1.0) + 1.0 / (k + 1.0) * (k + 1.0);
    assert (a - 1.0 - h) * (k + 1.0) == e - 1.0 - h * (k + 1.0);
    ScaleSign(a - 1.0 - h, k + 1.0);
    assert (a - 1.0 - h) * k > 0.0;
  }

  // --- two runs --------------------------------------------------------------------------------

  /** How far one child can move when `d` more pixels are handed to `n` children. */
  function Drift(d: real, n: nat): real
    requires n > 0
  {
    Max(d, Glue(d, n))
  }

  lemma DriftMonotone(d: real, m: nat, n: nat)
    requires d >= 0.0 && 0 < m <= n
    ensures Drift(d, m) <= Drift(d, n)
  {
    hide Glue;
    if d < 1.0 { GlueRises(d, m, n); } else { GlueWithin(d, m); }
  }

  lemma GlueRises(d: real, m: nat, n: nat)
    requires d < 1.0 && 0 < m <= n
    ensures Glue(d, m) <= Glue(d, n)
  {
    hide Glue;
    var a, b := Glue(d, m), Glue(d, n);
    var p, q := m as real, n as real;
    GlueProduct(d, m);
    GlueProduct(d, n);
    assert (a - 1.0) * p == d - 1.0 == (b - 1.0) * q;
    ScaleSign(b - 1.0, q);
    ProductNonNegative(1.0 - b, q - p);
    assert (a - b) * p == (b - 1.0) * (q - p);
    ScaleSign(a - b, p);
  }

  lemma GlueWithin(d: real, m: nat)
    requires d >= 1.0 && m > 0
    ensures Glue(d, m) <= d
  {
    hide Glue;
    var a, p := Glue(d, m), m as real;
    GlueProduct(d, m);
    ProductNonNegative(p - 1.0, d - 1.0);
    assert (a - d) * p == -((p - 1.0) * (d - 1.0));
    ScaleSign(a - d, p);
  }

  lemma GlueMonotone(e: real, d: real, m: nat)
    requires m > 0 && d >= 0.0
    ensures 0.0 <= Glue(e + d, m) - Glue(e, m) <= d
  {
    hide Glue;
    GlueProduct(e, m);
    GlueProduct(e + d, m);
    var a := Glue(e + d, m) - Glue(e, m);
    var k := m as real;
    assert a * k == d;
    ScaleSign(a, k);
    ProductNonNegative(a, k - 1.0);
    assert a * k == a * (k - 1.0) + a;
  }

  lemma {:induction false} SmallSpaceSmallGrants(e: real, d: real, g: seq<real>, i: nat)
    requires NonNegative(g)
    requires i < |g| && e <= d && d >= 0.0
    ensures Grants(e, g)[i] <= Drift(d, |g|)
    decreases |g|
  {
    hide Glue;
    var last := |g| - 1;
    var x := Take(e, |g|, g[last]);
    if e <= 0.0 {
      StoppedLoop(e, g);
    } else if i == last {
      GlueMonotone(e, d - e, |g|);
    } else {
      GluePositive(e, |g|);
      SmallSpaceSmallGrants(e - x, d, g[..last], i);
      DriftMonotone(d, last, |g|);
    }
  }

  /** Goal b): more space never shrinks a child and never moves it by more than the drift. */
  lemma {:induction false} TwoRuns(e: real, d: real, g: seq<real>, i: nat)
    requires NonNegative(g)
    requires i < |g| && d >= 0.0
    ensures 0.0 <= Grants(e + d, g)[i] - Grants(e, g)[i] <= Drift(d, |g|)
    decreases |g|
  {
    hide Glue;
    var last := |g| - 1;
    var gap := g[last];
    if e <= 0.0 {
      StoppedLoop(e, g);
      GrantsBounded(e + d, g);
      SmallSpaceSmallGrants(e + d, d, g, i);
    } else {
      var x, y := Take(e, |g|, gap), Take(e + d, |g|, gap);
      TakeMonotone(e, d, |g|, gap);
      if i < last {
        var d' := d - (y - x);
        assert (e - x) + d' == (e + d) - y;
        TwoRuns(e - x, d', g[..last], i);
        DriftMonotone(d', last, |g|);
        DriftGrows(d', d, |g|);
      }
    }
  }

  lemma TakeMonotone(e: real, d: real, m: nat, gap: real)
    requires m > 0 && e > 0.0 && d >= 0.0
    ensures 0.0 <= Take(e + d, m, gap) - Take(e, m, gap) <= d
  {
    hide Glue;
    GlueMonotone(e, d, m);
  }

  lemma DriftGrows(c: real, d: real, m: nat)
    requires m > 0 && 0.0 <= c <= d
    ensures Drift(c, m) <= Drift(d, m)
  {
    hide Glue;
    GlueMonotone(c, d - c, m);
  }
}
