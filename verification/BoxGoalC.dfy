/** Goal c) of the distribution comment does not hold as worded; exactly when it does. */
module BoxGoalC {
  import opened RealArithmetic
  import opened BoxDistribution
  import opened BoxSpreading

  /** Given `x` against gaps `g`: whoever is left short got at least as much as whoever was satisfied. */
  ghost predicate FairTo(x: seq<real>, g: seq<real>)
    requires |x| == |g|
  {
    forall i, j :: 0 <= i < |g| && 0 <= j < |g| && x[i] == g[i] && x[j] < g[j] ==> x[j] >= x[i]
  }

  ghost predicate ShortAbove(x: seq<real>, g: seq<real>, top: real)
    requires |x| == |g|
  {
    forall j :: 0 <= j < |g| && x[j] < g[j] ==> x[j] >= top
  }

  /** Goal c): if one child takes its natural size and another does not, the other got at least as much. */
  ghost predicate GoalC(e: real, g: seq<real>) {
    FairTo(Grants(e, g), g)
  }

  /** What goal c) asks of the rest of the row when the largest gap served before it is `top`. */
  ghost predicate GoalCAbove(e: real, g: seq<real>, top: real) {
    GoalC(e, g) && ShortAbove(Grants(e, g), g, top)
  }

  /** An iteration at which the glue is below the gap: the space it finds, how many children it is for,
      the gap, and the largest gap served in full before it. */
  datatype Cut = NoCut | Cut(left: real, count: nat, gap: real, top: real)

  /** The first and the last such iteration of a run. */
  function FirstCut(e: real, g: seq<real>, top: real): (cut: Cut)
    ensures cut.Cut? ==> 0 < cut.count <= |g|
    decreases |g|
  {
    if g == [] then NoCut else
      var gap := g[|g| - 1];
      if Take(e, |g|, gap) < gap then Cut(e, |g|, gap, top) else FirstCut(e - gap, g[..|g| - 1], Max(top, gap))
  }

  function LastCut(e: real, g: seq<real>, top: real): (cut: Cut)
    ensures cut.Cut? ==> 0 < cut.count <= |g|
    decreases |g|
  {
    if g == [] then NoCut else
      var gap, rest := g[|g| - 1], g[..|g| - 1];
      var x := Take(e, |g|, gap);
      if x < gap then
        var later := LastCut(e - x, rest, top);
        if later.Cut? then later else Cut(e, |g|, gap, top)
      else LastCut(e - gap, rest, Max(top, gap))
  }

  /** The cut child gets no less than the largest gap served before it. */
  ghost predicate FairAtCut(cut: Cut)
    requires cut.Cut? ==> cut.count > 0
  {
    cut.Cut? ==> cut.top <= Take(cut.left, cut.count, cut.gap)
  }

  /** The same for the last child, if nobody is served in full from the cut on. */
  ghost predicate FairAfterCut(cut: Cut)
    requires cut.Cut? ==> cut.count > 0
  {
    cut.Cut? ==> cut.top <= LastShare(cut.left, cut.count)
  }

  // --- one iteration -----------------------------------------------------------------------------

  lemma RunStep(e: real, g: seq<real>)
    requires g != [] && NonNegative(g)
    ensures var last := |g| - 1;
            var rest, x := g[..last], Take(e, |g|, g[last]);
            && Grants(e, g) == Grants(e - x, rest) + [x]
            && g == rest + [g[last]] && NonNegative(rest)
            && (!(x < g[last]) ==> x == g[last])
            && (TruncatedSorted(g) ==> TruncatedSorted(rest)) && (SortedRow(g) ==> SortedRow(rest))
  {
    hide Glue;
  }

  lemma FairWhenServed(y: seq<real>, h: seq<real>, q: real, top: real)
    requires |y| == |h|
    ensures FairTo(y + [q], h + [q]) && ShortAbove(y + [q], h + [q], top)
       <==> FairTo(y, h) && ShortAbove(y, h, Max(top, q))
  {
    var x, g, n := y + [q], h + [q], |h|;
    assert x[n] == q && g[n] == q;
    assert forall i :: 0 <= i < n ==> x[i] == y[i] && g[i] == h[i];
    if FairTo(x, g) {
      forall j | 0 <= j < n && y[j] < h[j] ensures y[j] >= q { assert x[j] >= x[n]; }
    }
  }

  lemma FairWhenCut(y: seq<real>, h: seq<real>, x: real, q: real, top: real)
    requires |y| == |h| && x < q
    requires forall i :: 0 <= i < |h| ==> y[i] <= x
    ensures FairTo(y + [x], h + [q]) && ShortAbove(y + [x], h + [q], top)
       <==> FairTo(y, h) && ShortAbove(y, h, top) && x >= top
  {
    var z, g, n := y + [x], h + [q], |h|;
    assert z[n] == x && g[n] == q;
    assert forall i :: 0 <= i < n ==> z[i] == y[i] && g[i] == h[i];
  }

  lemma LaterGetNoMore(e: real, g: seq<real>)
    requires NonNegative(g) && TruncatedSorted(g) && g != []
    requires Take(e, |g|, g[|g| - 1]) < g[|g| - 1]
    ensures forall i :: 0 <= i < |g| - 1 ==> Grants(e, g)[i] <= Take(e, |g|, g[|g| - 1])
  {
    hide Glue, Grants, TruncatedSorted, Take;
    RunStep(e, g);
    forall i | 0 <= i < |g| - 1 ensures Grants(e, g)[i] <= Take(e, |g|, g[|g| - 1]) {
      ShortChildGetsNoLessThanLater(e, g, |g| - 1, i);
    }
  }

  lemma ShortOrFull(y: seq<real>, h: seq<real>, x: real, top: real)
    requires |y| == |h|
    requires forall i :: 0 <= i < |h| ==> y[i] <= h[i] && y[i] <= x
    ensures y == h ==> FairTo(y, h) && ShortAbove(y, h, top)
    ensures y != h && ShortAbove(y, h, top) ==> x >= top
  {
    if y != h {
      var j :| 0 <= j < |h| && y[j] != h[j];
    }
  }

  // --- exactly when goal c) holds ----------------------------------------------------------------

  /** For every row the truncating sort can produce: goal c) holds exactly when the last child cut short
      gets no less than the largest gap served in full before it. */
  lemma GoalCExactly(e: real, g: seq<real>)
    requires NonNegative(g) && TruncatedSorted(g)
    ensures GoalC(e, g) <==> FairAtCut(LastCut(e, g, 0.0))
  {
    hide GoalC, GoalCAbove, TruncatedSorted, NonNegative;
    GoalCIsAboveNothing(e, g);
    GoalCAboveExactly(e, g, 0.0);
  }

  lemma GoalCIsAboveNothing(e: real, g: seq<real>)
    requires NonNegative(g)
    ensures GoalC(e, g) <==> GoalCAbove(e, g, 0.0)
  {
    hide Grants, FairTo;
    GrantsBounded(e, g);
  }

  lemma {:induction false} GoalCAboveExactly(e: real, g: seq<real>, top: real)
    requires NonNegative(g) && TruncatedSorted(g)
    ensures GoalCAbove(e, g, top) <==> FairAtCut(LastCut(e, g, top))
    ensures LastCut(e, g, top).NoCut? <==> Grants(e, g) == g
    decreases |g|
  {
    hide Take, Grants, TruncatedSorted, GoalCAbove, NonNegative;
    if g == [] {
      EmptyRow(e, top);
    } else {
      var last := |g| - 1;
      var gap, rest, x := g[last], g[..last], Take(e, |g|, g[last]);
      PrefixOfRow(g, last);
      if x < gap {
        GoalCAboveExactly(e - x, rest, top);
        CutAbove(e, g, top);
      } else {
        GoalCAboveExactly(e - gap, rest, Max(top, gap));
        ServedAbove(e, g, top);
        assert Grants(e, g)[..last] == Grants(e - gap, rest);
      }
    }
  }

  /** A child cut short is the one to judge goal c) by, unless there is a later one. */
  lemma CutAbove(e: real, g: seq<real>, top: real)
    requires NonNegative(g) && TruncatedSorted(g) && g != []
    requires Take(e, |g|, g[|g| - 1]) < g[|g| - 1]
    ensures var rest, x := g[..|g| - 1], Take(e, |g|, g[|g| - 1]);
            && (Grants(e - x, rest) == rest ==> (GoalCAbove(e, g, top) <==> top <= x))
            && (Grants(e - x, rest) != rest ==> (GoalCAbove(e, g, top) <==> GoalCAbove(e - x, rest, top)))
    ensures Grants(e, g) != g
  {
    hide Take, Grants, TruncatedSorted, FairTo, ShortAbove;
    var last := |g| - 1;
    var gap, rest, x := g[last], g[..last], Take(e, |g|, g[last]);
    var y := Grants(e - x, rest);
    RunStep(e, g);
    LaterGetNoMore(e, g);
    assert forall i :: 0 <= i < last ==> y[i] == Grants(e, g)[i];
    GrantsBounded(e - x, rest);
    FairWhenCut(y, rest, x, gap, top);
    ShortOrFull(y, rest, x, top);
    assert Grants(e, g)[last] == x;
  }

  lemma EmptyRow(e: real, top: real)
    ensures Grants(e, []) == [] && GoalCAbove(e, [], top)
  {
  }

  /** Up to `cut` every child is served in full, so goal c) is decided from there on. */
  ghost predicate DecidedAt(cut: Cut, e: real, g: seq<real>, top: real)
    requires cut.Cut? ==> 0 < cut.count <= |g|
  {
    match cut
    case NoCut => Grants(e, g) == g && GoalCAbove(e, g, top)
    case Cut(left, m, gap, top') =>
      && gap == g[m - 1] && Take(left, m, gap) < gap
      && Grants(e, g) == Grants(left, g[..m]) + g[m..]
      && (GoalCAbove(e, g, top) <==> GoalCAbove(left, g[..m], top'))
  }

  lemma {:induction false} ServedUntilCut(e: real, g: seq<real>, top: real)
    requires NonNegative(g)
    ensures DecidedAt(FirstCut(e, g, top), e, g, top)
    decreases |g|
  {
    hide Take, GoalCAbove, Grants, DecidedAt, NonNegative;
    if g == [] {
      NothingToDecide(e, top);
    } else {
      var last := |g| - 1;
      if Take(e, |g|, g[last]) < g[last] {
        DecidedHere(e, g, top);
      } else {
        PrefixOfRow(g, last);
        ServedUntilCut(e - g[last], g[..last], Max(top, g[last]));
        DecidedLater(FirstCut(e, g, top), e, g, top);
      }
    }
  }

  lemma NothingToDecide(e: real, top: real)
    ensures DecidedAt(NoCut, e, [], top)
  {
    EmptyRow(e, top);
  }

  lemma DecidedHere(e: real, g: seq<real>, top: real)
    requires g != [] && Take(e, |g|, g[|g| - 1]) < g[|g| - 1]
    ensures DecidedAt(Cut(e, |g|, g[|g| - 1], top), e, g, top)
  {
    hide Take, GoalCAbove, Grants;
    assert g[..|g|] == g && g[|g|..] == [];
  }

  /** One more child served in full before the cut. */
  lemma DecidedLater(cut: Cut, e: real, g: seq<real>, top: real)
    requires NonNegative(g) && g != [] && !(Take(e, |g|, g[|g| - 1]) < g[|g| - 1])
    requires cut.Cut? ==> 0 < cut.count < |g|
    requires DecidedAt(cut, e - g[|g| - 1], g[..|g| - 1], Max(top, g[|g| - 1]))
    ensures DecidedAt(cut, e, g, top)
  {
    hide Take, GoalCAbove, Grants, NonNegative;
    var last := |g| - 1;
    ServedAbove(e, g, top);
    if cut.Cut? {
      assert g[..last][..cut.count] == g[..cut.count];
      assert g[..last][cut.count..] + [g[last]] == g[cut.count..];
    }
  }

  lemma ServedAbove(e: real, g: seq<real>, top: real)
    requires NonNegative(g) && g != [] && !(Take(e, |g|, g[|g| - 1]) < g[|g| - 1])
    ensures var last := |g| - 1;
            var gap, rest := g[last], g[..last];
            && g == rest + [gap] && Grants(e, g) == Grants(e - gap, rest) + [gap]
            && (GoalCAbove(e, g, top) <==> GoalCAbove(e - gap, rest, Max(top, gap)))
  {
    hide Take, Grants, FairTo, ShortAbove;
    var last := |g| - 1;
    RunStep(e, g);
    FairWhenServed(Grants(e - g[last], g[..last]), g[..last], g[last], top);
  }

  // --- in closed form, from the first cut --------------------------------------------------------

  function Mean(e: real, m: nat): real
    requires m > 0
  {
    e / m as real
  }

  /** What the last of `m` children gets when none of them is ever satisfied. */
  function LastShare(e: real, m: nat): real
    requires m > 0
  {
    Max(0.0, Mean(e, m) + 1.0 - Harmonic(m))
  }

  lemma MeanStep(e: real, m: nat)
    requires m > 1
    ensures Mean(e - Glue(e, m), m - 1) == Mean(e, m) - 1.0 / m as real
    ensures Glue(e - Glue(e, m), m - 1) <= Glue(e, m)
  {
    hide Glue;
    var k, a := m as real, Glue(e, m);
    GlueFalls(e, m, a);
    GlueIsMean(e, m);
    var u := e / k;
    assert u * k == e;
    assert e - a == (u - 1.0 / k) * (k - 1.0);
    var v := (e - a) / (k - 1.0);
    assert (v - (u - 1.0 / k)) * (k - 1.0) == 0.0;
    ScaleSign(v - (u - 1.0 / k), k - 1.0);
  }

  lemma GlueIsMean(e: real, m: nat)
    requires m > 0
    ensures Glue(e, m) == Mean(e, m) + 1.0 - 1.0 / m as real
  {
    hide Glue;
    var k, a := m as real, Glue(e, m);
    GlueProduct(e, m);
    var u := e / k;
    assert u * k == e;
    assert (a - u - 1.0 + 1.0 / k) * k == 0.0;
    ScaleSign(a - u - 1.0 + 1.0 / k, k);
  }

  lemma MeanMonotone(e: real, f: real, m: nat)
    requires m > 0 && e <= f
    ensures Mean(e, m) <= Mean(f, m)
  {
    var k := m as real;
    var u, v := e / k, f / k;
    assert (v - u) * k == f - e;
    ScaleSign(v - u, k);
  }

  lemma LastShareStopped(e: real, m: nat)
    requires m > 0 && e <= 0.0
    ensures LastShare(e, m) == 0.0
  {
    HarmonicGrows(m);
    MeanMonotone(e, 0.0, m);
  }

  lemma LastShareNext(e: real, m: nat)
    requires m > 1
    ensures LastShare(e - Glue(e, m), m - 1) == LastShare(e, m)
  {
    hide Glue, Mean;
    MeanStep(e, m);
  }

  lemma LastShareWithinGlue(e: real, m: nat)
    requires m > 0 && e > 0.0
    ensures LastShare(e, m) <= Glue(e, m)
    ensures m == 1 ==> LastShare(e, m) == e == Glue(e, m)
  {
    hide Glue, Mean;
    GluePositive(e, m);
    GlueIsMean(e, m);
    HarmonicMonotone(0, m - 1);
    assert m == 1 ==> Mean(e, 1) == e by { MeanOfOne(e); }
  }

  lemma MeanOfOne(e: real)
    ensures Mean(e, 1) == e
  {
  }

  /** Whatever the row, a child left short gets at least the last share. */
  lemma {:induction false} ShortGetsLastShare(e: real, g: seq<real>, j: nat)
    requires NonNegative(g) && j < |g| && Grants(e, g)[j] < g[j]
    ensures Grants(e, g)[j] >= LastShare(e, |g|)
    decreases |g|
  {
    hide Glue, Grants, LastShare;
    var last := |g| - 1;
    RunStep(e, g);
    if e <= 0.0 {
      StoppedLoop(e, g);
      LastShareStopped(e, |g|);
    } else if j == last {
      LastShareWithinGlue(e, |g|);
    } else {
      var x := Take(e, |g|, g[last]);
      ShortGetsLastShare(e - x, g[..last], j);
      LastShareNext(e, |g|);
      LastShareMonotone(e - Glue(e, |g|), e - x, last);
    }
  }

  lemma LastShareMonotone(e: real, f: real, m: nat)
    requires m > 0 && e <= f
    ensures LastShare(e, m) <= LastShare(f, m)
  {
    hide Mean;
    MeanMonotone(e, f, m);
  }

  /** Whatever the row, goal c) needs the child cut first to get no less than any gap served before it. */
  lemma GoalCNeedsFirstCut(e: real, g: seq<real>)
    requires NonNegative(g)
    ensures GoalC(e, g) ==> FairAtCut(FirstCut(e, g, 0.0))
  {
    hide Take, Grants, GoalC, GoalCAbove, NonNegative, FirstCut;
    ServedUntilCut(e, g, 0.0);
    GoalCIsAboveNothing(e, g);
    var cut := FirstCut(e, g, 0.0);
    if cut.Cut? {
      PrefixOfRow(g, cut.count);
      CutNeeds(cut.left, g[..cut.count], cut.top);
    }
  }

  lemma CutNeeds(e: real, g: seq<real>, top: real)
    requires NonNegative(g) && g != [] && Take(e, |g|, g[|g| - 1]) < g[|g| - 1]
    ensures GoalCAbove(e, g, top) ==> top <= Take(e, |g|, g[|g| - 1])
  {
    hide Take, Grants, FairTo;
    RunStep(e, g);
    assert Grants(e, g)[|g| - 1] == Take(e, |g|, g[|g| - 1]);
  }

  /** No gap lies between the last share and the glue of the cut. */
  ghost predicate NoGapBetween(e: real, g: seq<real>)
    requires g != []
  {
    forall i :: 0 <= i < |g| && g[i] <= Glue(e, |g|) ==> g[i] <= LastShare(e, |g|)
  }

  /** For every row the truncating sort can produce: comparing the last share of the first cut with the
      gaps is enough for goal c). */
  lemma GoalCFromFirstCut(e: real, g: seq<real>)
    requires NonNegative(g) && TruncatedSorted(g)
    requires var cut := FirstCut(e, g, 0.0);
             cut.Cut? ==>
               FairAfterCut(cut) && (cut.left > 0.0 ==> NoGapBetween(cut.left, g[..cut.count]))
    ensures GoalC(e, g)
  {
    hide Grants, Take, NoGapBetween, TruncatedSorted, NonNegative;
    ServedUntilCut(e, g, 0.0);
    var cut := FirstCut(e, g, 0.0);
    if cut.Cut? {
      PrefixOfRow(g, cut.count);
      NoGapBetweenIsFair(cut.left, g[..cut.count], cut.top);
    }
  }

  lemma NoGapBetweenIsFair(e: real, g: seq<real>, top: real)
    requires NonNegative(g) && TruncatedSorted(g) && g != []
    requires Take(e, |g|, g[|g| - 1]) < g[|g| - 1]
    requires top <= LastShare(e, |g|) && (e > 0.0 ==> NoGapBetween(e, g))
    ensures GoalCAbove(e, g, top)
  {
    hide Glue, Grants, LastShare, TruncatedSorted;
    var x := Grants(e, g);
    forall j | 0 <= j < |g| && x[j] < g[j] ensures x[j] >= LastShare(e, |g|) {
      ShortGetsLastShare(e, g, j);
    }
    if e <= 0.0 {
      StoppedLoop(e, g);
    } else {
      LaterGetNoMore(e, g);
      RunStep(e, g);
      assert forall i :: 0 <= i < |g| ==> x[i] <= Glue(e, |g|);
    }
  }

  // --- rows with nothing within the glue: exactly sorted rows among them ---------------------------

  /** From the cut on no gap is within the glue. */
  ghost predicate OutOfReach(e: real, g: seq<real>)
    requires g != []
  {
    forall i :: 0 <= i < |g| ==> g[i] > 0.0 && (e > 0.0 ==> g[i] > Glue(e, |g|))
  }

  /** From such a cut on nobody is satisfied, nobody gets less than the last child, and the last child
      gets the share in closed form. */
  lemma {:induction false} AfterCut(e: real, g: seq<real>)
    requires g != [] && OutOfReach(e, g)
    ensures Grants(e, g)[0] == LastShare(e, |g|)
    ensures forall i :: 0 <= i < |g| ==> Grants(e, g)[0] <= Grants(e, g)[i] < g[i]
    ensures e > 0.0 ==> forall i :: 0 <= i < |g| ==> Grants(e, g)[i] <= Glue(e, |g|)
    decreases |g|
  {
    hide Glue, LastShare, Grants, OutOfReach;
    if e <= 0.0 {
      AfterStop(e, g);
    } else {
      var last, a := |g| - 1, Glue(e, |g|);
      var rest := g[..last];
      OutOfReachStep(e, g);
      LastShareWithinGlue(e, |g|);
      if last > 0 {
        AfterCut(e - a, rest);
        LastShareNext(e, |g|);
        if e - a <= 0.0 { StoppedLoop(e - a, rest); }
      }
    }
  }

  lemma AfterStop(e: real, g: seq<real>)
    requires g != [] && OutOfReach(e, g) && e <= 0.0
    ensures LastShare(e, |g|) == 0.0
    ensures forall i :: 0 <= i < |g| ==> Grants(e, g)[i] == 0.0 < g[i]
  {
    hide Grants, LastShare, Glue;
    StoppedLoop(e, g);
    LastShareStopped(e, |g|);
  }

  /** One iteration that hands out the whole glue. */
  lemma OutOfReachStep(e: real, g: seq<real>)
    requires g != [] && OutOfReach(e, g) && e > 0.0
    ensures var last, a := |g| - 1, Glue(e, |g|);
            var rest := g[..last];
            && 0.0 < a < g[last] && Grants(e, g) == Grants(e - a, rest) + [a]
            && (last > 0 ==> OutOfReach(e - a, rest) && Glue(e - a, last) <= a)
  {
    hide Glue, Grants;
    GluePositive(e, |g|);
    RunStep(e, g);
    if |g| > 1 { MeanStep(e, |g|); }
  }

  lemma SortedOutOfReach(e: real, g: seq<real>)
    requires SortedRow(g) && NonNegative(g) && g != [] && Take(e, |g|, g[|g| - 1]) < g[|g| - 1]
    ensures OutOfReach(e, g)
  {
    hide Glue;
    if e > 0.0 { GluePositive(e, |g|); }
    forall i | 0 <= i < |g| ensures g[i] > 0.0 && (e > 0.0 ==> g[i] > Glue(e, |g|)) {
      assert g[i] >= g[|g| - 1];
    }
  }

  ghost predicate CutOutOfReach(cut: Cut, g: seq<real>)
    requires cut.Cut? ==> 0 < cut.count <= |g|
  {
    cut.Cut? ==> OutOfReach(cut.left, g[..cut.count])
  }

  /** If no gap from the first cut on is within its glue, goal c) holds exactly when the last share reaches
      the largest gap served in full. */
  lemma GoalCOutOfReach(e: real, g: seq<real>)
    requires NonNegative(g) && CutOutOfReach(FirstCut(e, g, 0.0), g)
    ensures GoalC(e, g) <==> FairAfterCut(FirstCut(e, g, 0.0))
  {
    hide Grants, Take, OutOfReach, LastShare, NonNegative, FirstCut;
    ServedUntilCut(e, g, 0.0);
    GoalCIsAboveNothing(e, g);
    var cut := FirstCut(e, g, 0.0);
    if cut.Cut? {
      AfterCut(cut.left, g[..cut.count]);
    }
  }

  lemma GoalCSorted(e: real, g: seq<real>)
    requires SortedRow(g) && NonNegative(g)
    ensures GoalC(e, g) <==> FairAfterCut(FirstCut(e, g, 0.0))
  {
    SortedCutOutOfReach(e, g);
    GoalCOutOfReach(e, g);
  }

  lemma SortedCutOutOfReach(e: real, g: seq<real>)
    requires SortedRow(g) && NonNegative(g)
    ensures CutOutOfReach(FirstCut(e, g, 0.0), g)
  {
    hide Grants, Take, OutOfReach, FairTo, ShortAbove, SortedRow, NonNegative;
    ServedUntilCut(e, g, 0.0);
    var cut := FirstCut(e, g, 0.0);
    if cut.Cut? {
      PrefixOfRow(g, cut.count);
      SortedOutOfReach(cut.left, g[..cut.count]);
    }
  }

  // --- the children --------------------------------------------------------------------------------

  ghost function AtNatural(e: real, req: seq<RequestedSize>): (pick: seq<bool>)
    ensures |pick| == |req|
  {
    seq(|req|, c requires 0 <= c < |req| => Distribute(e, req).sizes[c].minimum == req[c].natural)
  }

  ghost predicate ChildrenFair(e: real, req: seq<RequestedSize>) {
    forall i, j :: 0 <= i < |req| && 0 <= j < |req| && AtNatural(e, req)[i] && !AtNatural(e, req)[j] ==>
      Got(e, req, j) >= Got(e, req, i)
  }

  lemma {:induction false} NaturalIsReached(e: real, req: seq<RequestedSize>, p: nat)
    requires ValidRequests(req) && p < |req|
    ensures var c := SpreadingOrder(req, |req|)[p];
            && Got(e, req, c) == Grants(e, Row(req))[p] <= Row(req)[p]
            && (AtNatural(e, req)[c] <==> Grants(e, Row(req))[p] == Row(req)[p])
  {
    hide Grants, SpreadingOrder, Distribute;
    GotIsGrant(e, req, p);
    RowProperties(req);
    GrantsBounded(e, Row(req));
  }

  /** Goal c) for the children, whatever their requests. */
  lemma {:induction false} ChildrenFairExactly(e: real, req: seq<RequestedSize>)
    requires ValidRequests(req)
    ensures ChildrenFair(e, req) <==> FairAtCut(LastCut(e, Row(req), 0.0))
    ensures ChildrenFair(e, req) <==> GoalC(e, Row(req))
  {
    hide Grants, SpreadingOrder, Distribute, Row, LastCut, FairAtCut, AtNatural, TruncatedSorted, Got;
    var g, order := Row(req), SpreadingOrder(req, |req|);
    RowProperties(req);
    GoalCExactly(e, g);
    if GoalC(e, g) {
      forall i, j | 0 <= i < |req| && 0 <= j < |req| && AtNatural(e, req)[i] && !AtNatural(e, req)[j]
        ensures Got(e, req, j) >= Got(e, req, i)
      {
        var p := PositionOf(req, i);
        var q := PositionOf(req, j);
        NaturalIsReached(e, req, p);
        NaturalIsReached(e, req, q);
      }
    }
    if ChildrenFair(e, req) {
      var x := Grants(e, g);
      forall p, q | 0 <= p < |g| && 0 <= q < |g| && x[p] == g[p] && x[q] < g[q] ensures x[q] >= x[p] {
        NaturalIsReached(e, req, p);
        NaturalIsReached(e, req, q);
      }
    }
  }

  /** The row of integral requests is exactly sorted, so the closed forms decide for them. */
  lemma {:induction false} IntegralRowSorted(req: seq<RequestedSize>)
    requires ValidRequests(req)
    requires forall c :: 0 <= c < |req| ==> Gap(req[c]) == Gap(req[c]).Floor as real
    ensures SortedRow(Row(req)) && NonNegative(Row(req))
  {
    hide SpreadingOrder;
    RowProperties(req);
    var g := Row(req);
    forall i, j | 0 <= i < j < |g| ensures g[j] <= g[i] {
      assert g[j].Floor <= g[i].Floor;
    }
  }

  // --- inputs that fail ----------------------------------------------------------------------------

  /** Children without a minimum size and with the given natural sizes. */
  function Wanting(naturals: seq<real>): (req: seq<RequestedSize>)
    ensures |req| == |naturals|
  {
    seq(|naturals|, c requires 0 <= c < |naturals| => RequestedSize(0.0, naturals[c]))
  }

  lemma RowOfTwo(a: real, b: real)
    requires 0.0 <= a && 0.0 <= b && a.Floor <= b.Floor
    ensures ValidRequests(Wanting([a, b])) && Row(Wanting([a, b])) == [b, a]
  {
    var req := Wanting([a, b]);
    assert SpreadingOrder(req, 1) == Insert(req, SpreadingOrder(req, 0), 0) == [0];
    assert SpreadingOrder(req, 2) == Insert(req, [0], 1) == [1, 0];
  }

  lemma RowOfThree(a: real, b: real, c: real)
    requires 0.0 <= a && 0.0 <= b && 0.0 <= c && a.Floor <= b.Floor <= c.Floor
    ensures ValidRequests(Wanting([a, b, c])) && Row(Wanting([a, b, c])) == [c, b, a]
  {
    var req := Wanting([a, b, c]);
    assert SpreadingOrder(req, 1) == Insert(req, SpreadingOrder(req, 0), 0) == [0];
    assert SpreadingOrder(req, 2) == Insert(req, [0], 1) == [1, 0];
    assert SpreadingOrder(req, 3) == Insert(req, [1, 0], 2) == [2, 1, 0];
  }

  /** The rows below come from children, who are treated unfairly. */
  lemma ChildrenUnfair()
    ensures !ChildrenFair(5.0, Wanting([3.0, 3.0]))
    ensures !ChildrenFair(9.0, Wanting([3.9, 3.1, 100.0]))
    ensures !ChildrenFair(10.5, Wanting([3.9, 3.1, 100.0]))
  {
    hide ChildrenFair, GoalC, Row, FirstCut, LastCut, Grants;
    RowOfTwo(3.0, 3.0);
    GoalCFails();
    ChildrenFairExactly(5.0, Wanting([3.0, 3.0]));
    RowOfThree(3.9, 3.1, 100.0);
    GoalCFailsTruncated();
    GoalCFailsAfterLarger();
    ChildrenFairExactly(9.0, Wanting([3.9, 3.1, 100.0]));
    ChildrenFairExactly(10.5, Wanting([3.9, 3.1, 100.0]));
  }

  /** Three pixels each and five to give: the first child is served in full and the second gets two. */
  lemma GoalCFails()
    ensures Grants(5.0, [3.0, 3.0]) == [2.0, 3.0] && !GoalC(5.0, [3.0, 3.0])
  {
    TwoGaps(5.0, 3.0, 3.0);
    var x := Grants(5.0, [3.0, 3.0]);
    assert x[1] == [3.0, 3.0][1] && x[0] < [3.0, 3.0][0];
  }

  /** Gaps of 3.9, 3.1 and 100 with nine pixels to give: after the first cut the truncating sort still
      brings up a gap within the glue, which the closed form of the first cut does not see. */
  lemma GoalCFailsTruncated()
    ensures var g := [100.0, 3.1, 3.9];
            TruncatedSorted(g) && FairAfterCut(FirstCut(9.0, g, 0.0)) && !GoalC(9.0, g)
  {
    var g := [100.0, 3.1, 3.9];
    var a := Take(9.0, 3, 3.9);
    assert a == 11.0 / 3.0;
    assert g[..2] == [100.0, 3.1];
    GrantsStep(9.0, g, 0);
    GrantsStep(9.0, g, 1);
    hide Grants, LastShare;
    TwoGaps(9.0 - a, 100.0, 3.1);
    var x := Grants(9.0, g);
    assert x[1] == g[1] && x[0] < g[0] && x[0] < x[1];
    assert FirstCut(9.0, g, 0.0) == Cut(9.0, 3, 3.9, 0.0);
    LastShareNonNegative(9.0, 3);
  }

  lemma LastShareNonNegative(e: real, m: nat)
    requires m > 0
    ensures LastShare(e, m) >= 0.0
  {
    hide Mean, Harmonic;
  }

  /** The same children with 10.5 pixels: both gaps of the class are served in full, the larger one first,
      so it is the largest gap served and not the latest that counts. */
  lemma GoalCFailsAfterLarger()
    ensures var g := [100.0, 3.1, 3.9];
            Grants(10.5, g) == [3.5, 3.1, 3.9] && !GoalC(10.5, g) && !FairAfterCut(FirstCut(10.5, g, 0.0))
  {
    var g := [100.0, 3.1, 3.9];
    assert g[..2] == [100.0, 3.1] && [100.0, 3.1][..1] == [100.0];
    assert Take(10.5, 3, 3.9) == 3.9 && 10.5 - 3.9 == 6.6;
    assert Grants(10.5, g) == Grants(6.6, [100.0, 3.1]) + [3.9];
    TwoGaps(6.6, 100.0, 3.1);
    var x := Grants(10.5, g);
    assert x[2] == g[2] && x[0] < g[0];
    assert FirstCut(10.5, g, 0.0) == FirstCut(6.6, [100.0, 3.1], 3.9);
    assert FirstCut(6.6, [100.0, 3.1], 3.9) == FirstCut(3.5, [100.0], 3.9);
    assert FirstCut(3.5, [100.0], 3.9) == Cut(3.5, 1, 100.0, 3.9);
    LastShareWithinGlue(3.5, 1);
  }

  lemma TwoGaps(e: real, big: real, small: real)
    requires e > 0.0
    ensures var x := Min((e + 1.0) / 2.0, small);
            e - x > 0.0 ==> Grants(e, [big, small]) == [Min(e - x, big), x]
  {
    var g := [big, small];
    var x := Take(e, 2, small);
    assert g[..1] == [big] && [big][..0] == [];
    assert Grants(e, g) == Grants(e - x, [big]) + [x];
    assert Grants(e - x, [big]) == [Take(e - x, 1, big)];
  }
}
