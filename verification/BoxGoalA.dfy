/** Goal a) of the distribution comment does not hold as worded; exactly when it does. */
module BoxGoalA {
  import opened RealArithmetic
  import opened BoxDistribution
  import opened BoxSpreading
  import opened BoxGoalC
  import opened CheapestChoice

  /** The children that reach natural size. */
  ghost function Reached(x: seq<real>, g: seq<real>): (pick: seq<bool>)
    requires |x| == |g|
    ensures |pick| == |g|
  {
    seq(|g|, i requires 0 <= i < |g| => x[i] == g[i])
  }

  /** Goal a): no choice of children that the space can pay for has more children. */
  ghost predicate GoalA(e: real, g: seq<real>) {
    forall pick: seq<bool> :: |pick| == |g| && Cost(pick, g) <= e ==> Picked(pick) <= Picked(Reached(Grants(e, g), g))
  }

  /** How many iterations of the run find a gap within the glue. */
  function Served(e: real, g: seq<real>): (n: nat)
    ensures n <= |g|
    decreases |g|
  {
    if g == [] then 0 else
      var gap, rest := g[|g| - 1], g[..|g| - 1];
      var x := Take(e, |g|, gap);
      Served(e - x, rest) + if x < gap then 0 else 1
  }

  // --- exactly when goal a) holds ----------------------------------------------------------------

  lemma {:induction false} ServedIsReached(e: real, g: seq<real>)
    requires NonNegative(g)
    ensures Picked(Reached(Grants(e, g), g)) == Served(e, g)
    decreases |g|
  {
    hide Take, Grants, Reached, NonNegative;
    if g != [] {
      var last := |g| - 1;
      var rest, x := g[..last], Take(e, |g|, g[last]);
      RunStep(e, g);
      ServedIsReached(e - x, rest);
      ReachedAppend(Grants(e - x, rest), rest, x, g[last]);
      TakeWithin(e, |g|, g[last], g);
    }
  }

  lemma ReachedAppend(y: seq<real>, h: seq<real>, x: real, q: real)
    requires |y| == |h|
    ensures Picked(Reached(y + [x], h + [q])) == Picked(Reached(y, h)) + if x == q then 1 else 0
  {
    var pick := Reached(y + [x], h + [q]);
    assert pick[..|h|] == Reached(y, h);
  }

  lemma TakeWithin(e: real, m: nat, gap: real, g: seq<real>)
    requires m > 0 && gap in g && NonNegative(g)
    ensures Take(e, m, gap) <= gap
  {
    hide Glue;
  }

  /** The space does not pay for `k` children, whichever they are. */
  ghost predicate TooMany(e: real, g: seq<real>, k: nat) {
    k > |g| || e < Smallest(g, k)
  }

  /** Goal a) holds exactly when the space is less than the smallest gaps of one more child than the run
      serves in full. */
  lemma GoalAExactly(e: real, g: seq<real>)
    requires NonNegative(g)
    ensures GoalA(e, g) <==> TooMany(e, g, Served(e, g) + 1)
  {
    hide Picked, Cost, Grants, Smallest, Served, Reached;
    var n := Served(e, g);
    ServedIsReached(e, g);
    if TooMany(e, g, n + 1) {
      forall pick: seq<bool> | |pick| == |g| && Cost(pick, g) <= e ensures Picked(pick) <= n {
        SmallestIsCheapest(pick, g);
        if Picked(pick) > n { SmallestMonotone(g, n + 1, Picked(pick)); }
      }
    } else {
      var pick := SmallestIsAttained(g, n + 1);
    }
  }

  /** How many children a run serves before its first cut. */
  function ServedBefore(cut: Cut, g: seq<real>): nat
    requires cut.Cut? ==> cut.count <= |g|
  {
    if cut.Cut? then |g| - cut.count else |g|
  }

  /** How many gaps from the first cut on are no larger than what the cut child gets. */
  ghost function WithinReach(cut: Cut, g: seq<real>): nat
    requires cut.Cut? ==> 0 < cut.count <= |g|
  {
    if cut.Cut? then Picked(AtMost(g[..cut.count], Take(cut.left, cut.count, cut.gap))) else 0
  }

  ghost function AtMost(g: seq<real>, x: real): (pick: seq<bool>)
    ensures |pick| == |g|
  {
    seq(|g|, i requires 0 <= i < |g| => g[i] <= x)
  }

  lemma {:induction false} ServedFromCut(e: real, g: seq<real>, top: real)
    requires NonNegative(g) && TruncatedSorted(g)
    ensures var cut := FirstCut(e, g, top);
            && ServedBefore(cut, g) <= Served(e, g) <= ServedBefore(cut, g) + WithinReach(cut, g)
            && (cut.Cut? ==> LastSum(g, ServedBefore(cut, g) + 1) == e - cut.left + cut.gap)
    decreases |g|
  {
    hide Take, TruncatedSorted, AtMost, Picked;
    if g != [] {
      var last := |g| - 1;
      var rest := g[..last];
      RunStep(e, g);
      var cut := FirstCut(e, g, top);
      if Take(e, |g|, g[last]) < g[last] {
        assert g[..|g|] == g;
        ServedWithinReach(e, g);
        assert LastSum(g, 1) == g[last] + LastSum(rest, 0);
      } else {
        ServedFromCut(e - g[last], rest, Max(top, g[last]));
        if cut.Cut? { assert rest[..cut.count] == g[..cut.count]; }
      }
    }
  }

  lemma ServedWithinReach(e: real, g: seq<real>)
    requires NonNegative(g) && TruncatedSorted(g) && g != []
    requires Take(e, |g|, g[|g| - 1]) < g[|g| - 1]
    ensures Served(e, g) <= Picked(AtMost(g, Take(e, |g|, g[|g| - 1])))
  {
    hide Grants, Take, Picked, TruncatedSorted;
    LaterGetNoMore(e, g);
    RunStep(e, g);
    ServedIsReached(e, g);
    PickedMonotone(Reached(Grants(e, g), g), AtMost(g, Take(e, |g|, g[|g| - 1])));
  }

  /** For every row the truncating sort can produce, judged at the first cut: the condition that is enough
      for goal a) and the one it needs differ by the gaps that are still within reach. */
  lemma GoalAFromFirstCut(e: real, g: seq<real>)
    requires NonNegative(g) && TruncatedSorted(g)
    ensures var cut := FirstCut(e, g, 0.0);
            var n := ServedBefore(cut, g);
            && (TooMany(e, g, n + 1) ==> GoalA(e, g))
            && (GoalA(e, g) ==> TooMany(e, g, n + WithinReach(cut, g) + 1))
  {
    hide WithinReach, Smallest, GoalA, TruncatedSorted, FirstCut, Served;
    ServedFromCut(e, g, 0.0);
    GoalAExactly(e, g);
    var cut := FirstCut(e, g, 0.0);
    TooManyMonotone(e, g, ServedBefore(cut, g) + 1, Served(e, g) + 1);
    TooManyMonotone(e, g, Served(e, g) + 1, ServedBefore(cut, g) + WithinReach(cut, g) + 1);
  }

  lemma TooManyMonotone(e: real, g: seq<real>, k: nat, n: nat)
    requires NonNegative(g) && k <= n
    ensures TooMany(e, g, k) ==> TooMany(e, g, n)
  {
    if n <= |g| { SmallestMonotone(g, k, n); }
  }

  /** For every row the truncating sort can produce: goal a) holds if the space is less than the truncated
      gaps of the children up to and including the first cut. */
  lemma GoalAFromTruncated(e: real, g: seq<real>)
    requires NonNegative(g) && TruncatedSorted(g)
    requires var cut := FirstCut(e, g, 0.0);
             cut.Cut? ==> e < LastSum(Floors(g), ServedBefore(cut, g) + 1)
    ensures GoalA(e, g)
  {
    hide LastSum, Smallest, Floors, TruncatedSorted, GoalA, WithinReach, FirstCut;
    var cut := FirstCut(e, g, 0.0);
    if cut.Cut? { TruncatedIsCheaper(g, ServedBefore(cut, g) + 1); }
    GoalAFromFirstCut(e, g);
  }

  lemma TruncatedIsCheaper(g: seq<real>, k: nat)
    requires TruncatedSorted(g) && k <= |g|
    ensures LastSum(Floors(g), k) <= Smallest(g, k)
  {
    hide Cost, Picked, LastSum, SortRow;
    var pick := SmallestIsAttained(g, k);
    CostMonotone(pick, g, Floors(g));
    SmallestIsCheapest(pick, Floors(g));
    SortedRowKept(Floors(g));
  }

  /** The first child cut short could not have been served in full anyway. */
  ghost predicate TightCut(cut: Cut) {
    cut.Cut? ==> cut.left < cut.gap
  }

  lemma GoalASorted(e: real, g: seq<real>)
    requires SortedRow(g) && NonNegative(g)
    ensures GoalA(e, g) <==> TightCut(FirstCut(e, g, 0.0))
  {
    hide GoalA, LastSum, SortedRow, FirstCut, SortRow, NonNegative, TruncatedSorted, WithinReach;
    SortedIsTruncatedSorted(g);
    NoneWithinReach(e, g);
    GoalAFromFirstCut(e, g);
    ServedFromCut(e, g, 0.0);
    SortedRowKept(g);
  }

  lemma SortedIsTruncatedSorted(g: seq<real>)
    requires SortedRow(g)
    ensures TruncatedSorted(g)
  {
  }

  lemma NoneWithinReach(e: real, g: seq<real>)
    requires SortedRow(g) && NonNegative(g)
    ensures WithinReach(FirstCut(e, g, 0.0), g) == 0
  {
    hide Take, Grants, GoalCAbove, FirstCut;
    ServedUntilCut(e, g, 0.0);
    var cut := FirstCut(e, g, 0.0);
    if cut.Cut? {
      var x := Take(cut.left, cut.count, cut.gap);
      forall i | 0 <= i < cut.count ensures g[i] > x { assert g[i] >= g[cut.count - 1]; }
      NonePicked(AtMost(g[..cut.count], x));
    }
  }

  /** Whatever the row, the count that goal a) asks for is that of serving the smallest gaps first. */
  lemma AffordableIsMost(e: real, g: seq<real>)
    requires NonNegative(g)
    ensures forall pick: seq<bool> :: |pick| == |g| && Cost(pick, g) <= e ==> Picked(pick) <= Affordable(e, SortRow(g))
    ensures GoalA(e, g) <==> Served(e, g) >= Affordable(e, SortRow(g))
  {
    hide Cost, Picked, LastSum, Affordable, Served, GoalA;
    SortRowSorted(g);
    forall pick: seq<bool> | |pick| == |g| && Cost(pick, g) <= e
      ensures Picked(pick) <= Affordable(e, SortRow(g))
    {
      SmallestIsCheapest(pick, g);
      if Picked(pick) > 0 { AffordableCounts(e, SortRow(g), Picked(pick)); }
    }
    GoalAExactly(e, g);
    if Served(e, g) < |g| { AffordableCounts(e, SortRow(g), Served(e, g) + 1); }
  }

  // --- the children --------------------------------------------------------------------------------

  ghost predicate ChildrenMost(e: real, req: seq<RequestedSize>) {
    forall pick: seq<bool> :: |pick| == |req| && Cost(pick, Gaps(req)) <= e ==>
      Picked(pick) <= Picked(AtNatural(e, req))
  }

  ghost function Along(pick: seq<bool>, order: seq<nat>): (s: seq<bool>)
    requires Indices(order, |pick|)
    ensures |s| == |order|
  {
    seq(|order|, i requires 0 <= i < |order| => pick[order[i]])
  }

  lemma {:induction false} PickedCons(b: bool, pick: seq<bool>)
    ensures Picked([b] + pick) == Picked(pick) + if b then 1 else 0
  {
    if pick == [] {
      assert ([b] + pick)[..0] == [];
    } else {
      assert ([b] + pick)[..|pick|] == [b] + pick[..|pick| - 1];
      PickedCons(b, pick[..|pick| - 1]);
    }
  }

  lemma AlongCons(pick: seq<bool>, c: nat, order: seq<nat>)
    requires c < |pick| && Indices(order, |pick|)
    ensures Indices([c] + order, |pick|)
    ensures Picked(Along(pick, [c] + order)) == Picked(Along(pick, order)) + if pick[c] then 1 else 0
  {
    PickedCons(pick[c], Along(pick, order));
    assert Along(pick, [c] + order) == [pick[c]] + Along(pick, order);
  }

  lemma {:induction false} AlongInsert(pick: seq<bool>, req: seq<RequestedSize>, order: seq<nat>, c: nat)
    requires |pick| == |req| && c < |req| && Indices(order, |req|)
    ensures Picked(Along(pick, Insert(req, order, c))) == Picked(Along(pick, order)) + if pick[c] then 1 else 0
  {
    hide Picked, Along;
    if order == [] || CompareGap(req, c, order[0]) < 0 {
      AlongCons(pick, c, order);
      assert order == [] ==> [c] + order == [c];
    } else {
      var tail := order[1..];
      AlongInsert(pick, req, tail, c);
      AlongCons(pick, order[0], tail);
      AlongCons(pick, order[0], Insert(req, tail, c));
      assert order == [order[0]] + tail;
    }
  }

  /** Counting in the order of `spreading[]` is counting children. */
  lemma {:induction false} AlongSpreading(pick: seq<bool>, req: seq<RequestedSize>, n: nat)
    requires |pick| == |req| && n <= |req|
    ensures Picked(Along(pick, SpreadingOrder(req, n))) == Picked(pick[..n])
  {
    hide Insert, CompareGap, Along;
    if n == 0 {
      AlongNothing(pick);
    } else {
      AlongSpreading(pick, req, n - 1);
      AlongInsert(pick, req, SpreadingOrder(req, n - 1), n - 1);
      assert pick[..n][..n - 1] == pick[..n - 1];
    }
  }

  lemma AlongNothing(pick: seq<bool>)
    ensures Picked(Along(pick, [])) == 0
  {
  }

  lemma {:induction false} ServedChildren(e: real, req: seq<RequestedSize>)
    requires ValidRequests(req)
    ensures Picked(AtNatural(e, req)) == Served(e, Row(req))
  {
    hide Picked, Grants, SpreadingOrder, Distribute, Row, AtNatural, TruncatedSorted, Got, Served;
    var pick, order, g := AtNatural(e, req), SpreadingOrder(req, |req|), Row(req);
    RowProperties(req);
    AlongSpreading(pick, req, |req|);
    assert pick[..|req|] == pick;
    forall p | 0 <= p < |req| ensures Along(pick, order)[p] == Reached(Grants(e, g), g)[p] {
      NaturalIsReached(e, req, p);
    }
    assert Along(pick, order) == Reached(Grants(e, g), g);
    ServedIsReached(e, g);
  }

  lemma {:induction false} InsertSorts(req: seq<RequestedSize>, order: seq<nat>, c: nat)
    requires c < |req| && Indices(order, |req|)
    ensures SortRow(RowOf(req, Insert(req, order, c))) == InsertGap(SortRow(RowOf(req, order)), Gap(req[c]))
  {
    hide SortRow, InsertGap;
    if order == [] || CompareGap(req, c, order[0]) < 0 {
      RowStarts(req, c, order);
      assert order == [] ==> [c] + order == [c];
    } else {
      var tail := order[1..];
      InsertSorts(req, tail, c);
      RowStarts(req, order[0], tail);
      RowStarts(req, order[0], Insert(req, tail, c));
      InsertCommutes(SortRow(RowOf(req, tail)), Gap(req[c]), Gap(req[order[0]]));
      assert order == [order[0]] + tail;
    }
  }

  lemma {:induction false} RowStarts(req: seq<RequestedSize>, c: nat, order: seq<nat>)
    requires c < |req| && Indices(order, |req|)
    ensures Indices([c] + order, |req|)
    ensures SortRow(RowOf(req, [c] + order)) == InsertGap(SortRow(RowOf(req, order)), Gap(req[c]))
  {
    hide SortRow, InsertGap;
    SortCons(Gap(req[c]), RowOf(req, order));
    assert RowOf(req, [c] + order) == [Gap(req[c])] + RowOf(req, order);
  }

  /** The row holds the gaps of the children. */
  lemma {:induction false} RowSorts(req: seq<RequestedSize>, n: nat)
    requires n <= |req|
    ensures SortRow(RowOf(req, SpreadingOrder(req, n))) == SortRow(Gaps(req)[..n])
  {
    hide InsertGap, Insert, CompareGap, RowOf;
    if n > 0 {
      RowSorts(req, n - 1);
      InsertSorts(req, SpreadingOrder(req, n - 1), n - 1);
      assert Gaps(req)[..n][..n - 1] == Gaps(req)[..n - 1];
    } else {
      EmptySorts(req);
    }
  }

  lemma {:induction false} EmptySorts(req: seq<RequestedSize>)
    ensures SortRow(RowOf(req, [])) == []
  {
  }

  /** Goal a) for the children, whatever their requests. */
  lemma {:induction false} ChildrenMostExactly(e: real, req: seq<RequestedSize>)
    requires ValidRequests(req)
    ensures ChildrenMost(e, req) <==> TooMany(e, Gaps(req), Served(e, Row(req)) + 1)
    ensures ChildrenMost(e, req) <==> GoalA(e, Row(req))
  {
    hide Picked, Cost, Smallest, Served, AtNatural, Row, GoalA, SpreadingOrder;
    ServedChildren(e, req);
    SameSmallest(e, req, Served(e, Row(req)) + 1);
    RowProperties(req);
    GoalAExactly(e, Row(req));
    var g, n := Gaps(req), Served(e, Row(req));
    if TooMany(e, g, n + 1) {
      forall pick: seq<bool> | |pick| == |g| && Cost(pick, g) <= e ensures Picked(pick) <= n {
        SmallestIsCheapest(pick, g);
        if Picked(pick) > n { SmallestMonotone(g, n + 1, Picked(pick)); }
      }
    } else {
      var pick := SmallestIsAttained(g, n + 1);
    }
  }

  lemma {:induction false} SameSmallest(e: real, req: seq<RequestedSize>, k: nat)
    ensures TooMany(e, Gaps(req), k) <==> TooMany(e, Row(req), k)
  {
    hide SortRow, SpreadingOrder, RowOf;
    RowSorts(req, |req|);
    assert Gaps(req)[..|req|] == Gaps(req);
  }

  // --- inputs that fail ----------------------------------------------------------------------------

  /** The rows below come from children, of whom the space would pay for more. */
  lemma ChildrenNotMost()
    ensures !ChildrenMost(5.0, Wanting([4.0, 100.0]))
    ensures !ChildrenMost(3.5, Wanting([3.9, 3.1]))
  {
    hide ChildrenMost, GoalA, Row, Served, TooMany, FirstCut, Grants;
    RowOfTwo(4.0, 100.0);
    GoalAFails();
    ChildrenMostExactly(5.0, Wanting([4.0, 100.0]));
    RowOfTwo(3.9, 3.1);
    GoalAFailsTruncated();
    ChildrenMostExactly(3.5, Wanting([3.9, 3.1]));
  }

  /** Gaps of 4 and 100 with five pixels to give: the space would pay for the smaller gap, but the glue
      cuts it short. */
  lemma GoalAFails()
    ensures Grants(5.0, [100.0, 4.0]) == [2.0, 3.0] && !GoalA(5.0, [100.0, 4.0])
  {
    TwoGaps(5.0, 100.0, 4.0);
    var g := [100.0, 4.0];
    assert Grants(5.0, g)[0] < g[0] && Grants(5.0, g)[1] < g[1];
    NonePicked(Reached(Grants(5.0, g), g));
    PickOfTwo(false, true, 100.0, 4.0);
  }

  /** Gaps of 3.9 and 3.1 in one class of the truncating sort, with 3.5 pixels to give: nobody is served,
      the cut child could not be, but the other could. */
  lemma GoalAFailsTruncated()
    ensures var g := [3.1, 3.9];
            TruncatedSorted(g) && TightCut(FirstCut(3.5, g, 0.0)) && !GoalA(3.5, g)
  {
    var g := [3.1, 3.9];
    TwoGaps(3.5, 3.1, 3.9);
    assert Grants(3.5, g)[0] < g[0] && Grants(3.5, g)[1] < g[1];
    NonePicked(Reached(Grants(3.5, g), g));
    PickOfTwo(true, false, 3.1, 3.9);
    assert FirstCut(3.5, g, 0.0) == Cut(3.5, 2, 3.9, 0.0);
  }
}
