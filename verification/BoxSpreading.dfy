/** From rows of gaps to children: the sort by truncated gap and the loop that updates `sizes[]`. */
module BoxSpreading {
  import opened Collections
  import opened RealArithmetic
  import opened BoxDistribution

  ghost predicate ValidRequests(req: seq<RequestedSize>) {
    forall c :: 0 <= c < |req| ==> 0.0 <= req[c].minimum <= req[c].natural
  }

  function Minima(req: seq<RequestedSize>): (s: seq<real>)
    ensures |s| == |req|
  {
    seq(|req|, c requires 0 <= c < |req| => req[c].minimum)
  }

  function Gaps(req: seq<RequestedSize>): (s: seq<real>)
    ensures |s| == |req|
  {
    seq(|req|, c requires 0 <= c < |req| => Gap(req[c]))
  }

  /** What distribution leaves alone in a request. */
  ghost predicate SameNatural(a: seq<RequestedSize>, b: seq<RequestedSize>)
    requires |a| == |b|
  {
    forall c :: 0 <= c < |a| ==> a[c].natural == b[c].natural
  }

  // --- the sort --------------------------------------------------------------------------------

  /** The comparator: difference of the truncated gaps, then of the positions. */
  function CompareGap(req: seq<RequestedSize>, a: nat, b: nat): int
    requires a < |req| && b < |req|
  {
    var d1 := Trunc(Max(Gap(req[a]), 0.0));
    var d2 := Trunc(Max(Gap(req[b]), 0.0));
    if d2 - d1 == 0 then b - a else d2 - d1
  }

  ghost predicate Indices(order: seq<nat>, n: nat) {
    forall i :: 0 <= i < |order| ==> order[i] < n
  }

  ghost predicate Sorted(req: seq<RequestedSize>, order: seq<nat>)
    requires Indices(order, |req|)
  {
    forall i, j :: 0 <= i < j < |order| ==> CompareGap(req, order[i], order[j]) < 0
  }

  ghost predicate Covers(order: seq<nat>, n: nat) {
    forall c: nat :: c < n ==> c in order
  }

  /** `order` holds exactly the children below `n`, sorted by the comparator. */
  ghost predicate IsSpreading(req: seq<RequestedSize>, n: nat, order: seq<nat>)
    requires n <= |req|
  {
    |order| == n && Indices(order, n) && Covers(order, n) && Sorted(req, order)
  }

  function Insert(req: seq<RequestedSize>, order: seq<nat>, c: nat): (r: seq<nat>)
    requires c < |req| && Indices(order, |req|)
    ensures |r| == |order| + 1 && Indices(r, |req|)
  {
    if order == [] then [c]
    else if CompareGap(req, c, order[0]) < 0 then [c] + order
    else [order[0]] + Insert(req, order[1..], c)
  }

  lemma {:induction false} InsertMembers(req: seq<RequestedSize>, order: seq<nat>, c: nat)
    requires c < |req| && Indices(order, |req|)
    ensures forall x :: x in Insert(req, order, c) <==> x in order || x == c
  {
    if order != [] && !(CompareGap(req, c, order[0]) < 0) {
      InsertMembers(req, order[1..], c);
      assert order == [order[0]] + order[1..];
    }
  }

  lemma {:induction false} InsertKeepsSorted(req: seq<RequestedSize>, order: seq<nat>, c: nat)
    requires c < |req| && Indices(order, |req|)
    requires Sorted(req, order) && c !in order
    ensures Sorted(req, Insert(req, order, c))
  {
    if order != [] {
      var r := Insert(req, order, c);
      if CompareGap(req, c, order[0]) < 0 {
        SortedCons(req, c, order);
      } else {
        var tail := order[1..];
        InsertKeepsSorted(req, tail, c);
        var rest := Insert(req, tail, c);
        InsertMembers(req, tail, c);
        assert rest[0] in tail || rest[0] == c;
        if rest[0] in tail {
          var k :| 0 <= k < |tail| && tail[k] == rest[0];
          assert order[k + 1] == rest[0];
        }
        assert CompareGap(req, order[0], rest[0]) < 0;
        SortedCons(req, order[0], rest);
      }
    }
  }

  lemma {:induction false} SortedCons(req: seq<RequestedSize>, c: nat, order: seq<nat>)
    requires c < |req| && Indices(order, |req|) && Sorted(req, order)
    requires order != [] && CompareGap(req, c, order[0]) < 0
    ensures Indices([c] + order, |req|) && Sorted(req, [c] + order)
  {
    var r := [c] + order;
    forall i, j | 0 <= i < j < |r| ensures CompareGap(req, r[i], r[j]) < 0 {
      assert r[j] == order[j - 1];
      if i == 0 {
        assert j == 1 || CompareGap(req, order[0], order[j - 1]) < 0;
      } else {
        assert CompareGap(req, order[i - 1], order[j - 1]) < 0;
      }
    }
  }

  /** The contents of `spreading[]` after the sort of the first `n` children. */
  function SpreadingOrder(req: seq<RequestedSize>, n: nat): (order: seq<nat>)
    requires n <= |req|
    ensures |order| == n && Indices(order, |req|)
  {
    if n == 0 then [] else Insert(req, SpreadingOrder(req, n - 1), n - 1)
  }

  lemma {:induction false} SpreadingOrderSorts(req: seq<RequestedSize>, n: nat)
    requires n <= |req|
    ensures IsSpreading(req, n, SpreadingOrder(req, n))
  {
    if n > 0 {
      var before := SpreadingOrder(req, n - 1);
      SpreadingOrderSorts(req, n - 1);
      InsertMembers(req, before, n - 1);
      assert n - 1 !in before;
      InsertKeepsSorted(req, before, n - 1);
      var order := SpreadingOrder(req, n);
      forall i | 0 <= i < |order| ensures order[i] < n {
        assert order[i] in before || order[i] == n - 1;
      }
    }
  }

  lemma {:induction false} SortedDistinct(req: seq<RequestedSize>, order: seq<nat>, i: nat, j: nat)
    requires Indices(order, |req|) && Sorted(req, order)
    requires i < |order| && j < |order| && i != j
    ensures order[i] != order[j]
  {
    assert CompareGap(req, order[if i < j then i else j], order[if i < j then j else i]) < 0;
  }

  /** The comparator orders distinct children strictly, so every sorting algorithm gives this order. */
  lemma {:induction false} SpreadingUnique(req: seq<RequestedSize>, n: nat, a: seq<nat>, b: seq<nat>, k: nat)
    requires k <= n <= |req| && IsSpreading(req, n, a) && IsSpreading(req, n, b)
    ensures a[..k] == b[..k]
  {
    if k > 0 {
      var p := k - 1;
      SpreadingUnique(req, n, a, b, p);
      NextAgrees(req, n, a, b, p);
      assert a[..k] == a[..p] + [a[p]] && b[..k] == b[..p] + [b[p]];
    }
  }

  lemma {:induction false} NextAgrees(req: seq<RequestedSize>, n: nat, a: seq<nat>, b: seq<nat>, p: nat)
    requires p < n <= |req| && IsSpreading(req, n, a) && IsSpreading(req, n, b)
    requires a[..p] == b[..p]
    ensures a[p] == b[p]
  {
    hide CompareGap, Sorted;
    assert a[p] in b && b[p] in a;
    var i :| 0 <= i < n && b[i] == a[p];
    var j :| 0 <= j < n && a[j] == b[p];
    if i < p {
      assert a[i] == a[..p][i] == b[..p][i] == b[i];
      SortedDistinct(req, a, i, p);
    } else if j < p {
      assert a[j] == a[..p][j] == b[..p][j] == b[j];
      SortedDistinct(req, b, j, p);
    } else if i != p {
      OrderedPair(req, b, p, i);
      if j != p { OrderedPair(req, a, p, j); }
      Antisymmetric(req, a[p], b[p]);
    }
  }

  lemma {:induction false} OrderedPair(req: seq<RequestedSize>, order: seq<nat>, i: nat, j: nat)
    requires Indices(order, |req|) && Sorted(req, order) && i < j < |order|
    ensures CompareGap(req, order[i], order[j]) < 0
  {
  }

  lemma {:induction false} Antisymmetric(req: seq<RequestedSize>, a: nat, b: nat)
    requires a < |req| && b < |req|
    ensures CompareGap(req, a, b) == -CompareGap(req, b, a)
  {
  }

  // --- the loop on the children ----------------------------------------------------------------

  datatype Outcome = Outcome(sizes: seq<RequestedSize>, remainder: real)

  function GiveTo(req: seq<RequestedSize>, c: nat, x: real): seq<RequestedSize>
    requires c < |req|
  {
    req[c := req[c].(minimum := req[c].minimum + x)]
  }

  function Spread(e: real, req: seq<RequestedSize>, order: seq<nat>): (o: Outcome)
    requires Indices(order, |req|)
    ensures |o.sizes| == |req|
    decreases |order|
  {
    if order == [] then Outcome(req, e) else
      var c := order[|order| - 1];
      var x := Take(e, |order|, Gap(req[c]));
      Spread(e - x, GiveTo(req, c, x), order[..|order| - 1])
  }

  function Distribute(e: real, req: seq<RequestedSize>): (o: Outcome)
    ensures |o.sizes| == |req|
  {
    Spread(e, req, SpreadingOrder(req, |req|))
  }

  /** What child `c` receives. */
  function Got(e: real, req: seq<RequestedSize>, c: nat): real
    requires c < |req|
  {
    Distribute(e, req).sizes[c].minimum - req[c].minimum
  }

  lemma {:induction false} SpreadStopped(e: real, req: seq<RequestedSize>, order: seq<nat>)
    requires Indices(order, |req|)
    requires e <= 0.0
    ensures Spread(e, req, order) == Outcome(req, e)
    decreases |order|
  {
    hide Glue;
    if order != [] {
      var c := order[|order| - 1];
      assert GiveTo(req, c, 0.0) == req;
      SpreadStopped(e, req, order[..|order| - 1]);
    }
  }

  lemma {:induction false} SpreadConserves(e: real, req: seq<RequestedSize>, order: seq<nat>)
    requires Indices(order, |req|)
    ensures var o := Spread(e, req, order);
            Sum(Minima(o.sizes)) + o.remainder == Sum(Minima(req)) + e
    decreases |order|
  {
    hide Glue;
    if order != [] {
      var c := order[|order| - 1];
      var x := Take(e, |order|, Gap(req[c]));
      SumUpdate(Minima(req), c, req[c].minimum + x);
      assert Minima(GiveTo(req, c, x)) == Minima(req)[c := req[c].minimum + x];
      SpreadConserves(e - x, GiveTo(req, c, x), order[..|order| - 1]);
    }
  }

  function RowOf(req: seq<RequestedSize>, order: seq<nat>): (g: seq<real>)
    requires Indices(order, |req|)
    ensures |g| == |order|
  {
    seq(|order|, i requires 0 <= i < |order| => Gap(req[order[i]]))
  }

  function Row(req: seq<RequestedSize>): (g: seq<real>)
    ensures |g| == |req|
  {
    RowOf(req, SpreadingOrder(req, |req|))
  }

  lemma {:induction false} SpreadRest(e: real, req: seq<RequestedSize>, order: seq<nat>, c: nat)
    requires Indices(order, |req|) && c < |req|
    ensures Spread(e, req, order).sizes[c].natural == req[c].natural
    ensures c !in order ==> Spread(e, req, order).sizes[c] == req[c]
    decreases |order|
  {
    hide Glue;
    if order != [] {
      var d := order[|order| - 1];
      var x := Take(e, |order|, Gap(req[d]));
      SpreadRest(e - x, GiveTo(req, d, x), order[..|order| - 1], c);
    }
  }

  lemma {:induction false} SpreadStep(e: real, req: seq<RequestedSize>, order: seq<nat>)
    requires Indices(order, |req|) && order != []
    ensures var last := |order| - 1;
            var c, rest := order[last], order[..last];
            var x := Take(e, |order|, Gap(req[c]));
            && Spread(e, req, order) == Spread(e - x, GiveTo(req, c, x), rest)
            && RowOf(req, order)[last] == Gap(req[c])
            && (c !in rest ==> RowOf(GiveTo(req, c, x), rest) == RowOf(req, order)[..last])
  {
    hide Glue;
    var last := |order| - 1;
    var c, rest := order[last], order[..last];
    var x := Take(e, |order|, Gap(req[c]));
    if c !in rest {
      forall i | 0 <= i < last
        ensures RowOf(GiveTo(req, c, x), rest)[i] == RowOf(req, order)[..last][i]
      {
        assert rest[i] != c;
      }
    }
  }

  lemma GrantsStep(e: real, g: seq<real>, p: nat)
    requires p < |g|
    ensures var last := |g| - 1;
            var x := Take(e, |g|, g[last]);
            && Remainder(e, g) == Remainder(e - x, g[..last])
            && Grants(e, g)[p] == if p == last then x else Grants(e - x, g[..last])[p]
  {
    hide Glue;
  }

  /** The children's loop is the row's loop read through `spreading[]`. */
  lemma {:induction false} SpreadIsGrants(e: real, req: seq<RequestedSize>, order: seq<nat>, p: nat)
    requires Indices(order, |req|) && p < |order|
    requires Distinct(order)
    ensures var o, g := Spread(e, req, order), RowOf(req, order);
            && o.remainder == Remainder(e, g)
            && o.sizes[order[p]].minimum == req[order[p]].minimum + Grants(e, g)[p]
    decreases |order|
  {
    hide Take, RowOf;
    var last := |order| - 1;
    var c, rest := order[last], order[..last];
    var x := Take(e, |order|, Gap(req[c]));
    assert c !in rest;
    SpreadStep(e, req, order);
    GrantsStep(e, RowOf(req, order), p);
    SpreadRest(e - x, GiveTo(req, c, x), rest, c);
    if last > 0 {
      SpreadIsGrants(e - x, GiveTo(req, c, x), rest, if p == last then 0 else p);
    }
  }

  lemma {:induction false} GotIsGrant(e: real, req: seq<RequestedSize>, p: nat)
    requires p < |req|
    ensures Got(e, req, SpreadingOrder(req, |req|)[p]) == Grants(e, Row(req))[p]
    ensures Distribute(e, req).remainder == Remainder(e, Row(req))
  {
    hide Glue, Grants, SpreadingOrder, Spread, Remainder, RowOf;
    var order := SpreadingOrder(req, |req|);
    SpreadingOrderSorts(req, |req|);
    forall i, j | 0 <= i < j < |order| ensures order[i] != order[j] {
      SortedDistinct(req, order, i, j);
    }
    SpreadIsGrants(e, req, order, p);
  }

  lemma {:induction false} RemainderOfRow(e: real, req: seq<RequestedSize>)
    ensures Distribute(e, req).remainder == Remainder(e, Row(req))
  {
    if req != [] { GotIsGrant(e, req, 0); }
  }

  /** The position at which child `c` is served. */
  lemma {:induction false} PositionOf(req: seq<RequestedSize>, c: nat) returns (p: nat)
    requires c < |req|
    ensures p < |req| && SpreadingOrder(req, |req|)[p] == c && Row(req)[p] == Gap(req[c])
  {
    SpreadingOrderSorts(req, |req|);
    assert c in SpreadingOrder(req, |req|);
    p :| 0 <= p < |req| && SpreadingOrder(req, |req|)[p] == c;
  }

  // --- what the sort leaves of the order of gaps -------------------------------------------------

  lemma {:induction false} RowProperties(req: seq<RequestedSize>)
    requires ValidRequests(req)
    ensures NonNegative(Row(req)) && TruncatedSorted(Row(req))
  {
    var order := SpreadingOrder(req, |req|);
    SpreadingOrderSorts(req, |req|);
    forall i, j | 0 <= i < j < |order| ensures Gap(req[order[j]]).Floor <= Gap(req[order[i]]).Floor {
      assert CompareGap(req, order[i], order[j]) < 0;
    }
  }

  lemma {:induction false} InsertSum(req: seq<RequestedSize>, order: seq<nat>, c: nat)
    requires c < |req| && Indices(order, |req|)
    ensures Sum(RowOf(req, Insert(req, order, c))) == Sum(RowOf(req, order)) + Gap(req[c])
  {
    hide CompareGap, Sum, RowOf;
    if order == [] || CompareGap(req, c, order[0]) < 0 {
      RowCons(req, c, order);
      assert order == [] ==> [c] + order == [c];
    } else {
      var tail := order[1..];
      InsertSum(req, tail, c);
      RowCons(req, order[0], tail);
      RowCons(req, order[0], Insert(req, tail, c));
      assert order == [order[0]] + tail;
    }
  }

  lemma {:induction false} EmptySum(req: seq<RequestedSize>)
    ensures Sum(RowOf(req, [])) == 0.0
  {
  }

  lemma {:induction false} RowCons(req: seq<RequestedSize>, c: nat, order: seq<nat>)
    requires c < |req| && Indices(order, |req|)
    ensures Indices([c] + order, |req|)
    ensures Sum(RowOf(req, [c] + order)) == Gap(req[c]) + Sum(RowOf(req, order))
  {
    SumCons(Gap(req[c]), RowOf(req, order));
    assert RowOf(req, [c] + order) == [Gap(req[c])] + RowOf(req, order);
  }

  lemma {:induction false} SumCons(x: real, s: seq<real>)
    ensures Sum([x] + s) == x + Sum(s)
  {
    if s == [] {
      assert ([x] + s)[..0] == [];
    } else {
      assert ([x] + s)[..|s|] == [x] + s[..|s| - 1];
      SumCons(x, s[..|s| - 1]);
    }
  }

  lemma {:induction false} RowSum(req: seq<RequestedSize>, n: nat)
    requires n <= |req|
    ensures Sum(RowOf(req, SpreadingOrder(req, n))) == Sum(Gaps(req)[..n])
  {
    hide Insert, RowOf, CompareGap;
    if n > 0 {
      RowSum(req, n - 1);
      InsertSum(req, SpreadingOrder(req, n - 1), n - 1);
      assert Gaps(req)[..n][..n - 1] == Gaps(req)[..n - 1];
    } else {
      EmptySum(req);
    }
  }

  // --- the theorems, child by child ------------------------------------------------------------

  /** Conservation and bounds. */
  lemma {:induction false} DistributeConserves(e: real, req: seq<RequestedSize>)
    requires ValidRequests(req)
    ensures var o := Distribute(e, req);
            && Sum(Minima(o.sizes)) + o.remainder == Sum(Minima(req)) + e
            && SameNatural(o.sizes, req) && ValidRequests(o.sizes)
    ensures forall c :: 0 <= c < |req| ==> req[c].minimum <= Distribute(e, req).sizes[c].minimum
  {
    hide Grants, Row, SpreadingOrder, Sum, TruncatedSorted, Spread;
    SpreadConserves(e, req, SpreadingOrder(req, |req|));
    RowProperties(req);
    GrantsBounded(e, Row(req));
    forall c | 0 <= c < |req|
      ensures Distribute(e, req).sizes[c].natural == req[c].natural
      ensures 0.0 <= Got(e, req, c) <= Gap(req[c])
    {
      SpreadRest(e, req, SpreadingOrder(req, |req|), c);
      var p := PositionOf(req, c);
      GotIsGrant(e, req, p);
    }
  }

  /** The exact remainder. */
  lemma {:induction false} DistributeExact(e: real, req: seq<RequestedSize>)
    requires ValidRequests(req) && e >= 0.0
    ensures var o := Distribute(e, req);
            && (e >= Sum(Gaps(req)) ==>
                  o.remainder == e - Sum(Gaps(req)) &&
                  forall c :: 0 <= c < |req| ==> o.sizes[c].minimum == req[c].natural)
            && (e < Sum(Gaps(req)) ==> -1.0 < o.remainder <= 0.0)
  {
    hide Grants, SpreadingOrder, Distribute, Remainder, Sum, TruncatedSorted, RowOf;
    var g := Row(req);
    RowProperties(req);
    RowSum(req, |req|);
    assert Gaps(req)[..|req|] == Gaps(req);
    GrantsConserve(e, g);
    RemainderOfRow(e, req);
    if e >= Sum(g) {
      EnoughForAll(e, g);
      forall c | 0 <= c < |req| ensures Distribute(e, req).sizes[c].minimum == req[c].natural {
        var p := PositionOf(req, c);
        GotIsGrant(e, req, p);
      }
    } else {
      RemainderAboveMinusOne(e, g);
      if Remainder(e, g) > 0.0 {
        LeftoverMeansSatisfied(e, g);
      }
    }
  }

  /** A child left short gets what any other child gets, up to the harmonic slack, and at least as
      much as every child the comparator serves after it. */
  lemma {:induction false} DistributeFair(e: real, req: seq<RequestedSize>, i: nat, j: nat)
    requires ValidRequests(req) && i < |req| && j < |req|
    requires Distribute(e, req).sizes[i].minimum < req[i].natural
    ensures Got(e, req, i) >= Got(e, req, j) - Harmonic(|req| - 1)
    ensures CompareGap(req, j, i) <= 0 ==> Got(e, req, i) >= Got(e, req, j)
  {
    hide Grants, Row, Harmonic, CompareGap, SpreadingOrder, Distribute;
    RowProperties(req);
    var p := PositionOf(req, i);
    var q := PositionOf(req, j);
    GotIsGrant(e, req, p);
    GotIsGrant(e, req, q);
    GrantsFair(e, Row(req), p, q);
    if p < q {
      ServedInOrder(req, p, q);
    }
  }

  lemma {:induction false} ServedInOrder(req: seq<RequestedSize>, p: nat, q: nat)
    requires p < q < |req|
    ensures CompareGap(req, SpreadingOrder(req, |req|)[q], SpreadingOrder(req, |req|)[p]) > 0
  {
    hide SpreadingOrder;
    SpreadingOrderSorts(req, |req|);
    var order := SpreadingOrder(req, |req|);
    assert CompareGap(req, order[p], order[q]) < 0;
  }

  lemma GrantsFair(e: real, g: seq<real>, p: nat, q: nat)
    requires NonNegative(g) && TruncatedSorted(g)
    requires p < |g| && q < |g| && Grants(e, g)[p] < g[p]
    ensures Grants(e, g)[p] >= Grants(e, g)[q] - Harmonic(|g| - 1)
    ensures q <= p ==> Grants(e, g)[p] >= Grants(e, g)[q]
  {
    hide Grants, Harmonic, TruncatedSorted;
    HarmonicMonotone(0, |g| - 1);
    if q < p {
      ShortChildGetsNoLessThanLater(e, g, p, q);
    } else if p < q {
      EarlierGrantsWithinSlack(e, g, p, q);
      HarmonicMonotone(q, |g| - 1);
    }
  }

  /** The slack cannot be improved: for every number of children some request attains it. */
  lemma FairnessSlackIsTight(n: nat) returns (e: real, req: seq<RequestedSize>, i: nat, j: nat)
    requires n > 0
    ensures ValidRequests(req) && |req| == n && i < n && j < n
    ensures Distribute(e, req).sizes[i].minimum < req[i].natural
    ensures Got(e, req, i) == Got(e, req, j) - Harmonic(n - 1)
  {
    hide Glue, Grants, Harmonic, Distribute, SpreadingOrder;
    HarmonicMonotone(0, n);
    ProductNonNegative(Harmonic(n), n as real);
    e := Harmonic(n) * n as real + 1.0;
    GluePositive(e, n);
    var big := Glue(e, n) + 1.0;
    req := seq(n, _ => RequestedSize(0.0, big));
    i, j := SpreadingOrder(req, n)[0], SpreadingOrder(req, n)[n - 1];
    SlackAttained(e, Row(req));
    HarmonicMonotone(0, n - 1);
    GotIsGrant(e, req, 0);
    GotIsGrant(e, req, n - 1);
  }

  /** Goal b): with `d` more pixels every child grows, by no more than `max(d, (d + n - 1) / n)`. */
  lemma {:induction false} DistributeContinuous(e: real, d: real, req: seq<RequestedSize>, c: nat)
    requires ValidRequests(req) && c < |req| && d >= 0.0
    ensures 0.0 <= Got(e + d, req, c) - Got(e, req, c) <= Drift(d, |req|)
    ensures d <= 1.0 ==> Drift(d, |req|) <= 1.0
    ensures d < 1.0 ==> Drift(d, |req|) < 1.0
  {
    hide Grants, Row, Drift, SpreadingOrder, Distribute;
    RowProperties(req);
    var p := PositionOf(req, c);
    GotIsGrant(e, req, p);
    GotIsGrant(e + d, req, p);
    TwoRuns(e, d, Row(req), p);
    DriftBelowOne(d, |req|);
  }

  lemma DriftBelowOne(d: real, n: nat)
    requires n > 0 && d >= 0.0
    ensures d <= 1.0 ==> Drift(d, n) <= 1.0
    ensures d < 1.0 ==> Drift(d, n) < 1.0
  {
    hide Glue;
    GlueProduct(d, n);
    assert (Glue(d, n) - 1.0) * n as real == d - 1.0;
    ScaleSign(Glue(d, n) - 1.0, n as real);
  }

  // --- the method ------------------------------------------------------------------------------

  /** Loop invariant in one equation: what is left to run gives what the whole run gives. */
  method DistributeNaturalAllocation(extra: real, sizes: array<RequestedSize>) returns (r: real)
    modifies sizes
    ensures extra < 0.0 ==> r == 0.0 && sizes[..] == old(sizes[..])
    ensures extra >= 0.0 ==> Outcome(sizes[..], r) == Distribute(extra, old(sizes[..]))
  {
    hide Glue, Spread, SpreadingOrder;
    if !(extra >= 0.0) { return 0.0; }
    var spreading := SpreadingOrder(sizes[..], sizes.Length);
    ghost var whole := Spread(extra, sizes[..], spreading);
    r := extra;
    var i := sizes.Length - 1;
    assert spreading[..i + 1] == spreading;
    while r > 0.0 && i >= 0
      invariant -1 <= i < sizes.Length
      invariant Spread(r, sizes[..], spreading[..i + 1]) == whole
      decreases i
    {
      var c := spreading[i];
      var glue := Glue(r, i + 1);
      var gap := sizes[c].natural - sizes[c].minimum;
      var x := Min(glue, gap);
      StepOfLoop(r, sizes[..], spreading, i);
      ghost var before := sizes[..];
      sizes[c] := sizes[c].(minimum := sizes[c].minimum + x);
      assert sizes[..] == GiveTo(before, c, x);
      r := r - x;
      i := i - 1;
    }
    SpreadFinished(r, sizes[..], spreading[..i + 1]);
  }

  lemma {:induction false} StepOfLoop(r: real, req: seq<RequestedSize>, spreading: seq<nat>, i: nat)
    requires i < |spreading| && Indices(spreading, |req|) && r > 0.0
    ensures var c := spreading[i];
            var x := Min(Glue(r, i + 1), Gap(req[c]));
            Spread(r, req, spreading[..i + 1]) == Spread(r - x, GiveTo(req, c, x), spreading[..i])
  {
    hide Glue;
    var left := spreading[..i + 1];
    assert left[..i] == spreading[..i];
    SpreadStep(r, req, left);
  }

  lemma {:induction false} SpreadFinished(r: real, req: seq<RequestedSize>, left: seq<nat>)
    requires Indices(left, |req|)
    requires r <= 0.0 || left == []
    ensures Spread(r, req, left) == Outcome(req, r)
  {
    hide Glue;
    if r <= 0.0 { SpreadStopped(r, req, left); }
  }
}
