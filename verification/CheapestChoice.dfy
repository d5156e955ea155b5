/** Choosing children from a row of gaps: the smallest gaps are the cheapest choice. */
module CheapestChoice {
  import opened RealArithmetic
  import opened BoxDistribution

  /** A choice of children, how many it has, and what serving them in full would cost. */
  ghost function Picked(pick: seq<bool>): (n: nat)
    ensures n <= |pick|
  {
    if pick == [] then 0 else Picked(pick[..|pick| - 1]) + if pick[|pick| - 1] then 1 else 0
  }

  ghost function Cost(pick: seq<bool>, g: seq<real>): real
    requires |pick| == |g|
  {
    if g == [] then 0.0
    else Cost(pick[..|g| - 1], g[..|g| - 1]) + if pick[|g| - 1] then g[|g| - 1] else 0.0
  }

  /** The last `k` gaps of a row. */
  function LastSum(g: seq<real>, k: nat): real
    requires k <= |g|
  {
    if k == 0 then 0.0 else g[|g| - 1] + LastSum(g[..|g| - 1], k - 1)
  }

  function InsertGap(g: seq<real>, q: real): (h: seq<real>)
    ensures |h| == |g| + 1
  {
    if g == [] || g[|g| - 1] >= q then g + [q] else InsertGap(g[..|g| - 1], q) + [g[|g| - 1]]
  }

  function SortRow(g: seq<real>): (h: seq<real>)
    ensures |h| == |g|
  {
    if g == [] then [] else InsertGap(SortRow(g[..|g| - 1]), g[|g| - 1])
  }

  /** The `k` smallest gaps of a row. */
  function Smallest(g: seq<real>, k: nat): real
    requires k <= |g|
  {
    LastSum(SortRow(g), k)
  }

  lemma {:induction false} InsertGapSorted(g: seq<real>, q: real)
    requires SortedRow(g)
    ensures SortedRow(InsertGap(g, q))
    ensures forall i :: 0 <= i <= |g| ==> InsertGap(g, q)[i] == q || InsertGap(g, q)[i] in g
    ensures NonNegative(g) && q >= 0.0 ==> NonNegative(InsertGap(g, q))
  {
    if g != [] && g[|g| - 1] < q {
      InsertGapSorted(g[..|g| - 1], q);
    }
  }

  lemma {:induction false} SortRowSorted(g: seq<real>)
    ensures SortedRow(SortRow(g))
    ensures NonNegative(g) ==> NonNegative(SortRow(g))
  {
    if g != [] {
      SortRowSorted(g[..|g| - 1]);
      InsertGapSorted(SortRow(g[..|g| - 1]), g[|g| - 1]);
    }
  }

  lemma {:induction false} SortedRowKept(g: seq<real>)
    requires SortedRow(g)
    ensures SortRow(g) == g
  {
    hide SortedRow, InsertGap;
    if g != [] {
      var last := |g| - 1;
      SortedRowSplit(g);
      SortedRowKept(g[..last]);
    }
  }

  lemma SortedRowSplit(g: seq<real>)
    requires SortedRow(g) && g != []
    ensures var last := |g| - 1;
            SortedRow(g[..last]) && InsertGap(g[..last], g[last]) == g
  {
    var last := |g| - 1;
    PrefixOfRow(g, last);
    assert g == g[..last] + [g[last]];
    if last > 0 { assert g[last - 1] >= g[last]; }
  }

  /** Sorting forgets the order it is given. */
  lemma {:induction false} InsertCommutes(g: seq<real>, a: real, b: real)
    ensures InsertGap(InsertGap(g, a), b) == InsertGap(InsertGap(g, b), a)
  {
    InsertTwice(g, a, b);
    InsertTwice(g, b, a);
    if g != [] && g[|g| - 1] < a && g[|g| - 1] < b {
      InsertCommutes(g[..|g| - 1], a, b);
    }
  }

  lemma InsertTwice(g: seq<real>, a: real, b: real)
    ensures InsertGap(InsertGap(g, a), b) ==
            if g == [] || g[|g| - 1] >= a then
              (if a >= b then g + [a, b] else InsertGap(g, b) + [a])
            else
              var l, rest := g[|g| - 1], g[..|g| - 1];
              if l >= b then InsertGap(rest, a) + [l, b] else InsertGap(InsertGap(rest, a), b) + [l]
  {
    if g == [] || g[|g| - 1] >= a {
      assert (g + [a])[..|g|] == g;
    } else {
      assert InsertGap(g, a)[..|g|] == InsertGap(g[..|g| - 1], a);
    }
  }

  lemma {:induction false} SortCons(x: real, s: seq<real>)
    ensures SortRow([x] + s) == InsertGap(SortRow(s), x)
  {
    var r := [x] + s;
    assert r[..|r| - 1] == if s == [] then [] else [x] + s[..|s| - 1];
    if s != [] {
      SortCons(x, s[..|s| - 1]);
      InsertCommutes(SortRow(s[..|s| - 1]), x, s[|s| - 1]);
    }
  }

  lemma {:induction false} NextOfLast(g: seq<real>, k: nat, q: real)
    requires 0 < k <= |g| && forall i :: 0 <= i < |g| ==> g[i] >= q
    ensures LastSum(g, k) >= LastSum(g, k - 1) + q
    decreases |g|
  {
    if k > 1 { NextOfLast(g[..|g| - 1], k - 1, q); }
  }

  /** The `k` smallest gaps after an insertion leave the new gap out or use it. */
  lemma {:induction false} LastSumInserted(g: seq<real>, q: real, k: nat)
    requires SortedRow(g) && 0 < k <= |g| + 1
    ensures LastSum(InsertGap(g, q), k) ==
            if k <= |g| then Min(LastSum(g, k), LastSum(g, k - 1) + q) else LastSum(g, k - 1) + q
    decreases |g|
  {
    hide LastSum, SortedRow;
    var last := |g| - 1;
    if g == [] || g[last] >= q {
      LastSumAppend(g, q, k);
      if k <= |g| {
        LastIsLeast(g);
        NextOfLast(g, k, q);
      }
    } else {
      var rest := g[..last];
      PrefixOfRow(g, last);
      assert g == rest + [g[last]];
      LastSumAppend(InsertGap(rest, q), g[last], k);
      if k <= |g| { LastSumAppend(rest, g[last], k); }
      if k > 1 {
        LastSumAppend(rest, g[last], k - 1);
        LastSumInserted(rest, q, k - 1);
      }
    }
  }

  lemma LastSumAppend(g: seq<real>, x: real, k: nat)
    requires 0 < k <= |g| + 1
    ensures LastSum(g + [x], k) == x + LastSum(g, k - 1)
    ensures LastSum(g, 0) == 0.0 && LastSum(g + [x], 0) == 0.0
  {
    assert (g + [x])[..|g|] == g;
  }

  lemma LastIsLeast(g: seq<real>)
    requires SortedRow(g) && g != []
    ensures forall i :: 0 <= i < |g| ==> g[i] >= g[|g| - 1]
  {
  }

  lemma SmallestStep(g: seq<real>, k: nat)
    requires 0 < k <= |g|
    ensures var last := |g| - 1;
            var rest := g[..last];
            Smallest(g, k) == if k < |g| then Min(Smallest(rest, k), Smallest(rest, k - 1) + g[last])
                              else Smallest(rest, k - 1) + g[last]
  {
    hide LastSum, InsertGap, SortedRow;
    SortRowSorted(g[..|g| - 1]);
    LastSumInserted(SortRow(g[..|g| - 1]), g[|g| - 1], k);
  }

  /** No choice of children costs less than as many of the smallest gaps. */
  lemma {:induction false} SmallestIsCheapest(pick: seq<bool>, g: seq<real>)
    requires |pick| == |g|
    ensures Cost(pick, g) >= Smallest(g, Picked(pick))
    decreases |g|
  {
    hide Smallest;
    var k := Picked(pick);
    if g == [] || k == 0 {
      NothingPicked(pick, g);
    } else {
      SmallestIsCheapest(pick[..|g| - 1], g[..|g| - 1]);
      SmallestStep(g, k);
    }
  }

  lemma {:induction false} NothingPicked(pick: seq<bool>, g: seq<real>)
    requires |pick| == |g| && Picked(pick) == 0
    ensures Cost(pick, g) == 0.0 == Smallest(g, 0)
  {
    if g != [] { NothingPicked(pick[..|g| - 1], g[..|g| - 1]); }
  }

  /** ... and some choice costs exactly that. */
  lemma {:induction false} SmallestIsAttained(g: seq<real>, k: nat) returns (pick: seq<bool>)
    requires k <= |g|
    ensures |pick| == |g| && Picked(pick) == k && Cost(pick, g) == Smallest(g, k)
    decreases |g|
  {
    hide Smallest;
    pick := [];
    if g != [] {
      var last := |g| - 1;
      var rest := g[..last];
      if k > 0 { SmallestStep(g, k); }
      var use := k > last || (k > 0 && Smallest(rest, k - 1) + g[last] <= Smallest(rest, k));
      var init := SmallestIsAttained(rest, if use then k - 1 else k);
      pick := init + [use];
      assert pick[..last] == init;
    }
    if k == 0 { NothingPicked(pick, g); }
  }

  lemma {:induction false} LastSumMonotone(g: seq<real>, k: nat, n: nat)
    requires NonNegative(g) && k <= n <= |g|
    ensures LastSum(g, k) <= LastSum(g, n)
    decreases |g|
  {
    if n > 0 {
      LastSumMonotone(g[..|g| - 1], if k == 0 then 0 else k - 1, n - 1);
    }
  }

  lemma SmallestMonotone(g: seq<real>, k: nat, n: nat)
    requires NonNegative(g) && k <= n <= |g|
    ensures Smallest(g, k) <= Smallest(g, n)
  {
    SortRowSorted(g);
    LastSumMonotone(SortRow(g), k, n);
  }

  lemma {:induction false} NonePicked(pick: seq<bool>)
    requires forall i :: 0 <= i < |pick| ==> !pick[i]
    ensures Picked(pick) == 0
  {
    if pick != [] { NonePicked(pick[..|pick| - 1]); }
  }

  lemma {:induction false} PickedMonotone(pick: seq<bool>, more: seq<bool>)
    requires |pick| == |more| && forall i :: 0 <= i < |pick| && pick[i] ==> more[i]
    ensures Picked(pick) <= Picked(more)
  {
    if pick != [] { PickedMonotone(pick[..|pick| - 1], more[..|pick| - 1]); }
  }

  lemma PickOfTwo(a: bool, b: bool, big: real, small: real)
    ensures Picked([a, b]) == (if a then 1 else 0) + if b then 1 else 0
    ensures Cost([a, b], [big, small]) == (if a then big else 0.0) + if b then small else 0.0
  {
    assert [a, b][..1] == [a] && [big, small][..1] == [big];
    assert Picked([a]) == Picked([a][..0]) + if a then 1 else 0;
    assert Cost([a], [big]) == Cost([a][..0], [big][..0]) + if a then big else 0.0;
  }

  function Floors(g: seq<real>): (h: seq<real>)
    ensures |h| == |g|
  {
    seq(|g|, i requires 0 <= i < |g| => g[i].Floor as real)
  }

  lemma {:induction false} CostMonotone(pick: seq<bool>, g: seq<real>, h: seq<real>)
    requires |pick| == |g| == |h| && forall i :: 0 <= i < |g| ==> h[i] <= g[i]
    ensures Cost(pick, h) <= Cost(pick, g)
    decreases |g|
  {
    if g != [] { CostMonotone(pick[..|g| - 1], g[..|g| - 1], h[..|g| - 1]); }
  }

  /** How many children could be served in the order of the row. */
  function Affordable(e: real, g: seq<real>): (n: nat)
    ensures n <= |g|
    decreases |g|
  {
    if g == [] || g[|g| - 1] > e then 0 else 1 + Affordable(e - g[|g| - 1], g[..|g| - 1])
  }

  lemma {:induction false} AffordableCounts(e: real, g: seq<real>, k: nat)
    requires NonNegative(g) && 0 < k <= |g|
    ensures k <= Affordable(e, g) <==> LastSum(g, k) <= e
    decreases |g|
  {
    var rest := g[..|g| - 1];
    LastSumMonotone(rest, 0, k - 1);
    if k > 1 { AffordableCounts(e - g[|g| - 1], rest, k - 1); }
  }
}
