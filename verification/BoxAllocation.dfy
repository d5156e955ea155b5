/** The two callers of the distribution loop: the real allocation and the virtual one used to
    measure the opposite orientation (clutter-box-layout.c). */
module BoxAllocation {
  import opened RealArithmetic
  import opened BoxDistribution
  import opened BoxSpreading

  datatype Child = Child(visible: bool, expand: bool, request: RequestedSize)

  datatype Orientation = Horizontal | Vertical

  datatype Layout = Layout(orientation: Orientation, homogeneous: bool, spacing: nat)

  datatype ActorBox = ActorBox(x1: real, y1: real, x2: real, y2: real)

  // --- counting and collecting the visible children ----------------------------------------------

  function Visible(children: seq<Child>): (vis: seq<Child>)
    ensures |vis| <= |children|
  {
    if children == [] then [] else
      var last := children[|children| - 1];
      Visible(children[..|children| - 1]) + (if last.visible then [last] else [])
  }

  function Expanders(vis: seq<Child>): nat {
    if vis == [] then 0
    else Expanders(vis[..|vis| - 1]) + (if vis[|vis| - 1].expand then 1 else 0)
  }

  function Requests(vis: seq<Child>): (req: seq<RequestedSize>)
    ensures |req| == |vis|
  {
    seq(|vis|, k requires 0 <= k < |vis| => vis[k].request)
  }

  function TruncatedMinima(vis: seq<Child>): int {
    if vis == [] then 0
    else TruncatedMinima(vis[..|vis| - 1]) + Trunc(vis[|vis| - 1].request.minimum)
  }

  /** The visible children, all of them and nothing else, in order. */
  lemma {:induction false} VisibleMeans(children: seq<Child>, i: nat)
    requires i < |children|
    ensures forall c :: c in Visible(children) ==> c.visible && c in children
    ensures children[i].visible ==>
              var k := |Visible(children[..i])|; k < |Visible(children)| && Visible(children)[k] == children[i]
    ensures multiset(Visible(children))[children[i]] ==
            if children[i].visible then multiset(children)[children[i]] else 0
  {
    VisibleOnly(children);
    VisiblePrefix(children, i);
    VisibleCounts(children, children[i]);
  }

  lemma {:induction false} VisibleOnly(children: seq<Child>)
    ensures forall c :: c in Visible(children) ==> c.visible && c in children
  {
    if children != [] { VisibleOnly(children[..|children| - 1]); }
  }

  lemma {:induction false} VisibleCounts(children: seq<Child>, c: Child)
    ensures multiset(Visible(children))[c] == if c.visible then multiset(children)[c] else 0
  {
    if children != [] {
      var last := |children| - 1;
      VisibleCounts(children[..last], c);
      assert children == children[..last] + [children[last]];
    }
  }

  lemma {:induction false} VisiblePrefix(children: seq<Child>, i: nat)
    requires i <= |children|
    ensures Visible(children[..i]) <= Visible(children)
    ensures i < |children| && children[i].visible ==>
              var k := |Visible(children[..i])|; k < |Visible(children)| && Visible(children)[k] == children[i]
    decreases |children| - i
  {
    if i < |children| {
      VisiblePrefix(children, i + 1);
      VisibleStep(children, i);
    } else {
      assert children[..i] == children;
    }
  }

  method CountExpandChildren(children: seq<Child>) returns (visible: nat, expand: nat)
    ensures visible == |Visible(children)|
    ensures expand == Expanders(Visible(children))
  {
    visible, expand := 0, 0;
    for i := 0 to |children|
      invariant visible == |Visible(children[..i])|
      invariant expand == Expanders(Visible(children[..i]))
    {
      VisibleStep(children, i);
      if children[i].visible {
        visible := visible + 1;
        if children[i].expand { expand := expand + 1; }
      }
    }
    assert children[..|children|] == children;
  }

  lemma {:induction false} VisibleStep(children: seq<Child>, i: nat)
    requires i < |children|
    ensures var before := Visible(children[..i]);
            Visible(children[..i + 1]) == if children[i].visible then before + [children[i]] else before
    ensures children[i].visible ==>
              Expanders(Visible(children[..i + 1])) ==
              Expanders(Visible(children[..i])) + (if children[i].expand then 1 else 0)
  {
    assert children[..i + 1][..i] == children[..i];
    var v := Visible(children[..i + 1]);
    assert children[i].visible ==> v[..|v| - 1] == Visible(children[..i]);
  }

  // --- child sizes -------------------------------------------------------------------------------

  /** Pixels that the `k`-th visible child gets on top when `spare` pixels are shared by expanders. */
  function Bonus(vis: seq<Child>, k: nat, spare: int): int
    requires k < |vis|
  {
    if !vis[k].expand || Expanders(vis) == 0 then 0
    else CDiv(spare, Expanders(vis)) + (if Expanders(vis[..k]) < CMod(spare, Expanders(vis)) then 1 else 0)
  }

  function Space(vis: seq<Child>, avail: int): real {
    Max(0.0, (avail - TruncatedMinima(vis)) as real)
  }

  /** The sizes `allocate` gives to the visible children of a non-homogeneous box. */
  function FlexibleSizes(vis: seq<Child>, avail: int): (s: seq<real>)
    ensures |s| == |vis|
  {
    var o := Distribute(Space(vis, avail), Requests(vis));
    seq(|vis|, k requires 0 <= k < |vis| => o.sizes[k].minimum + Bonus(vis, k, Trunc(o.remainder)) as real)
  }

  /** The sizes of the cells of a homogeneous box. */
  function Cells(n: nat, avail: int): (s: seq<real>)
    ensures |s| == n
  {
    seq(n, k requires 0 <= k < n => (CDiv(avail, n) + (if k < CMod(avail, n) then 1 else 0)) as real)
  }

  function ChildSizes(layout: Layout, vis: seq<Child>, avail: int): (s: seq<real>)
    ensures |s| == |vis|
  {
    if layout.homogeneous then Cells(|vis|, avail) else FlexibleSizes(vis, avail)
  }

  /** The sizes the virtual allocation computes, where the division is not truncated. */
  function VirtualSizes(layout: Layout, vis: seq<Child>, forSize: real): (s: seq<real>)
    ensures |s| == |vis|
  {
    var n := |vis|;
    var size := forSize - ((n - 1) * layout.spacing) as real;
    if layout.homogeneous then
      seq(n, k requires 0 <= k < n => Ratio(size, n) + (if k < CMod(Trunc(size), n) then 1.0 else 0.0))
    else
      var o := Distribute(Max(0.0, size - Sum(Minima(Requests(vis)))), Requests(vis));
      seq(n, k requires 0 <= k < n => o.sizes[k].minimum + VirtualBonus(vis, k, o.remainder))
  }

  /** Division of a size by a number of children, in floating point. */
  function Ratio(x: real, n: nat): real
    requires n > 0
  {
    x / n as real
  }

  function VirtualBonus(vis: seq<Child>, k: nat, spare: real): real
    requires k < |vis|
  {
    if !vis[k].expand || Expanders(vis) == 0 then 0.0
    else Ratio(spare, Expanders(vis)) +
         (if Expanders(vis[..k]) < CMod(Trunc(spare), Expanders(vis)) then 1.0 else 0.0)
  }

  // --- conservation --------------------------------------------------------------------------------

  ghost predicate IsInt(x: real) { x == x.Floor as real }

  ghost predicate IntegralRequests(vis: seq<Child>) {
    forall k :: 0 <= k < |vis| ==> IsInt(vis[k].request.minimum) && IsInt(vis[k].request.natural)
  }

  lemma {:induction false} ExpandersPositive(vis: seq<Child>, k: nat)
    requires k < |vis| && vis[k].expand
    ensures Expanders(vis[..k]) < Expanders(vis)
  {
    ExpandersMonotone(vis, k + 1);
    assert vis[..k + 1][..k] == vis[..k];
  }

  lemma {:induction false} ExpandersMonotone(vis: seq<Child>, k: nat)
    requires k <= |vis|
    ensures Expanders(vis[..k]) <= Expanders(vis)
  {
    if k == |vis| {
      assert vis[..k] == vis;
    } else {
      ExpandersMonotone(vis[..|vis| - 1], k);
      assert vis[..|vis| - 1][..k] == vis[..k];
    }
  }

  function Bonuses(vis: seq<Child>, spare: int, k: nat): int
    requires k <= |vis|
  {
    if k == 0 then 0 else Bonuses(vis, spare, k - 1) + Bonus(vis, k - 1, spare)
  }

  /** What the first `e` expanders take: a full share each plus the early odd pixels. */
  function Taken(q: int, r: int, e: nat): int {
    q * e + if e < r then e else r
  }

  lemma TakenStep(q: int, r: int, e: nat)
    requires r >= 0
    ensures Taken(q, r, e + 1) == Taken(q, r, e) + q + if e < r then 1 else 0
    ensures Taken(q, r, 0) == 0
  {
    assert q * (e + 1) == q * e + q;
  }

  lemma {:induction false} BonusesSoFar(vis: seq<Child>, spare: int, k: nat)
    requires k <= |vis| && Expanders(vis) > 0 && spare >= 0
    ensures Bonuses(vis, spare, k) ==
            Taken(CDiv(spare, Expanders(vis)), CMod(spare, Expanders(vis)), Expanders(vis[..k]))
  {
    hide CDiv, CMod, Taken;
    CModBounds(spare, Expanders(vis));
    var q, r := CDiv(spare, Expanders(vis)), CMod(spare, Expanders(vis));
    if k > 0 {
      BonusesSoFar(vis, spare, k - 1);
      assert vis[..k][..k - 1] == vis[..k - 1];
      TakenStep(q, r, Expanders(vis[..k - 1]));
    } else {
      TakenStep(q, r, 0);
    }
  }

  /** Expanders share the spare pixels exactly. */
  lemma {:induction false} BonusesExact(vis: seq<Child>, spare: int)
    requires spare >= 0
    ensures Bonuses(vis, spare, |vis|) == if Expanders(vis) > 0 then spare else 0
  {
    assert vis[..|vis|] == vis;
    if Expanders(vis) > 0 {
      CModBounds(spare, Expanders(vis));
      BonusesSoFar(vis, spare, |vis|);
      assert Expanders(vis) >= CMod(spare, Expanders(vis));
    } else {
      NoBonuses(vis, spare, |vis|);
    }
  }

  lemma {:induction false} NoBonuses(vis: seq<Child>, spare: int, k: nat)
    requires k <= |vis| && Expanders(vis) == 0
    ensures Bonuses(vis, spare, k) == 0
  {
    if k > 0 { NoBonuses(vis, spare, k - 1); }
  }

  lemma {:induction false} SumWithBonuses(vis: seq<Child>, minima: seq<real>, sizes: seq<real>, spare: int, k: nat)
    requires |minima| == |sizes| == |vis| && k <= |vis|
    requires forall i :: 0 <= i < |vis| ==> sizes[i] == minima[i] + Bonus(vis, i, spare) as real
    ensures Sum(sizes[..k]) == Sum(minima[..k]) + Bonuses(vis, spare, k) as real
  {
    if k > 0 {
      SumWithBonuses(vis, minima, sizes, spare, k - 1);
      assert sizes[..k][..k - 1] == sizes[..k - 1];
      assert minima[..k][..k - 1] == minima[..k - 1];
    }
  }

  /** Bookkeeping of a whole run, for any requests: what the children get, plus what distribution
      left over, minus what expanders took of it, is what there was. */
  lemma {:induction false} FlexibleTotal(vis: seq<Child>, avail: int)
    requires ValidRequests(Requests(vis))
    ensures var o := Distribute(Space(vis, avail), Requests(vis));
            && Trunc(o.remainder) >= 0
            && Sum(FlexibleSizes(vis, avail)) ==
               Sum(Minima(Requests(vis))) + Space(vis, avail) - o.remainder +
               (if Expanders(vis) > 0 then Trunc(o.remainder) as real else 0.0)
  {
    hide Distribute;
    var req, space := Requests(vis), Space(vis, avail);
    var o, s := Distribute(space, req), FlexibleSizes(vis, avail);
    DistributeConserves(space, req);
    DistributeExact(space, req);
    SumWithBonuses(vis, Minima(o.sizes), s, Trunc(o.remainder), |vis|);
    assert s[..|vis|] == s && Minima(o.sizes)[..|vis|] == Minima(o.sizes);
    BonusesExact(vis, Trunc(o.remainder));
  }

  lemma FloorOfInt(z: int)
    ensures (z as real).Floor == z
  {
  }

  lemma IntClosed(a: real, b: real)
    requires IsInt(a) && IsInt(b)
    ensures IsInt(a + b) && IsInt(a - b)
    ensures a >= 0.0 ==> Trunc(a) as real == a
  {
    var m, n := a.Floor, b.Floor;
    assert a + b == (m + n) as real && a - b == (m - n) as real;
    FloorOfInt(m + n);
    FloorOfInt(m - n);
  }

  lemma {:induction false} RequestsSplit(vis: seq<Child>)
    requires vis != []
    ensures var last := |vis| - 1;
            var req, init := Requests(vis), Requests(vis[..last]);
            && req[last] == vis[last].request && init == req[..last]
            && Sum(Minima(req)) == Sum(Minima(init)) + req[last].minimum
            && Sum(Gaps(req)) == Sum(Gaps(init)) + Gap(req[last])
  {
    var last := |vis| - 1;
    var req, init := Requests(vis), Requests(vis[..last]);
    assert init == req[..last];
    assert Minima(req)[..last] == Minima(init);
    assert Gaps(req)[..last] == Gaps(init);
  }

  lemma {:induction false} PrefixRequests(vis: seq<Child>)
    requires ValidRequests(Requests(vis)) && IntegralRequests(vis) && vis != []
    ensures var last := |vis| - 1;
            && ValidRequests(Requests(vis[..last])) && IntegralRequests(vis[..last])
            && IsInt(vis[last].request.minimum) && IsInt(vis[last].request.natural)
            && 0.0 <= vis[last].request.minimum <= vis[last].request.natural
  {
    var last := |vis| - 1;
    assert Requests(vis)[last] == vis[last].request;
    forall k | 0 <= k < last ensures Requests(vis[..last])[k] == Requests(vis)[k] {
    }
  }

  lemma {:induction false} IntegralMinima(vis: seq<Child>)
    requires ValidRequests(Requests(vis)) && IntegralRequests(vis)
    ensures TruncatedMinima(vis) as real == Sum(Minima(Requests(vis)))
    ensures IsInt(Sum(Gaps(Requests(vis))))
    ensures TruncatedMinima(vis) >= 0
  {
    MinimaAreTruncated(vis);
    GapsAreIntegral(vis);
  }

  lemma {:induction false} MinimaAreTruncated(vis: seq<Child>)
    requires ValidRequests(Requests(vis)) && IntegralRequests(vis)
    ensures TruncatedMinima(vis) as real == Sum(Minima(Requests(vis)))
    ensures TruncatedMinima(vis) >= 0
  {
    hide Requests, Minima, Gaps, Sum, Trunc, IsInt, ValidRequests, IntegralRequests;
    if vis == [] {
      NoRequests();
    } else {
      var m := vis[|vis| - 1].request.minimum;
      RequestsSplit(vis);
      PrefixRequests(vis);
      MinimaAreTruncated(vis[..|vis| - 1]);
      IntClosed(m, m);
    }
  }

  lemma {:induction false} GapsAreIntegral(vis: seq<Child>)
    requires ValidRequests(Requests(vis)) && IntegralRequests(vis)
    ensures IsInt(Sum(Gaps(Requests(vis))))
  {
    hide Requests, Minima, Gaps, Sum, Trunc, IsInt, ValidRequests, IntegralRequests;
    if vis == [] {
      NoRequests();
    } else {
      var r := vis[|vis| - 1].request;
      RequestsSplit(vis);
      PrefixRequests(vis);
      GapsAreIntegral(vis[..|vis| - 1]);
      IntClosed(r.natural, r.minimum);
      IntClosed(Sum(Gaps(Requests(vis[..|vis| - 1]))), Gap(r));
    }
  }

  lemma NoRequests()
    ensures Sum(Minima(Requests([]))) == 0.0 && IsInt(Sum(Gaps(Requests([]))))
  {
  }

  /** The remainder of a run over integral requests. */
  lemma {:induction false} IntegralRemainder(space: int, vis: seq<Child>)
    requires ValidRequests(Requests(vis)) && IntegralRequests(vis) && space >= 0
    ensures var o := Distribute(space as real, Requests(vis));
            var spare := space as real - Sum(Gaps(Requests(vis)));
            && (spare >= 0.0 ==> o.remainder == spare && Trunc(spare) as real == spare >= 0.0)
            && (spare < 0.0 ==> spare <= -1.0 && -1.0 < o.remainder <= 0.0 && Trunc(o.remainder) == 0)
  {
    hide Distribute, Gaps, Sum;
    IntegralMinima(vis);
    DistributeExact(space as real, Requests(vis));
    IntClosed(space as real, Sum(Gaps(Requests(vis))));
  }

  /** Integral requests that fit: no space is lost to rounding, and at most a pixel is overspent. */
  lemma {:induction false} AllocateConserves(vis: seq<Child>, avail: int)
    requires ValidRequests(Requests(vis)) && IntegralRequests(vis)
    requires avail as real >= Sum(Minima(Requests(vis)))
    ensures var total, spare := Sum(FlexibleSizes(vis, avail)),
                                avail as real - Sum(Minima(Requests(vis))) - Sum(Gaps(Requests(vis)));
            && (spare >= 0.0 && Expanders(vis) > 0 ==> total == avail as real)
            && (spare >= 0.0 && Expanders(vis) == 0 ==> total == avail as real - spare)
            && (spare < 0.0 ==> avail as real <= total < avail as real + 1.0)
  {
    hide Distribute, FlexibleSizes, Sum, Gaps, Minima, Requests, TruncatedMinima, Expanders, Trunc;
    hide IntegralRequests, ValidRequests;
    IntegralMinima(vis);
    FlexibleTotal(vis, avail);
    IntegralRemainder(avail - TruncatedMinima(vis), vis);
  }

  /** Homogeneous cells differ by at most a pixel, and fill the box exactly unless its size is
      negative and not a multiple of the number of children. */
  lemma CellsConserve(n: nat, avail: int)
    requires n > 0
    ensures Sum(Cells(n, avail)) == avail as real <==> avail >= 0 || CMod(avail, n) == 0
    ensures forall i, j :: 0 <= i < n && 0 <= j < n ==> -1.0 <= Cells(n, avail)[i] - Cells(n, avail)[j] <= 1.0
  {
    CModBounds(avail, n);
    CellsSum(n, avail, n);
    assert Cells(n, avail)[..n] == Cells(n, avail);
  }

  /** Earlier children get the odd pixels, in a homogeneous box and among those that expand. */
  lemma {:induction false} OddPixelsFirst(vis: seq<Child>, avail: int, spare: int, i: nat, j: nat)
    requires i < j < |vis|
    ensures Cells(|vis|, avail)[i] >= Cells(|vis|, avail)[j]
    ensures vis[i].expand && vis[j].expand ==> Bonus(vis, i, spare) >= Bonus(vis, j, spare)
  {
    hide CDiv, CMod;
    ExpandersMonotone(vis[..j], i);
    assert vis[..j][..i] == vis[..i];
  }

  lemma {:induction false} CellsSum(n: nat, avail: int, k: nat)
    requires k <= n && n > 0
    ensures var r := CMod(avail, n);
            Sum(Cells(n, avail)[..k]) ==
            (CDiv(avail, n) * k + (if r <= 0 then 0 else if k < r then k else r)) as real
  {
    hide CDiv, CMod;
    CModBounds(avail, n);
    if k > 0 {
      CellsSum(n, avail, k - 1);
      assert Cells(n, avail)[..k][..k - 1] == Cells(n, avail)[..k - 1];
      assert CDiv(avail, n) * k == CDiv(avail, n) * (k - 1) + CDiv(avail, n);
    }
  }

  // --- virtual against real ------------------------------------------------------------------------

  function Times(q: real, n: nat): real { q * n as real }

  lemma RatioBounds(x: real, q: real, n: nat)
    requires n > 0
    ensures 0.0 <= x - Times(q, n) < n as real ==> 0.0 <= Ratio(x, n) - q < 1.0
    ensures -(n as real) < x - Times(q, n) <= 0.0 ==> -1.0 < Ratio(x, n) - q <= 0.0
  {
    var k := n as real;
    var u := x / k - q;
    assert u * k == x - q * k;
    ScaleSign(u, k);
    ScaleSign(u - 1.0, k);
    ScaleSign(u + 1.0, k);
  }

  /** Dividing before or after truncation moves a share by less than a pixel. */
  lemma ShareTruncation(a: int, d: real, n: nat)
    requires n > 0 && 0.0 <= d < 1.0
    ensures a >= 0 ==> 0.0 <= Ratio(a as real + d, n) - CDiv(a, n) as real < 1.0
    ensures a <= 0 ==> -1.0 < Ratio(a as real - d, n) - CDiv(a, n) as real <= 0.0
  {
    hide CDiv, CMod, Ratio, Times;
    DivisionAsReal(a, n);
    RatioBounds(a as real + d, CDiv(a, n) as real, n);
    RatioBounds(a as real - d, CDiv(a, n) as real, n);
  }

  lemma DivisionAsReal(a: int, n: nat)
    requires n > 0
    ensures var r := a as real - Times(CDiv(a, n) as real, n);
            && (a >= 0 ==> 0.0 <= r <= n as real - 1.0)
            && (a <= 0 ==> 1.0 - n as real <= r <= 0.0)
  {
    hide CDiv, CMod;
    CModBounds(a, n);
    ZeroShare(n);
    ProductAsReal(CDiv(a, n), n);
    assert a as real == (CDiv(a, n) * n) as real + CMod(a, n) as real;
  }

  lemma ZeroShare(n: nat)
    requires n > 0
    ensures CDiv(0, n) == 0 && CMod(0, n) == 0
  {
  }

  ghost predicate Near(a: real, b: real) { -1.0 < a - b < 1.0 }

  lemma {:induction false} VirtualCellsNearReal(layout: Layout, vis: seq<Child>, forSize: real, k: nat)
    requires layout.homogeneous && k < |vis|
    ensures var avail := Trunc(forSize - ((|vis| - 1) * layout.spacing) as real);
            Near(VirtualSizes(layout, vis, forSize)[k], ChildSizes(layout, vis, avail)[k])
  {
    var n := |vis|;
    var size := forSize - ((n - 1) * layout.spacing) as real;
    var a := Trunc(size);
    ShareTruncation(a, if size >= 0.0 then size - a as real else a as real - size, n);
  }

  /** The spare pixels of the virtual run against those of the real one. */
  lemma {:induction false} VirtualBonusNear(vis: seq<Child>, k: nat, spare: int, d: real)
    requires k < |vis| && spare >= 0 && 0.0 <= d < 1.0
    ensures 0.0 <= VirtualBonus(vis, k, spare as real + d) - Bonus(vis, k, spare) as real < 1.0
  {
    if vis[k].expand {
      ExpandersPositive(vis, k);
      ShareTruncation(spare, d, Expanders(vis));
      assert Trunc(spare as real + d) == spare;
    }
  }

  lemma {:induction false} VirtualDebtNear(vis: seq<Child>, k: nat, spare: real)
    requires k < |vis| && -1.0 < spare <= 0.0
    ensures -1.0 < VirtualBonus(vis, k, spare) <= 0.0
    ensures Bonus(vis, k, 0) == 0
  {
    if vis[k].expand {
      ExpandersPositive(vis, k);
      ShareTruncation(0, -spare, Expanders(vis));
      assert Trunc(spare) == 0;
      CModBounds(0, Expanders(vis));
    }
  }

  /** The real run truncates the size it distributes; the virtual run does not. */
  lemma {:induction false} SpacesNear(vis: seq<Child>, size: real)
    requires ValidRequests(Requests(vis)) && IntegralRequests(vis)
    ensures 0.0 <= Max(0.0, size - Sum(Minima(Requests(vis)))) - Space(vis, Trunc(size)) < 1.0
  {
    hide Sum, Minima, Requests, TruncatedMinima;
    IntegralMinima(vis);
  }

  lemma {:induction false} FlexibleNear(vis: seq<Child>, e: int, d: real, k: nat)
    requires ValidRequests(Requests(vis)) && IntegralRequests(vis) && k < |vis|
    requires e >= 0 && 0.0 <= d < 1.0
    ensures var o, o' := Distribute(e as real, Requests(vis)), Distribute(e as real + d, Requests(vis));
            Near(o'.sizes[k].minimum + VirtualBonus(vis, k, o'.remainder),
                 o.sizes[k].minimum + Bonus(vis, k, Trunc(o.remainder)) as real)
  {
    hide Distribute, Bonus, VirtualBonus, Sum, Gaps, Drift;
    var req := Requests(vis);
    IntegralRemainder(e, vis);
    DistributeExact(e as real, req);
    DistributeExact(e as real + d, req);
    DistributeContinuous(e as real, d, req, k);
    var o, o' := Distribute(e as real, req), Distribute(e as real + d, req);
    if e as real >= Sum(Gaps(req)) {
      VirtualBonusNear(vis, k, Trunc(o.remainder), d);
    } else {
      VirtualDebtNear(vis, k, o'.remainder);
    }
  }

  /** Measuring sees every child within a pixel of what allocation will give it. */
  lemma {:induction false} VirtualNearReal(layout: Layout, vis: seq<Child>, forSize: real, k: nat)
    requires ValidRequests(Requests(vis)) && IntegralRequests(vis) && k < |vis|
    ensures var avail := Trunc(forSize - ((|vis| - 1) * layout.spacing) as real);
            Near(VirtualSizes(layout, vis, forSize)[k], ChildSizes(layout, vis, avail)[k])
  {
    if layout.homogeneous {
      VirtualCellsNearReal(layout, vis, forSize, k);
    } else {
      VirtualFlexibleNearReal(layout, vis, forSize, k);
    }
  }

  lemma {:induction false} VirtualFlexibleNearReal(layout: Layout, vis: seq<Child>, forSize: real, k: nat)
    requires ValidRequests(Requests(vis)) && IntegralRequests(vis) && k < |vis|
    requires !layout.homogeneous
    ensures var avail := Trunc(forSize - ((|vis| - 1) * layout.spacing) as real);
            Near(VirtualSizes(layout, vis, forSize)[k], ChildSizes(layout, vis, avail)[k])
  {
    hide Distribute, Bonus, VirtualBonus, Sum, Minima, Requests, TruncatedMinima, Trunc, Near;
    var size := forSize - ((|vis| - 1) * layout.spacing) as real;
    var avail := Trunc(size);
    SpacesNear(vis, size);
    var space := avail - TruncatedMinima(vis);
    var e := if space >= 0 then space else 0;
    assert Space(vis, avail) == e as real;
    FlexibleNear(vis, e, Max(0.0, size - Sum(Minima(Requests(vis)))) - e as real, k);
  }

  lemma TimesNext(q: real, k: nat)
    ensures Times(q, 0) == 0.0 && (k > 0 ==> Times(q, k) == Times(q, k - 1) + q)
  {
  }

  /** Odd pixels handed out in the first `e` turns. */
  function Odd(r: int, e: nat): nat {
    if r <= 0 then 0 else if e < r then e else r
  }

  lemma OddNext(r: int, e: nat)
    ensures Odd(r, e + 1) == Odd(r, e) + (if e < r then 1 else 0) && Odd(r, 0) == 0
  {
  }

  lemma RatioTimes(x: real, n: nat)
    requires n > 0
    ensures Times(Ratio(x, n), n) == x
  {
  }

  lemma {:induction false} VirtualCellsSum(layout: Layout, vis: seq<Child>, forSize: real, k: nat)
    requires layout.homogeneous && k <= |vis| && |vis| > 0
    ensures var size := forSize - ((|vis| - 1) * layout.spacing) as real;
            Sum(VirtualSizes(layout, vis, forSize)[..k]) ==
            Times(Ratio(size, |vis|), k) + Odd(CMod(Trunc(size), |vis|), k) as real
  {
    hide CMod, Trunc, Ratio, Times, Odd, Distribute, Requests, Minima;
    var size := forSize - ((|vis| - 1) * layout.spacing) as real;
    TimesNext(Ratio(size, |vis|), k);
    if k == 0 {
      OddNext(CMod(Trunc(size), |vis|), 0);
    } else {
      VirtualCellsSum(layout, vis, forSize, k - 1);
      OddNext(CMod(Trunc(size), |vis|), k - 1);
      assert VirtualSizes(layout, vis, forSize)[..k][..k - 1] == VirtualSizes(layout, vis, forSize)[..k - 1];
    }
  }

  function VirtualBonuses(vis: seq<Child>, spare: real, k: nat): real
    requires k <= |vis|
  {
    if k == 0 then 0.0 else VirtualBonuses(vis, spare, k - 1) + VirtualBonus(vis, k - 1, spare)
  }

  lemma {:induction false} VirtualBonusesSoFar(vis: seq<Child>, spare: real, k: nat)
    requires k <= |vis| && Expanders(vis) > 0
    ensures VirtualBonuses(vis, spare, k) ==
            Times(Ratio(spare, Expanders(vis)), Expanders(vis[..k])) +
            Odd(CMod(Trunc(spare), Expanders(vis)), Expanders(vis[..k])) as real
  {
    hide CMod, Trunc, Ratio, Times, Odd;
    var share, r := Ratio(spare, Expanders(vis)), CMod(Trunc(spare), Expanders(vis));
    if k == 0 {
      TimesNext(share, 0);
      OddNext(r, 0);
    } else {
      VirtualBonusesSoFar(vis, spare, k - 1);
      assert vis[..k][..k - 1] == vis[..k - 1];
      TimesNext(share, Expanders(vis[..k - 1]) + 1);
      OddNext(r, Expanders(vis[..k - 1]));
    }
  }

  lemma {:induction false} SumWithVirtualBonuses(vis: seq<Child>, minima: seq<real>, sizes: seq<real>, spare: real,
                                                 k: nat)
    requires |minima| == |sizes| == |vis| && k <= |vis|
    requires forall i :: 0 <= i < |vis| ==> sizes[i] == minima[i] + VirtualBonus(vis, i, spare)
    ensures Sum(sizes[..k]) == Sum(minima[..k]) + VirtualBonuses(vis, spare, k)
  {
    hide VirtualBonus;
    if k > 0 {
      SumWithVirtualBonuses(vis, minima, sizes, spare, k - 1);
      assert sizes[..k][..k - 1] == sizes[..k - 1];
      assert minima[..k][..k - 1] == minima[..k - 1];
    }
  }

  lemma {:induction false} NoVirtualBonuses(vis: seq<Child>, spare: real, k: nat)
    requires k <= |vis| && Expanders(vis) == 0
    ensures VirtualBonuses(vis, spare, k) == 0.0
  {
    if k > 0 { NoVirtualBonuses(vis, spare, k - 1); }
  }

  /** What measuring hands out: the size it was asked about, plus the odd pixels, which it counts twice because
      its shares are not truncated. */
  lemma {:induction false} VirtualTotal(layout: Layout, vis: seq<Child>, forSize: real)
    requires vis != [] && ValidRequests(Requests(vis))
    ensures var size := forSize - ((|vis| - 1) * layout.spacing) as real;
            var total := Sum(VirtualSizes(layout, vis, forSize));
            if layout.homogeneous then total == size + Odd(CMod(Trunc(size), |vis|), |vis|) as real else
              var space := Max(0.0, size - Sum(Minima(Requests(vis))));
              var spare := Distribute(space, Requests(vis)).remainder;
              var all := Sum(Minima(Requests(vis))) + space;
              if Expanders(vis) == 0 then total == all - spare
              else total == all + Odd(CMod(Trunc(spare), Expanders(vis)), Expanders(vis)) as real
  {
    hide CMod, Trunc, Ratio, Times, Odd, Distribute, Sum, Minima, Requests, VirtualBonus, VirtualBonuses, ValidRequests;
    var n := |vis|;
    var size, s := forSize - ((n - 1) * layout.spacing) as real, VirtualSizes(layout, vis, forSize);
    assert s[..n] == s && vis[..n] == vis;
    if layout.homogeneous {
      VirtualCellsSum(layout, vis, forSize, n);
      RatioTimes(size, n);
    } else {
      var req := Requests(vis);
      var space := Max(0.0, size - Sum(Minima(req)));
      var o := Distribute(space, req);
      DistributeConserves(space, req);
      MinimaOf(o.sizes);
      SumWithVirtualBonuses(vis, Minima(o.sizes), s, o.remainder, n);
      assert Minima(o.sizes)[..n] == Minima(o.sizes);
      if Expanders(vis) == 0 {
        NoVirtualBonuses(vis, o.remainder, n);
      } else {
        VirtualBonusesSoFar(vis, o.remainder, n);
        RatioTimes(o.remainder, Expanders(vis));
      }
    }
  }

  lemma {:induction false} MinimaOf(req: seq<RequestedSize>)
    ensures forall i :: 0 <= i < |req| ==> Minima(req)[i] == req[i].minimum
  {
  }

  // --- positions -----------------------------------------------------------------------------------

  /** Where the `k`-th visible child starts: the running `x` or `y`, an `int`. */
  function Cursor(start: int, sizes: seq<real>, spacing: nat, k: nat): int
    requires k <= |sizes|
  {
    if k == 0 then start
    else Cursor(start, sizes, spacing, k - 1) + Trunc(sizes[k - 1] + spacing as real)
  }

  datatype Span = Span(lo: real, hi: real)

  function ChildSpan(at: int, expand: bool, size: real, minimum: real): Span {
    if expand then Span(at as real, at as real + Max(1.0, size))
    else
      var lo := at as real + (size - minimum) / 2.0;
      Span(lo, lo + minimum)
  }

  /** The minimum sizes in force when positions are assigned. */
  function FinalMinima(layout: Layout, vis: seq<Child>, avail: int): (m: seq<real>)
    ensures |m| == |vis|
  {
    if layout.homogeneous then Minima(Requests(vis))
    else Minima(Distribute(Space(vis, avail), Requests(vis)).sizes)
  }

  function Spans(layout: Layout, vis: seq<Child>, start: int, avail: int): (s: seq<Span>)
    ensures |s| == |vis|
  {
    var sizes, minima := ChildSizes(layout, vis, avail), FinalMinima(layout, vis, avail);
    seq(|vis|, k requires 0 <= k < |vis| =>
      ChildSpan(Cursor(start, sizes, layout.spacing, k), vis[k].expand, sizes[k], minima[k]))
  }

  /** Children do not overlap by more than a pixel: each starts no earlier than the previous end plus
      the spacing, less one. */
  lemma {:induction false} PlacementInOrder(layout: Layout, vis: seq<Child>, start: int, avail: int, k: nat)
    requires !layout.homogeneous && ValidRequests(Requests(vis)) && k + 1 < |vis|
    ensures var s := Spans(layout, vis, start, avail);
            s[k + 1].lo >= s[k].hi + layout.spacing as real - 1.0
  {
    hide Distribute, Bonus, Cursor, TruncatedMinima;
    var o := Distribute(Space(vis, avail), Requests(vis));
    var spare := Trunc(o.remainder);
    var sizes := FlexibleSizes(vis, avail);
    DistributeConserves(Space(vis, avail), Requests(vis));
    FlexibleTotal(vis, avail);
    BonusNonNegative(vis, k, spare);
    BonusNonNegative(vis, k + 1, spare);
    CursorStep(start, sizes, layout.spacing, k);
  }

  /** What a homogeneous cell leaves free before and after its child; negative where the child sticks out. */
  function FreeBefore(expand: bool, cell: real, minimum: real): real {
    if expand then 0.0 else (cell - minimum) / 2.0
  }

  function FreeAfter(expand: bool, cell: real, minimum: real): real {
    if expand then cell - Max(1.0, cell) else (cell - minimum) / 2.0
  }

  /** In a homogeneous box the distance between neighbours is exactly the spacing and the free parts of their
      cells that face each other; where these sum to less than zero, the neighbours overlap. */
  lemma {:induction false} CellPlacement(layout: Layout, vis: seq<Child>, start: int, avail: int, k: nat)
    requires layout.homogeneous && k + 1 < |vis|
    ensures var s, cells, minima := Spans(layout, vis, start, avail), Cells(|vis|, avail), Minima(Requests(vis));
            var free := FreeAfter(vis[k].expand, cells[k], minima[k]) +
                        FreeBefore(vis[k + 1].expand, cells[k + 1], minima[k + 1]);
            s[k + 1].lo == s[k].hi + layout.spacing as real + free
  {
    hide Requests, Minima, Cells, FlexibleSizes, Distribute, ChildSpan, Cursor;
    var cells, minima := Cells(|vis|, avail), Minima(Requests(vis));
    CellStep(start, |vis|, avail, layout.spacing, k);
    var at := Cursor(start, cells, layout.spacing, k);
    var next := Cursor(start, cells, layout.spacing, k + 1);
    SpanEnds(at, vis[k].expand, cells[k], minima[k]);
    SpanEnds(next, vis[k + 1].expand, cells[k + 1], minima[k + 1]);
  }

  /** Two children of minimum size 10 in cells of two pixels: the second starts eight pixels before the first
      ends. */
  lemma CellsOverlap()
    ensures var layout := Layout(Horizontal, true, 0);
            var child := Child(true, false, RequestedSize(10.0, 10.0));
            var s := Spans(layout, [child, child], 0, 4);
            s[1].lo == s[0].hi - 8.0
  {
    hide Spans;
    var child := Child(true, false, RequestedSize(10.0, 10.0));
    CellPlacement(Layout(Horizontal, true, 0), [child, child], 0, 4, 0);
    assert CDiv(4, 2) == 2 && CMod(4, 2) == 0;
    assert Cells(2, 4)[0] == 2.0 && Cells(2, 4)[1] == 2.0;
  }

  lemma SpanEnds(at: int, expand: bool, cell: real, minimum: real)
    ensures var s := ChildSpan(at, expand, cell, minimum);
            && s.lo == at as real + FreeBefore(expand, cell, minimum)
            && s.hi == at as real + cell - FreeAfter(expand, cell, minimum)
  {
  }

  /** Cells are whole pixels, so nothing is truncated on the way from one to the next. */
  lemma CellStep(start: int, n: nat, avail: int, spacing: nat, k: nat)
    requires k < n
    ensures var cells := Cells(n, avail);
            Cursor(start, cells, spacing, k + 1) as real ==
            Cursor(start, cells, spacing, k) as real + cells[k] + spacing as real
  {
    hide CDiv, CMod;
    var whole := CDiv(avail, n) + if k < CMod(avail, n) then 1 else 0;
    assert Trunc(whole as real + spacing as real) == whole + spacing;
  }

  lemma CursorStep(start: int, sizes: seq<real>, spacing: nat, k: nat)
    requires k < |sizes| && sizes[k] >= 0.0
    ensures var a, b := Cursor(start, sizes, spacing, k), Cursor(start, sizes, spacing, k + 1);
            && b >= a + spacing
            && b as real > a as real + sizes[k] + spacing as real - 1.0
  {
  }

  lemma {:induction false} BonusNonNegative(vis: seq<Child>, k: nat, spare: int)
    requires k < |vis| && spare >= 0
    ensures Bonus(vis, k, spare) >= 0
    ensures !vis[k].expand ==> Bonus(vis, k, spare) == 0
  {
    if Expanders(vis) > 0 { CModBounds(spare, Expanders(vis)); }
  }

  function Extent(layout: Layout, box: ActorBox, n: nat): int {
    Trunc((if layout.orientation.Vertical? then box.y2 - box.y1 else box.x2 - box.x1)
          - ((n - 1) * layout.spacing) as real)
  }

  function Origin(layout: Layout, box: ActorBox): int {
    Trunc(if layout.orientation.Vertical? then box.y1 else box.x1)
  }

  function BoxFor(layout: Layout, box: ActorBox, rtl: bool, s: Span): ActorBox {
    if layout.orientation.Vertical? then ActorBox(box.x1, s.lo, Max(1.0, box.x2), s.hi)
    else if rtl then
      var x2 := box.x1 + (box.x2 - s.lo);
      ActorBox(x2 - (s.hi - s.lo), box.y1, x2, Max(1.0, box.y2))
    else ActorBox(s.lo, box.y1, s.hi, Max(1.0, box.y2))
  }

  function Allocation(layout: Layout, vis: seq<Child>, box: ActorBox, rtl: bool): (boxes: seq<ActorBox>)
    ensures |boxes| == |vis|
  {
    var spans := Spans(layout, vis, Origin(layout, box), Extent(layout, box, |vis|));
    seq(|vis|, k requires 0 <= k < |vis| => BoxFor(layout, box, rtl, spans[k]))
  }

  /** Mirror image in the vertical axis through the middle of `box`. */
  function Mirror(box: ActorBox, b: ActorBox): ActorBox {
    ActorBox(box.x1 + box.x2 - b.x2, b.y1, box.x1 + box.x2 - b.x1, b.y2)
  }

  /** Right-to-left is the mirror image of left-to-right, child by child, and mirroring undoes itself. */
  lemma {:induction false} RightToLeftMirrors(layout: Layout, vis: seq<Child>, box: ActorBox, k: nat)
    requires layout.orientation.Horizontal? && k < |vis|
    ensures var ltr, rtl := Allocation(layout, vis, box, false)[k], Allocation(layout, vis, box, true)[k];
            rtl == Mirror(box, ltr) && ltr == Mirror(box, rtl)
  {
    hide Spans;
  }

  // --- the boxes -------------------------------------------------------------------------------------

  /** Where a box begins and ends along the layout, and its two sides across it. */
  function Begin(layout: Layout, b: ActorBox): real { if layout.orientation.Vertical? then b.y1 else b.x1 }

  function End(layout: Layout, b: ActorBox): real { if layout.orientation.Vertical? then b.y2 else b.x2 }

  function Across(layout: Layout, b: ActorBox): (real, real) {
    if layout.orientation.Vertical? then (b.x1, b.x2) else (b.y1, b.y2)
  }

  /** The layout runs towards larger coordinates. */
  predicate Forward(layout: Layout, rtl: bool) { layout.orientation.Vertical? || !rtl }

  lemma {:induction false} AllocationAt(layout: Layout, vis: seq<Child>, box: ActorBox, rtl: bool, k: nat)
    requires k < |vis|
    ensures var avail := Extent(layout, box, |vis|);
            var sizes := ChildSizes(layout, vis, avail);
            var at := Cursor(Origin(layout, box), sizes, layout.spacing, k);
            Allocation(layout, vis, box, rtl)[k] ==
            BoxFor(layout, box, rtl, ChildSpan(at, vis[k].expand, sizes[k], FinalMinima(layout, vis, avail)[k]))
  {
    hide Extent, Origin, ChildSizes, Cursor, BoxFor, ChildSpan, FinalMinima;
  }

  /** The boxes that run forward are the spans, with the sides of `box` across. */
  lemma {:induction false} ForwardBoxes(layout: Layout, vis: seq<Child>, box: ActorBox, rtl: bool, k: nat)
    requires k < |vis| && Forward(layout, rtl)
    ensures var b, s := Allocation(layout, vis, box, rtl)[k],
                        Spans(layout, vis, Origin(layout, box), Extent(layout, box, |vis|))[k];
            && Begin(layout, b) == s.lo && End(layout, b) == s.hi
            && Across(layout, b) == (Across(layout, box).0, Max(1.0, Across(layout, box).1))
  {
    hide Spans, Extent, Origin;
  }

  /** The size a child is given is the size of its box, unless it expands to less than a pixel or shares a
      homogeneous box, where it keeps its minimum size in the middle of its cell. */
  lemma {:induction false} BoxLength(layout: Layout, vis: seq<Child>, box: ActorBox, rtl: bool, k: nat)
    requires k < |vis|
    ensures var b, size := Allocation(layout, vis, box, rtl)[k],
                           ChildSizes(layout, vis, Extent(layout, box, |vis|))[k];
            && (vis[k].expand ==> End(layout, b) - Begin(layout, b) == Max(1.0, size))
            && (!vis[k].expand && !layout.homogeneous ==> End(layout, b) - Begin(layout, b) == size)
            && (!vis[k].expand && layout.homogeneous ==>
                  End(layout, b) - Begin(layout, b) == vis[k].request.minimum)
  {
    hide Distribute, Cursor, Extent, Origin, CDiv, CMod, TruncatedMinima;
    AllocationAt(layout, vis, box, rtl, k);
  }

  /** Running forward, the first child begins at the near side of `box`, cut to a whole pixel; right to left,
      the first child ends as far from the right side. */
  lemma {:induction false} FirstBox(layout: Layout, vis: seq<Child>, box: ActorBox, rtl: bool)
    requires vis != [] && (vis[0].expand || !layout.homogeneous)
    ensures var b := Allocation(layout, vis, box, rtl)[0];
            var start := Trunc(Begin(layout, box)) as real;
            if Forward(layout, rtl) then Begin(layout, b) == start
            else End(layout, b) == Begin(layout, box) + End(layout, box) - start
  {
    hide Distribute, Extent, CDiv, CMod, TruncatedMinima;
    AllocationAt(layout, vis, box, rtl, 0);
  }

  /** In a box that is not homogeneous, running forward each child begins after the end of the previous one
      plus the spacing, less a pixel; right to left it ends before the beginning of the previous one. */
  lemma {:induction false} BoxesInOrder(layout: Layout, vis: seq<Child>, box: ActorBox, rtl: bool, k: nat)
    requires !layout.homogeneous && ValidRequests(Requests(vis)) && k + 1 < |vis|
    ensures var a, b := Allocation(layout, vis, box, rtl)[k], Allocation(layout, vis, box, rtl)[k + 1];
            if Forward(layout, rtl) then Begin(layout, b) >= End(layout, a) + layout.spacing as real - 1.0
            else End(layout, b) <= Begin(layout, a) - layout.spacing as real + 1.0
  {
    hide Spans, Extent, Origin, Requests;
    PlacementInOrder(layout, vis, Origin(layout, box), Extent(layout, box, |vis|), k);
  }

  /** Where whole sizes put a child, and the most that any sizes can. */
  lemma {:induction false} CursorSum(start: int, sizes: seq<real>, spacing: nat, k: nat)
    requires k <= |sizes| && forall i :: 0 <= i < k ==> sizes[i] >= 0.0
    ensures var sum := start as real + Sum(sizes[..k]) + Times(spacing as real, k);
            && Cursor(start, sizes, spacing, k) as real <= sum
            && ((forall i :: 0 <= i < k ==> IsInt(sizes[i])) ==> Cursor(start, sizes, spacing, k) as real == sum)
  {
    hide Times, Trunc, IsInt;
    TimesNext(spacing as real, k);
    if k > 0 {
      CursorSum(start, sizes, spacing, k - 1);
      assert sizes[..k][..k - 1] == sizes[..k - 1];
      TruncStep(sizes[k - 1], spacing);
    }
  }

  lemma TruncStep(x: real, spacing: nat)
    requires x >= 0.0
    ensures Trunc(x + spacing as real) as real <= x + spacing as real
    ensures IsInt(x) ==> Trunc(x + spacing as real) as real == x + spacing as real
  {
    if IsInt(x) {
      assert x + spacing as real == (x.Floor + spacing) as real;
      FloorOfInt(x.Floor + spacing);
    }
  }

  /** What is shared out, with the spacing, is the length of `box` to within a pixel. */
  lemma ExtentMeans(layout: Layout, box: ActorBox, n: nat)
    requires n > 0
    ensures var length, spaced := End(layout, box) - Begin(layout, box), Times(layout.spacing as real, n - 1);
            && Near(Extent(layout, box, n) as real + spaced, length)
            && (length >= spaced ==> 0.0 <= Extent(layout, box, n) as real <= length - spaced)
  {
    ProductAsReal(n - 1, layout.spacing);
    assert ((n - 1) * layout.spacing) as real == Times(layout.spacing as real, n - 1);
    hide Times;
  }

  /** The cells of a homogeneous box follow each other from the near side of `box`; a child that expands begins
      with its cell, any other sits in the middle of it. */
  lemma {:induction false} CellBoxes(layout: Layout, vis: seq<Child>, box: ActorBox, rtl: bool, k: nat)
    requires layout.homogeneous && Forward(layout, rtl) && k < |vis| && Extent(layout, box, |vis|) >= 0
    ensures var b, cells := Allocation(layout, vis, box, rtl)[k], Cells(|vis|, Extent(layout, box, |vis|));
            var at := Trunc(Begin(layout, box)) as real + Sum(cells[..k]) + Times(layout.spacing as real, k);
            if vis[k].expand then Begin(layout, b) == at
            else Begin(layout, b) + End(layout, b) == 2.0 * at + cells[k]
  {
    hide Extent, Cells, Sum, Times, Trunc, Cursor, FlexibleSizes, Distribute;
    AllocationAt(layout, vis, box, rtl, k);
    WholeCells(|vis|, Extent(layout, box, |vis|));
    CursorSum(Origin(layout, box), Cells(|vis|, Extent(layout, box, |vis|)), layout.spacing, k);
  }

  lemma WholeCells(n: nat, avail: int)
    requires n > 0 && avail >= 0
    ensures forall i :: 0 <= i < n ==> Cells(n, avail)[i] >= 0.0 && IsInt(Cells(n, avail)[i])
  {
    hide CDiv, CMod;
    CModBounds(avail, n);
  }

  /** Integral requests that fit at their natural sizes, with a child that expands: the sizes are whole. */
  lemma {:induction false} WholeSizes(vis: seq<Child>, avail: int)
    requires ValidRequests(Requests(vis)) && IntegralRequests(vis)
    requires avail as real >= Sum(Minima(Requests(vis))) + Sum(Gaps(Requests(vis)))
    ensures forall i :: 0 <= i < |vis| ==> FlexibleSizes(vis, avail)[i] >= 0.0 && IsInt(FlexibleSizes(vis, avail)[i])
  {
    hide Distribute, Sum, Gaps, Minima, Bonus, TruncatedMinima;
    var req := Requests(vis);
    IntegralMinima(vis);
    GapsNonNegative(req);
    DistributeExact(Space(vis, avail), req);
    FlexibleTotal(vis, avail);
    var spare := Trunc(Distribute(Space(vis, avail), req).remainder);
    forall i | 0 <= i < |vis| ensures FlexibleSizes(vis, avail)[i] >= 0.0 && IsInt(FlexibleSizes(vis, avail)[i]) {
      BonusNonNegative(vis, i, spare);
      FloorOfInt(Bonus(vis, i, spare));
      IntClosed(req[i].natural, Bonus(vis, i, spare) as real);
    }
  }

  lemma {:induction false} SumNonNegative(s: seq<real>)
    requires NonNegative(s)
    ensures Sum(s) >= 0.0
  {
    if s != [] { SumNonNegative(s[..|s| - 1]); }
  }

  lemma {:induction false} GapsNonNegative(req: seq<RequestedSize>)
    requires ValidRequests(req)
    ensures Sum(Gaps(req)) >= 0.0
  {
    hide Sum;
    SumNonNegative(Gaps(req));
  }

  /** With such requests the boxes run from the near side of `box` to the far one, to within a pixel. */
  lemma {:induction false} BoxesFill(layout: Layout, vis: seq<Child>, box: ActorBox, rtl: bool)
    requires !layout.homogeneous && Forward(layout, rtl) && vis != [] && Expanders(vis) > 0
    requires ValidRequests(Requests(vis)) && IntegralRequests(vis)
    requires Extent(layout, box, |vis|) as real >= Sum(Minima(Requests(vis))) + Sum(Gaps(Requests(vis)))
    ensures var last := |vis| - 1;
            var b := Allocation(layout, vis, box, rtl)[last];
            var size := FlexibleSizes(vis, Extent(layout, box, |vis|))[last];
            Near(Begin(layout, b) + size - Trunc(Begin(layout, box)) as real, End(layout, box) - Begin(layout, box))
  {
    hide Extent, FlexibleSizes, Sum, Gaps, Minima, Requests, Times, IntegralRequests, ValidRequests, Trunc, Distribute;
    var last, avail := |vis| - 1, Extent(layout, box, |vis|);
    var sizes := FlexibleSizes(vis, avail);
    AllocationAt(layout, vis, box, rtl, last);
    WholeSizes(vis, avail);
    CursorSum(Origin(layout, box), sizes, layout.spacing, last);
    SumOfAll(sizes);
    GapsNonNegative(Requests(vis));
    AllocateConserves(vis, avail);
    ExtentMeans(layout, box, |vis|);
    if !vis[last].expand { UnsharedSize(vis, avail, last); }
  }

  lemma SumOfAll(s: seq<real>)
    requires s != []
    ensures Sum(s) == Sum(s[..|s| - 1]) + s[|s| - 1]
  {
  }

  /** A child that does not expand is given what distribution left it with. */
  lemma {:induction false} UnsharedSize(vis: seq<Child>, avail: int, k: nat)
    requires k < |vis| && !vis[k].expand
    ensures FlexibleSizes(vis, avail)[k] == FinalMinima(Layout(Horizontal, false, 0), vis, avail)[k]
  {
    hide Distribute;
  }
}
