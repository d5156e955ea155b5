/** The loops of `clutter_box_layout_allocate` and of the virtual allocation, step by step. */
module BoxLayout {
  import opened RealArithmetic
  import opened BoxDistribution
  import opened BoxSpreading
  import opened BoxAllocation

  /** What one step of a loop over all children does to the index of visible ones. */
  lemma {:induction false} NextVisible(children: seq<Child>, c: nat)
    requires c < |children|
    ensures var vis, i := Visible(children), |Visible(children[..c])|;
            && i <= |vis|
            && |Visible(children[..c + 1])| == (if children[c].visible then i + 1 else i)
            && (children[c].visible ==> i < |vis| && vis[i] == children[c])
  {
    VisiblePrefix(children, c);
    VisibleStep(children, c);
  }

  lemma {:induction false} VisibleEnds(children: seq<Child>)
    ensures |Visible(children[..0])| == 0
    ensures Visible(children[..|children|]) == Visible(children)
  {
    assert children[..|children|] == children;
  }

  lemma {:induction false} NextRequest(vis: seq<Child>, i: nat)
    requires i < |vis|
    ensures TruncatedMinima(vis[..i + 1]) == TruncatedMinima(vis[..i]) + Trunc(vis[i].request.minimum)
    ensures Sum(Minima(Requests(vis[..i + 1]))) == Sum(Minima(Requests(vis[..i]))) + vis[i].request.minimum
  {
    assert vis[..i + 1][..i] == vis[..i];
    RequestsSplit(vis[..i + 1]);
  }

  /** How many of `r` odd pixels are left after `e` children had their turn. */
  function OddLeft(r: int, e: nat): int {
    if r <= 0 then r else if r <= e then 0 else r - e
  }

  /** Stores the requests of the visible children and sums their truncated minimum sizes. */
  method CollectRequests(children: seq<Child>, sizes: array<RequestedSize>) returns (minima: int, exact: real)
    requires sizes.Length == |Visible(children)|
    modifies sizes
    ensures sizes[..] == Requests(Visible(children))
    ensures minima == TruncatedMinima(Visible(children))
    ensures exact == Sum(Minima(Requests(Visible(children))))
  {
    hide Visible, TruncatedMinima, Sum, Minima, Trunc;
    ghost var vis := Visible(children);
    var i := 0;
    minima, exact := 0, 0.0;
    VisibleEnds(children);
    NoRequests();
    assert TruncatedMinima([]) == 0 by { NoTruncatedMinima(); }
    for c := 0 to |children|
      invariant i <= |vis| && i == |Visible(children[..c])|
      invariant forall k :: 0 <= k < i ==> sizes[k] == vis[k].request
      invariant minima == TruncatedMinima(vis[..i])
      invariant exact == Sum(Minima(Requests(vis[..i])))
    {
      NextVisible(children, c);
      if children[c].visible {
        NextRequest(vis, i);
        sizes[i] := children[c].request;
        minima := minima + Trunc(sizes[i].minimum);
        exact := exact + sizes[i].minimum;
        i := i + 1;
      }
    }
    assert vis[..|vis|] == vis;
  }

  lemma NoTruncatedMinima()
    ensures TruncatedMinima([]) == 0
  {
  }

  /** One child's turn in either sharing loop. */
  lemma OddTurn(r: int, e: nat)
    ensures OddLeft(r, e) > 0 <==> e < r
    ensures OddLeft(r, e + 1) == if OddLeft(r, e) > 0 then OddLeft(r, e) - 1 else OddLeft(r, e)
  {
  }

  lemma {:induction false} ExpanderTurn(vis: seq<Child>, i: nat)
    requires i < |vis|
    ensures Expanders(vis[..i + 1]) == Expanders(vis[..i]) + if vis[i].expand then 1 else 0
    ensures vis[i].expand ==> Expanders(vis) > 0
  {
    assert vis[..i + 1][..i] == vis[..i];
    if vis[i].expand { ExpandersPositive(vis, i); }
  }

  // --- the real allocation -------------------------------------------------------------------------

  /** The share per child (homogeneous) or per expander, and the number of odd pixels. */
  function Shares(layout: Layout, vis: seq<Child>, avail: int): (int, int)
    requires vis != []
  {
    if layout.homogeneous then (CDiv(avail, |vis|), CMod(avail, |vis|)) else
      var spare := Trunc(Distribute(Space(vis, avail), Requests(vis)).remainder);
      if Expanders(vis) == 0 then (0, 0) else (CDiv(spare, Expanders(vis)), CMod(spare, Expanders(vis)))
  }

  /** Children that had their turn at an odd pixel before the `i`-th. */
  function Turns(layout: Layout, vis: seq<Child>, i: nat): nat
    requires i <= |vis|
  {
    if layout.homogeneous then i else Expanders(vis[..i])
  }

  /** The `i`-th size assembled the way the loop does it. */
  lemma {:induction false} SizeOfTurn(layout: Layout, vis: seq<Child>, avail: int, i: nat)
    requires i < |vis|
    ensures var (extra, odd) := Shares(layout, vis, avail);
            var odd' := if Turns(layout, vis, i) < odd then 1.0 else 0.0;
            ChildSizes(layout, vis, avail)[i] ==
            if layout.homogeneous then extra as real + odd'
            else FinalMinima(layout, vis, avail)[i] + if vis[i].expand then extra as real + odd' else 0.0
  {
    hide Distribute, CDiv, CMod, Trunc, TruncatedMinima;
    ExpanderTurn(vis, i);
  }

  method ShareOut(layout: Layout, children: seq<Child>, nvis: nat, nexpand: nat, avail: int,
                  sizes: array<RequestedSize>)
    returns (extra: int, odd: int)
    requires nvis == sizes.Length == |Visible(children)| > 0 && nexpand == Expanders(Visible(children))
    modifies sizes
    ensures (extra, odd) == Shares(layout, Visible(children), avail)
    ensures Minima(sizes[..]) == FinalMinima(layout, Visible(children), avail)
  {
    hide Distribute, CDiv, CMod, Trunc, TruncatedMinima;
    var minima, _ := CollectRequests(children, sizes);
    extra, odd := 0, 0;
    if layout.homogeneous {
      extra, odd := CDiv(avail, nvis), CMod(avail, nvis);
    } else {
      var r := DistributeNaturalAllocation(Max(0.0, (avail - minima) as real), sizes);
      var size := Trunc(r);
      if nexpand > 0 {
        extra, odd := CDiv(size, nexpand), CMod(size, nexpand);
      }
    }
  }

  method Allocate(layout: Layout, children: seq<Child>, box: ActorBox, rtl: bool) returns (boxes: seq<ActorBox>)
    requires ValidRequests(Requests(Visible(children)))
    ensures boxes == Allocation(layout, Visible(children), box, rtl)
  {
    hide Visible, Trunc, ChildSpan, BoxFor, Allocation, ChildSizes, FinalMinima, Shares, Turns, Expanders;
    hide OddLeft, Extent, Origin, Requests;
    ghost var vis := Visible(children);
    var nvis, nexpand := CountExpandChildren(children);
    if nvis <= 0 { return []; }
    var avail, start := Extent(layout, box, nvis), Origin(layout, box);
    var sizes := new RequestedSize[nvis](_ => RequestedSize(0.0, 0.0));
    var extra, odd := ShareOut(layout, children, nvis, nexpand, avail, sizes);
    ghost var all, minima := ChildSizes(layout, vis, avail), FinalMinima(layout, vis, avail);
    ghost var want := Allocation(layout, vis, box, rtl);

    var at, i, left := start, 0, odd;
    boxes := [];
    VisibleEnds(children);
    TurnsStart(layout, vis, odd);
    for c := 0 to |children|
      invariant i == |Visible(children[..c])| && i <= nvis && |boxes| == i
      invariant at == Cursor(start, all, layout.spacing, i)
      invariant Minima(sizes[..]) == minima
      invariant left == OddLeft(odd, Turns(layout, vis, i))
      invariant forall k :: 0 <= k < i ==> boxes[k] == want[k]
    {
      NextVisible(children, c);
      var child := children[c];
      if child.visible {
        assert sizes[i].minimum == Minima(sizes[..])[i];
        AllocationAt(layout, vis, box, rtl, i);
        SizeOfTurn(layout, vis, avail, i);
        TurnTaken(layout, vis, odd, i);
        var size := if layout.homogeneous then extra as real else sizes[i].minimum;
        if layout.homogeneous || child.expand {
          if !layout.homogeneous { size := size + extra as real; }
          if left > 0 {
            size := size + 1.0;
            left := left - 1;
          }
        }
        boxes := boxes + [BoxFor(layout, box, rtl, ChildSpan(at, child.expand, size, sizes[i].minimum))];
        at := at + Trunc(size + layout.spacing as real);
        i := i + 1;
      }
    }
  }

  lemma {:induction false} TurnsStart(layout: Layout, vis: seq<Child>, odd: int)
    ensures OddLeft(odd, Turns(layout, vis, 0)) == odd
  {
  }

  lemma {:induction false} TurnTaken(layout: Layout, vis: seq<Child>, odd: int, i: nat)
    requires i < |vis|
    ensures var before, after := OddLeft(odd, Turns(layout, vis, i)), OddLeft(odd, Turns(layout, vis, i + 1));
            && (before > 0 <==> Turns(layout, vis, i) < odd)
            && after == if (layout.homogeneous || vis[i].expand) && before > 0 then before - 1 else before
  {
    ExpanderTurn(vis, i);
    OddTurn(odd, Turns(layout, vis, i));
  }

  // --- the virtual allocation ----------------------------------------------------------------------

  function VirtualShares(layout: Layout, vis: seq<Child>, forSize: real): (real, int)
    requires vis != []
  {
    var size := forSize - ((|vis| - 1) * layout.spacing) as real;
    if layout.homogeneous then (Ratio(size, |vis|), CMod(Trunc(size), |vis|)) else
      var spare := Distribute(Max(0.0, size - Sum(Minima(Requests(vis)))), Requests(vis)).remainder;
      if Expanders(vis) == 0 then (0.0, 0)
      else (Ratio(spare, Expanders(vis)), CMod(Trunc(spare), Expanders(vis)))
  }

  function VirtualMinima(layout: Layout, vis: seq<Child>, forSize: real): (m: seq<real>)
    ensures |m| == |vis|
  {
    var size := forSize - ((|vis| - 1) * layout.spacing) as real;
    if layout.homogeneous then Minima(Requests(vis))
    else Minima(Distribute(Max(0.0, size - Sum(Minima(Requests(vis)))), Requests(vis)).sizes)
  }

  lemma {:induction false} VirtualSizeOfTurn(layout: Layout, vis: seq<Child>, forSize: real, i: nat)
    requires i < |vis|
    ensures var (extra, odd) := VirtualShares(layout, vis, forSize);
            var odd' := if Turns(layout, vis, i) < odd then 1.0 else 0.0;
            VirtualSizes(layout, vis, forSize)[i] ==
            if layout.homogeneous then extra + odd'
            else VirtualMinima(layout, vis, forSize)[i] + if vis[i].expand then extra + odd' else 0.0
  {
    hide Distribute, CDiv, CMod, Trunc, Ratio, Sum;
    ExpanderTurn(vis, i);
  }

  method ShareOutVirtually(layout: Layout, children: seq<Child>, nvis: nat, nexpand: nat, forSize: real,
                           sizes: array<RequestedSize>)
    returns (extra: real, odd: int)
    requires nvis == sizes.Length == |Visible(children)| > 0 && nexpand == Expanders(Visible(children))
    modifies sizes
    ensures (extra, odd) == VirtualShares(layout, Visible(children), forSize)
    ensures Minima(sizes[..]) == VirtualMinima(layout, Visible(children), forSize)
  {
    hide Distribute, CDiv, CMod, Trunc, Ratio, Sum, TruncatedMinima;
    var _, minima := CollectRequests(children, sizes);
    var size := forSize - ((nvis - 1) * layout.spacing) as real;
    extra, odd := 0.0, 0;
    if layout.homogeneous {
      extra, odd := Ratio(size, nvis), CMod(Trunc(size), nvis);
    } else {
      var spare := DistributeNaturalAllocation(Max(0.0, size - minima), sizes);
      if nexpand > 0 {
        extra, odd := Ratio(spare, nexpand), CMod(Trunc(spare), nexpand);
      }
    }
  }

  /** The same loops with the division left in floating point; the sizes are updated in place. */
  method AllocateVirtually(layout: Layout, children: seq<Child>, forSize: real) returns (virtual: seq<real>)
    ensures virtual == VirtualSizes(layout, Visible(children), forSize)
  {
    hide Visible, VirtualSizes, VirtualMinima, VirtualShares, Turns, Expanders, OddLeft, Requests;
    ghost var vis := Visible(children);
    var nvis, nexpand := CountExpandChildren(children);
    if nvis < 1 { return []; }
    var sizes := new RequestedSize[nvis](_ => RequestedSize(0.0, 0.0));
    var extra, odd := ShareOutVirtually(layout, children, nvis, nexpand, forSize, sizes);
    ghost var want, minima := VirtualSizes(layout, vis, forSize), VirtualMinima(layout, vis, forSize);
    assert forall k :: 0 <= k < nvis ==> minima[k] == sizes[..][k].minimum;

    var i, left := 0, odd;
    VisibleEnds(children);
    TurnsStart(layout, vis, odd);
    for c := 0 to |children|
      invariant i == |Visible(children[..c])| && i <= nvis
      invariant left == OddLeft(odd, Turns(layout, vis, i))
      invariant forall k :: 0 <= k < nvis ==> sizes[k].minimum == if k < i then want[k] else minima[k]
    {
      NextVisible(children, c);
      if children[c].visible {
        VirtualSizeOfTurn(layout, vis, forSize, i);
        TurnTaken(layout, vis, odd, i);
        if layout.homogeneous {
          sizes[i] := sizes[i].(minimum := extra);
        } else if children[c].expand {
          sizes[i] := sizes[i].(minimum := sizes[i].minimum + extra);
        }
        if (layout.homogeneous || children[c].expand) && left > 0 {
          sizes[i] := sizes[i].(minimum := sizes[i].minimum + 1.0);
          left := left - 1;
        }
        i := i + 1;
      }
    }
    virtual := seq(nvis, k requires 0 <= k < nvis reads sizes => sizes[k].minimum);
  }
}
