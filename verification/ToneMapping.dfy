/** Luminance matching and tone mapping of clutter-color-state-params.c. */
module ToneMapping {
  import opened RealArithmetic

  datatype Luminance = Luminance(refIsOne: bool, min: real, max: real, ref: real) {
    ghost predicate Valid() { max > 0.0 && ref > 0.0 }
  }

  // --- luminance mapping -----------------------------------------------------------------------------

  predicate ApproxEqual(a: real, b: real, epsilon: real) {
    (if a > b then a - b else b - a) < epsilon
  }

  predicate NeedsToneMapping(lum: Luminance, target: Luminance) { lum.max > target.max }

  predicate NeedsLumMapping(lum: Luminance, target: Luminance) {
    if NeedsToneMapping(lum, target) then false
    else if target.refIsOne then !lum.refIsOne && !ApproxEqual(lum.max, lum.ref, 0.1)
    else if lum.refIsOne then !ApproxEqual(target.ref, target.max, 0.1)
    else !ApproxEqual(target.ref * lum.max, lum.ref * target.max, 0.1)
  }

  /** The luminances a state can show. */
  predicate Shows(lum: Luminance, l: real) { 0.0 <= l <= lum.max }

  /** Tones are mapped exactly when the source can show what the target cannot; so of two states at most one needs
      it towards the other, and where it is not needed the target shows everything.  Luminance is not matched in
      addition. */
  lemma ToneMappingNeeded(lum: Luminance, target: Luminance)
    requires lum.Valid() && target.Valid()
    ensures NeedsToneMapping(lum, target) <==> exists l :: Shows(lum, l) && !Shows(target, l)
    ensures !NeedsToneMapping(lum, target) <==> forall l :: Shows(lum, l) ==> Shows(target, l)
    ensures !(NeedsToneMapping(lum, target) && NeedsToneMapping(target, lum))
    ensures !(NeedsToneMapping(lum, target) && NeedsLumMapping(lum, target))
  {
    assert Shows(lum, lum.max);
  }

  function LumMapping(lum: Luminance, target: Luminance): real
    requires lum.Valid() && target.Valid()
  {
    if target.refIsOne then
      if lum.refIsOne then 1.0 else Quot(lum.max, lum.ref)
    else if lum.refIsOne then Quot(target.ref, target.max)
    else Mul(Quot(target.ref, lum.ref), Quot(lum.max, target.max))
  }

  /** The encoded value of reference white: 1 by convention, or its share of the maximum. */
  function ReferenceWhite(lum: Luminance): (w: real)
    requires lum.Valid()
    ensures w > 0.0
  {
    if lum.refIsOne then 1.0 else
      QuotPositive(lum.ref, lum.max);
      Quot(lum.ref, lum.max)
  }

  lemma QuotPositive(a: real, b: real)
    requires a > 0.0 && b > 0.0
    ensures Quot(a, b) > 0.0
    ensures Mul(Quot(a, b), Quot(b, a)) == 1.0
  {
    assert (a / b) * b == a;
    ScaleSign(a / b, b);
    assert (b / a) * a == b;
    assert ((a / b) * (b / a) - 1.0) * b == (b / a) * a - b;
    ScaleSign((a / b) * (b / a) - 1.0, b);
  }

  lemma MulUnit(a: real)
    ensures Mul(a, 1.0) == a && Mul(1.0, a) == a
  {
  }

  lemma CrossQuot(a: real, b: real, c: real, d: real)
    requires b > 0.0 && d > 0.0 && a > 0.0
    ensures Mul(Mul(Quot(c, a), Quot(b, d)), Quot(a, b)) == Quot(c, d)
  {
    var p, q, r := c / a, b / d, a / b;
    assert p * a == c && q * d == b && r * b == a;
    var s := p * q * r;
    assert s * d == p * r * (q * d);
    assert p * r * b == p * (r * b);
    assert (s - c / d) * d == 0.0;
    ScaleSign(s - c / d, d);
  }

  /** In all four cases the factor takes reference white to reference white. */
  lemma WhiteToWhite(lum: Luminance, target: Luminance)
    requires lum.Valid() && target.Valid()
    ensures Mul(LumMapping(lum, target), ReferenceWhite(lum)) == ReferenceWhite(target)
    ensures LumMapping(lum, target) > 0.0
  {
    hide Mul, Quot;
    MulUnit(ReferenceWhite(target));
    MulUnit(1.0);
    QuotPositive(lum.max, lum.ref);
    QuotPositive(target.ref, target.max);
    QuotPositive(target.ref, lum.ref);
    QuotPositive(lum.max, target.max);
    MulPositive(Quot(target.ref, lum.ref), Quot(lum.max, target.max));
    CrossQuot(lum.ref, lum.max, target.ref, target.max);
  }

  lemma MulPositive(a: real, b: real)
    requires a > 0.0 && b > 0.0
    ensures Mul(a, b) > 0.0
  {
  }

  lemma MulLess(d: real, u: real, v: real)
    requires d > 0.0 && u < v
    ensures Mul(d, u) < Mul(d, v) && Mul(u, d) < Mul(v, d)
  {
    var g := v - u;
    assert g * d > 0.0;
    assert g * d == v * d - u * d;
  }

  lemma MulCancel(a: real, b: real, w: real)
    requires w > 0.0 && Mul(a, w) == Mul(b, w)
    ensures a == b
  {
    assert (a - b) * w == 0.0;
    ScaleSign(a - b, w);
  }

  /** Hence factors compose and invert. */
  lemma MappingsCompose(a: Luminance, b: Luminance, c: Luminance)
    requires a.Valid() && b.Valid() && c.Valid()
    ensures Mul(LumMapping(b, c), LumMapping(a, b)) == LumMapping(a, c)
    ensures LumMapping(a, a) == 1.0
    ensures Mul(LumMapping(b, a), LumMapping(a, b)) == 1.0
  {
    ComposeWhite(a, b, c);
    ComposeWhite(a, b, a);
    WhiteToWhite(a, a);
    SelfMapping(a);
  }

  lemma SelfMapping(a: Luminance)
    requires a.Valid()
    ensures LumMapping(a, a) == 1.0
  {
    hide Mul, LumMapping;
    WhiteToWhite(a, a);
    MulUnit(ReferenceWhite(a));
    MulCancel(LumMapping(a, a), 1.0, ReferenceWhite(a));
  }

  lemma ComposeWhite(a: Luminance, b: Luminance, c: Luminance)
    requires a.Valid() && b.Valid() && c.Valid()
    ensures Mul(LumMapping(b, c), LumMapping(a, b)) == LumMapping(a, c)
  {
    hide Mul, LumMapping, ReferenceWhite;
    WhiteToWhite(a, b);
    WhiteToWhite(b, c);
    WhiteToWhite(a, c);
    MulAssociates(LumMapping(b, c), LumMapping(a, b), ReferenceWhite(a));
    MulCancel(Mul(LumMapping(b, c), LumMapping(a, b)), LumMapping(a, c), ReferenceWhite(a));
  }

  /** The denominator the factor would be divided by. */
  function Denominator(lum: Luminance, target: Luminance): real {
    if target.refIsOne then (if lum.refIsOne then 1.0 else lum.ref)
    else if lum.refIsOne then target.max
    else Mul(lum.ref, target.max)
  }

  /** Skipping the stage when no tone mapping takes over loses at most a tenth of a unit over the
      denominator; and the stage is never skipped when it would lose that much. */
  lemma SkippedMappingIsNearOne(lum: Luminance, target: Luminance)
    requires lum.Valid() && target.Valid() && !NeedsToneMapping(lum, target)
    ensures var d := Denominator(lum, target);
            && d > 0.0
            && (NeedsLumMapping(lum, target) <==> !(-0.1 < Mul(LumMapping(lum, target), d) - d < 0.1))
            && (!NeedsLumMapping(lum, target) ==> -Quot(0.1, d) < LumMapping(lum, target) - 1.0 < Quot(0.1, d))
  {
    hide Mul, Quot, LumMapping;
    var d, f := Denominator(lum, target), LumMapping(lum, target);
    MulPositive(lum.ref, target.max);
    FactorTimesDenominator(lum, target);
    ApproxScaled(f, d, 0.1);
    MulByName(target.ref, lum.max);
    MulByName(lum.ref, target.max);
  }

  lemma MulByName(a: real, b: real)
    ensures Mul(a, b) == a * b
  {
  }

  lemma FactorTimesDenominator(lum: Luminance, target: Luminance)
    requires lum.Valid() && target.Valid()
    ensures Mul(LumMapping(lum, target), Denominator(lum, target)) ==
            if target.refIsOne then (if lum.refIsOne then 1.0 else lum.max)
            else if lum.refIsOne then target.ref
            else Mul(target.ref, lum.max)
  {
    if !target.refIsOne && !lum.refIsOne {
      var p, q := target.ref / lum.ref, lum.max / target.max;
      assert p * lum.ref == target.ref && q * target.max == lum.max;
      assert (p * q) * (lum.ref * target.max) == (p * lum.ref) * (q * target.max);
    }
  }

  lemma ApproxScaled(f: real, d: real, epsilon: real)
    requires d > 0.0
    ensures ApproxEqual(Mul(f, d), d, epsilon) ==> ApproxEqual(f, 1.0, Quot(epsilon, d))
  {
    var e := epsilon / d;
    assert e * d == epsilon;
    assert (f - 1.0 - e) * d == f * d - d - epsilon;
    assert (1.0 - f - e) * d == d - f * d - epsilon;
    ScaleSign(f - 1.0 - e, d);
    ScaleSign(1.0 - f - e, d);
  }

  /** The loop that applies the factor, three values a sample. */
  method ApplyLuminanceMapping(lum: Luminance, target: Luminance, data: array<real>, samples: nat)
    requires lum.Valid() && target.Valid() && data.Length == 3 * samples
    modifies data
    ensures forall q :: 0 <= q < data.Length ==>
              data[q] == if NeedsLumMapping(lum, target) then Mul(old(data[q]), LumMapping(lum, target))
                         else old(data[q])
  {
    hide Mul, LumMapping;
    if !NeedsLumMapping(lum, target) { return; }
    var factor := LumMapping(lum, target);
    for i := 0 to samples
      invariant forall q :: 0 <= q < 3 * i ==> data[q] == Mul(old(data[q]), factor)
      invariant forall q :: 3 * i <= q < data.Length ==> data[q] == old(data[q])
    {
      data[3 * i] := Mul(data[3 * i], factor);
      data[3 * i + 1] := Mul(data[3 * i + 1], factor);
      data[3 * i + 2] := Mul(data[3 * i + 2], factor);
    }
  }

  // --- tone curves -----------------------------------------------------------------------------------

  /** The tone mapper leaves the target at least a headroom of 1.5. */
  function ToneMappingRef(lum: Luminance): real
    requires lum.Valid()
  {
    if Quot(lum.max, lum.ref) >= 1.5 then lum.ref else lum.max / 1.5
  }

  /** A reference no brighter than the target's own that leaves the headroom. */
  ghost predicate InReach(lum: Luminance, r: real) { r <= lum.ref && lum.max >= 1.5 * r }

  /** The tone mapping reference is the brightest such. */
  lemma RefHasHeadroom(lum: Luminance)
    requires lum.Valid()
    ensures 0.0 < ToneMappingRef(lum) < lum.max
    ensures lum.max >= 1.5 * ToneMappingRef(lum) && ToneMappingRef(lum) <= lum.ref
    ensures forall r: real :: InReach(lum, r) ==> r <= ToneMappingRef(lum)
  {
    var h := lum.max / lum.ref;
    assert h * lum.ref == lum.max;
    if h >= 1.5 {
      assert (h - 1.5) * lum.ref == lum.max - 1.5 * lum.ref;
      ProductNonNegative(h - 1.5, lum.ref);
    } else {
      MulPositive(1.5 - h, lum.ref);
      assert (1.5 - h) * lum.ref == 1.5 * lum.ref - lum.max;
      assert lum.max / 1.5 < lum.ref;
    }
  }

  /** What both tone curves need: a source with highlights above its reference. */
  ghost predicate ToneMappable(lum: Luminance, target: Luminance) {
    lum.Valid() && target.Valid() && lum.max > lum.ref
  }

  /** Position in the highlight range: 0 at the reference, 1 at the peak. */
  function Highlight(lum: Luminance, l: real): real
    requires lum.max > lum.ref
  {
    Quot(l - lum.ref, lum.max - lum.ref)
  }

  /** The shape of the shader's highlights. */
  function Knee(x: real): real
    requires x >= 0.0
  {
    (5.0 * x) / (4.0 * x + 1.0)
  }

  function Linear(lum: Luminance, target: Luminance, l: real): real
    requires ToneMappable(lum, target)
  {
    Mul(l, Quot(ToneMappingRef(target), lum.ref))
  }

  function Lifted(target: Luminance, u: real): real
    requires target.Valid()
  {
    ToneMappingRef(target) + Mul(target.max - ToneMappingRef(target), u)
  }

  lemma HighlightRange(lum: Luminance, l: real)
    requires lum.max > lum.ref
    ensures l >= lum.ref <==> Highlight(lum, l) >= 0.0
    ensures l <= lum.max <==> Highlight(lum, l) <= 1.0
    ensures Highlight(lum, lum.ref) == 0.0 && Highlight(lum, lum.max) == 1.0
    ensures l == lum.ref + Mul(lum.max - lum.ref, Highlight(lum, l))
  {
    var d := lum.max - lum.ref;
    var x := (l - lum.ref) / d;
    assert x * d == l - lum.ref;
    assert (1.0 - x) * d == lum.max - l;
    ScaleSign(x, d);
    ScaleSign(1.0 - x, d);
  }

  lemma HighlightIncreasing(lum: Luminance, l: real, m: real)
    requires lum.max > lum.ref && l < m
    ensures Highlight(lum, l) < Highlight(lum, m)
  {
    var d := lum.max - lum.ref;
    var x, y := (l - lum.ref) / d, (m - lum.ref) / d;
    assert (y - x) * d == m - l;
    ScaleSign(y - x, d);
  }

  /** The tone curve evaluated by the shader, on luminances from 0 up. */
  function ShaderCurve(lum: Luminance, target: Luminance, l: real): real
    requires ToneMappable(lum, target)
  {
    if l < lum.ref then Linear(lum, target, l)
    else
      HighlightRange(lum, l);
      Lifted(target, Knee(Highlight(lum, l)))
  }

  /** `s` is the square root of `x`. */
  ghost predicate IsSqrt(s: real, x: real) { s >= 0.0 && s * s == x }

  /** The tone curve evaluated on the CPU; `root` is `powf (num / den, 0.5f)` when it is called. */
  function CpuCurve(lum: Luminance, target: Luminance, l: real, root: real): real
    requires ToneMappable(lum, target)
  {
    if l < lum.ref then Linear(lum, target, l) else Lifted(target, root)
  }

  /** `root` is what `powf` returns for luminance `l`, where it is called. */
  ghost predicate RootFor(lum: Luminance, l: real, root: real)
    requires lum.max > lum.ref
  {
    l >= lum.ref ==> IsSqrt(root, Highlight(lum, l))
  }

  lemma KneeFacts(x: real)
    requires x >= 0.0
    ensures Knee(x) * (4.0 * x + 1.0) == 5.0 * x
    ensures Knee(0.0) == 0.0 && Knee(1.0) == 1.0 && Knee(x) >= 0.0
  {
    var d := 4.0 * x + 1.0;
    ScaleSign(Knee(x), d);
  }

  lemma KneeIncreasing(x: real, y: real)
    requires 0.0 <= x < y
    ensures Knee(x) < Knee(y)
  {
    var a, b := Knee(x), Knee(y);
    var c, d := 4.0 * x + 1.0, 4.0 * y + 1.0;
    assert a * c == 5.0 * x && b * d == 5.0 * y;
    assert c * d > 0.0;
    assert (b - a) * (c * d) == (b * d) * c - (a * c) * d;
    assert 5.0 * y * c - 5.0 * x * d == 5.0 * (y - x);
    ScaleSign(b - a, c * d);
  }

  lemma SqrtIncreasing(s: real, t: real, x: real, y: real)
    requires IsSqrt(s, x) && IsSqrt(t, y) && x < y
    ensures s < t
  {
    assert (t - s) * (t + s) == y - x;
    ScaleSign(t - s, t + s);
  }

  lemma LinearFacts(lum: Luminance, target: Luminance)
    requires ToneMappable(lum, target)
    ensures Linear(lum, target, 0.0) == 0.0
    ensures Linear(lum, target, lum.ref) == ToneMappingRef(target)
    ensures forall l, m :: l < m ==> Linear(lum, target, l) < Linear(lum, target, m)
  {
    RefHasHeadroom(target);
    var r := ToneMappingRef(target);
    var k := r / lum.ref;
    assert k * lum.ref == r;
    ScaleSign(k, lum.ref);
    forall l, m | l < m ensures Linear(lum, target, l) < Linear(lum, target, m) {
      MulLess(k, l, m);
    }
  }

  lemma LiftedFacts(target: Luminance)
    requires target.Valid()
    ensures Lifted(target, 0.0) == ToneMappingRef(target) && Lifted(target, 1.0) == target.max
    ensures forall u, v :: u < v ==> Lifted(target, u) < Lifted(target, v)
  {
    RefHasHeadroom(target);
    var d := target.max - ToneMappingRef(target);
    forall u, v | u < v ensures Lifted(target, u) < Lifted(target, v) {
      MulLess(d, u, v);
    }
  }

  /** The shader curve fixes the end points, meets itself at the reference and strictly increases. */
  lemma ShaderCurveIncreasing(lum: Luminance, target: Luminance, l: real, m: real)
    requires ToneMappable(lum, target) && 0.0 <= l < m
    ensures ShaderCurve(lum, target, 0.0) == 0.0
    ensures ShaderCurve(lum, target, lum.ref) == ToneMappingRef(target) == Linear(lum, target, lum.ref)
    ensures ShaderCurve(lum, target, lum.max) == target.max
    ensures ShaderCurve(lum, target, l) < ShaderCurve(lum, target, m)
  {
    hide Linear, Lifted, Knee, Highlight;
    LinearFacts(lum, target);
    LiftedFacts(target);
    KneeFacts(0.0);
    HighlightRange(lum, l);
    HighlightRange(lum, m);
    HighlightRange(lum, lum.max);
    HighlightRange(lum, lum.ref);
    if l >= lum.ref {
      HighlightIncreasing(lum, l, m);
      KneeIncreasing(Highlight(lum, l), Highlight(lum, m));
    } else if m > lum.ref {
      HighlightIncreasing(lum, lum.ref, m);
      KneeIncreasing(0.0, Highlight(lum, m));
    }
  }

  /** The same for the CPU curve, whatever square roots the library returns. */
  lemma CpuCurveIncreasing(lum: Luminance, target: Luminance, l: real, m: real, root: real, root': real)
    requires ToneMappable(lum, target) && 0.0 <= l < m
    requires RootFor(lum, l, root) && RootFor(lum, m, root')
    ensures CpuCurve(lum, target, l, root) < CpuCurve(lum, target, m, root')
    ensures l == lum.ref ==> CpuCurve(lum, target, l, root) == ToneMappingRef(target) == Linear(lum, target, l)
    ensures m == lum.max ==> CpuCurve(lum, target, m, root') == target.max
    ensures l == 0.0 ==> CpuCurve(lum, target, l, root) == 0.0
  {
    hide Linear, Lifted, Highlight;
    LinearFacts(lum, target);
    LiftedFacts(target);
    HighlightRange(lum, l);
    HighlightRange(lum, m);
    HighlightRange(lum, lum.ref);
    HighlightRange(lum, lum.max);
    if l >= lum.ref {
      HighlightIncreasing(lum, l, m);
      SqrtIncreasing(root, root', Highlight(lum, l), Highlight(lum, m));
      SqrtOfUnits(root, Highlight(lum, l));
    } else if m > lum.ref {
      HighlightIncreasing(lum, lum.ref, m);
      SqrtIncreasing(0.0, root', 0.0, Highlight(lum, m));
    }
    if m >= lum.ref { SqrtOfUnits(root', Highlight(lum, m)); }
  }

  lemma SqrtOfUnits(s: real, x: real)
    requires IsSqrt(s, x)
    ensures x == 0.0 ==> s == 0.0
    ensures x == 1.0 ==> s == 1.0
  {
    if s > 0.0 { MulPositive(s, s); }
    if x == 1.0 {
      assert (s - 1.0) * (s + 1.0) == 0.0;
      ScaleSign(s - 1.0, s + 1.0);
    }
  }

  /** The luminance that the shader curve takes to `y`. */
  function ShaderInverse(lum: Luminance, target: Luminance, y: real): real
    requires ToneMappable(lum, target)
  {
    RefHasHeadroom(target);
    var r := ToneMappingRef(target);
    if y < r then Mul(y, Quot(lum.ref, r))
    else
      var u := Quot(y - r, target.max - r);
      if u > 1.0 then lum.max else lum.ref + Mul(lum.max - lum.ref, Unknee(u))
  }

  function Unknee(u: real): real
    requires u <= 1.0
  {
    u / (5.0 - 4.0 * u)
  }

  lemma KneeUnknee(u: real)
    requires 0.0 <= u <= 1.0
    ensures 0.0 <= Unknee(u) <= 1.0 && Knee(Unknee(u)) == u
  {
    var d := 5.0 - 4.0 * u;
    var x := u / d;
    assert x * d == u;
    ScaleSign(x, d);
    assert (1.0 - x) * d == 5.0 - 5.0 * u;
    ScaleSign(1.0 - x, d);
    var e := 4.0 * x + 1.0;
    var k := (5.0 * x) / e;
    assert k * e == 5.0 * x;
    assert u * e == 5.0 * x;
    assert (k - u) * e == 0.0;
    ScaleSign(k - u, e);
  }

  /** Both curves reach every target luminance: the shader from an explicit inverse ... */
  lemma ShaderCurveOnto(lum: Luminance, target: Luminance, y: real)
    requires ToneMappable(lum, target) && 0.0 <= y <= target.max
    ensures 0.0 <= ShaderInverse(lum, target, y) <= lum.max
    ensures ShaderCurve(lum, target, ShaderInverse(lum, target, y)) == y
  {
    hide Linear, Lifted, Knee, Unknee, Highlight, Mul, Quot;
    RefHasHeadroom(target);
    var r := ToneMappingRef(target);
    if y < r {
      LinearOnto(lum, target, y);
    } else {
      var u := LiftedOnto(target, y);
      KneeUnknee(u);
      HighlightOnto(lum, Unknee(u));
    }
  }

  /** ... and the CPU curve from the square of the lift. */
  lemma CpuCurveOnto(lum: Luminance, target: Luminance, y: real) returns (l: real, root: real)
    requires ToneMappable(lum, target) && 0.0 <= y <= target.max
    ensures 0.0 <= l <= lum.max && RootFor(lum, l, root) && CpuCurve(lum, target, l, root) == y
  {
    hide Linear, Lifted, Highlight, Mul, Quot;
    RefHasHeadroom(target);
    root := 0.0;
    if y < ToneMappingRef(target) {
      LinearOnto(lum, target, y);
      l := Mul(y, Quot(lum.ref, ToneMappingRef(target)));
    } else {
      root := LiftedOnto(target, y);
      SquareInUnit(root);
      l := lum.ref + Mul(lum.max - lum.ref, root * root);
      HighlightOnto(lum, root * root);
    }
  }

  lemma SquareInUnit(u: real)
    requires 0.0 <= u <= 1.0
    ensures 0.0 <= u * u <= 1.0
  {
    ProductNonNegative(u, u);
    ProductNonNegative(u, 1.0 - u);
  }

  lemma LinearOnto(lum: Luminance, target: Luminance, y: real)
    requires ToneMappable(lum, target) && ToneMappingRef(target) > 0.0 && 0.0 <= y < ToneMappingRef(target)
    ensures var l := Mul(y, Quot(lum.ref, ToneMappingRef(target)));
            0.0 <= l < lum.ref && Linear(lum, target, l) == y
  {
    var r := ToneMappingRef(target);
    var k := lum.ref / r;
    assert k * r == lum.ref;
    ScaleSign(k, r);
    ProductNonNegative(y, k);
    assert (r - y) * k > 0.0;
    assert (r - y) * k == lum.ref - y * k;
    QuotPositive(lum.ref, r);
    assert (y * k) * (r / lum.ref) == y * (k * (r / lum.ref));
  }

  lemma LiftedOnto(target: Luminance, y: real) returns (u: real)
    requires target.Valid() && ToneMappingRef(target) < target.max && ToneMappingRef(target) <= y <= target.max
    ensures u == Quot(y - ToneMappingRef(target), target.max - ToneMappingRef(target))
    ensures 0.0 <= u <= 1.0 && Lifted(target, u) == y
  {
    var r := ToneMappingRef(target);
    var d := target.max - r;
    u := (y - r) / d;
    assert u * d == y - r;
    assert (1.0 - u) * d == target.max - y;
    ScaleSign(u, d);
    ScaleSign(1.0 - u, d);
  }

  lemma HighlightOnto(lum: Luminance, x: real)
    requires lum.Valid() && lum.max > lum.ref && 0.0 <= x <= 1.0
    ensures var l := lum.ref + Mul(lum.max - lum.ref, x);
            lum.ref <= l <= lum.max && Highlight(lum, l) == x
  {
    hide Mul, Quot;
    var d := lum.max - lum.ref;
    MulWithin(d, x);
    QuotUnique(Mul(d, x), d, x);
  }

  lemma MulWithin(d: real, x: real)
    requires d > 0.0 && 0.0 <= x <= 1.0
    ensures 0.0 <= Mul(d, x) <= d
  {
    ProductNonNegative(d, x);
    ProductNonNegative(d, 1.0 - x);
    assert d * (1.0 - x) == d - d * x;
  }

  /** The two curves agree below the reference; above it they meet exactly at 0, 1/16 and 1 of the
      highlight range, and in between the CPU is above the shader before 1/16 and below it after. */
  lemma CurvesMeet(lum: Luminance, target: Luminance, l: real, root: real)
    requires ToneMappable(lum, target) && 0.0 <= l <= lum.max && RootFor(lum, l, root)
    ensures l < lum.ref ==> ShaderCurve(lum, target, l) == CpuCurve(lum, target, l, root)
    ensures l >= lum.ref ==>
              var x := Highlight(lum, l);
              && (ShaderCurve(lum, target, l) == CpuCurve(lum, target, l, root) <==>
                    x == 0.0 || x == 0.0625 || x == 1.0)
              && (ShaderCurve(lum, target, l) < CpuCurve(lum, target, l, root) <==> 0.0 < x < 0.0625)
  {
    hide Linear, Lifted, Knee, Highlight;
    if l >= lum.ref {
      HighlightRange(lum, l);
      KneeAgainstRoot(Highlight(lum, l), root);
      LiftedFacts(target);
    }
  }

  lemma KneeAgainstRoot(x: real, s: real)
    requires 0.0 <= x <= 1.0 && IsSqrt(s, x)
    ensures Knee(x) == s <==> x == 0.0 || x == 0.0625 || x == 1.0
    ensures Knee(x) < s <==> 0.0 < x < 0.0625
  {
    KneeFacts(x);
    var d := 4.0 * x + 1.0;
    // (Knee - s) d = 5 s^2 - s (4 s^2 + 1) = s (1 - s) (4 s - 1)
    var a, b := s * (1.0 - s), 4.0 * s - 1.0;
    assert (Knee(x) - s) * d == a * b by { KneeGap(x, s); }
    SqrtAtMostOne(s, x);
    SqrtAgainstQuarter(s, x);
    ProductNonNegative(s, 1.0 - s);
    SignOfProduct(Knee(x) - s, d, a, b);
    if s > 0.0 && s < 1.0 { assert a > 0.0; }
  }

  lemma KneeGap(x: real, s: real)
    requires x >= 0.0 && IsSqrt(s, x)
    ensures (Knee(x) - s) * (4.0 * x + 1.0) == (s * (1.0 - s)) * (4.0 * s - 1.0)
  {
    KneeFacts(x);
    assert (Knee(x) - s) * (4.0 * x + 1.0) == 5.0 * x - s * (4.0 * x + 1.0);
    assert (s * (1.0 - s)) * (4.0 * s - 1.0) == 5.0 * (s * s) - s - 4.0 * (s * (s * s));
    assert s * (4.0 * x + 1.0) == 4.0 * (s * x) + s;
  }

  lemma SqrtAtMostOne(s: real, x: real)
    requires IsSqrt(s, x) && x <= 1.0
    ensures s <= 1.0 && (s == 1.0 <==> x == 1.0) && (s == 0.0 <==> x == 0.0)
  {
    assert (1.0 - s) * (1.0 + s) == 1.0 - x;
    ScaleSign(1.0 - s, 1.0 + s);
    if s > 0.0 { MulPositive(s, s); }
  }

  lemma SqrtAgainstQuarter(s: real, x: real)
    requires IsSqrt(s, x)
    ensures (s < 0.25 <==> x < 0.0625) && (s == 0.25 <==> x == 0.0625)
  {
    assert (0.25 - s) * (0.25 + s) == 0.0625 - x;
    ScaleSign(0.25 - s, 0.25 + s);
  }

  lemma SignOfProduct(g: real, d: real, a: real, b: real)
    requires d > 0.0 && a >= 0.0 && g * d == a * b
    ensures g == 0.0 <==> a == 0.0 || b == 0.0
    ensures g < 0.0 <==> a > 0.0 && b < 0.0
  {
    ScaleSign(g, d);
    if a > 0.0 { ScaleSign(b, a); }
  }
}
