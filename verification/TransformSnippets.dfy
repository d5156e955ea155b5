/** Generated colour transform shaders and the cache in front of them (clutter-color-state.c,
    clutter-color-state-params.c, clutter-color-manager.c). */
module TransformSnippets {
  import opened Collections
  import opened ToneMapping

  // --- colour states -----------------------------------------------------------------------------------

  datatype TransferFunction = Srgb | Pq | Bt709 | Linear

  datatype Eotf = Named(name: TransferFunction) | Gamma(exponent: real)

  datatype Colorspace = SpaceSrgb | SpaceBt2020 | SpaceNtsc | SpacePal | SpaceP3

  datatype Chromaticity = Chromaticity(x: real, y: real)

  datatype Primaries = Primaries(r: Chromaticity, g: Chromaticity, b: Chromaticity, w: Chromaticity)

  datatype Colorimetry = InSpace(space: Colorspace) | WithPrimaries(primaries: Primaries)

  datatype LuminanceChoice = Derived | Explicit(luminance: Luminance)

  datatype ColorState =
    | Params(eotf: Eotf, colorimetry: Colorimetry, choice: LuminanceChoice)
    | Icc(checksum: int, isLinear: bool)

  function PrimariesOf(c: Colorimetry): Primaries {
    var d65 := Chromaticity(0.3127, 0.3290);
    match c
    case WithPrimaries(p) => p
    case InSpace(SpaceSrgb) =>
      Primaries(Chromaticity(0.64, 0.33), Chromaticity(0.30, 0.60), Chromaticity(0.15, 0.06), d65)
    case InSpace(SpaceNtsc) =>
      Primaries(Chromaticity(0.63, 0.34), Chromaticity(0.31, 0.595), Chromaticity(0.155, 0.07), d65)
    case InSpace(SpaceBt2020) =>
      Primaries(Chromaticity(0.708, 0.292), Chromaticity(0.170, 0.797), Chromaticity(0.131, 0.046), d65)
    case InSpace(SpacePal) =>
      Primaries(Chromaticity(0.64, 0.33), Chromaticity(0.29, 0.60), Chromaticity(0.15, 0.06), d65)
    case InSpace(SpaceP3) =>
      Primaries(Chromaticity(0.68, 0.32), Chromaticity(0.265, 0.69), Chromaticity(0.15, 0.06), d65)
  }

  predicate ChromaticityEqual(a: Chromaticity, b: Chromaticity) {
    ApproxEqual(a.x, b.x, 0.0001) && ApproxEqual(a.y, b.y, 0.0001)
  }

  predicate ColorimetryEqual(a: Colorimetry, b: Colorimetry) {
    if a.InSpace? && b.InSpace? then a.space == b.space else
      var p, q := PrimariesOf(a), PrimariesOf(b);
      && ChromaticityEqual(p.r, q.r) && ChromaticityEqual(p.g, q.g)
      && ChromaticityEqual(p.b, q.b) && ChromaticityEqual(p.w, q.w)
  }

  predicate EotfEqual(a: Eotf, b: Eotf) {
    match (a, b)
    case (Named(x), Named(y)) => x == y
    case (Gamma(x), Gamma(y)) => ApproxEqual(x, y, 0.0001)
    case _ => false
  }

  function DefaultLuminance(eotf: Eotf): Luminance {
    match eotf
    case Named(Bt709) => Luminance(false, 0.01, 100.0, 100.0)
    case Named(Pq) => Luminance(false, 0.005, 10000.0, 203.0)
    case _ => Luminance(false, 0.2, 80.0, 80.0)
  }

  /** Twice the area of a triangle, positive if its corners run counterclockwise. */
  function Area(a: Chromaticity, b: Chromaticity, c: Chromaticity): real {
    (b.x - a.x) * (c.y - a.y) - (c.x - a.x) * (b.y - a.y)
  }

  /** In every named space red, green and blue run counterclockwise around the white point. */
  lemma WhiteInsideGamut(space: Colorspace)
    ensures var p := PrimariesOf(InSpace(space));
            Area(p.r, p.g, p.w) > 0.0 && Area(p.g, p.b, p.w) > 0.0 && Area(p.b, p.r, p.w) > 0.0
  {
  }

  /** How far two sets of primaries are apart, in the coordinate in which they differ most. */
  function Spread(p: Primaries, q: Primaries): real {
    Larger(Larger(Spot(p.r, q.r), Spot(p.g, q.g)), Larger(Spot(p.b, q.b), Spot(p.w, q.w)))
  }

  function Spot(a: Chromaticity, b: Chromaticity): real { Larger(Distance(a.x, b.x), Distance(a.y, b.y)) }

  function Distance(a: real, b: real): real { if a > b then a - b else b - a }

  function Larger(a: real, b: real): real { if a > b then a else b }

  /** Colorimetries are equal exactly when no coordinate of their primaries differs by 0.0001; comparing the names of
      two spaces gives the same answer. */
  lemma ColorimetryMeans(a: Colorimetry, b: Colorimetry)
    ensures ColorimetryEqual(a, b) <==> Spread(PrimariesOf(a), PrimariesOf(b)) < 0.0001
  {
    if a.InSpace? && b.InSpace? && a.space != b.space {
      GreensDiffer(a.space, b.space);
    }
  }

  lemma GreensDiffer(a: Colorspace, b: Colorspace)
    requires a != b
    ensures Spot(PrimariesOf(InSpace(a)).g, PrimariesOf(InSpace(b)).g) >= 0.0001
  {
  }

  /** Transfer functions are equal if they have the same name, or exponents that differ by less than 0.0001. */
  lemma EotfEqualMeans(a: Eotf, b: Eotf)
    ensures EotfEqual(a, a) && (EotfEqual(a, b) <==> EotfEqual(b, a))
    ensures EotfEqual(a, b) <==>
            if a.Gamma? && b.Gamma? then -0.0001 < a.exponent - b.exponent < 0.0001 else a == b
  {
  }

  /** Which defaults need tone mapping: from PQ to the others, and from BT.709 to sRGB and its like. */
  lemma DefaultsToned(a: Eotf, b: Eotf)
    ensures NeedsToneMapping(DefaultLuminance(a), DefaultLuminance(b)) <==>
            (a == Named(Pq) && b != Named(Pq)) || (a == Named(Bt709) && b != Named(Pq) && b != Named(Bt709))
  {
  }

  function LuminanceOf(s: ColorState): Luminance
    requires s.Params?
  {
    match s.choice
    case Derived => DefaultLuminance(s.eotf)
    case Explicit(l) => l
  }

  // --- keys ------------------------------------------------------------------------------------------

  /** The bit-fields of a transform key. */
  datatype Key = Key(sourceEotf: bv4, targetEotf: bv4, luminance: bv1, colorTrans: bv1,
                     toneMapping: bv1, lut3d: bv1, opaqueBit: bv1)

  function Hash(k: Key): bv32 {
    (k.sourceEotf as bv32) | (k.targetEotf as bv32 << 4) | (k.luminance as bv32 << 8) |
    (k.colorTrans as bv32 << 9) | (k.toneMapping as bv32 << 10) | (k.lut3d as bv32 << 11) |
    (k.opaqueBit as bv32 << 12)
  }

  function Bit(b: bool): bv1 { if b then 1 else 0 }

  /** The enumerator shifted left once; 1 for a gamma curve. */
  function EotfKey(e: Eotf): bv4 {
    match e
    case Named(Srgb) => 0
    case Named(Pq) => 2
    case Named(Bt709) => 4
    case Named(Linear) => 6
    case Gamma(_) => 1
  }

  function LutKey(isOpaque: bool): Key { Key(0, 0, 0, 0, 0, 1, Bit(isOpaque)) }

  predicate ByLut(s: ColorState, t: ColorState) { !(s.Params? && t.Params?) }

  function KeyOf(s: ColorState, t: ColorState, isOpaque: bool): Key {
    if ByLut(s, t) then LutKey(isOpaque) else
      var l, m := LuminanceOf(s), LuminanceOf(t);
      Key(EotfKey(s.eotf), EotfKey(t.eotf), Bit(NeedsLumMapping(l, m)),
          Bit(!ColorimetryEqual(s.colorimetry, t.colorimetry)), Bit(NeedsToneMapping(l, m)), 0, Bit(isOpaque))
  }

  /** The hash separates keys. */
  lemma HashInjective(a: Key, b: Key)
    requires Hash(a) == Hash(b)
    ensures a == b
  {
    var h := Hash(a);
    assert a.sourceEotf as bv32 == h & 0xF && b.sourceEotf as bv32 == h & 0xF;
    assert a.targetEotf as bv32 == (h >> 4) & 0xF && b.targetEotf as bv32 == (h >> 4) & 0xF;
  }

  // --- snippets --------------------------------------------------------------------------------------

  /** The shader functions that can be linked into a snippet. */
  datatype Op =
    | SrgbEotf | PqEotf | Bt709Eotf | GammaEotf
    | SrgbInvEotf | PqInvEotf | Bt709InvEotf | GammaInvEotf
    | LuminanceMapping | ColorSpaceMapping | ToneMapper | SampleLut3d

  datatype Name = OpName(op: Op) | PqEotfFloat | PqInvEotfFloat

  datatype Uniform =
    | GammaExp | InvGammaExp | LuminanceFactor | ColorTransformationMatrix
    | ToLms | FromLms | SrcMaxLum | DstMaxLum | SrcRefLum | ToneMappingRefLum | LinearMapping
    | Lut3dSize

  /** The functions one source text defines, those it calls from elsewhere, and the uniforms it declares. */
  function Defines(op: Op): seq<Name> {
    if op.ToneMapper? then [PqEotfFloat, PqInvEotfFloat, OpName(ToneMapper)] else [OpName(op)]
  }

  function Calls(op: Op): set<Op> {
    if op.ToneMapper? then {PqInvEotf, PqEotf} else {}
  }

  function Declares(op: Op): set<Uniform> {
    match op
    case GammaEotf => {GammaExp}
    case GammaInvEotf => {InvGammaExp}
    case LuminanceMapping => {LuminanceFactor}
    case ColorSpaceMapping => {ColorTransformationMatrix}
    case ToneMapper => {ToLms, FromLms, SrcMaxLum, DstMaxLum, SrcRefLum, ToneMappingRefLum, LinearMapping}
    case SampleLut3d => {Lut3dSize}
    case _ => {}
  }

  /** Source texts in order, then the calls that make up `transform_color_state`, then the form of the
      fragment hook. */
  datatype Snippet = Snippet(globals: seq<Op>, body: seq<Op>, opaqueHook: bool)

  function EotfOps(e: Eotf): seq<Op> {
    match e
    case Named(Srgb) => [SrgbEotf]
    case Named(Pq) => [PqEotf]
    case Named(Bt709) => [Bt709Eotf]
    case Named(Linear) => []
    case Gamma(_) => [GammaEotf]
  }

  function InvEotfOps(e: Eotf): seq<Op> {
    match e
    case Named(Srgb) => [SrgbInvEotf]
    case Named(Pq) => [PqInvEotf]
    case Named(Bt709) => [Bt709InvEotf]
    case Named(Linear) => []
    case Gamma(_) => [GammaInvEotf]
  }

  /** What a key alone says about the program: the reference for the generator. */
  function DecodeEotf(bits: bv4): Eotf {
    if bits == 0 then Named(Srgb) else if bits == 2 then Named(Pq)
    else if bits == 4 then Named(Bt709) else if bits == 6 then Named(Linear) else Gamma(1.0)
  }

  function When(b: bool, ops: seq<Op>): seq<Op> { if b then ops else [] }

  /** The parts that tone mapping links in: the PQ pair unless it is there already, and itself. */
  function ToneParts(eotf: seq<Op>, inv: seq<Op>): seq<Op> {
    When(eotf != [PqEotf], [PqEotf]) + When(inv != [PqInvEotf], [PqInvEotf]) + [ToneMapper]
  }

  function Assemble(eotf: seq<Op>, inv: seq<Op>, lum: bool, space: bool, tone: bool, opaqueHook: bool): Snippet {
    var lumOps, spaceOps := When(lum, [LuminanceMapping]), When(space, [ColorSpaceMapping]);
    Snippet(eotf + inv + lumOps + spaceOps + When(tone, ToneParts(eotf, inv)),
            eotf + lumOps + spaceOps + When(tone, [ToneMapper]) + inv,
            opaqueHook)
  }

  function ProgramOf(k: Key): Snippet {
    if k.lut3d == 1 then Snippet([SampleLut3d], [SampleLut3d], k.opaqueBit == 1)
    else Assemble(EotfOps(DecodeEotf(k.sourceEotf)), InvEotfOps(DecodeEotf(k.targetEotf)),
                  k.luminance == 1, k.colorTrans == 1, k.toneMapping == 1, k.opaqueBit == 1)
  }

  /** What the generator emits for two colour states, read off the states themselves. */
  function Generated(s: ColorState, t: ColorState, isOpaque: bool): Snippet {
    if ByLut(s, t) then Snippet([SampleLut3d], [SampleLut3d], isOpaque) else
      var l, m := LuminanceOf(s), LuminanceOf(t);
      Assemble(EotfOps(s.eotf), InvEotfOps(t.eotf), NeedsLumMapping(l, m),
               !ColorimetryEqual(s.colorimetry, t.colorimetry), NeedsToneMapping(l, m), isOpaque)
  }

  /** The key holds all that the generator reads from the colour states. */
  lemma KeyProgram(s: ColorState, t: ColorState, isOpaque: bool)
    ensures ProgramOf(KeyOf(s, t, isOpaque)) == Generated(s, t, isOpaque)
  {
    hide ColorimetryEqual, NeedsLumMapping, NeedsToneMapping, LuminanceOf, Assemble;
    if !ByLut(s, t) {
      DecodeKey(s.eotf);
      DecodeKey(t.eotf);
    }
  }

  lemma DecodeKey(e: Eotf)
    ensures EotfOps(DecodeEotf(EotfKey(e))) == EotfOps(e)
    ensures InvEotfOps(DecodeEotf(EotfKey(e))) == InvEotfOps(e)
  {
  }

  /** The generator appends to two buffers; its output depends on the colour states only through the key. */
  method CreateTransformSnippet(s: ColorState, t: ColorState, isOpaque: bool) returns (snippet: Snippet)
    ensures snippet == Generated(s, t, isOpaque)
    ensures snippet == ProgramOf(KeyOf(s, t, isOpaque))
  {
    hide ColorimetryEqual, NeedsLumMapping, NeedsToneMapping, LuminanceOf, EotfOps, InvEotfOps, ProgramOf, KeyOf;
    hide When, ToneParts;
    KeyProgram(s, t, isOpaque);
    var globals: seq<Op>, body: seq<Op> := [], [];
    if ByLut(s, t) {
      globals := globals + [SampleLut3d];
      body := body + [SampleLut3d];
      return Snippet(globals, body, isOpaque);
    }
    var lum, target := LuminanceOf(s), LuminanceOf(t);
    var eotf, inv := EotfOps(s.eotf), InvEotfOps(t.eotf);
    var lumOps := When(NeedsLumMapping(lum, target), [LuminanceMapping]);
    var spaceOps := When(!ColorimetryEqual(s.colorimetry, t.colorimetry), [ColorSpaceMapping]);
    var toneOps := When(NeedsToneMapping(lum, target), [ToneMapper]);
    globals := globals + eotf;
    assert globals == eotf;
    globals := globals + inv;
    globals := globals + lumOps;
    globals := globals + spaceOps;
    WhenNeeded(NeedsToneMapping(lum, target), ToneMapper);
    globals := AppendToneMapping(globals, eotf, inv, toneOps);
    body := body + eotf;
    assert body == eotf;
    body := body + lumOps;
    body := body + spaceOps;
    body := body + toneOps;
    body := body + inv;
    snippet := Snippet(globals, body, isOpaque);
  }

  lemma WhenNeeded(needed: bool, op: Op)
    ensures When(needed, [op]) == if needed then [op] else []
  {
  }

  /** Links in the tone mapper, and the PQ functions it calls unless they are there already. */
  method AppendToneMapping(globals: seq<Op>, eotf: seq<Op>, inv: seq<Op>, toneOps: seq<Op>) returns (r: seq<Op>)
    requires toneOps == [] || toneOps == [ToneMapper]
    ensures r == globals + When(toneOps != [], ToneParts(eotf, inv))
  {
    r := globals;
    if toneOps != [] {
      if eotf != [PqEotf] { r := r + [PqEotf]; }
      if inv != [PqInvEotf] { r := r + [PqInvEotf]; }
      r := r + toneOps;
    }
  }

  // --- what a generated program does -------------------------------------------------------------------

  /** What each shader function does to a colour, its uniforms being set. */
  type Meaning<!C> = Op -> C -> C

  /** `transform_color_state`: the calls, one after the other. */
  function Execute<C>(calls: seq<Op>, m: Meaning<C>, c: C): C {
    if calls == [] then c else m(calls[|calls| - 1])(Execute(calls[..|calls| - 1], m, c))
  }

  function Stage<C>(needed: bool, op: Op, m: Meaning<C>, c: C): C { if needed then m(op)(c) else c }

  /** From the encoding of the source to light, and from light to the encoding of the target. */
  function Decoded<C>(e: Eotf, m: Meaning<C>, c: C): C {
    match e
    case Named(Srgb) => m(SrgbEotf)(c)
    case Named(Pq) => m(PqEotf)(c)
    case Named(Bt709) => m(Bt709Eotf)(c)
    case Named(Linear) => c
    case Gamma(_) => m(GammaEotf)(c)
  }

  function Encoded<C>(e: Eotf, m: Meaning<C>, c: C): C {
    match e
    case Named(Srgb) => m(SrgbInvEotf)(c)
    case Named(Pq) => m(PqInvEotf)(c)
    case Named(Bt709) => m(Bt709InvEotf)(c)
    case Named(Linear) => c
    case Gamma(_) => m(GammaInvEotf)(c)
  }

  lemma {:induction false} ExecuteAppend<C>(a: seq<Op>, b: seq<Op>, m: Meaning<C>, c: C)
    ensures Execute(a + b, m, c) == Execute(b, m, Execute(a, m, c))
  {
    if b == [] {
      assert a + b == a;
    } else {
      var last := |b| - 1;
      ExecuteAppend(a, b[..last], m, c);
      assert (a + b)[..|a + b| - 1] == a + b[..last];
    }
  }

  lemma ExecuteWhen<C>(needed: bool, op: Op, m: Meaning<C>, c: C)
    ensures Execute(When(needed, [op]), m, c) == Stage(needed, op, m, c)
  {
    assert Execute([op], m, c) == m(op)(Execute([op][..0], m, c));
  }

  lemma ExecuteEotf<C>(e: Eotf, m: Meaning<C>, c: C)
    ensures Execute(EotfOps(e), m, c) == Decoded(e, m, c)
    ensures Execute(InvEotfOps(e), m, c) == Encoded(e, m, c)
  {
    hide Execute;
    if EotfOps(e) != [] { ExecuteWhen(true, EotfOps(e)[0], m, c); } else { ExecuteNothing(m, c); }
    if InvEotfOps(e) != [] { ExecuteWhen(true, InvEotfOps(e)[0], m, c); } else { ExecuteNothing(m, c); }
  }

  lemma ExecuteNothing<C>(m: Meaning<C>, c: C)
    ensures Execute([], m, c) == c
  {
  }

  /** The generated program decodes, matches luminance, converts the colour space, maps tones and encodes, in this
      order and each only if needed. */
  lemma ProgramMeans<C>(s: ColorState, t: ColorState, isOpaque: bool, m: Meaning<C>, c: C)
    ensures var calls := Generated(s, t, isOpaque).body;
            Execute(calls, m, c) ==
            if !(s.Params? && t.Params?) then m(SampleLut3d)(c) else
              var l, k := LuminanceOf(s), LuminanceOf(t);
              var light := Decoded(s.eotf, m, c);
              var level := Stage(NeedsLumMapping(l, k), LuminanceMapping, m, light);
              var space := Stage(!ColorimetryEqual(s.colorimetry, t.colorimetry), ColorSpaceMapping, m, level);
              var tone := Stage(NeedsToneMapping(l, k), ToneMapper, m, space);
              Encoded(t.eotf, m, tone)
  {
    hide Execute, ColorimetryEqual, NeedsLumMapping, NeedsToneMapping, LuminanceOf, EotfOps, InvEotfOps, Stage;
    if ByLut(s, t) {
      ExecuteWhen(true, SampleLut3d, m, c);
      StageTaken(SampleLut3d, m, c);
    } else {
      var l, k := LuminanceOf(s), LuminanceOf(t);
      var eotf, inv := EotfOps(s.eotf), InvEotfOps(t.eotf);
      var lumOps := When(NeedsLumMapping(l, k), [LuminanceMapping]);
      var spaceOps := When(!ColorimetryEqual(s.colorimetry, t.colorimetry), [ColorSpaceMapping]);
      var toneOps := When(NeedsToneMapping(l, k), [ToneMapper]);
      ExecuteEotf(s.eotf, m, c);
      var light := Execute(eotf, m, c);
      ExecuteAppend(eotf, lumOps, m, c);
      ExecuteWhen(NeedsLumMapping(l, k), LuminanceMapping, m, light);
      var level := Execute(lumOps, m, light);
      ExecuteAppend(eotf + lumOps, spaceOps, m, c);
      ExecuteWhen(!ColorimetryEqual(s.colorimetry, t.colorimetry), ColorSpaceMapping, m, level);
      var space := Execute(spaceOps, m, level);
      ExecuteAppend(eotf + lumOps + spaceOps, toneOps, m, c);
      ExecuteWhen(NeedsToneMapping(l, k), ToneMapper, m, space);
      ExecuteAppend(eotf + lumOps + spaceOps + toneOps, inv, m, c);
      ExecuteEotf(t.eotf, m, Execute(toneOps, m, space));
    }
  }

  lemma StageTaken<C>(op: Op, m: Meaning<C>, c: C)
    ensures Stage(true, op, m, c) == m(op)(c)
  {
  }

  /** Where encoder and decoder undo each other, a pair of states without need of a mapping leaves colours alone, so
      adding no snippet for it is right; and a mapping is needed whenever the program would do anything else than
      decode and encode with one transfer function. */
  lemma MappingNeeded<C(!new)>(s: ColorState, t: ColorState, isOpaque: bool, m: Meaning<C>)
    requires s.Params? && t.Params?
    ensures NeedsMapping(s, t) <==>
            !EotfEqual(s.eotf, t.eotf) || Generated(s, t, isOpaque).body != EotfOps(s.eotf) + InvEotfOps(t.eotf)
    ensures !NeedsMapping(s, t) && (forall c :: Encoded(t.eotf, m, Decoded(s.eotf, m, c)) == c) ==>
              forall c :: Execute(Generated(s, t, isOpaque).body, m, c) == c
  {
    hide ColorimetryEqual, NeedsLumMapping, NeedsToneMapping, LuminanceOf, EotfEqual, Execute, Encoded, Decoded;
    var l, k := LuminanceOf(s), LuminanceOf(t);
    var eotf, inv := EotfOps(s.eotf), InvEotfOps(t.eotf);
    var lumOps := When(NeedsLumMapping(l, k), [LuminanceMapping]);
    var spaceOps := When(!ColorimetryEqual(s.colorimetry, t.colorimetry), [ColorSpaceMapping]);
    var toneOps := When(NeedsToneMapping(l, k), [ToneMapper]);
    assert |Generated(s, t, isOpaque).body| == |eotf| + |lumOps| + |spaceOps| + |toneOps| + |inv|;
    assert eotf + [] + [] + [] + inv == eotf + inv;
    forall c ensures !NeedsMapping(s, t) ==>
                       Execute(Generated(s, t, isOpaque).body, m, c) == Encoded(t.eotf, m, Decoded(s.eotf, m, c)) {
      ProgramMeans(s, t, isOpaque, m, c);
    }
  }

  /** No operation is called twice, and each of the three middle ones exactly if needed. */
  lemma CalledOnce(s: ColorState, t: ColorState, isOpaque: bool)
    requires s.Params? && t.Params?
    ensures var calls, l, k := Generated(s, t, isOpaque).body, LuminanceOf(s), LuminanceOf(t);
            && Distinct(calls)
            && (LuminanceMapping in calls <==> NeedsLumMapping(l, k))
            && (ColorSpaceMapping in calls <==> !ColorimetryEqual(s.colorimetry, t.colorimetry))
            && (ToneMapper in calls <==> NeedsToneMapping(l, k))
  {
    hide ColorimetryEqual, NeedsLumMapping, NeedsToneMapping, LuminanceOf, Distinct, When, OneOf, EotfOps, InvEotfOps;
    var l, k := LuminanceOf(s), LuminanceOf(t);
    var lum, space, tone :=
      NeedsLumMapping(l, k), !ColorimetryEqual(s.colorimetry, t.colorimetry), NeedsToneMapping(l, k);
    OneOfEotf(s.eotf, t.eotf);
    OneOfWhen(lum, LuminanceMapping);
    OneOfWhen(space, ColorSpaceMapping);
    OneOfWhen(tone, ToneMapper);
    CallsDistinct(EotfOps(s.eotf), When(lum, [LuminanceMapping]), When(space, [ColorSpaceMapping]),
                  When(tone, [ToneMapper]), InvEotfOps(t.eotf));
    CallsMembers(EotfOps(s.eotf), lum, space, tone, InvEotfOps(t.eotf));
  }

  lemma OneOfEotf(e: Eotf, f: Eotf)
    ensures OneOf(EotfOps(e), IsEotf) && OneOf(InvEotfOps(f), IsInvEotf)
  {
  }

  lemma CallsMembers(eotf: seq<Op>, lum: bool, space: bool, tone: bool, inv: seq<Op>)
    requires OneOf(eotf, IsEotf) && OneOf(inv, IsInvEotf)
    ensures var calls := Assemble(eotf, inv, lum, space, tone, true).body;
            && (LuminanceMapping in calls <==> lum) && (ColorSpaceMapping in calls <==> space)
            && (ToneMapper in calls <==> tone)
  {
    hide ToneParts;
    var lumOps, spaceOps, toneOps :=
      When(lum, [LuminanceMapping]), When(space, [ColorSpaceMapping]), When(tone, [ToneMapper]);
    forall op ensures op in eotf + lumOps + spaceOps + toneOps + inv <==>
                      op in eotf || op in lumOps || op in spaceOps || op in toneOps || op in inv {
    }
  }

  /** Tones are mapped for the luminances given with the states, whatever the defaults of their transfer functions. */
  lemma ExplicitLuminance(s: ColorState, t: ColorState, l: Luminance, k: Luminance, isOpaque: bool)
    requires s.Params? && t.Params? && s.choice == Explicit(l) && t.choice == Explicit(k) && l.Valid() && k.Valid()
    ensures ToneMapper in Generated(s, t, isOpaque).body <==> exists x :: Shows(l, x) && !Shows(k, x)
  {
    hide Generated;
    CalledOnce(s, t, isOpaque);
    ToneMappingNeeded(l, k);
  }

  /** A state needs no mapping to itself, and through a table to every other. */
  lemma NoMappingToItself(s: ColorState)
    ensures !NeedsMapping(s, s)
    ensures forall t: ColorState :: (s.Icc? || t.Icc?) && s != t ==> NeedsMapping(s, t)
  {
    if s.Params? {
      EotfEqualMeans(s.eotf, s.eotf);
    }
  }

  lemma CallsDistinct(eotf: seq<Op>, lumOps: seq<Op>, spaceOps: seq<Op>, toneOps: seq<Op>, inv: seq<Op>)
    requires OneOf(eotf, IsEotf) && OneOf(inv, IsInvEotf) && OneOf(toneOps, op => op == ToneMapper)
    requires OneOf(lumOps, op => op == LuminanceMapping) && OneOf(spaceOps, op => op == ColorSpaceMapping)
    ensures Distinct(eotf + lumOps + spaceOps + toneOps + inv)
  {
    AppendDistinct(eotf, lumOps);
    AppendDistinct(eotf + lumOps, spaceOps);
    AppendDistinct(eotf + lumOps + spaceOps, toneOps);
    AppendDistinct(eotf + lumOps + spaceOps + toneOps, inv);
  }

  /** The fragment hook: opaque colours are transformed as they are, others without their alpha.  `scale` multiplies a
      colour by a number. */
  function Fragment<C>(snippet: Snippet, m: Meaning<C>, scale: (C, real) -> C, rgb: C, alpha: real): C {
    if snippet.opaqueHook then Execute(snippet.body, m, rgb)
    else if alpha > 0.0 then scale(Execute(snippet.body, m, scale(rgb, 1.0 / alpha)), alpha)
    else scale(rgb, alpha)
  }

  /** The flag of the request decides the hook, and for a colour that is opaque either will do. */
  lemma FragmentMeans<C>(s: ColorState, t: ColorState, m: Meaning<C>, scale: (C, real) -> C, rgb: C, alpha: real)
    ensures Fragment(Generated(s, t, true), m, scale, rgb, alpha) == Execute(Generated(s, t, true).body, m, rgb)
    ensures alpha > 0.0 ==>
              Fragment(Generated(s, t, false), m, scale, rgb, alpha) ==
              scale(Execute(Generated(s, t, true).body, m, scale(rgb, 1.0 / alpha)), alpha)
    ensures (forall c :: scale(c, 1.0) == c) ==>
              Fragment(Generated(s, t, true), m, scale, rgb, 1.0) ==
              Fragment(Generated(s, t, false), m, scale, rgb, 1.0)
  {
    hide ColorimetryEqual, NeedsLumMapping, NeedsToneMapping, LuminanceOf, Execute;
  }

  // --- every generated program links -------------------------------------------------------------------

  /** The functions a program text defines, in order. */
  function Names(globals: seq<Op>): seq<Name> {
    if globals == [] then [] else Names(globals[..|globals| - 1]) + Defines(globals[|globals| - 1])
  }

  ghost predicate Disjoint<T>(a: seq<T>, b: seq<T>) {
    forall x :: !(x in a && x in b)
  }

  /** No name is defined twice, source texts call only what is defined above them, and the transform
      calls only what is defined. */
  ghost predicate Linked(snippet: Snippet) {
    && Distinct(Names(snippet.globals))
    && (forall i, op :: 0 <= i < |snippet.globals| && op in Calls(snippet.globals[i]) ==> op in snippet.globals[..i])
    && (forall op :: op in snippet.body ==> op in snippet.globals)
  }

  lemma AppendDistinct<T>(a: seq<T>, b: seq<T>)
    requires Distinct(a) && Distinct(b) && Disjoint(a, b)
    ensures Distinct(a + b)
  {
    var s := a + b;
    forall i, j | 0 <= i < j < |s| ensures s[i] != s[j] {
      if i < |a| <= j { assert s[i] in a && s[j] in b; }
    }
  }

  lemma {:induction false} NamesOfOps(globals: seq<Op>, n: Name)
    requires n in Names(globals)
    ensures exists op :: op in globals && n in Defines(op)
  {
    var last := |globals| - 1;
    if n in Names(globals[..last]) {
      NamesOfOps(globals[..last], n);
    } else {
      assert globals[last] in globals;
    }
  }

  lemma {:induction false} DistinctOpsDistinctNames(globals: seq<Op>)
    requires Distinct(globals)
    ensures Distinct(Names(globals))
  {
    if globals != [] {
      var last := |globals| - 1;
      var init := globals[..last];
      DistinctOpsDistinctNames(init);
      forall n ensures !(n in Names(init) && n in Defines(globals[last])) {
        if n in Names(init) { NamesOfOps(init, n); }
      }
      AppendDistinct(Names(init), Defines(globals[last]));
    }
  }

  predicate IsEotf(op: Op) { op.SrgbEotf? || op.PqEotf? || op.Bt709Eotf? || op.GammaEotf? }

  predicate IsInvEotf(op: Op) { op.SrgbInvEotf? || op.PqInvEotf? || op.Bt709InvEotf? || op.GammaInvEotf? }

  ghost predicate OneOf(ops: seq<Op>, p: Op -> bool) {
    |ops| <= 1 && forall op :: op in ops ==> p(op)
  }

  lemma AssembledGlobalsDistinct(eotf: seq<Op>, inv: seq<Op>, lum: bool, space: bool, tone: bool)
    requires OneOf(eotf, IsEotf) && OneOf(inv, IsInvEotf)
    ensures Distinct(Assemble(eotf, inv, lum, space, tone, false).globals)
  {
    hide Distinct, Disjoint, ToneParts, OneOf;
    var lumOps, spaceOps := When(lum, [LuminanceMapping]), When(space, [ColorSpaceMapping]);
    OneOfWhen(lum, LuminanceMapping);
    OneOfWhen(space, ColorSpaceMapping);
    BaseDistinct(eotf, inv, lumOps, spaceOps);
    ToneDisjoint(eotf, inv, lumOps, spaceOps);
    NothingMore(eotf + inv + lumOps + spaceOps);
    AppendDistinct(eotf + inv + lumOps + spaceOps, When(tone, ToneParts(eotf, inv)));
  }

  lemma NothingMore<T>(s: seq<T>)
    ensures Distinct<T>([]) && Disjoint(s, [])
  {
  }

  lemma BaseDistinct(eotf: seq<Op>, inv: seq<Op>, lumOps: seq<Op>, spaceOps: seq<Op>)
    requires OneOf(eotf, IsEotf) && OneOf(inv, IsInvEotf)
    requires OneOf(lumOps, op => op == LuminanceMapping) && OneOf(spaceOps, op => op == ColorSpaceMapping)
    ensures Distinct(eotf + inv + lumOps + spaceOps)
  {
    AppendDistinct(eotf, inv);
    AppendDistinct(eotf + inv, lumOps);
    AppendDistinct(eotf + inv + lumOps, spaceOps);
  }

  lemma ToneDisjoint(eotf: seq<Op>, inv: seq<Op>, lumOps: seq<Op>, spaceOps: seq<Op>)
    requires OneOf(eotf, IsEotf) && OneOf(inv, IsInvEotf)
    requires OneOf(lumOps, op => op == LuminanceMapping) && OneOf(spaceOps, op => op == ColorSpaceMapping)
    ensures Distinct(ToneParts(eotf, inv))
    ensures Disjoint(eotf + inv + lumOps + spaceOps, ToneParts(eotf, inv))
  {
    assert PqEotf in eotf ==> eotf == [PqEotf];
    assert PqInvEotf in inv ==> inv == [PqInvEotf];
  }

  /** Only tone mapping calls other source texts; it comes last, and the PQ pair comes before it. */
  lemma TonePartsLast(eotf: seq<Op>, inv: seq<Op>, lumOps: seq<Op>, spaceOps: seq<Op>)
    requires OneOf(eotf, IsEotf) && OneOf(inv, IsInvEotf)
    requires OneOf(lumOps, op => op == LuminanceMapping) && OneOf(spaceOps, op => op == ColorSpaceMapping)
    ensures var base, parts := eotf + inv + lumOps + spaceOps, ToneParts(eotf, inv);
            var before := base + parts[..|parts| - 1];
            && ToneMapper !in base && ToneMapper !in before
            && base + parts == before + [ToneMapper]
            && PqEotf in before && PqInvEotf in before
  {
    var base, parts := eotf + inv + lumOps + spaceOps, ToneParts(eotf, inv);
    var a, b := When(eotf != [PqEotf], [PqEotf]), When(inv != [PqInvEotf], [PqInvEotf]);
    assert parts[..|parts| - 1] == a + b;
    hide ToneParts;
    BaseMembers(eotf, inv, lumOps, spaceOps);
    assert PqEotf in eotf || PqEotf in a;
    assert PqInvEotf in inv || PqInvEotf in b;
  }

  lemma BaseMembers(eotf: seq<Op>, inv: seq<Op>, lumOps: seq<Op>, spaceOps: seq<Op>)
    requires OneOf(eotf, IsEotf) && OneOf(inv, IsInvEotf)
    requires OneOf(lumOps, op => op == LuminanceMapping) && OneOf(spaceOps, op => op == ColorSpaceMapping)
    ensures ToneMapper !in eotf + inv + lumOps + spaceOps
    ensures forall op :: op in eotf || op in inv ==> op in eotf + inv + lumOps + spaceOps
  {
  }

  lemma CallsResolved(base: seq<Op>, before: seq<Op>, tone: bool)
    requires ToneMapper !in base && ToneMapper !in before && PqEotf in before && PqInvEotf in before
    ensures var globals := if tone then before + [ToneMapper] else base;
            forall i, op :: 0 <= i < |globals| && op in Calls(globals[i]) ==> op in globals[..i]
  {
    var globals := if tone then before + [ToneMapper] else base;
    forall i, op | 0 <= i < |globals| && op in Calls(globals[i]) ensures op in globals[..i] {
      assert globals[i] == ToneMapper;
      assert i == |before|;
      assert globals[..i] == before;
    }
  }

  lemma BodyResolved(eotf: seq<Op>, inv: seq<Op>, lum: bool, space: bool, tone: bool, opaqueHook: bool, op: Op)
    requires op in Assemble(eotf, inv, lum, space, tone, opaqueHook).body
    ensures op in Assemble(eotf, inv, lum, space, tone, opaqueHook).globals
  {
  }

  /** Every program the generator can emit links. */
  lemma AssembledLinks(eotf: seq<Op>, inv: seq<Op>, lum: bool, space: bool, tone: bool, opaqueHook: bool)
    requires OneOf(eotf, IsEotf) && OneOf(inv, IsInvEotf)
    ensures Linked(Assemble(eotf, inv, lum, space, tone, opaqueHook))
  {
    hide Names, Distinct, ToneParts, OneOf, Calls;
    var p := Assemble(eotf, inv, lum, space, tone, opaqueHook);
    AssembledGlobalsDistinct(eotf, inv, lum, space, tone);
    DistinctOpsDistinctNames(p.globals);
    var lumOps, spaceOps := When(lum, [LuminanceMapping]), When(space, [ColorSpaceMapping]);
    OneOfWhen(lum, LuminanceMapping);
    OneOfWhen(space, ColorSpaceMapping);
    TonePartsLast(eotf, inv, lumOps, spaceOps);
    var base, parts := eotf + inv + lumOps + spaceOps, ToneParts(eotf, inv);
    assert base + [] == base;
    CallsResolved(base, base + parts[..|parts| - 1], tone);
    forall op | op in p.body ensures op in p.globals {
      BodyResolved(eotf, inv, lum, space, tone, opaqueHook, op);
    }
  }

  lemma OneOfWhen(b: bool, op: Op)
    ensures OneOf(When(b, [op]), x => x == op)
  {
  }

  lemma ProgramsLink(s: ColorState, t: ColorState, isOpaque: bool)
    ensures Linked(Generated(s, t, isOpaque))
  {
    hide Assemble;
    if ByLut(s, t) {
      LutLinks(isOpaque);
    } else {
      var l, m := LuminanceOf(s), LuminanceOf(t);
      AssembledLinks(EotfOps(s.eotf), InvEotfOps(t.eotf), NeedsLumMapping(l, m),
                     !ColorimetryEqual(s.colorimetry, t.colorimetry), NeedsToneMapping(l, m), isOpaque);
    }
  }

  lemma LutLinks(isOpaque: bool)
    ensures Linked(Snippet([SampleLut3d], [SampleLut3d], isOpaque))
  {
    assert Names([SampleLut3d]) == Names([SampleLut3d][..0]) + [OpName(SampleLut3d)];
  }

  /** In every generated program the tone mapper comes after the PQ functions it is written with. */
  lemma ToneMapperAfterPq(s: ColorState, t: ColorState, isOpaque: bool, i: nat)
    requires i < |Generated(s, t, isOpaque).globals| && Generated(s, t, isOpaque).globals[i] == ToneMapper
    ensures PqEotf in Generated(s, t, isOpaque).globals[..i] && PqInvEotf in Generated(s, t, isOpaque).globals[..i]
  {
    hide Generated;
    ProgramsLink(s, t, isOpaque);
    assert PqEotf in Calls(ToneMapper) && PqInvEotf in Calls(ToneMapper);
  }

  // --- uniforms ----------------------------------------------------------------------------------------

  function Uniforms(globals: seq<Op>): set<Uniform> {
    set i, u | 0 <= i < |globals| && u in Declares(globals[i]) :: u
  }

  lemma UniformsAppend(a: seq<Op>, b: seq<Op>)
    ensures Uniforms(a + b) == Uniforms(a) + Uniforms(b)
  {
    forall u | u in Uniforms(a) + Uniforms(b) ensures u in Uniforms(a + b) {
      if u in Uniforms(a) {
        var i :| 0 <= i < |a| && u in Declares(a[i]);
        assert (a + b)[i] == a[i];
      } else {
        var i :| 0 <= i < |b| && u in Declares(b[i]);
        assert (a + b)[|a| + i] == b[i];
      }
    }
    forall u | u in Uniforms(a + b) ensures u in Uniforms(a) + Uniforms(b) {
      var i :| 0 <= i < |a + b| && u in Declares((a + b)[i]);
      assert (a + b)[i] == if i < |a| then a[i] else b[i - |a|];
    }
  }

  lemma UniformsOfOne(op: Op)
    ensures Uniforms([op]) == Declares(op) && Uniforms([]) == {}
  {
    assert [op][0] == op;
    forall u | u in Declares(op) ensures u in Uniforms([op]) {
      assert u in Declares([op][0]);
    }
  }

  /** The table path gives up early when the texture of the table cannot be created. */
  predicate TableMissing(s: ColorState, t: ColorState, uploaded: bool) { ByLut(s, t) && !uploaded }

  /** The uniforms that `update_uniforms` sets, stage by stage, each behind its own test.  `uploaded` says
      whether the texture of a table could be created. */
  method UpdateUniforms(s: ColorState, t: ColorState, uploaded: bool) returns (updated: set<Uniform>)
    ensures uploaded || (s.Params? && t.Params?) ==> updated == Uniforms(Generated(s, t, false).globals)
    ensures TableMissing(s, t, uploaded) ==> updated == {}
  {
    hide ColorimetryEqual, NeedsLumMapping, NeedsToneMapping, LuminanceOf, Uniforms, Assemble;
    updated := {};
    if ByLut(s, t) {
      UniformsOfOne(SampleLut3d);
      if !uploaded { return {}; }
      return {Lut3dSize};
    }
    var lum, target := LuminanceOf(s), LuminanceOf(t);
    var forEotf: set<Uniform> := if s.eotf.Gamma? then {GammaExp} else {};
    var forInv: set<Uniform> := if t.eotf.Gamma? then {InvGammaExp} else {};
    var forLum: set<Uniform> := if NeedsLumMapping(lum, target) then {LuminanceFactor} else {};
    var forSpace: set<Uniform> :=
      if ColorimetryEqual(s.colorimetry, t.colorimetry) then {} else {ColorTransformationMatrix};
    var forTone: set<Uniform> := {};
    if NeedsToneMapping(lum, target) {
      forTone := {ToLms, FromLms, SrcMaxLum, DstMaxLum, SrcRefLum, ToneMappingRefLum, LinearMapping};
    }
    updated := forEotf + forInv + forLum + forSpace + forTone;
    AssembledUniforms(s.eotf, t.eotf, NeedsLumMapping(lum, target),
                      !ColorimetryEqual(s.colorimetry, t.colorimetry), NeedsToneMapping(lum, target));
  }

  lemma AssembledUniforms(e: Eotf, f: Eotf, lum: bool, space: bool, tone: bool)
    ensures Uniforms(Assemble(EotfOps(e), InvEotfOps(f), lum, space, tone, false).globals) ==
            (if e.Gamma? then {GammaExp} else {}) + (if f.Gamma? then {InvGammaExp} else {}) +
            (if lum then {LuminanceFactor} else {}) + (if space then {ColorTransformationMatrix} else {}) +
            (if tone then Declares(ToneMapper) else {})
  {
    hide Uniforms;
    var eotf, inv := EotfOps(e), InvEotfOps(f);
    var lumOps, spaceOps := When(lum, [LuminanceMapping]), When(space, [ColorSpaceMapping]);
    UniformsAppend(eotf + inv + lumOps + spaceOps, When(tone, ToneParts(eotf, inv)));
    UniformsAppend(eotf + inv + lumOps, spaceOps);
    UniformsAppend(eotf + inv, lumOps);
    UniformsAppend(eotf, inv);
    EotfUniforms(e, f);
    UniformsOfOne(LuminanceMapping);
    UniformsOfOne(ColorSpaceMapping);
    ToneUniforms(eotf, inv);
  }

  lemma EotfUniforms(e: Eotf, f: Eotf)
    ensures Uniforms(EotfOps(e)) == if e.Gamma? then {GammaExp} else {}
    ensures Uniforms(InvEotfOps(f)) == if f.Gamma? then {InvGammaExp} else {}
  {
    hide Uniforms;
    UniformsOfOne(GammaEotf);
    UniformsOfOne(GammaInvEotf);
    if EotfOps(e) != [] { UniformsOfOne(EotfOps(e)[0]); }
    if InvEotfOps(f) != [] { UniformsOfOne(InvEotfOps(f)[0]); }
  }

  lemma ToneUniforms(eotf: seq<Op>, inv: seq<Op>)
    ensures Uniforms(ToneParts(eotf, inv)) == Declares(ToneMapper)
  {
    hide Uniforms;
    var a, b := When(eotf != [PqEotf], [PqEotf]), When(inv != [PqInvEotf], [PqInvEotf]);
    UniformsAppend(a + b, [ToneMapper]);
    UniformsAppend(a, b);
    UniformsOfOne(PqEotf);
    UniformsOfOne(PqInvEotf);
    UniformsOfOne(ToneMapper);
  }

  // --- the cache -----------------------------------------------------------------------------------------

  datatype Request = Request(source: ColorState, target: ColorState, opaqueHook: bool) {
    function Key(): Key { KeyOf(source, target, opaqueHook) }

    function Answer(): Snippet { Generated(source, target, opaqueHook) }
  }

  function KeysOf(requests: seq<Request>): set<Key> {
    if requests == [] then {} else KeysOf(requests[..|requests| - 1]) + {requests[|requests| - 1].Key()}
  }

  class ColorManager {
    var cache: map<Key, Snippet>

    /** Every cached snippet is the program of its key. */
    ghost predicate Valid()
      reads this
    {
      forall k :: k in cache ==> cache[k] == ProgramOf(k)
    }

    constructor ()
      ensures Valid() && cache == map[]
    {
      cache := map[];
    }

    method LookupSnippet(key: Key) returns (r: Option<Snippet>)
      ensures r == if key in cache then Some(cache[key]) else None
    {
      r := if key in cache then Some(cache[key]) else None;
    }

    method AddSnippet(key: Key, snippet: Snippet)
      modifies this
      ensures cache == old(cache)[key := snippet]
    {
      cache := cache[key := snippet];
    }

    /** Looks up before generating; either way the result is what the generator would emit. */
    method GetTransformSnippet(s: ColorState, t: ColorState, isOpaque: bool) returns (snippet: Snippet)
      requires Valid()
      modifies this
      ensures Valid()
      ensures snippet == Generated(s, t, isOpaque)
      ensures cache == old(cache)[KeyOf(s, t, isOpaque) := snippet]
    {
      hide ProgramOf, KeyOf, Generated;
      var key := KeyOf(s, t, isOpaque);
      KeyProgram(s, t, isOpaque);
      var found := LookupSnippet(key);
      if found.Some? {
        assert cache == cache[key := found.value];
        return found.value;
      }
      snippet := CreateTransformSnippet(s, t, isOpaque);
      AddSnippet(key, snippet);
    }

    /** A whole run of requests: each is answered as if there were no cache, and the cache ends up with
        one entry per key asked for, however often. */
    method Serve(requests: seq<Request>) returns (snippets: seq<Snippet>)
      requires Valid()
      modifies this
      ensures Valid() && |snippets| == |requests|
      ensures forall i :: 0 <= i < |requests| ==> snippets[i] == requests[i].Answer() && Linked(snippets[i])
      ensures cache.Keys == old(cache.Keys) + KeysOf(requests)
    {
      hide ProgramOf, KeyOf, Linked, Generated;
      snippets := [];
      for n := 0 to |requests|
        invariant Valid() && |snippets| == n
        invariant forall i :: 0 <= i < n ==> snippets[i] == requests[i].Answer() && Linked(snippets[i])
        invariant cache.Keys == old(cache.Keys) + KeysOf(requests[..n])
      {
        var r := requests[n];
        var snippet := GetTransformSnippet(r.source, r.target, r.opaqueHook);
        ProgramsLink(r.source, r.target, r.opaqueHook);
        assert requests[..n + 1][..n] == requests[..n];
        snippets := snippets + [snippet];
      }
      assert requests[..|requests|] == requests;
    }
  }

  // --- adding a transform to a pipeline ------------------------------------------------------------------

  predicate NeedsMapping(s: ColorState, t: ColorState) {
    if ByLut(s, t) then s != t else
      var l, m := LuminanceOf(s), LuminanceOf(t);
      || !ColorimetryEqual(s.colorimetry, t.colorimetry) || !EotfEqual(s.eotf, t.eotf)
      || NeedsToneMapping(l, m) || NeedsLumMapping(l, m)
  }

  class Pipeline {
    var snippets: seq<Snippet>
    var uniforms: set<Uniform>

    /** Every uniform that some snippet declares has been set. */
    ghost predicate Valid()
      reads this
    {
      forall i :: 0 <= i < |snippets| ==> Uniforms(snippets[i].globals) <= uniforms
    }

    constructor ()
      ensures Valid() && snippets == []
    {
      snippets, uniforms := [], {};
    }
  }

  /** The hook does not change what is linked in. */
  lemma HookKeepsGlobals(s: ColorState, t: ColorState, isOpaque: bool)
    ensures Generated(s, t, isOpaque).globals == Generated(s, t, false).globals
  {
    hide ColorimetryEqual, NeedsLumMapping, NeedsToneMapping, LuminanceOf;
  }

  /** The snippet may come from the cache, generated for other colour states; still every uniform it
      declares is set for these, unless there is no table to set them for. */
  method AddPipelineTransform(manager: ColorManager, s: ColorState, t: ColorState, pipeline: Pipeline,
                              isOpaque: bool, uploaded: bool)
    requires manager.Valid() && pipeline.Valid()
    modifies manager, pipeline
    ensures manager.Valid()
    ensures NeedsMapping(s, t) ==> pipeline.snippets == old(pipeline.snippets) + [Generated(s, t, isOpaque)]
    ensures !NeedsMapping(s, t) ==>
              pipeline.snippets == old(pipeline.snippets) && manager.cache == old(manager.cache)
    ensures uploaded || (s.Params? && t.Params?) || !NeedsMapping(s, t) ==> pipeline.Valid()
    ensures TableMissing(s, t, uploaded) ==> pipeline.uniforms == old(pipeline.uniforms)
  {
    hide Generated, KeyOf, NeedsMapping, Uniforms;
    if !NeedsMapping(s, t) { return; }
    var snippet := manager.GetTransformSnippet(s, t, isOpaque);
    pipeline.snippets := pipeline.snippets + [snippet];
    var updated := UpdateUniforms(s, t, uploaded);
    HookKeepsGlobals(s, t, isOpaque);
    pipeline.uniforms := pipeline.uniforms + updated;
  }

  /** Requests whose hashes agree make the generator emit the same program and need the same uniforms,
      however different their colour states are; this is what makes the cache sound. */
  lemma EqualHashesShareProgram(a: Request, b: Request)
    requires Hash(a.Key()) == Hash(b.Key())
    ensures a.Answer() == b.Answer()
    ensures Uniforms(Generated(a.source, a.target, false).globals) ==
            Uniforms(Generated(b.source, b.target, false).globals)
  {
    hide Generated, KeyOf, ProgramOf, Uniforms;
    HashInjective(a.Key(), b.Key());
    KeyProgram(a.source, a.target, a.opaqueHook);
    KeyProgram(b.source, b.target, b.opaqueHook);
    HookKeepsGlobals(a.source, a.target, a.opaqueHook);
    HookKeepsGlobals(b.source, b.target, b.opaqueHook);
  }
}
