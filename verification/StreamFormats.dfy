/** Format negotiation of a PipeWire stream (mdk-stream.c): the offered format and modifier pairs, and
    what import failures do to them. */
module StreamFormats {
  import opened Collections

  datatype SpaFormat = BGRA | RGBA | BGRx | RGBx | Unsupported

  datatype DrmFormat = ARGB8888 | ABGR8888 | XRGB8888 | XBGR8888 | OtherDrm

  type Modifier = int

  datatype Format = Format(spa: SpaFormat, drm: DrmFormat, modifiers: seq<Modifier>)

  datatype Pair = Pair(spa: SpaFormat, modifier: Modifier)

  // --- the swap-remove sweep ---------------------------------------------------------------------------

  /** `g_array_remove_index_fast`: the last element takes the place of the one removed. */
  function RemoveFast(s: seq<Modifier>, j: nat): (r: seq<Modifier>)
    requires j < |s|
    ensures |r| == |s| - 1
  {
    s[j := s[|s| - 1]][..|s| - 1]
  }

  /** The inner loop from index `j` on: after a removal the same index is looked at again. */
  function Sweep(s: seq<Modifier>, j: nat, m: Modifier): seq<Modifier>
    decreases |s| - j
  {
    if j >= |s| then s
    else if s[j] == m then Sweep(RemoveFast(s, j), j, m)
    else Sweep(s, j + 1, m)
  }

  /** The multiset of a sequence by name. */
  ghost function Bag(s: seq<Modifier>): multiset<Modifier> { multiset(s) }

  lemma BagAppend(s: seq<Modifier>, t: seq<Modifier>, x: Modifier)
    ensures Bag(s + t) == Bag(s) + Bag(t) && Bag([x]) == multiset{x}
  {
  }

  lemma RemoveFastMiddle(a: seq<Modifier>, x: Modifier, c: seq<Modifier>, y: Modifier)
    ensures RemoveFast(a + [x] + c + [y], |a|) == a + [y] + c
  {
  }

  lemma RemoveFastLast(a: seq<Modifier>, x: Modifier)
    ensures RemoveFast(a + [x], |a|) == a
  {
  }

  lemma RemoveFastCounts(s: seq<Modifier>, j: nat)
    requires j < |s|
    ensures Bag(RemoveFast(s, j)) == Bag(s) - multiset{s[j]}
  {
    hide RemoveFast, Bag;
    var last := |s| - 1;
    var a, x, y := s[..j], s[j], s[last];
    BagAppend(a, [x], x);
    if j < last {
      var c := s[j + 1..last];
      assert s == a + [x] + c + [y];
      RemoveFastMiddle(a, x, c, y);
      BagAppend(a + [x] + c, [y], y);
      BagAppend(a + [x], c, y);
      BagAppend(a + [y], c, y);
      BagAppend(a, [y], y);
    } else {
      assert s == a + [x];
      RemoveFastLast(a, x);
    }
  }

  /** The sweep drops every occurrence of the modifier and keeps the multiplicity of all others. */
  lemma {:induction false} SweepRemovesAll(s: seq<Modifier>, j: nat, m: Modifier)
    requires j <= |s| && m !in s[..j]
    ensures m !in Sweep(s, j, m)
    ensures Bag(Sweep(s, j, m)) == Bag(s)[m := 0]
    decreases |s| - j
  {
    hide Bag, RemoveFast;
    if j == |s| {
      assert s[..j] == s;
      BagAbsent(s, m);
    } else if s[j] == m {
      RemoveFastCounts(s, j);
      RemoveFastPrefix(s, j);
      SweepRemovesAll(RemoveFast(s, j), j, m);
    } else {
      assert s[..j + 1] == s[..j] + [s[j]];
      SweepRemovesAll(s, j + 1, m);
    }
  }

  lemma BagAbsent(s: seq<Modifier>, m: Modifier)
    requires m !in s
    ensures Bag(s)[m := 0] == Bag(s)
  {
    assert m !in multiset(s);
  }

  lemma RemoveFastPrefix(s: seq<Modifier>, j: nat)
    requires j < |s|
    ensures RemoveFast(s, j)[..j] == s[..j]
  {
  }

  lemma SweepMembers(s: seq<Modifier>, m: Modifier, x: Modifier)
    ensures x in Sweep(s, 0, m) <==> x in s && x != m
    ensures |Sweep(s, 0, m)| == |s| - multiset(s)[m]
  {
    SweepRemovesAll(s, 0, m);
    var t: seq<Modifier> := Sweep(s, 0, m);
    assert x in t <==> multiset(t)[x] > 0;
    assert x in s <==> multiset(s)[x] > 0;
    assert |multiset(s)[m := 0]| == |s| - multiset(s)[m];
    assert |t| == |multiset(t)|;
  }

  function WithoutPair(f: Format, p: Pair): Format {
    if f.spa == p.spa then f.(modifiers := Sweep(f.modifiers, 0, p.modifier)) else f
  }

  function RemovePair(formats: seq<Format>, p: Pair): (r: seq<Format>)
    ensures |r| == |formats|
  {
    seq(|formats|, i requires 0 <= i < |formats| => WithoutPair(formats[i], p))
  }

  // --- offers ------------------------------------------------------------------------------------------

  ghost predicate Offers(formats: seq<Format>, p: Pair) {
    exists i :: 0 <= i < |formats| && formats[i].spa == p.spa && p.modifier in formats[i].modifiers
  }

  ghost function PairsOf(f: Format): set<Pair> {
    set m | m in f.modifiers :: Pair(f.spa, m)
  }

  ghost function Offered(formats: seq<Format>): set<Pair> {
    if formats == [] then {} else Offered(formats[..|formats| - 1]) + PairsOf(formats[|formats| - 1])
  }

  function Total(formats: seq<Format>): nat {
    if formats == [] then 0 else Total(formats[..|formats| - 1]) + |formats[|formats| - 1].modifiers|
  }

  lemma {:induction false} OfferedMeans(formats: seq<Format>, p: Pair)
    ensures p in Offered(formats) <==> Offers(formats, p)
  {
    if formats != [] {
      var last := |formats| - 1;
      OfferedMeans(formats[..last], p);
      if Offers(formats, p) {
        var i :| 0 <= i < |formats| && formats[i].spa == p.spa && p.modifier in formats[i].modifiers;
        if i < last { assert formats[..last][i] == formats[i]; }
      }
    }
  }

  /** A removal takes exactly that pair off the offer. */
  lemma {:induction false} RemovePairOffers(formats: seq<Format>, p: Pair)
    ensures Offered(RemovePair(formats, p)) == Offered(formats) - {p}
    ensures Total(RemovePair(formats, p)) <= Total(formats)
    ensures p in Offered(formats) ==> Total(RemovePair(formats, p)) < Total(formats)
  {
    if formats != [] {
      var last := |formats| - 1;
      RemovePairOffers(formats[..last], p);
      assert RemovePair(formats, p)[..last] == RemovePair(formats[..last], p);
      WithoutPairOffers(formats[last], p);
    }
  }

  lemma WithoutPairOffers(f: Format, p: Pair)
    ensures PairsOf(WithoutPair(f, p)) == PairsOf(f) - {p}
    ensures |WithoutPair(f, p).modifiers| <= |f.modifiers|
    ensures p in PairsOf(f) ==> |WithoutPair(f, p).modifiers| < |f.modifiers|
  {
    hide Sweep;
    if f.spa == p.spa {
      forall q ensures q in PairsOf(WithoutPair(f, p)) <==> q in PairsOf(f) && q != p {
        SweepMembers(f.modifiers, p.modifier, q.modifier);
      }
      SweepMembers(f.modifiers, p.modifier, p.modifier);
    }
  }

  // --- parameters --------------------------------------------------------------------------------------

  /** One `EnumFormat` parameter; with modifiers, the first is repeated as the default choice. */
  datatype Param = Param(spa: SpaFormat, modifiers: seq<Modifier>)

  function FormatParam(f: Format, buildModifiers: bool): Param {
    if buildModifiers && |f.modifiers| > 0 then Param(f.spa, [f.modifiers[0]] + f.modifiers) else Param(f.spa, [])
  }

  ghost function OfferedBy(params: seq<Param>): set<Pair> {
    set i, m | 0 <= i < |params| && m in params[i].modifiers :: Pair(params[i].spa, m)
  }

  /** A format is offered first with its modifiers, the first of them as default, and then without. */
  ghost predicate Preferred(f: Format, with: Param, without: Param) {
    && with.spa == f.spa == without.spa && without.modifiers == []
    && (f.modifiers == [] ==> with.modifiers == [])
    && (f.modifiers != [] ==> with.modifiers == f.modifiers[..1] + f.modifiers)
  }

  /** The stream offers, with modifiers, exactly the pairs of its formats, and every format also without. */
  method BuildStreamFormatParams(formats: seq<Format>) returns (params: seq<Param>)
    ensures |params| == 2 * |formats|
    ensures OfferedBy(params) == Offered(formats)
    ensures forall i :: 0 <= i < |formats| ==> Preferred(formats[i], params[2 * i], params[2 * i + 1])
  {
    params := [];
    for i := 0 to |formats|
      invariant |params| == 2 * i
      invariant OfferedBy(params) == Offered(formats[..i])
      invariant forall k :: 0 <= k < i ==> Preferred(formats[k], params[2 * k], params[2 * k + 1])
    {
      var with, without := FormatParam(formats[i], true), FormatParam(formats[i], false);
      OfferedAppend(params, with);
      OfferedAppend(params + [with], without);
      ParamOffers(formats[i]);
      assert formats[..i + 1][..i] == formats[..i];
      params := params + [with] + [without];
      assert params[2 * i] == with && params[2 * i + 1] == without;
    }
    assert formats[..|formats|] == formats;
  }

  lemma OfferedAppend(params: seq<Param>, p: Param)
    ensures OfferedBy(params + [p]) == OfferedBy(params) + OfferedBy([p])
  {
    var all := params + [p];
    forall q | q in OfferedBy(all) ensures q in OfferedBy(params) + OfferedBy([p]) {
      var i, m :| 0 <= i < |all| && m in all[i].modifiers && q == Pair(all[i].spa, m);
      if i < |params| { assert all[i] == params[i]; } else { assert all[i] == [p][0]; }
    }
    forall q | q in OfferedBy(params) + OfferedBy([p]) ensures q in OfferedBy(all) {
      if q in OfferedBy(params) {
        var i, m :| 0 <= i < |params| && m in params[i].modifiers && q == Pair(params[i].spa, m);
        assert all[i] == params[i];
      } else {
        assert all[|params|] == [p][0];
      }
    }
  }

  lemma ParamOffers(f: Format)
    ensures OfferedBy([FormatParam(f, true)]) == PairsOf(f)
    ensures OfferedBy([FormatParam(f, false)]) == {}
  {
    var p := FormatParam(f, true);
    forall q | q in PairsOf(f) ensures q in OfferedBy([p]) {
      assert q.modifier in [p][0].modifiers;
    }
  }

  // --- runs --------------------------------------------------------------------------------------------

  /** What happens to a stream between two realizations: a format is negotiated, or a DMA buffer in the
      negotiated format arrives and is imported or not. */
  datatype Event = Negotiated(pair: Pair) | Imported | ImportFailed

  /** A parameter that PipeWire reports, as far as the stream looks at it. */
  datatype ReportedParam = NotAFormat | Unparsable | OtherMedia | RawVideo(pair: Pair)

  datatype StreamState = StreamState(formats: seq<Format>, current: Option<Pair>)

  function Step(s: StreamState, e: Event): StreamState {
    match e
    case Negotiated(p) => s.(current := Some(p))
    case Imported => s
    case ImportFailed =>
      if s.current.Some? && s.current.value.spa != Unsupported
      then s.(formats := RemovePair(s.formats, s.current.value)) else s
  }

  function Run(s: StreamState, events: seq<Event>): StreamState {
    if events == [] then s else Step(Run(s, events[..|events| - 1]), events[|events| - 1])
  }

  /** A failure on a pair that is still on offer when it happens. */
  ghost predicate FailsOffered(s: StreamState, e: Event) {
    e.ImportFailed? && s.current.Some? && s.current.value.spa != Unsupported && s.current.value in Offered(s.formats)
  }

  ghost function Failures(s: StreamState, events: seq<Event>): nat {
    if events == [] then 0 else
      var init := events[..|events| - 1];
      Failures(s, init) + if FailsOffered(Run(s, init), events[|events| - 1]) then 1 else 0
  }

  lemma StepOffers(s: StreamState, e: Event)
    ensures Offered(Step(s, e).formats) <= Offered(s.formats)
    ensures |Offered(Step(s, e).formats)| + (if FailsOffered(s, e) then 1 else 0) == |Offered(s.formats)|
    ensures Total(Step(s, e).formats) + (if FailsOffered(s, e) then 1 else 0) <= Total(s.formats)
  {
    hide Offered, Total, RemovePair;
    if e.ImportFailed? && s.current.Some? && s.current.value.spa != Unsupported {
      var p := s.current.value;
      RemovePairOffers(s.formats, p);
      assert p !in Offered(s.formats) ==> Offered(s.formats) - {p} == Offered(s.formats);
    }
  }

  /** Conservation over whole runs: every failure on offered ground costs exactly one pair for good, so
      there are at most as many as there were pairs at the start. */
  lemma {:induction false} FailuresBounded(s: StreamState, events: seq<Event>)
    ensures Failures(s, events) + |Offered(Run(s, events).formats)| == |Offered(s.formats)|
    ensures Failures(s, events) + Total(Run(s, events).formats) <= Total(s.formats)
    ensures Offered(Run(s, events).formats) <= Offered(s.formats)
  {
    if events != [] {
      var init := events[..|events| - 1];
      FailuresBounded(s, init);
      StepOffers(Run(s, init), events[|events| - 1]);
    }
  }

  /** A pair that failed stays off the offer for the rest of the run. */
  lemma FailedPairStaysOff(s: StreamState, events: seq<Event>, later: seq<Event>)
    requires Run(s, events).current.Some? && Run(s, events).current.value.spa != Unsupported
    ensures Run(s, events).current.value !in Offered(Run(Step(Run(s, events), ImportFailed), later).formats)
  {
    var t := Run(s, events);
    RemovePairOffers(t.formats, t.current.value);
    FailuresBounded(Step(t, ImportFailed), later);
  }

  /** The pair negotiated last, or the one there was. */
  function LastNegotiated(current: Option<Pair>, events: seq<Event>): Option<Pair> {
    if events == [] then current
    else if events[|events| - 1].Negotiated? then Some(events[|events| - 1].pair)
    else LastNegotiated(current, events[..|events| - 1])
  }

  /** Whatever happened, a failure takes off the offer the pair negotiated last, if its format is supported, and
      nothing else does. */
  lemma {:induction false} FailureTakesLast(s: StreamState, events: seq<Event>)
    ensures Run(s, events).current == LastNegotiated(s.current, events)
    ensures var last, before := LastNegotiated(s.current, events), Offered(Run(s, events).formats);
            Offered(Run(s, events + [ImportFailed]).formats) ==
            if last.Some? && last.value.spa != Unsupported then before - {last.value} else before
    ensures forall e: Event :: !e.ImportFailed? ==> Run(s, events + [e]).formats == Run(s, events).formats
  {
    hide Offered, RemovePair, Run, LastNegotiated;
    CurrentIsLast(s, events);
    forall e: Event ensures Run(s, events + [e]) == Step(Run(s, events), e) {
      RunNext(s, events, e);
    }
    var t := Run(s, events);
    if t.current.Some? { RemovePairOffers(t.formats, t.current.value); }
  }

  lemma RunNext(s: StreamState, events: seq<Event>, e: Event)
    ensures Run(s, events + [e]) == Step(Run(s, events), e)
  {
    assert (events + [e])[..|events|] == events;
  }

  lemma {:induction false} CurrentIsLast(s: StreamState, events: seq<Event>)
    ensures Run(s, events).current == LastNegotiated(s.current, events)
  {
    if events != [] { CurrentIsLast(s, events[..|events| - 1]); }
  }

  /** A pair is negotiated, any number of buffers is imported, and then one is not: the pair is off the offer. */
  lemma NegotiatedPairFails(s: StreamState, p: Pair, n: nat)
    requires p.spa != Unsupported
    ensures var events := [Negotiated(p)] + seq(n, _ => Imported) + [ImportFailed];
            Offered(Run(s, events).formats) == Offered(s.formats) - {p}
  {
    var events := [Negotiated(p)] + seq(n, _ => Imported);
    AfterImports(s, p, n);
    FailureTakesLast(s, events);
  }

  lemma {:induction false} AfterImports(s: StreamState, p: Pair, n: nat)
    ensures var events := [Negotiated(p)] + seq(n, _ => Imported);
            LastNegotiated(s.current, events) == Some(p) && Run(s, events).formats == s.formats
  {
    var events := [Negotiated(p)] + seq(n, _ => Imported);
    if n > 0 {
      AfterImports(s, p, n - 1);
      assert events[..n] == [Negotiated(p)] + seq(n - 1, _ => Imported);
    } else {
      assert events == [Negotiated(p)] && events[..0] == [];
    }
  }

  // --- the stream object ---------------------------------------------------------------------------------

  /** The formats a stream supports, in the order they are queried. */
  function DrmOf(spa: SpaFormat): DrmFormat {
    match spa
    case BGRA => ARGB8888
    case RGBA => ABGR8888
    case BGRx => XRGB8888
    case RGBx => XBGR8888
    case Unsupported => OtherDrm
  }

  datatype Component = Red | Green | Blue | Alpha | Padding

  /** The bytes of a pixel in memory, in the order of the name of the format. */
  function SpaBytes(spa: SpaFormat): seq<Component> {
    match spa
    case BGRA => [Blue, Green, Red, Alpha]
    case RGBA => [Red, Green, Blue, Alpha]
    case BGRx => [Blue, Green, Red, Padding]
    case RGBx => [Red, Green, Blue, Padding]
    case Unsupported => []
  }

  /** The bytes of a pixel word, most significant first, in the order of the name of the format. */
  function DrmWord(drm: DrmFormat): seq<Component> {
    match drm
    case ARGB8888 => [Alpha, Red, Green, Blue]
    case ABGR8888 => [Alpha, Blue, Green, Red]
    case XRGB8888 => [Padding, Red, Green, Blue]
    case XBGR8888 => [Padding, Blue, Green, Red]
    case OtherDrm => []
  }

  /** Words being little endian, both names of a supported format describe the same bytes. */
  lemma FormatsAgree(spa: SpaFormat, i: nat)
    requires i < |SpaBytes(spa)|
    ensures |DrmWord(DrmOf(spa))| == |SpaBytes(spa)|
    ensures DrmWord(DrmOf(spa))[|SpaBytes(spa)| - 1 - i] == SpaBytes(spa)[i]
  {
  }

  const SUPPORTED_FORMATS := [BGRA, RGBA, BGRx, RGBx]

  function ModifiersFor(display: seq<(DrmFormat, Modifier)>, drm: DrmFormat): seq<Modifier> {
    if display == [] then [] else
      var last := display[|display| - 1];
      ModifiersFor(display[..|display| - 1], drm) + if last.0 == drm then [last.1] else []
  }

  lemma {:induction false} ModifiersForMeans(display: seq<(DrmFormat, Modifier)>, drm: DrmFormat, m: Modifier)
    ensures m in ModifiersFor(display, drm) <==> (drm, m) in display
  {
    if display != [] {
      var last := |display| - 1;
      ModifiersForMeans(display[..last], drm, m);
      assert display == display[..last] + [display[last]];
    }
  }

  class Stream {
    var formats: seq<Format>
    var current: Option<Pair>

    ghost function State(): StreamState
      reads this
    {
      StreamState(formats, current)
    }

    constructor ()
      ensures formats == [] && current == None
    {
      formats, current := [], None;
    }

    /** `query_formats_and_modifiers`: formats for which the display lists no modifier are left out. */
    method QueryFormatsAndModifiers(display: seq<(DrmFormat, Modifier)>)
      modifies this`formats
      ensures forall p: Pair :: p in Offered(formats) <==> p.spa != Unsupported && (DrmOf(p.spa), p.modifier) in display
    {
      formats := [];
      for i := 0 to |SUPPORTED_FORMATS|
        invariant forall p: Pair :: p in Offered(formats) <==>
                    p.spa in SUPPORTED_FORMATS[..i] && (DrmOf(p.spa), p.modifier) in display
      {
        var spa := SUPPORTED_FORMATS[i];
        var modifiers := ModifiersFor(display, DrmOf(spa));
        ghost var before := formats;
        if |modifiers| > 0 {
          formats := formats + [Format(spa, DrmOf(spa), modifiers)];
          assert formats[..|formats| - 1] == before;
        }
        forall p: Pair
          ensures p in Offered(formats) <==>
                    p in Offered(before) || (p.spa == spa && (DrmOf(spa), p.modifier) in display)
        {
          ModifiersForMeans(display, DrmOf(spa), p.modifier);
        }
        assert SUPPORTED_FORMATS[..i + 1] == SUPPORTED_FORMATS[..i] + [spa];
      }
      assert SUPPORTED_FORMATS[..|SUPPORTED_FORMATS|] == SUPPORTED_FORMATS;
      forall spa: SpaFormat ensures spa in SUPPORTED_FORMATS <==> spa != Unsupported {
        assert SUPPORTED_FORMATS[0] == BGRA && SUPPORTED_FORMATS[1] == RGBA;
        assert SUPPORTED_FORMATS[2] == BGRx && SUPPORTED_FORMATS[3] == RGBx;
      }
    }

    /** `remove_modifier_from_format`: the index is rewound after each removal. */
    method RemoveModifierFromFormat(spa: SpaFormat, modifier: Modifier)
      modifies this`formats
      ensures formats == RemovePair(old(formats), Pair(spa, modifier))
    {
      ghost var was, p := formats, Pair(spa, modifier);
      for i := 0 to |formats|
        invariant |formats| == |was|
        invariant forall k :: 0 <= k < i ==> formats[k] == WithoutPair(was[k], p)
        invariant forall k :: i <= k < |was| ==> formats[k] == was[k]
      {
        if formats[i].spa == spa {
          var modifiers := formats[i].modifiers;
          var j := 0;
          while j < |modifiers|
            invariant 0 <= j <= |modifiers|
            invariant Sweep(modifiers, j, modifier) == Sweep(was[i].modifiers, 0, modifier)
            decreases |modifiers| - j
          {
            if modifiers[j] == modifier {
              modifiers := RemoveFast(modifiers, j);
              j := j - 1;
            }
            j := j + 1;
          }
          formats := formats[i := formats[i].(modifiers := modifiers)];
        }
      }
    }

    /** The part of `on_stream_process` that deals with a DMA buffer. */
    method OnDmaBuffer(imported: bool) returns (renegotiate: bool)
      modifies this`formats
      ensures State() == Step(old(State()), if imported then Imported else ImportFailed)
      ensures renegotiate <==> !imported && current.Some? && current.value.spa != Unsupported
      ensures renegotiate ==> Offered(formats) == old(Offered(formats)) - {current.value}
      ensures !renegotiate ==> formats == old(formats)
    {
      renegotiate := false;
      if current.Some? { RemovePairOffers(formats, current.value); }
      if current.None? || current.value.spa == Unsupported { return; }
      if !imported {
        RemoveModifierFromFormat(current.value.spa, current.value.modifier);
        renegotiate := true;
      }
    }

    /** Only a raw video format is a negotiation; anything else leaves the stream alone. */
    method OnParamChanged(param: ReportedParam)
      modifies this`current
      ensures param.RawVideo? ==> State() == Step(old(State()), Negotiated(param.pair)) && current == Some(param.pair)
      ensures !param.RawVideo? ==> State() == old(State())
    {
      match param
      case NotAFormat | Unparsable | OtherMedia => return;
      case RawVideo(pair) => current := Some(pair);
    }
  }
}
