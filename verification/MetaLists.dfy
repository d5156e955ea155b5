/** Priority-ordered lists of actor metas, as values (clutter-actor-meta.c). */
module MetaLists {
  const INTERNAL_HIGH := 1073741823   // G_MAXINT / 2
  const INTERNAL_LOW := -1073741824   // G_MININT / 2

  /** The outer halves of the priorities that an `int` can hold. */
  predicate IsInternal(priority: int) { priority <= INTERNAL_LOW || priority >= INTERNAL_HIGH }

  /** Clearing without internals keeps the priorities beyond half of the smallest and the largest `int`. */
  lemma InternalMeans(priority: int)
    ensures IsInternal(priority) <==> 2 * priority <= -2147483648 || 2 * priority + 1 >= 2147483647
    ensures -1073741824 < priority < 1073741823 <==> !IsInternal(priority)
  {
  }

  /** Where the search for a lower priority stops. */
  function InsertPosition(ps: seq<int>, p: int): (k: nat)
    ensures k <= |ps|
    ensures forall i :: 0 <= i < k ==> ps[i] >= p
    ensures k < |ps| ==> ps[k] < p
  {
    if ps == [] || ps[0] < p then 0 else 1 + InsertPosition(ps[1..], p)
  }

  function InsertAt<T>(s: seq<T>, k: nat, x: T): seq<T>
    requires k <= |s|
  {
    s[..k] + [x] + s[k..]
  }

  function RemoveFirst<T(==)>(s: seq<T>, x: T): seq<T> {
    if s == [] then [] else if s[0] == x then s[1..] else [s[0]] + RemoveFirst(s[1..], x)
  }

  /** The elements whose priority is internal, or those whose priority is not, in order. */
  function Keep<T>(s: seq<T>, ps: seq<int>, internal: bool): seq<T>
    requires |s| == |ps|
  {
    if s == [] then [] else
      Keep(s[..|s| - 1], ps[..|s| - 1], internal) +
      (if IsInternal(ps[|s| - 1]) == internal then [s[|s| - 1]] else [])
  }

  /** `r` is what is left of `s` when some elements are dropped: same order. */
  ghost predicate Subsequence<T(!new)>(r: seq<T>, s: seq<T>, at: seq<nat>) {
    && |at| == |r|
    && (forall i :: 0 <= i < |r| ==> at[i] < |s| && s[at[i]] == r[i])
    && (forall i, j :: 0 <= i < j < |at| ==> at[i] < at[j])
  }

  lemma {:induction false} RemoveFirstAt<T>(s: seq<T>, k: nat)
    requires k < |s| && s[k] !in s[..k]
    ensures RemoveFirst(s, s[k]) == s[..k] + s[k + 1..]
  {
    if k > 0 {
      assert s[1..][..k - 1] == s[..k][1..];
      RemoveFirstAt(s[1..], k - 1);
      assert s[1..][k..] == s[k + 1..];
      assert s[..k] == [s[0]] + s[1..][..k - 1];
      assert s[0] in s[..k];
    }
  }

  lemma {:induction false} RemoveAbsent<T>(s: seq<T>, x: T)
    requires x !in s
    ensures RemoveFirst(s, x) == s
  {
    if s != [] { RemoveAbsent(s[1..], x); }
  }

  lemma {:induction false} KeepMembers<T>(s: seq<T>, ps: seq<int>, internal: bool, x: T)
    requires |s| == |ps|
    ensures x in Keep(s, ps, internal) <==> exists i :: 0 <= i < |s| && s[i] == x && IsInternal(ps[i]) == internal
  {
    if s != [] {
      var last := |s| - 1;
      KeepMembers(s[..last], ps[..last], internal, x);
      if exists i :: 0 <= i < |s| && s[i] == x && IsInternal(ps[i]) == internal {
        var i :| 0 <= i < |s| && s[i] == x && IsInternal(ps[i]) == internal;
        if i < last { assert s[..last][i] == x && IsInternal(ps[..last][i]) == internal; }
      }
    }
  }

  /** What is kept is a subsequence: nothing is reordered. */
  lemma {:induction false} KeepOrder<T(!new)>(s: seq<T>, ps: seq<int>, internal: bool) returns (at: seq<nat>)
    requires |s| == |ps|
    ensures Subsequence(Keep(s, ps, internal), s, at)
    ensures forall i :: 0 <= i < |at| ==> IsInternal(ps[at[i]]) == internal
  {
    if s == [] {
      at := [];
    } else {
      var last := |s| - 1;
      var init := KeepOrder(s[..last], ps[..last], internal);
      var kept := Keep(s[..last], ps[..last], internal);
      WiderSubsequence(kept, s, init);
      if IsInternal(ps[last]) == internal {
        LongerSubsequence(kept, s, init);
        at := init + [last];
      } else {
        at := init;
      }
    }
  }

  lemma LongerSubsequence<T(!new)>(r: seq<T>, s: seq<T>, at: seq<nat>)
    requires s != [] && Subsequence(r, s[..|s| - 1], at)
    ensures Subsequence(r + [s[|s| - 1]], s, at + [|s| - 1])
  {
  }

  lemma WiderSubsequence<T(!new)>(r: seq<T>, s: seq<T>, at: seq<nat>)
    requires s != [] && Subsequence(r, s[..|s| - 1], at)
    ensures Subsequence(r, s, at) && forall i :: 0 <= i < |at| ==> at[i] < |s| - 1
  {
  }
}

/** Any run of operations over the meta groups of any number of actors. */
module MetaRuns {
  import opened Collections
  import opened MetaLists

  type ActorId = nat

  datatype Kind = Action | Constraint | Effect

  datatype MetaId = MetaId(kind: Kind, id: nat)

  /** `stamp` orders successful additions in time. */
  datatype MetaState = MetaState(actor: Option<ActorId>, priority: int, stamp: nat)

  datatype GroupId = GroupId(actor: ActorId, kind: Kind)

  datatype World = World(metas: map<MetaId, MetaState>, groups: map<GroupId, seq<MetaId>>, clock: nat) {

    function Meta(m: MetaId): MetaState {
      if m in metas then metas[m] else MetaState(None, 0, 0)
    }

    function Group(g: GroupId): seq<MetaId> {
      if g in groups then groups[g] else []
    }

    function Priorities(list: seq<MetaId>): (ps: seq<int>)
      ensures |ps| == |list|
    {
      seq(|list|, i requires 0 <= i < |list| => Meta(list[i]).priority)
    }

    /** `x` is served before `y`: higher priority, or added earlier at the same priority. */
    predicate Before(x: MetaId, y: MetaId) {
      || Meta(x).priority > Meta(y).priority
      || (Meta(x).priority == Meta(y).priority && Meta(x).stamp < Meta(y).stamp)
    }

    ghost predicate Ordered(list: seq<MetaId>) {
      forall i, j :: 0 <= i < j < |list| ==> Before(list[i], list[j])
    }

    /** Lists and ownership pointers tell the same story, and every list is ordered. */
    ghost predicate Consistent() {
      && (forall g, m :: Owns(g, m))
      && (forall g :: Ordered(Group(g)))
      && (forall m :: Stamped(m))
    }

    ghost predicate Owns(g: GroupId, m: MetaId) {
      m in Group(g) <==> Meta(m).actor == Some(g.actor) && m.kind == g.kind
    }

    ghost predicate Stamped(m: MetaId) { Meta(m).actor.Some? ==> Meta(m).stamp < clock }
  }

  datatype Step =
    | Add(actor: ActorId, m: MetaId)
    | Remove(actor: ActorId, m: MetaId)
    | SetPriority(m: MetaId, priority: int)
    | Clear(g: GroupId)
    | ClearNoInternal(g: GroupId)

  function Detached(w: World, gone: set<MetaId>): map<MetaId, MetaState> {
    map m | m in w.metas.Keys + gone :: if m in gone then w.Meta(m).(actor := None) else w.Meta(m)
  }

  function Elements(s: seq<MetaId>): set<MetaId> { set i | 0 <= i < |s| :: s[i] }

  function Apply(w: World, step: Step): World {
    match step
    case Add(a, m) =>
      if w.Meta(m).actor.Some? then w else
        var g := GroupId(a, m.kind);
        var list := w.Group(g);
        var k := InsertPosition(w.Priorities(list), w.Meta(m).priority);
        World(w.metas[m := w.Meta(m).(actor := Some(a), stamp := w.clock)],
              w.groups[g := InsertAt(list, k, m)], w.clock + 1)
    case Remove(a, m) =>
      if w.Meta(m).actor != Some(a) then w else
        var g := GroupId(a, m.kind);
        World(Detached(w, {m}), w.groups[g := RemoveFirst(w.Group(g), m)], w.clock)
    case SetPriority(m, p) =>
      if w.Meta(m).actor.Some? then w
      else w.(metas := w.metas[m := w.Meta(m).(priority := p)])
    case Clear(g) =>
      World(Detached(w, Elements(w.Group(g))), w.groups[g := []], w.clock)
    case ClearNoInternal(g) =>
      var list := w.Group(g);
      var kept := Keep(list, w.Priorities(list), true);
      World(Detached(w, Elements(list) - Elements(kept)), w.groups[g := kept], w.clock)
  }

  function Run(w: World, steps: seq<Step>): World {
    if steps == [] then w else Apply(Run(w, steps[..|steps| - 1]), steps[|steps| - 1])
  }

  lemma OrderedDistinct(w: World, list: seq<MetaId>)
    requires w.Ordered(list)
    ensures Distinct(list)
  {
    forall i, j | 0 <= i < j < |list| ensures list[i] != list[j] {
      assert w.Before(list[i], list[j]);
    }
  }

  /** A list stays ordered when its members keep their priority and stamp. */
  lemma StillOrdered(w: World, v: World, list: seq<MetaId>)
    requires w.Ordered(list)
    requires forall m :: m in list ==> v.Meta(m).priority == w.Meta(m).priority && v.Meta(m).stamp == w.Meta(m).stamp
    ensures v.Ordered(list)
  {
    forall i, j | 0 <= i < j < |list| ensures v.Before(list[i], list[j]) {
      assert w.Before(list[i], list[j]);
    }
  }

  /** Shrinking a group to an ordered part of itself and detaching the rest. */
  lemma ShrinkConsistent(w: World, g: GroupId, kept: seq<MetaId>, gone: set<MetaId>)
    requires w.Consistent() && w.Ordered(kept)
    requires forall m :: m in w.Group(g) <==> m in kept || m in gone
    requires forall m :: !(m in kept && m in gone)
    ensures World(Detached(w, gone), w.groups[g := kept], w.clock).Consistent()
  {
    var v := World(Detached(w, gone), w.groups[g := kept], w.clock);
    forall m ensures v.Meta(m) == if m in gone then w.Meta(m).(actor := None) else w.Meta(m) {
    }
    forall h ensures v.Group(h) == if h == g then kept else w.Group(h) {
    }
    forall h, m ensures v.Owns(h, m) {
      assert w.Owns(h, m) && w.Owns(g, m);
    }
    forall h ensures v.Ordered(v.Group(h)) {
      assert w.Ordered(v.Group(h));
      StillOrdered(w, v, v.Group(h));
    }
    forall m ensures v.Stamped(m) {
      assert w.Stamped(m);
    }
  }

  lemma OrderedPart(w: World, list: seq<MetaId>, kept: seq<MetaId>, at: seq<nat>)
    requires w.Ordered(list) && Subsequence(kept, list, at)
    ensures w.Ordered(kept)
  {
    forall i, j | 0 <= i < j < |kept| ensures w.Before(kept[i], kept[j]) {
      assert at[i] < at[j];
      assert w.Before(list[at[i]], list[at[j]]);
    }
  }

  lemma AddConsistent(w: World, a: ActorId, m: MetaId)
    requires w.Consistent() && w.Meta(m).actor == None
    ensures Apply(w, Add(a, m)).Consistent()
  {
    var g := GroupId(a, m.kind);
    var list := w.Group(g);
    var k := InsertPosition(w.Priorities(list), w.Meta(m).priority);
    var v := Apply(w, Add(a, m));
    var added := InsertAt(list, k, m);
    forall x ensures v.Meta(x) == if x == m then w.Meta(m).(actor := Some(a), stamp := w.clock) else w.Meta(x) {
    }
    forall h ensures v.Group(h) == if h == g then added else w.Group(h) {
    }
    assert v.clock == w.clock + 1;
    forall h ensures m !in w.Group(h) {
      assert w.Owns(h, m);
    }
    hide Apply;
    InsertMembers(list, k, m);
    forall h, x ensures v.Owns(h, x) {
      assert w.Owns(h, x);
    }
    forall x ensures v.Stamped(x) {
      assert w.Stamped(x);
    }
    forall x | x in list ensures w.Meta(x).stamp < w.clock {
      assert w.Owns(g, x) && w.Stamped(x);
    }
    forall h ensures v.Ordered(v.Group(h)) {
      if h == g {
        InsertOrdered(w, v, list, m, k);
      } else {
        assert w.Ordered(w.Group(h));
        StillOrdered(w, v, w.Group(h));
      }
    }
  }

  lemma InsertMembers<T(!new)>(list: seq<T>, k: nat, m: T)
    requires k <= |list|
    ensures forall x :: x in InsertAt(list, k, m) <==> x in list || x == m
  {
    assert list == list[..k] + list[k..];
  }

  lemma InsertOrdered(w: World, v: World, list: seq<MetaId>, m: MetaId, k: nat)
    requires w.Ordered(list) && k <= |list| && m !in list
    requires k == InsertPosition(w.Priorities(list), w.Meta(m).priority)
    requires v.Meta(m) == w.Meta(m).(actor := v.Meta(m).actor, stamp := w.clock)
    requires forall x :: x != m ==> v.Meta(x) == w.Meta(x)
    requires forall x :: x in list ==> w.Meta(x).stamp < w.clock
    ensures v.Ordered(InsertAt(list, k, m))
  {
    StillOrdered(w, v, list);
    var ps := w.Priorities(list);
    forall i | 0 <= i < k ensures v.Before(list[i], m) {
      assert ps[i] >= w.Meta(m).priority && list[i] in list;
    }
    forall i | k <= i < |list| ensures v.Before(m, list[i]) {
      assert ps[k] < w.Meta(m).priority;
      assert i == k || v.Before(list[k], list[i]);
    }
    InsertBetween(v, list, m, k);
  }

  lemma InsertBetween(v: World, list: seq<MetaId>, m: MetaId, k: nat)
    requires v.Ordered(list) && k <= |list|
    requires forall i :: 0 <= i < k ==> v.Before(list[i], m)
    requires forall i :: k <= i < |list| ==> v.Before(m, list[i])
    ensures v.Ordered(InsertAt(list, k, m))
  {
    hide World.Before;
    var added := InsertAt(list, k, m);
    forall i, j | 0 <= i < j < |added| ensures v.Before(added[i], added[j]) {
      var i', j' := if i < k then i else i - 1, if j < k then j else j - 1;
      assert i != k ==> added[i] == list[i'];
      assert j != k ==> added[j] == list[j'];
      assert i != k && j != k ==> v.Before(list[i'], list[j']);
    }
  }

  /** Every step keeps the world consistent. */
  lemma StepConsistent(w: World, step: Step)
    requires w.Consistent()
    ensures Apply(w, step).Consistent()
  {
    match step
    case Add(a, m) =>
      if w.Meta(m).actor == None { AddConsistent(w, a, m); }
    case Remove(a, m) =>
      if w.Meta(m).actor == Some(a) { RemoveConsistent(w, a, m); }
    case SetPriority(m, p) =>
      if w.Meta(m).actor == None { SetPriorityConsistent(w, m, p); }
    case Clear(g) =>
      ClearConsistent(w, g);
    case ClearNoInternal(g) =>
      ClearNoInternalConsistent(w, g);
  }

  lemma RemoveConsistent(w: World, a: ActorId, m: MetaId)
    requires w.Consistent() && w.Meta(m).actor == Some(a)
    ensures Apply(w, Remove(a, m)).Consistent()
  {
    var g := GroupId(a, m.kind);
    var list := w.Group(g);
    assert w.Owns(g, m);
    OrderedDistinct(w, list);
    var k :| 0 <= k < |list| && list[k] == m;
    RemoveFirstAt(list, k);
    var kept := RemoveFirst(list, m);
    WithoutMember(w, list, k);
    ShrinkConsistent(w, g, kept, {m});
  }

  lemma WithoutMember(w: World, list: seq<MetaId>, k: nat)
    requires w.Ordered(list) && k < |list|
    ensures var kept := list[..k] + list[k + 1..];
            && w.Ordered(kept) && list[k] !in kept
            && forall x :: x in list <==> x in kept || x == list[k]
  {
    var kept := list[..k] + list[k + 1..];
    OrderedDistinct(w, list);
    assert list == list[..k] + [list[k]] + list[k + 1..];
    forall i, j | 0 <= i < j < |kept| ensures w.Before(kept[i], kept[j]) {
      assert w.Before(list[if i < k then i else i + 1], list[if j < k then j else j + 1]);
    }
  }

  lemma SetPriorityConsistent(w: World, m: MetaId, p: int)
    requires w.Consistent() && w.Meta(m).actor == None
    ensures Apply(w, SetPriority(m, p)).Consistent()
  {
    var v := Apply(w, SetPriority(m, p));
    assert forall x :: v.Meta(x) == if x == m then w.Meta(m).(priority := p) else w.Meta(x);
    assert forall g :: v.Group(g) == w.Group(g);
    forall g, x ensures v.Owns(g, x) {
      assert w.Owns(g, x);
    }
    forall x ensures v.Stamped(x) {
      assert w.Stamped(x);
    }
    forall g ensures v.Ordered(v.Group(g)) {
      assert w.Owns(g, m) && w.Ordered(w.Group(g));
      StillOrdered(w, v, w.Group(g));
    }
  }

  lemma ClearConsistent(w: World, g: GroupId)
    requires w.Consistent()
    ensures Apply(w, Clear(g)).Consistent()
  {
    ShrinkConsistent(w, g, [], Elements(w.Group(g)));
  }

  lemma ClearNoInternalConsistent(w: World, g: GroupId)
    requires w.Consistent()
    ensures Apply(w, ClearNoInternal(g)).Consistent()
  {
    var list := w.Group(g);
    var ps := w.Priorities(list);
    var kept := Keep(list, ps, true);
    var at := KeepOrder(list, ps, true);
    OrderedPart(w, list, kept, at);
    forall m | m in kept ensures m in list {
      KeepMembers(list, ps, true, m);
    }
    ShrinkConsistent(w, g, kept, Elements(list) - Elements(kept));
  }

  /** Safety over whole runs: from a world with nothing attached, whatever is done in whatever order. */
  lemma {:induction false} RunConsistent(w: World, steps: seq<Step>)
    requires w.Consistent()
    ensures Run(w, steps).Consistent()
  {
    if steps != [] {
      RunConsistent(w, steps[..|steps| - 1]);
      StepConsistent(Run(w, steps[..|steps| - 1]), steps[|steps| - 1]);
    }
  }

  /** In particular from the start, when nothing is attached anywhere. */
  lemma FreshRunConsistent(steps: seq<Step>)
    ensures Run(World(map[], map[], 0), steps).Consistent()
  {
    var w := World(map[], map[], 0);
    assert w.Consistent();
    RunConsistent(w, steps);
  }

  /** Clearing without internals: the kept list is the old one with exactly the internal metas left, in the
      old order, and the metas that went have no actor. */
  lemma ClearNoInternalKeepsInternals(w: World, g: GroupId) returns (at: seq<nat>)
    requires w.Consistent()
    ensures var v := Apply(w, ClearNoInternal(g));
            && Subsequence(v.Group(g), w.Group(g), at)
            && (forall m :: m in v.Group(g) <==>
                  m in w.Group(g) && !(-1073741824 < w.Meta(m).priority < 1073741823))
            && (forall m :: m in w.Group(g) && m !in v.Group(g) ==> v.Meta(m).actor == None)
  {
    var list := w.Group(g);
    var ps := w.Priorities(list);
    var kept := Keep(list, ps, true);
    at := KeepOrder(list, ps, true);
    OrderedDistinct(w, list);
    forall m ensures m in kept <==> m in list && IsInternal(w.Meta(m).priority) {
      KeepMembers(list, ps, true, m);
      if m in list {
        var i :| 0 <= i < |list| && list[i] == m;
        assert ps[i] == w.Meta(m).priority;
      }
    }
  }

  /** What consistency means to a reader: at most one list, at most once, with the right owner, and the
      order of a list is determined by what is in it. */
  lemma ConsistentMeans(w: World, m: MetaId, g: GroupId, h: GroupId)
    requires w.Consistent() && m in w.Group(g)
    ensures w.Meta(m).actor == Some(g.actor)
    ensures m in w.Group(h) ==> h == g
    ensures Distinct(w.Group(g))
    ensures forall list :: w.Ordered(list) && (forall x :: x in list <==> x in w.Group(g)) ==> list == w.Group(g)
  {
    assert w.Owns(g, m) && w.Owns(h, m);
    OrderedDistinct(w, w.Group(g));
    forall list | w.Ordered(list) && (forall x :: x in list <==> x in w.Group(g)) ensures list == w.Group(g) {
      OrderUnique(w, list, w.Group(g));
    }
  }

  lemma {:induction false} OrderUnique(w: World, a: seq<MetaId>, b: seq<MetaId>)
    requires w.Ordered(a) && w.Ordered(b)
    requires forall x :: x in a <==> x in b
    ensures a == b
  {
    SameEmptiness(a, b);
    if a != [] {
      assert a[0] in b && b[0] in a;
      FirstAgrees(w, a, b);
      TailOrdered(w, a);
      TailOrdered(w, b);
      forall x ensures x in a[1..] <==> x in b[1..] {
        assert x in a <==> x in b;
      }
      OrderUnique(w, a[1..], b[1..]);
    }
  }

  lemma SameEmptiness(a: seq<MetaId>, b: seq<MetaId>)
    requires forall x :: x in a <==> x in b
    ensures a == [] <==> b == []
  {
    if a != [] { assert a[0] in a; }
    if b != [] { assert b[0] in b; }
  }

  lemma TailOrdered(w: World, a: seq<MetaId>)
    requires w.Ordered(a) && a != []
    ensures w.Ordered(a[1..])
    ensures forall x :: x in a[1..] <==> x in a && x != a[0]
  {
    OrderedDistinct(w, a);
    forall i, j | 0 <= i < j < |a| - 1 ensures w.Before(a[1..][i], a[1..][j]) {
      assert w.Before(a[i + 1], a[j + 1]);
    }
    assert a == [a[0]] + a[1..];
  }

  lemma FirstAgrees(w: World, a: seq<MetaId>, b: seq<MetaId>)
    requires w.Ordered(a) && w.Ordered(b) && a != [] && b != []
    requires a[0] in b && b[0] in a
    ensures a[0] == b[0]
  {
    var i :| 0 <= i < |b| && b[i] == a[0];
    var j :| 0 <= j < |a| && a[j] == b[0];
  }
}
