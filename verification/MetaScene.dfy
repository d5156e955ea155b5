/** Every meta group of a scene at once: the linked lists on the heap follow the state machine step by step. */
module MetaScene {
  import opened Collections
  import opened MetaLists
  import opened MetaRuns
  import opened MetaGroups

  ghost predicate Injective<K(!new), V>(m: map<K, V>) {
    forall a, b :: a in m && b in m && m[a] == m[b] ==> a == b
  }

  /** The actors, the metas and one group for each list of an actor. */
  class Scene {
    const actors: map<ActorId, Actor>
    const metas: map<MetaId, ActorMeta>
    const groups: map<GroupId, MetaGroup>

    ghost predicate Wired() {
      && Injective(actors) && Injective(metas) && Injective(groups)
      && forall g :: g in groups ==> g.actor in actors && groups[g].actor == actors[g.actor]
    }

    /** The links of one list, and of all. */
    ghost function NodesOf(g: GroupId): set<Node>
      requires g in groups
      reads groups[g]
    {
      set i | 0 <= i < |groups[g].nodes| :: groups[g].nodes[i]
    }

    ghost function AllNodes(): set<Node>
      reads groups.Values
    {
      set g, n | g in groups && n in NodesOf(g) :: n
    }

    /** No link belongs to two lists. */
    ghost predicate Apart()
      reads groups.Values
    {
      forall g, h, n :: g in groups && h in groups && n in NodesOf(g) && n in NodesOf(h) ==> g == h
    }

    ghost predicate Known(list: seq<MetaId>) { forall i :: 0 <= i < |list| ==> list[i] in metas }

    ghost function Objects(list: seq<MetaId>): (s: seq<ActorMeta>)
      requires Known(list)
      ensures |s| == |list|
    {
      seq(|list|, i requires 0 <= i < |list| => metas[list[i]])
    }

    ghost predicate ListIs(g: GroupId, list: seq<MetaId>)
      requires g in groups
      reads groups[g], NodesOf(g)
    {
      && Chain(groups[g].meta, groups[g].nodes)
      && Known(list)
      && Data(groups[g].nodes) == Objects(list)
    }

    ghost predicate MetaIs(m: MetaId, state: MetaState)
      requires m in metas
      reads metas[m]
    {
      && metas[m].priority == state.priority
      && match state.actor
         case None => metas[m].actor == null
         case Some(a) => a in actors && metas[m].actor == actors[a]
    }

    /** Nothing in the world is outside the scene. */
    ghost predicate Covers(w: World) {
      && (forall g :: w.Group(g) != [] ==> g in groups)
      && (forall m :: w.Meta(m).actor.Some? ==> m in metas)
    }

    /** The heap is in state `w`. */
    ghost predicate Represents(w: World)
      reads groups.Values, AllNodes(), metas.Values
    {
      && Wired() && Apart() && Covers(w) && w.Consistent()
      && (forall g :: g in groups ==> ListIs(g, w.Group(g)))
      && (forall m :: m in metas ==> MetaIs(m, w.Meta(m)))
    }

    constructor (actors: map<ActorId, Actor>, metas: map<MetaId, ActorMeta>, groups: map<GroupId, MetaGroup>)
      requires Injective(actors) && Injective(metas) && Injective(groups)
      requires forall g :: g in groups ==>
                 && g.actor in actors && groups[g].actor == actors[g.actor]
                 && groups[g].meta == null && groups[g].nodes == []
      requires forall m :: m in metas ==> metas[m].actor == null
      ensures this.actors == actors && this.metas == metas && this.groups == groups
      ensures Represents(Untouched(map m | m in metas :: metas[m].priority))
    {
      this.actors, this.metas, this.groups := actors, metas, groups;
      new;
      hide World.Consistent, Untouched;
      ghost var w := Untouched(map m | m in metas :: metas[m].priority);
      UntouchedMeans(map m | m in metas :: metas[m].priority);
      forall g | g in groups ensures ListIs(g, w.Group(g)) {
        assert groups[g].nodes == [];
      }
      forall m | m in metas ensures MetaIs(m, w.Meta(m)) {
        assert metas[m].actor == null;
      }
    }

    /** What the groups' methods need, and what they see. */
    lemma GroupReady(w: World, g: GroupId)
      requires Represents(w) && g in groups
      ensures groups[g].Valid() && Known(w.Group(g)) && groups[g].Metas() == Objects(w.Group(g))
      ensures Priorities(groups[g].Metas()) == w.Priorities(w.Group(g))
      ensures Lists(GroupsOf(w)) && GroupsOf(w)[g] == w.Group(g)
      ensures forall m :: m in metas ==> (metas[m] in groups[g].Metas() <==> m in w.Group(g))
    {
      var list := w.Group(g);
      assert ListIs(g, list);
      assert w.Ordered(list);
      OrderedDistinct(w, list);
      ObjectsMembers(list);
      forall x | x in Objects(list) ensures x.actor == groups[g].actor {
        var i :| 0 <= i < |list| && Objects(list)[i] == x;
        assert w.Owns(g, list[i]) && MetaIs(list[i], w.Meta(list[i]));
      }
      forall i | 0 <= i < |list| ensures metas[list[i]].priority == w.Meta(list[i]).priority {
        assert MetaIs(list[i], w.Meta(list[i]));
      }
    }

    lemma ObjectsMembers(list: seq<MetaId>)
      requires Injective(metas) && Known(list)
      ensures forall m :: m in metas ==> (metas[m] in Objects(list) <==> m in list)
    {
      var objects := Objects(list);
      forall m | m in metas ensures metas[m] in objects <==> m in list {
        if m in list {
          var i :| 0 <= i < |list| && list[i] == m;
          assert objects[i] == metas[m];
        }
        if metas[m] in objects {
          var i :| 0 <= i < |list| && objects[i] == metas[m];
          assert list[i] == m;
        }
      }
    }

    /** The lists on the heap, apart from who owns what. */
    ghost predicate Lists(lists: map<GroupId, seq<MetaId>>)
      reads groups.Values, AllNodes()
    {
      Wired() && Apart() && lists.Keys == groups.Keys && forall g :: g in groups ==> ListIs(g, lists[g])
    }

    /** Links of other lists are not those of `g`. */
    lemma OtherLinks(g: GroupId)
      requires Wired() && Apart() && g in groups
      ensures forall h :: h in groups && h != g ==> groups[h] != groups[g]
      ensures forall h, n :: h in groups && h != g && n in NodesOf(h) ==> n !in NodesOf(g)
      ensures forall n :: n in groups[g].nodes <==> n in NodesOf(g)
    {
    }

    lemma ListShown(g: GroupId, list: seq<MetaId>)
      requires g in groups && groups[g].Valid() && Known(list) && groups[g].Metas() == Objects(list)
      ensures ListIs(g, list)
    {
    }

    /** One list has new contents; every other link is as it was, and so is every other list. */
    twostate lemma ListDone(new g: GroupId, new lists: map<GroupId, seq<MetaId>>, new list: seq<MetaId>)
      requires old(Lists(lists)) && g in groups
      requires groups[g].Valid() && Known(list) && groups[g].Metas() == Objects(list)
      requires forall h :: h in groups && h != g ==> unchanged(groups[h])
      requires forall n :: n in old(AllNodes()) && n !in old(NodesOf(g)) ==> unchanged(n)
      requires forall n :: n in groups[g].nodes ==> n in old(NodesOf(g)) || fresh(n)
      ensures Lists(lists[g := list])
      ensures forall n :: n in AllNodes() ==> n in old(AllNodes()) || fresh(n)
      ensures (forall n :: n in groups[g].nodes ==> n in old(NodesOf(g))) ==> AllNodes() <= old(AllNodes())
    {
      hide Chain, ListIs, Wired;
      OtherLinks(g);
      ListShown(g, list);
      forall h | h in groups && h != g ensures ListIs(h, lists[h]) {
        assert old(ListIs(h, lists[h]));
        assert unchanged(groups[h]) && NodesOf(h) == old(NodesOf(h));
        assert forall n :: n in old(NodesOf(h)) ==> n in old(AllNodes()) && n !in old(NodesOf(g)) && unchanged(n);
        assert ListIs(h, lists[h]) == old(ListIs(h, lists[h]));
      }
    }

    lemma ObjectsInsert(list: seq<MetaId>, k: nat, m: MetaId)
      requires Known(list) && m in metas && k <= |list|
      ensures Known(InsertAt(list, k, m))
      ensures Objects(InsertAt(list, k, m)) == InsertAt(Objects(list), k, metas[m])
    {
    }

    lemma {:induction false} ObjectsRemove(list: seq<MetaId>, m: MetaId)
      requires Injective(metas) && Known(list) && m in metas
      ensures Known(RemoveFirst(list, m))
      ensures Objects(RemoveFirst(list, m)) == RemoveFirst(Objects(list), metas[m])
    {
      if list != [] {
        ObjectsRemove(list[1..], m);
        assert Objects(list)[1..] == Objects(list[1..]);
      }
    }

    lemma {:induction false} ObjectsKeep(list: seq<MetaId>, ps: seq<int>, internal: bool)
      requires Known(list) && |ps| == |list|
      ensures Known(Keep(list, ps, internal))
      ensures Objects(Keep(list, ps, internal)) == Keep(Objects(list), ps, internal)
    {
      hide IsInternal;
      if list != [] {
        var last := |list| - 1;
        ObjectsKeep(list[..last], ps[..last], internal);
        assert Objects(list)[..last] == Objects(list[..last]);
      }
    }

    lemma GroupList(g: GroupId, list: seq<MetaId>)
      requires g in groups && ListIs(g, list)
      ensures Known(list) && groups[g].Metas() == Objects(list)
    {
    }

    // --- one list changes, the others do not -------------------------------------------------------

    method AddTo(g: GroupId, m: MetaId, ghost lists: map<GroupId, seq<MetaId>>)
      requires Lists(lists) && g in groups && groups[g].Valid() && m in metas
      modifies groups[g], NodesOf(g), metas[m]
      ensures metas[m].actor == (if old(metas[m].actor) == null then groups[g].actor else old(metas[m].actor))
      ensures metas[m].priority == old(metas[m].priority)
      ensures old(metas[m].actor) != null ==> Lists(lists)
      ensures var k := InsertPosition(old(Priorities(groups[g].Metas())), metas[m].priority);
              k <= |lists[g]| && (old(metas[m].actor) == null ==> Lists(lists[g := InsertAt(lists[g], k, m)]))
      ensures forall n :: n in AllNodes() ==> n in old(AllNodes()) || fresh(n)
    {
      hide Chain, InsertPosition, InsertAt, ListIs;
      OtherLinks(g);
      GroupList(g, lists[g]);
      ghost var k := InsertPosition(Priorities(groups[g].Metas()), metas[m].priority);
      ObjectsInsert(lists[g], k, m);
      groups[g].AddMeta(metas[m]);
      ListDone(g, lists, if old(metas[m].actor) == null then InsertAt(lists[g], k, m) else lists[g]);
      assert lists[g := lists[g]] == lists;
    }

    method RemoveFrom(g: GroupId, m: MetaId, ghost lists: map<GroupId, seq<MetaId>>)
      requires Lists(lists) && g in groups && groups[g].Valid() && m in metas
      modifies groups[g], NodesOf(g), metas[m]
      ensures metas[m].actor == (if old(metas[m].actor) == groups[g].actor then null else old(metas[m].actor))
      ensures metas[m].priority == old(metas[m].priority)
      ensures Lists(if old(metas[m].actor) == groups[g].actor then lists[g := RemoveFirst(lists[g], m)] else lists)
      ensures forall n :: n in AllNodes() ==> n in old(AllNodes())
    {
      hide Chain, RemoveFirst, ListIs;
      OtherLinks(g);
      GroupList(g, lists[g]);
      ObjectsRemove(lists[g], m);
      groups[g].RemoveMeta(metas[m]);
      ListDone(g, lists, if old(metas[m].actor) == groups[g].actor then RemoveFirst(lists[g], m) else lists[g]);
      assert lists[g := lists[g]] == lists;
    }

    method ClearList(g: GroupId, ghost lists: map<GroupId, seq<MetaId>>)
      requires Lists(lists) && g in groups && groups[g].Valid()
      modifies groups[g], NodesOf(g), groups[g].Metas()
      ensures forall m :: m in metas ==> metas[m].priority == old(metas[m].priority)
      ensures forall m :: m in metas ==> metas[m].actor == if m in lists[g] then null else old(metas[m].actor)
      ensures Lists(lists[g := []])
      ensures forall n :: n in AllNodes() ==> n in old(AllNodes())
    {
      hide Chain, ListIs;
      OtherLinks(g);
      GroupList(g, lists[g]);
      ObjectsMembers(lists[g]);
      groups[g].ClearMetas();
      ListDone(g, lists, []);
    }

    method ClearListNoInternal(g: GroupId, ghost lists: map<GroupId, seq<MetaId>>)
      requires Lists(lists) && g in groups && groups[g].Valid()
      modifies groups[g], NodesOf(g), groups[g].Metas()
      ensures forall m :: m in metas ==> metas[m].priority == old(metas[m].priority)
      ensures forall m :: m in metas ==>
                metas[m].actor == if m in lists[g] && !IsInternal(metas[m].priority) then null else old(metas[m].actor)
      ensures |lists[g]| == |old(groups[g].Metas())|
      ensures Lists(lists[g := Keep(lists[g], old(Priorities(groups[g].Metas())), true)])
      ensures forall n :: n in AllNodes() ==> n in old(AllNodes())
    {
      hide Chain, Keep, ListIs;
      OtherLinks(g);
      GroupList(g, lists[g]);
      ObjectsMembers(lists[g]);
      ObjectsKeep(lists[g], Priorities(groups[g].Metas()), true);
      groups[g].ClearMetasNoInternal();
      ListDone(g, lists, Keep(lists[g], old(Priorities(groups[g].Metas())), true));
    }

    // --- the steps -----------------------------------------------------------------------------------

    ghost function GroupsOf(w: World): (lists: map<GroupId, seq<MetaId>>)
      ensures lists.Keys == groups.Keys
    {
      map g | g in groups :: w.Group(g)
    }

    lemma OneListChanged(w: World, v: World, g: GroupId)
      requires g in groups && forall h :: h != g ==> v.Group(h) == w.Group(h)
      ensures GroupsOf(v) == GroupsOf(w)[g := v.Group(g)] && GroupsOf(w)[g] == w.Group(g)
    {
    }

    lemma ListsAndMetas(w: World)
      requires Lists(GroupsOf(w)) && Covers(w) && w.Consistent()
      requires forall m :: m in metas ==> MetaIs(m, w.Meta(m))
      ensures Represents(w)
    {
      hide World.Consistent, ListIs, MetaIs, Wired, Covers, Apart;
      forall g | g in groups ensures ListIs(g, w.Group(g)) {
        assert GroupsOf(w)[g] == w.Group(g);
      }
    }

    lemma AddCovers(w: World, a: ActorId, m: MetaId)
      requires Covers(w) && m in metas && GroupId(a, m.kind) in groups
      ensures Covers(Apply(w, Step.Add(a, m)))
    {
      hide Apply, InsertPosition, InsertAt;
      AddEffect(w, a, m);
    }

    /** `clutter_actor_add_action` and its like. */
    method Add(a: ActorId, m: MetaId, ghost w: World)
      requires Represents(w) && m in metas && GroupId(a, m.kind) in groups
      modifies groups.Values, AllNodes(), metas.Values
      ensures Represents(Apply(w, Step.Add(a, m)))
      ensures forall n :: n in AllNodes() ==> n in old(AllNodes()) || fresh(n)
    {
      hide World.Consistent, Chain, Apply, InsertPosition, InsertAt, ListIs, GroupsOf, Covers;
      var g := GroupId(a, m.kind);
      ghost var v := Apply(w, Step.Add(a, m));
      StepConsistent(w, Step.Add(a, m));
      AddEffect(w, a, m);
      AddCovers(w, a, m);
      GroupReady(w, g);
      assert MetaIs(m, w.Meta(m)) && actors[a] == groups[g].actor;
      AddTo(g, m, GroupsOf(w));
      OneListChanged(w, v, g);
      forall x | x in metas ensures MetaIs(x, v.Meta(x)) {
        assert old(MetaIs(x, w.Meta(x)));
        assert x != m ==> unchanged(metas[x]);
      }
      ListsAndMetas(v);
    }

    /** `clutter_actor_remove_action` and its like. */
    method Remove(a: ActorId, m: MetaId, ghost w: World)
      requires Represents(w) && m in metas && GroupId(a, m.kind) in groups
      modifies groups.Values, AllNodes(), metas.Values
      ensures Represents(Apply(w, Step.Remove(a, m)))
      ensures forall n :: n in AllNodes() ==> n in old(AllNodes()) || fresh(n)
    {
      hide World.Consistent, Chain, Apply, RemoveFirst, ListIs, GroupsOf;
      var g := GroupId(a, m.kind);
      ghost var v := Apply(w, Step.Remove(a, m));
      StepConsistent(w, Step.Remove(a, m));
      RemoveEffect(w, a, m);
      GroupReady(w, g);
      assert MetaIs(m, w.Meta(m)) && actors[a] == groups[g].actor;
      RemoveFrom(g, m, GroupsOf(w));
      OneListChanged(w, v, g);
      forall x | x in metas ensures MetaIs(x, v.Meta(x)) {
        assert old(MetaIs(x, w.Meta(x)));
        assert x != m ==> unchanged(metas[x]);
      }
      ListsAndMetas(v);
    }

    /** `_clutter_actor_meta_set_priority`. */
    method SetPriority(m: MetaId, p: int, ghost w: World)
      requires Represents(w) && m in metas
      modifies metas.Values
      ensures Represents(Apply(w, Step.SetPriority(m, p)))
    {
      hide World.Consistent, ListIs;
      ghost var v := Apply(w, Step.SetPriority(m, p));
      StepConsistent(w, Step.SetPriority(m, p));
      assert MetaIs(m, w.Meta(m));
      metas[m].SetPriority(p);
      forall g | g in groups ensures ListIs(g, v.Group(g)) {
        assert old(ListIs(g, w.Group(g)));
        assert unchanged(groups[g]);
        assert forall n :: n in old(NodesOf(g)) ==> unchanged(n);
        assert ListIs(g, w.Group(g)) == old(ListIs(g, w.Group(g)));
      }
    }

    /** `clutter_actor_clear_actions` and its like drop the metas that are not internal. */
    method ClearNoInternal(g: GroupId, ghost w: World)
      requires Represents(w) && g in groups
      modifies groups.Values, AllNodes(), metas.Values
      ensures Represents(Apply(w, Step.ClearNoInternal(g)))
      ensures forall n :: n in AllNodes() ==> n in old(AllNodes()) || fresh(n)
    {
      hide World.Consistent, Chain, Apply, Keep, ListIs, GroupsOf;
      ghost var v, list, lists := Apply(w, Step.ClearNoInternal(g)), w.Group(g), GroupsOf(w);
      StepConsistent(w, Step.ClearNoInternal(g));
      ClearNoInternalEffect(w, g);
      GroupReady(w, g);
      KnownObjects(list);
      ClearListNoInternal(g, lists);
      OneListChanged(w, v, g);
      forall m | m in metas ensures MetaIs(m, v.Meta(m)) {
        assert old(MetaIs(m, w.Meta(m)));
      }
      ListsAndMetas(v);
    }

    /** Disposing of a group clears it. */
    method Clear(g: GroupId, ghost w: World)
      requires Represents(w) && g in groups
      modifies groups.Values, AllNodes(), metas.Values
      ensures Represents(Apply(w, Step.Clear(g)))
      ensures forall n :: n in AllNodes() ==> n in old(AllNodes()) || fresh(n)
    {
      hide World.Consistent, Chain, Apply, ListIs;
      ghost var v, list, lists := Apply(w, Step.Clear(g)), w.Group(g), GroupsOf(w);
      StepConsistent(w, Step.Clear(g));
      ClearEffect(w, g);
      GroupReady(w, g);
      KnownObjects(list);
      ClearList(g, lists);
      OneListChanged(w, v, g);
      forall m | m in metas ensures MetaIs(m, v.Meta(m)) {
        assert old(MetaIs(m, w.Meta(m)));
      }
      ListsAndMetas(v);
    }

    /** A step names metas and lists of the scene. */
    predicate InScene(step: Step) {
      match step
      case Add(a, m) => m in metas && GroupId(a, m.kind) in groups
      case Remove(a, m) => m in metas && GroupId(a, m.kind) in groups
      case SetPriority(m, _) => m in metas
      case Clear(g) => g in groups
      case ClearNoInternal(g) => g in groups
    }

    /** Whatever step is taken, the heap does what the state machine does. */
    method Perform(step: Step, ghost w: World)
      requires Represents(w) && InScene(step)
      modifies groups.Values, AllNodes(), metas.Values
      ensures Represents(Apply(w, step))
      ensures forall n :: n in AllNodes() ==> n in old(AllNodes()) || fresh(n)
    {
      hide Represents, Apply;
      match step
      case Add(a, m) => Add(a, m, w);
      case Remove(a, m) => Remove(a, m, w);
      case SetPriority(m, p) => SetPriority(m, p, w);
      case Clear(g) => Clear(g, w);
      case ClearNoInternal(g) => ClearNoInternal(g, w);
    }

    /** So does any run. */
    method PerformAll(steps: seq<Step>, ghost w: World)
      requires Represents(w) && forall i :: 0 <= i < |steps| ==> InScene(steps[i])
      modifies groups.Values, AllNodes(), metas.Values
      ensures Represents(Run(w, steps))
    {
      hide Represents, Apply;
      for i := 0 to |steps|
        invariant Represents(Run(w, steps[..i]))
        invariant forall n :: n in AllNodes() ==> n in old(AllNodes()) || fresh(n)
      {
        Perform(steps[i], Run(w, steps[..i]));
        assert steps[..i + 1][..i] == steps[..i];
      }
      assert steps[..|steps|] == steps;
    }

    /** What this says of the linked lists: sorted by descending priority, first come first served among
        equals, and holding exactly the metas that point back at their actor. */
    lemma HeapMeans(w: World, g: GroupId)
      requires Represents(w) && g in groups
      ensures groups[g].Valid()
      ensures forall i, j :: 0 <= i < j < |groups[g].nodes| ==> ServedBefore(w, g, i, j)
      ensures forall m :: m in metas ==>
                (metas[m] in groups[g].Metas() <==> metas[m].actor == groups[g].actor && m.kind == g.kind)
    {
      hide World.Consistent, Represents, ServedBefore;
      GroupReady(w, g);
      forall i, j | 0 <= i < j < |groups[g].nodes| ensures ServedBefore(w, g, i, j) {
        HeapOrder(w, g, i, j);
      }
      forall m | m in metas
        ensures metas[m] in groups[g].Metas() <==> metas[m].actor == groups[g].actor && m.kind == g.kind
      {
        HeapOwner(w, g, m);
      }
    }

    /** The links at `i` and `j` carry different metas, that at `i` with the higher priority, or with the same
        one and added earlier. */
    ghost predicate ServedBefore(w: World, g: GroupId, i: nat, j: nat)
      requires g in groups && i < |groups[g].nodes| && j < |groups[g].nodes|
      reads groups[g], groups[g].nodes, metas.Values, Data(groups[g].nodes)
    {
      var a, b := groups[g].nodes[i].data, groups[g].nodes[j].data;
      exists x, y :: x in metas && y in metas && metas[x] == a && metas[y] == b && x != y &&
        (a.priority > b.priority || (a.priority == b.priority && w.Meta(x).stamp < w.Meta(y).stamp))
    }

    lemma HeapOrder(w: World, g: GroupId, i: nat, j: nat)
      requires Represents(w) && g in groups && i < j < |groups[g].nodes|
      ensures ServedBefore(w, g, i, j)
    {
      hide World.Consistent, Apart, Wired, Chain, Covers;
      OrderOf(w, g);
      assert ListIs(g, w.Group(g));
      var x, y := w.Group(g)[i], w.Group(g)[j];
      assert w.Before(x, y);
      assert Objects(w.Group(g))[i] == metas[x] && Objects(w.Group(g))[j] == metas[y];
      assert Data(groups[g].nodes)[i] == metas[x] && Data(groups[g].nodes)[j] == metas[y];
      assert MetaIs(x, w.Meta(x)) && MetaIs(y, w.Meta(y));
    }

    lemma HeapOwner(w: World, g: GroupId, m: MetaId)
      requires Represents(w) && g in groups && m in metas
      ensures metas[m] in groups[g].Metas() <==> metas[m].actor == groups[g].actor && m.kind == g.kind
    {
      hide World.Consistent, Apart, Chain, Covers;
      GroupReady(w, g);
      OrderOf(w, g);
      assert MetaIs(m, w.Meta(m)) && w.Owns(g, m);
    }

    lemma KnownObjects(list: seq<MetaId>)
      requires Known(list)
      ensures forall x :: x in Objects(list) ==> x in metas.Values
    {
    }
  }

  lemma AddEffect(w: World, a: ActorId, m: MetaId)
    ensures var v, g := Apply(w, Step.Add(a, m)), GroupId(a, m.kind);
            var list := w.Group(g);
            var k := InsertPosition(w.Priorities(list), w.Meta(m).priority);
            if w.Meta(m).actor.Some? then v == w else
              && (forall h :: v.Group(h) == if h == g then InsertAt(list, k, m) else w.Group(h))
              && (forall x :: v.Meta(x) == if x == m then w.Meta(m).(actor := Some(a), stamp := w.clock) else w.Meta(x))
  {
  }

  lemma OrderOf(w: World, g: GroupId)
    requires w.Consistent()
    ensures w.Ordered(w.Group(g)) && forall m :: w.Owns(g, m)
  {
  }

  /** Detaching `gone` and leaving `kept` in one list. */
  lemma DetachEffect(w: World, g: GroupId, kept: seq<MetaId>, gone: set<MetaId>)
    ensures var v := World(Detached(w, gone), w.groups[g := kept], w.clock);
            && (forall h :: v.Group(h) == if h == g then kept else w.Group(h))
            && (forall x :: v.Meta(x) == if x in gone then w.Meta(x).(actor := None) else w.Meta(x))
  {
  }

  lemma RemoveEffect(w: World, a: ActorId, m: MetaId)
    ensures var v, g := Apply(w, Step.Remove(a, m)), GroupId(a, m.kind);
            if w.Meta(m).actor != Some(a) then v == w else
              && (forall h :: v.Group(h) == if h == g then RemoveFirst(w.Group(g), m) else w.Group(h))
              && (forall x :: v.Meta(x) == if x == m then w.Meta(x).(actor := None) else w.Meta(x))
  {
    var g := GroupId(a, m.kind);
    DetachEffect(w, g, RemoveFirst(w.Group(g), m), {m});
  }

  lemma ClearEffect(w: World, g: GroupId)
    ensures var v := Apply(w, Step.Clear(g));
            && (forall h :: v.Group(h) == if h == g then [] else w.Group(h))
            && (forall x :: v.Meta(x) == if x in w.Group(g) then w.Meta(x).(actor := None) else w.Meta(x))
  {
    DetachEffect(w, g, [], Elements(w.Group(g)));
  }

  lemma ClearNoInternalEffect(w: World, g: GroupId)
    ensures var v, list := Apply(w, Step.ClearNoInternal(g)), w.Group(g);
            && (forall h :: v.Group(h) == if h == g then Keep(list, w.Priorities(list), true) else w.Group(h))
            && (forall x :: v.Meta(x) == if x in list && !IsInternal(w.Meta(x).priority) then w.Meta(x).(actor := None)
                                         else w.Meta(x))
  {
    var list := w.Group(g);
    var ps := w.Priorities(list);
    var kept := Keep(list, ps, true);
    DetachEffect(w, g, kept, Elements(list) - Elements(kept));
    forall x | x in list ensures x in kept <==> IsInternal(w.Meta(x).priority) {
      KeepMembers(list, ps, true, x);
      var i :| 0 <= i < |list| && list[i] == x;
      assert ps[i] == w.Meta(x).priority;
    }
  }

  /** Nothing is attached. */
  ghost function Untouched(priorities: map<MetaId, int>): World {
    World(map m | m in priorities :: MetaState(None, priorities[m], 0), map[], 0)
  }

  lemma UntouchedMeans(priorities: map<MetaId, int>)
    ensures var w := Untouched(priorities);
            && w.Consistent() && (forall g :: w.Group(g) == []) && (forall m :: w.Meta(m).actor == None)
            && (forall m :: m in priorities ==> w.Meta(m).priority == priorities[m])
  {
  }
}
