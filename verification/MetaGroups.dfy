/** `ClutterMetaGroup`: the doubly linked list behind each list of metas, edited in place. */
module MetaGroups {
  import opened Collections
  import opened MetaLists

  class Actor { }

  class ActorMeta {
    var actor: Actor?
    var priority: int

    constructor (priority: int)
      ensures actor == null && this.priority == priority
    {
      actor := null;
      this.priority := priority;
    }

    /** Refused while the meta is in use, because lists are not sorted again. */
    method SetPriority(p: int)
      modifies this`priority
      ensures priority == if actor == null then p else old(priority)
    {
      if actor == null { priority := p; }
    }
  }

  /** A `GList` link. */
  class Node {
    var data: ActorMeta
    var next: Node?
    var prev: Node?

    constructor (data: ActorMeta, next: Node?, prev: Node?)
      ensures this.data == data && this.next == next && this.prev == prev
    {
      this.data, this.next, this.prev := data, next, prev;
    }
  }

  // --- chains ------------------------------------------------------------------------------------------

  function At(nodes: seq<Node>, i: int): Node? {
    if 0 <= i < |nodes| then nodes[i] else null
  }

  /** Forward links from position `i` on. */
  ghost predicate Forward(nodes: seq<Node>, i: nat)
    reads nodes
  {
    forall j {:trigger nodes[j].next} :: i <= j < |nodes| ==> nodes[j].next == At(nodes, j + 1)
  }

  ghost predicate Backward(nodes: seq<Node>)
    reads nodes
  {
    forall j {:trigger nodes[j].prev} :: 0 <= j < |nodes| ==> nodes[j].prev == At(nodes, j - 1)
  }

  /** A well-formed list whose links are `nodes`, in order. */
  ghost predicate Chain(head: Node?, nodes: seq<Node>)
    reads nodes
  {
    head == At(nodes, 0) && Distinct(nodes) && Forward(nodes, 0) && Backward(nodes)
  }

  ghost function Data(nodes: seq<Node>): (s: seq<ActorMeta>)
    reads nodes
    ensures |s| == |nodes|
  {
    seq(|nodes|, i requires 0 <= i < |nodes| reads nodes => nodes[i].data)
  }

  ghost function Priorities(metas: seq<ActorMeta>): (ps: seq<int>)
    reads metas
    ensures |ps| == |metas|
  {
    seq(|metas|, i requires 0 <= i < |metas| reads metas => metas[i].priority)
  }

  function Reversed<T>(s: seq<T>): (r: seq<T>)
    ensures |r| == |s|
    ensures forall i :: 0 <= i < |s| ==> r[i] == s[|s| - 1 - i]
  {
    seq(|s|, i requires 0 <= i < |s| => s[|s| - 1 - i])
  }

  /** Both links of the first `i` nodes are swapped. */
  ghost predicate Swapped(nodes: seq<Node>, i: nat)
    reads nodes
  {
    && (forall j {:trigger nodes[j].next} :: 0 <= j < |nodes| && j < i ==> nodes[j].next == At(nodes, j - 1))
    && (forall j {:trigger nodes[j].prev} :: 0 <= j < |nodes| && j < i ==> nodes[j].prev == At(nodes, j + 1))
  }

  ghost predicate Unswapped(nodes: seq<Node>, i: nat)
    reads nodes
  {
    && Forward(nodes, i)
    && (forall j {:trigger nodes[j].prev} :: i <= j < |nodes| ==> nodes[j].prev == At(nodes, j - 1))
  }

  lemma SwappedChain(nodes: seq<Node>)
    requires Distinct(nodes) && Swapped(nodes, |nodes|)
    ensures Chain(At(nodes, |nodes| - 1), Reversed(nodes))
  {
    var r := Reversed(nodes);
    forall j | 0 <= j < |r| ensures r[j].next == At(r, j + 1) && r[j].prev == At(r, j - 1) {
      assert r[j] == nodes[|nodes| - 1 - j];
    }
  }

  /** `g_list_reverse`: swaps the two links of every node. */
  method ReverseList(list: Node?, ghost nodes: seq<Node>) returns (head: Node?)
    requires Chain(list, nodes)
    modifies nodes`next, nodes`prev
    ensures Chain(head, Reversed(nodes))
  {
    var l := list;
    head := null;
    ghost var i := 0;
    while l != null
      invariant 0 <= i <= |nodes| && l == At(nodes, i) && head == At(nodes, i - 1)
      invariant Swapped(nodes, i) && Unswapped(nodes, i)
      decreases |nodes| - i
    {
      assert forall j :: 0 <= j < |nodes| && j != i ==> nodes[j] != nodes[i];
      assert l == nodes[i];
      head := l;
      l := head.next;
      head.next := head.prev;
      head.prev := l;
      i := i + 1;
      assert head == nodes[i - 1];
    }
    assert i == |nodes|;
    SwappedChain(nodes);
  }

  /** `n` is linked in before position `k`. */
  ghost predicate SplicedLinks(nodes: seq<Node>, n: Node, k: nat)
    reads nodes, n
  {
    && n.next == At(nodes, k) && n.prev == At(nodes, k - 1)
    && (forall j {:trigger nodes[j].next} :: 0 <= j < |nodes| ==>
          nodes[j].next == if j == k - 1 then n else At(nodes, j + 1))
    && (forall j {:trigger nodes[j].prev} :: 0 <= j < |nodes| ==>
          nodes[j].prev == if j == k then n else At(nodes, j - 1))
  }

  lemma SplicedChain(nodes: seq<Node>, n: Node, k: nat)
    requires Distinct(nodes) && n !in nodes && k <= |nodes| && SplicedLinks(nodes, n, k)
    ensures Chain(if k == 0 then n else nodes[0], InsertAt(nodes, k, n))
  {
    var s := InsertAt(nodes, k, n);
    forall j | 0 <= j < |s| ensures s[j].next == At(s, j + 1) && s[j].prev == At(s, j - 1) {
      if j < k {
        assert s[j] == nodes[j];
      } else if j > k {
        assert s[j] == nodes[j - 1];
      }
    }
  }

  /** The node at position `k` is passed over. */
  ghost predicate UnlinkedLinks(nodes: seq<Node>, k: nat)
    reads nodes
  {
    && (forall j {:trigger nodes[j].next} :: 0 <= j < |nodes| && j != k ==>
          nodes[j].next == if j == k - 1 then At(nodes, k + 1) else At(nodes, j + 1))
    && (forall j {:trigger nodes[j].prev} :: 0 <= j < |nodes| && j != k ==>
          nodes[j].prev == if j == k + 1 then At(nodes, k - 1) else At(nodes, j - 1))
  }

  lemma UnlinkedChain(nodes: seq<Node>, k: nat)
    requires Distinct(nodes) && k < |nodes| && UnlinkedLinks(nodes, k)
    ensures Chain(if k == 0 then At(nodes, 1) else nodes[0], nodes[..k] + nodes[k + 1..])
  {
    var s := nodes[..k] + nodes[k + 1..];
    forall j | 0 <= j < |s| ensures s[j].next == At(s, j + 1) && s[j].prev == At(s, j - 1) {
      if j < k {
        assert s[j] == nodes[j];
      } else {
        assert s[j] == nodes[j + 1];
      }
    }
  }

  lemma {:induction false} KeepData(nodes: seq<Node>, ps: seq<int>, internal: bool)
    requires |nodes| == |ps|
    ensures forall n :: n in Keep(nodes, ps, internal) ==> n in nodes
    ensures Data(Keep(nodes, ps, internal)) == Keep(Data(nodes), ps, internal)
  {
    if nodes != [] {
      var last := |nodes| - 1;
      KeepData(nodes[..last], ps[..last], internal);
      assert Data(nodes)[..last] == Data(nodes[..last]);
      assert forall n :: n in nodes[..last] ==> n in nodes;
    }
  }

  lemma ReversedExtends<T>(s: seq<T>, x: T)
    ensures Reversed(s + [x]) == [x] + Reversed(s)
  {
  }

  lemma EmptyChain()
    ensures Chain(null, [])
  {
  }

  lemma ReversedNothing<T>(internal: bool)
    ensures Reversed<T>(Keep([], [], internal)) == []
  {
  }

  /** The first `k` metas have been dealt with: those that are not internal have lost their actor. */
  ghost predicate Cleared(metas: seq<ActorMeta>, ps: seq<int>, actor: Actor, k: nat)
    reads metas
    requires |metas| == |ps|
  {
    forall j {:trigger metas[j].actor} :: 0 <= j < |metas| ==>
      metas[j].actor == if j < k && !IsInternal(ps[j]) then null else actor
  }

  lemma ClearedMeans(metas: seq<ActorMeta>, ps: seq<int>, actor: Actor)
    requires |metas| == |ps| && Cleared(metas, ps, actor, |metas|) && ps == Priorities(metas)
    ensures forall m :: m in metas ==> m.actor == if IsInternal(m.priority) then actor else null
    ensures forall m :: m in Keep(metas, ps, true) ==> m.actor == actor
  {
    hide IsInternal;
    forall m | m in metas ensures m.actor == if IsInternal(m.priority) then actor else null {
      var j :| 0 <= j < |metas| && metas[j] == m;
      assert metas[j].actor == if IsInternal(ps[j]) then actor else null;
    }
    forall m | m in Keep(metas, ps, true) ensures m.actor == actor {
      KeepMembers(metas, ps, true, m);
      var j :| 0 <= j < |metas| && metas[j] == m && IsInternal(ps[j]);
    }
  }

  lemma DistinctFrom<T>(s: seq<T>, k: nat)
    requires Distinct(s) && k < |s|
    ensures s[k] !in s[..k]
    ensures forall j :: 0 <= j < |s| && j != k ==> s[j] != s[k]
  {
  }

  lemma {:induction false} KeepDistinct<T>(s: seq<T>, ps: seq<int>, internal: bool)
    requires |s| == |ps| && Distinct(s)
    ensures Distinct(Keep(s, ps, internal))
    ensures forall x :: x in Keep(s, ps, internal) ==> x in s
  {
    if s != [] {
      var last := |s| - 1;
      KeepDistinct(s[..last], ps[..last], internal);
      var init := Keep(s[..last], ps[..last], internal);
      forall i | 0 <= i < |init| ensures init[i] != s[last] && init[i] in s {
        assert init[i] in s[..last];
      }
    }
  }

  /** What is kept of the nodes carries what is kept of the metas. */
  lemma KeptChain(nodes: seq<Node>, metas: seq<ActorMeta>, ps: seq<int>)
    requires |nodes| == |ps| && Data(nodes) == metas && Distinct(metas)
    ensures Data(Keep(nodes, ps, true)) == Keep(metas, ps, true)
    ensures Distinct(Keep(metas, ps, true))
  {
    KeepData(nodes, ps, true);
    KeepDistinct(metas, ps, true);
  }

  /** Relinks one node at the head of another list. */
  method MoveToFront(link: Node, list: Node?, ghost moved: seq<Node>)
    requires Chain(list, moved) && link !in moved
    modifies link`next, link`prev, moved`prev
    ensures Chain(link, [link] + moved)
  {
    if list != null { list.prev := link; }
    link.next := list;
    link.prev := null;
    ghost var s := [link] + moved;
    forall j | 0 <= j < |s| ensures s[j].next == At(s, j + 1) && s[j].prev == At(s, j - 1) {
      if j > 0 { assert s[j] == moved[j - 1]; }
    }
  }

  /** What the loop has moved after `k` links: the internal ones, the latest first. */
  ghost function Moved(nodes: seq<Node>, ps: seq<int>, k: nat): seq<Node>
    requires k <= |nodes| == |ps|
  {
    Reversed(Keep(nodes[..k], ps[..k], true))
  }

  lemma NoneMoved(nodes: seq<Node>, ps: seq<int>)
    requires |nodes| == |ps|
    ensures Moved(nodes, ps, 0) == []
  {
  }

  lemma MovedNext(nodes: seq<Node>, ps: seq<int>, k: nat)
    requires k < |nodes| == |ps| && Distinct(nodes)
    ensures Moved(nodes, ps, k + 1) == (if IsInternal(ps[k]) then [nodes[k]] else []) + Moved(nodes, ps, k)
    ensures nodes[k] !in Moved(nodes, ps, k) && forall n :: n in Moved(nodes, ps, k) ==> n in nodes
    ensures forall j :: 0 <= j < |Moved(nodes, ps, k)| ==> Moved(nodes, ps, k)[j] in nodes
  {
    hide Keep;
    var kept := Keep(nodes[..k], ps[..k], true);
    KeepNext(nodes, ps, true, k);
    ReversedExtends(kept, nodes[k]);
    KeepData(nodes[..k], ps[..k], true);
    forall n | n in Reversed(kept) ensures n in nodes[..k] {
      assert n in kept;
    }
  }

  lemma AllMoved(nodes: seq<Node>, ps: seq<int>)
    requires |nodes| == |ps|
    ensures Moved(nodes, ps, |nodes|) == Reversed(Keep(nodes, ps, true))
    ensures forall n :: n in Reversed(Keep(nodes, ps, true)) ==> n in nodes
  {
    hide Keep;
    assert nodes[..|nodes|] == nodes && ps[..|nodes|] == ps;
    KeepData(nodes, ps, true);
    forall n | n in Reversed(Keep(nodes, ps, true)) ensures n in nodes {
      assert n in Keep(nodes, ps, true);
    }
  }

  lemma ReversedTwice<T>(s: seq<T>)
    ensures Reversed(Reversed(s)) == s
  {
  }

  // --- groups --------------------------------------------------------------------------------------------

  class MetaGroup {
    const actor: Actor
    var meta: Node?
    ghost var nodes: seq<Node>

    ghost predicate Valid()
      reads this, nodes, Data(nodes)
    {
      && Chain(meta, nodes)
      && Distinct(Data(nodes))
      && forall m :: m in Data(nodes) ==> m.actor == actor
    }

    ghost function Metas(): seq<ActorMeta>
      reads this, nodes
    {
      Data(nodes)
    }

    constructor (actor: Actor)
      ensures Valid() && Metas() == [] && this.actor == actor
    {
      this.actor := actor;
      meta, nodes := null, [];
    }

    /** `_clutter_meta_group_add_meta`: before the first meta of lower priority. */
    method AddMeta(m: ActorMeta)
      requires Valid()
      modifies this, nodes`next, nodes`prev, m`actor
      ensures Valid()
      ensures old(m.actor) != null ==> m.actor == old(m.actor) && nodes == old(nodes) && meta == old(meta)
      ensures old(m.actor) == null ==>
                && m.actor == actor
                && Metas() == InsertAt(old(Metas()), InsertPosition(old(Priorities(Metas())), old(m.priority)), m)
      ensures forall n :: n in nodes ==> n in old(nodes) || fresh(n)
    {
      hide Chain, Distinct, InsertPosition, InsertAt;
      if m.actor != null { return; }
      ChainLinks(meta, nodes);
      ghost var before := Metas();
      var prev, l := null, meta;
      ghost var k := 0;
      while l != null && !(l.data.priority < m.priority)
        invariant k <= |nodes| && l == At(nodes, k) && prev == At(nodes, k - 1)
        invariant forall j :: 0 <= j < k ==> Data(nodes)[j].priority >= m.priority
        decreases |nodes| - k
      {
        assert l == nodes[k];
        prev := l;
        l := l.next;
        k := k + 1;
      }
      PositionReached(Priorities(Metas()), m.priority, k);
      SpliceIn(prev, l, m, k);
      m.actor := actor;
      InsertKeeps(before, k, m);
    }

    /** `g_list_prepend` at the place found, and the link from the node before it. */
    method SpliceIn(prev: Node?, rest: Node?, m: ActorMeta, ghost k: nat)
      requires Chain(meta, nodes) && k <= |nodes| && rest == At(nodes, k) && prev == At(nodes, k - 1)
      modifies this, nodes`next, nodes`prev
      ensures Chain(meta, nodes)
      ensures Metas() == InsertAt(old(Metas()), k, m)
      ensures forall n :: n in nodes ==> n in old(nodes) || fresh(n)
    {
      hide InsertAt, Chain, SplicedLinks, Distinct;
      ChainLinks(meta, nodes);
      var n := LinkIn(prev, rest, m, k);
      assert Data(nodes) == old(Data(nodes));
      SplicedChain(nodes, n, k);
      DataInsert(nodes, k, n);
      InsertKeeps(nodes, k, n);
      nodes := InsertAt(nodes, k, n);
    }

    method LinkIn(prev: Node?, rest: Node?, m: ActorMeta, ghost k: nat) returns (n: Node)
      requires Chain(meta, nodes) && k <= |nodes| && rest == At(nodes, k) && prev == At(nodes, k - 1)
      modifies this`meta, nodes`next, nodes`prev
      ensures fresh(n) && n.data == m && SplicedLinks(nodes, n, k)
      ensures meta == if k == 0 then n else nodes[0]
    {
      assert rest != null ==> rest.prev == prev;
      n := new Node(m, rest, null);
      if rest != null {
        n.prev := rest.prev;
        if rest.prev != null { rest.prev.next := n; }
        rest.prev := n;
      }
      if prev == null {
        meta := n;
      } else {
        prev.next := n;
        n.prev := prev;
      }
    }

    /** `_clutter_meta_group_remove_meta`. */
    method RemoveMeta(m: ActorMeta)
      requires Valid()
      modifies this, nodes`next, nodes`prev, m`actor
      ensures Valid()
      ensures old(m.actor) != actor ==> m.actor == old(m.actor) && nodes == old(nodes) && meta == old(meta)
      ensures old(m.actor) == actor ==> m.actor == null && Metas() == RemoveFirst(old(Metas()), m)
      ensures forall n :: n in nodes ==> n in old(nodes)
    {
      hide Chain, Distinct, RemoveFirst;
      if m.actor != actor { return; }
      ghost var before := Metas();
      ChainLinks(meta, nodes);
      m.actor := null;
      var l := meta;
      ghost var k := 0;
      while l != null && l.data != m
        invariant k <= |nodes| && l == At(nodes, k)
        invariant m !in before[..k]
        decreases |nodes| - k
      {
        assert l == nodes[k] && before[k] == l.data;
        assert before[..k + 1] == before[..k] + [before[k]];
        l := l.next;
        k := k + 1;
      }
      if l == null {
        assert before[..k] == before;
        RemoveAbsent(before, m);
      } else {
        assert before[k] == m;
        RemoveFirstAt(before, k);
        Unlink(l, k);
        RemoveKeeps(before, k);
        forall x | x in Data(nodes) ensures x.actor == actor {
          assert x in before && x != m;
        }
      }
    }

    /** `g_list_remove`, once the link is found. */
    method Unlink(link: Node, ghost k: nat)
      requires Chain(meta, nodes) && k < |nodes| && link == nodes[k]
      modifies this, nodes`next, nodes`prev
      ensures Chain(meta, nodes)
      ensures Metas() == old(Metas())[..k] + old(Metas())[k + 1..]
      ensures forall n :: n in nodes ==> n in old(nodes)
    {
      hide Chain, UnlinkedLinks, Distinct;
      ChainLinks(meta, nodes);
      PassOver(link, k);
      assert Data(nodes) == old(Data(nodes));
      UnlinkedChain(nodes, k);
      DataRemove(nodes, k);
      nodes := nodes[..k] + nodes[k + 1..];
    }

    method PassOver(link: Node, ghost k: nat)
      requires Chain(meta, nodes) && k < |nodes| && link == nodes[k]
      modifies this`meta, nodes`next, nodes`prev
      ensures UnlinkedLinks(nodes, k) && meta == if k == 0 then At(nodes, 1) else nodes[0]
    {
      assert forall j :: 0 <= j < |nodes| && j != k ==> nodes[j] != link;
      hide Distinct;
      if link.prev != null { link.prev.next := link.next; }
      if link.next != null { link.next.prev := link.prev; }
      if link == meta { meta := link.next; }
      link.next, link.prev := null, null;
    }

    /** `_clutter_meta_group_clear_metas`. */
    method ClearMetas()
      requires Valid()
      modifies this, Metas()`actor
      ensures Valid() && Metas() == [] && nodes == []
      ensures forall m :: m in old(Metas()) ==> m.actor == null
    {
      ghost var all := Metas();
      var l := meta;
      ghost var k := 0;
      while l != null
        invariant nodes == old(nodes) && k <= |nodes| && l == At(nodes, k)
        invariant forall j :: 0 <= j < k ==> all[j].actor == null
        decreases |nodes| - k
      {
        assert l == nodes[k] && all[k] == l.data;
        l.data.actor := null;
        l := l.next;
        k := k + 1;
      }
      meta, nodes := null, [];
    }

    /** `_clutter_meta_group_clear_metas_no_internal`: moves the internal links to the front of a second
        list, one by one, and turns that list around at the end. */
    method ClearMetasNoInternal()
      requires Valid()
      modifies this, nodes`next, nodes`prev, Metas()`actor
      ensures Valid()
      ensures Metas() == Keep(old(Metas()), old(Priorities(Metas())), true)
      ensures forall m :: m in old(Metas()) ==> m.actor == if IsInternal(m.priority) then actor else null
      ensures forall n :: n in nodes ==> n in old(nodes)
    {
      hide Chain, Distinct, Keep, Reversed, Valid, Cleared, IsInternal;
      ValidMeans();
      ghost var all, metas, ps := nodes, Metas(), Priorities(Metas());
      var internalList, moved := SplitInternals();
      ClearedMeans(metas, ps, actor);
      assert forall j :: 0 <= j < |moved| ==> moved[j] in nodes;
      var list := ReverseList(internalList, moved);
      ghost var kept := Keep(all, ps, true);
      ReversedTwice(kept);
      KeptChain(all, metas, ps);
      SetList(list, kept);
    }

    lemma ValidMeans()
      requires Valid()
      ensures Chain(meta, nodes) && Distinct(Metas()) && forall m :: m in Metas() ==> m.actor == actor
    {
    }

    method SetList(list: Node?, ghost kept: seq<Node>)
      requires Chain(list, kept) && Distinct(Data(kept)) && forall m :: m in Data(kept) ==> m.actor == actor
      modifies this
      ensures Valid() && nodes == kept && Metas() == old(Data(kept))
    {
      hide Distinct;
      meta, nodes := list, kept;
    }

    /** The loop: internal links move to a second list in reverse, the other metas are detached. */
    method SplitInternals() returns (internalList: Node?, ghost moved: seq<Node>)
      requires Valid()
      modifies nodes`next, nodes`prev, Metas()`actor
      ensures Chain(internalList, moved) && moved == Reversed(Keep(nodes, old(Priorities(Metas())), true))
      ensures forall n :: n in moved ==> n in nodes
      ensures Cleared(old(Metas()), old(Priorities(Metas())), actor, |nodes|)
      ensures Metas() == old(Metas())
    {
      hide Chain, Distinct, Moved;
      ghost var metas, ps := Metas(), Priorities(Metas());
      moved := [];
      ChainLinks(meta, nodes);
      EmptyChain();
      NoneMoved(nodes, ps);
      internalList := null;
      var l := meta;
      ghost var k := 0;
      while l != null
        invariant k <= |nodes| && l == At(nodes, k) && Forward(nodes, k)
        invariant Chain(internalList, moved) && moved == Moved(nodes, ps, k)
        invariant Cleared(metas, ps, actor, k)
        decreases |nodes| - k
      {
        var next := l.next;
        MovedNext(nodes, ps, k);
        DistinctFrom(nodes, k);
        DistinctFrom(metas, k);
        assert l.data == metas[k] && l.data.priority == ps[k];
        if IsInternal(l.data.priority) {
          MoveToFront(l, internalList, moved);
          internalList := l;
          moved := [l] + moved;
        } else {
          l.data.actor := null;
        }
        l := next;
        k := k + 1;
      }
      AllMoved(nodes, ps);
    }

    /** `_clutter_meta_group_get_metas_no_internal`: prepends, then reverses. */
    method GetMetasNoInternal() returns (ret: seq<ActorMeta>)
      requires Valid()
      ensures ret == Keep(Metas(), Priorities(Metas()), false)
    {
      hide Chain, Distinct, Keep, Reversed;
      ChainLinks(meta, nodes);
      ret := [];
      ReversedNothing<ActorMeta>(false);
      var l := meta;
      ghost var k := 0;
      ghost var all, ps := Metas(), Priorities(Metas());
      while l != null
        invariant k <= |nodes| && l == At(nodes, k)
        invariant ret == Reversed(Keep(all[..k], ps[..k], false))
        decreases |nodes| - k
      {
        assert l == nodes[k] && all[k] == l.data && ps[k] == l.data.priority;
        KeepNext(all, ps, false, k);
        ReversedExtends(Keep(all[..k], ps[..k], false), all[k]);
        if !IsInternal(l.data.priority) { ret := [l.data] + ret; }
        l := l.next;
        k := k + 1;
      }
      assert all[..k] == all && ps[..k] == ps;
      ReversedTwice(Keep(all, ps, false));
      ret := Reversed(ret);
    }
  }

  lemma KeepNext<T>(s: seq<T>, ps: seq<int>, internal: bool, k: nat)
    requires |s| == |ps| && k < |s|
    ensures Keep(s[..k + 1], ps[..k + 1], internal) ==
            Keep(s[..k], ps[..k], internal) + if IsInternal(ps[k]) == internal then [s[k]] else []
  {
    assert s[..k + 1][..k] == s[..k] && ps[..k + 1][..k] == ps[..k];
  }

  lemma RemoveKeeps<T>(s: seq<T>, k: nat)
    requires Distinct(s) && k < |s|
    ensures Distinct(s[..k] + s[k + 1..])
    ensures forall y :: y in s[..k] + s[k + 1..] ==> y in s && y != s[k]
  {
  }

  lemma DataRemove(nodes: seq<Node>, k: nat)
    requires k < |nodes|
    ensures Data(nodes[..k] + nodes[k + 1..]) == Data(nodes)[..k] + Data(nodes)[k + 1..]
  {
  }

  lemma ChainLinks(head: Node?, nodes: seq<Node>)
    requires Chain(head, nodes)
    ensures head == At(nodes, 0) && Forward(nodes, 0) && Distinct(nodes)
  {
  }

  lemma InsertKeeps<T>(s: seq<T>, k: nat, x: T)
    requires Distinct(s) && x !in s && k <= |s|
    ensures Distinct(InsertAt(s, k, x))
    ensures forall y :: y in InsertAt(s, k, x) <==> y in s || y == x
  {
    assert s == s[..k] + s[k..];
  }

  lemma DataInsert(nodes: seq<Node>, k: nat, n: Node)
    requires k <= |nodes|
    ensures Data(InsertAt(nodes, k, n)) == InsertAt(Data(nodes), k, n.data)
  {
  }

  lemma PositionReached(ps: seq<int>, p: int, k: nat)
    requires k <= |ps|
    requires forall j :: 0 <= j < k ==> ps[j] >= p
    requires k < |ps| ==> ps[k] < p
    ensures InsertPosition(ps, p) == k
  {
    var q := InsertPosition(ps, p);
  }
}
