/** Attachment decisions by what they are, without the order in which a loop takes them. */
module MoveDecisions {
  import opened Tags
  import opened Forests
  import opened RgaOrder
  import opened Cycles
  import opened RgaSplices
  import opened MoveOrders
  import opened MoveProjections

  /** The parents of everything decided before id. */
  ghost function Earlier(places: Placements, par: map<Tag, Tag>, id: Tag): map<Tag, Tag> {
    map x | x in par && Ahead(places, false, x, id) :: par[x]
  }

  /** Every parent is the one chosen in view of the parents decided before it. */
  ghost predicate Decided(places: Placements, par: map<Tag, Tag>) {
    par.Keys == places.Keys && forall id :: id in places ==> par[id] == Chosen(places, Earlier(places, par, id), id)
  }

  /** Deciding a prefix leaves the earlier decisions alone. */
  lemma {:induction false} DecidePrefix(places: Placements, ids: seq<Tag>, n: nat)
    requires (forall id :: id in ids ==> id in places) && NoDup(ids) && n <= |ids|
    ensures forall id :: id in ids[..n] ==> id in places
    ensures Decide(places, ids).Keys == Elems(ids) && Decide(places, ids[..n]).Keys == Elems(ids[..n])
    ensures forall id :: id in ids[..n] ==> Decide(places, ids)[id] == Decide(places, ids[..n])[id]
    decreases |ids|
  {
    hide Chosen, NoDup;
    if n == |ids| {
      assert ids[..n] == ids;
    }
    if ids != [] {
      var m := |ids| - 1;
      assert ids == ids[..m] + [ids[m]];
      NoDupSplit(ids[..m], [ids[m]]);
      assert ids[m] in [ids[m]];
      DecidePrefix(places, ids[..m], if n <= m then n else m);
      if n <= m {
        assert ids[..m][..n] == ids[..n];
      }
    }
  }

  lemma {:induction false} SortedPrefix(less: (Tag, Tag) -> bool, ids: seq<Tag>, n: nat, x: Tag)
    requires StrictTotalOrder(less) && Sorted(less, ids) && n < |ids|
    ensures x in ids[..n] <==> x in ids && less(x, ids[n])
  {
    if x in ids {
      var k :| 0 <= k < |ids| && ids[k] == x;
      if k < n {
        assert ids[..n][k] == x;
      } else {
        assert k == n || less(ids[n], ids[k]);
      }
    }
  }

  /** The decision at one place of the decision order. */
  lemma {:induction false} DecidedAt(places: Placements, ids: seq<Tag>, n: nat)
    requires StrictTotalOrder(DecisionOrder(places)) && Sorted(DecisionOrder(places), ids) && NoDup(ids) && n < |ids|
    requires forall id :: id in ids <==> id in places
    ensures Decide(places, ids).Keys == places.Keys
    ensures Decide(places, ids)[ids[n]] == Chosen(places, Earlier(places, Decide(places, ids), ids[n]), ids[n])
  {
    hide Ahead, NoDup, Chosen, Sorted, StrictTotalOrder;
    var id, par := ids[n], Decide(places, ids);
    DecidePrefix(places, ids, n);
    DecidePrefix(places, ids, n + 1);
    assert ids[..n + 1][..n] == ids[..n] && ids[..n + 1][n] == id;
    assert id in ids[..n + 1] && Elems(ids) == places.Keys;
    forall x ensures x in ids[..n] <==> x in places && Ahead(places, false, x, id) {
      SortedPrefix(DecisionOrder(places), ids, n, x);
    }
    assert Earlier(places, par, id) == Decide(places, ids[..n]);
  }

  /** The decisions of the projection satisfy the description. */
  lemma {:induction false} DecidedHolds(places: Placements)
    ensures Decided(places, ParentsOf(places))
  {
    hide Ahead, NoDup, Chosen, Sorted, Decide, StrictTotalOrder, Earlier;
    InDecisionOrder(places);
    var ids := SortSet(DecisionOrder(places), places.Keys);
    SortSetSorts(DecisionOrder(places), places.Keys);
    DecidePrefix(places, ids, |ids|);
    assert Elems(ids) == places.Keys;
    forall id | id in places
      ensures ParentsOf(places)[id] == Chosen(places, Earlier(places, ParentsOf(places), id), id) {
      var n :| 0 <= n < |ids| && ids[n] == id;
      DecidedAt(places, ids, n);
    }
  }

  lemma {:induction false} SomeDifference(a: map<Tag, Tag>, b: map<Tag, Tag>)
    requires a.Keys == b.Keys && a != b
    ensures exists x :: x in a && a[x] != b[x]
  {
  }

  /** Two different decisions differ first somewhere. */
  lemma {:induction false} FirstDifference(places: Placements, a: map<Tag, Tag>, b: map<Tag, Tag>) returns (x: Tag)
    requires a.Keys == places.Keys == b.Keys && a != b
    ensures x in places && a[x] != b[x] && Earlier(places, a, x) == Earlier(places, b, x)
  {
    hide Ahead;
    OrdersAreStrict(places);
    var wrong := set id | id in places && a[id] != b[id];
    SomeDifference(a, b);
    var d :| d in a && a[d] != b[d];
    assert d in wrong;
    LeastExists(DecisionOrder(places), wrong);
    x :| IsLeast(DecisionOrder(places), wrong, x);
    forall y | y in places && Ahead(places, false, y, x) ensures a[y] == b[y] {
      AheadTotal(places, false, x, x);
      if y in wrong {
        assert y == x || DecisionOrder(places)(x, y);
        AheadTransitive(places, false, x, y, x);
      }
    }
  }

  /** The description determines the decisions. */
  lemma {:induction false} DecidedUnique(places: Placements, par: map<Tag, Tag>)
    requires Decided(places, par)
    ensures par == ParentsOf(places)
  {
    hide Ahead, Chosen, ParentsOf;
    DecidedHolds(places);
    if par != ParentsOf(places) {
      var x := FirstDifference(places, par, ParentsOf(places));
    }
  }

  // ----- the visible list as a walk from the root -----

  /** For every state the visible list is the live part of the walk from the root. */
  lemma {:induction false} VisibleIsLive(s: MoveState)
    requires ZERO !in s.nodes
    ensures var places := Placed(s); var par := ParentsOf(places);
      && Rooted(par) && par.Keys == s.nodes.Keys && Grown(places, par).WF()
      && VisibleMoves(s) == Live(Grown(places, par), ZERO, s.tombstones + {ZERO})
  {
    hide KidsBy, Acyclic, Walk, ParentsOf;
    var places := Placed(s);
    var par := ParentsOf(places);
    ParentsAreForest(places);
    GrownWF(places, par);
    var f := Grown(places, par);
    WalkUnfold(f, ZERO);
    RootHidden(f, Walk(f, f.Kids(ZERO)), s.tombstones, par);
  }

  lemma {:induction false} RootHidden(f: Forest, walk: seq<Tag>, tombstones: set<Tag>, par: map<Tag, Tag>)
    requires f.WF() && f.par == par && ZERO !in par && walk == Walk(f, f.Kids(ZERO))
    ensures Without([ZERO] + walk, tombstones + {ZERO}) == Without(walk, tombstones)
  {
    hide Walk;
    WithoutConcat([ZERO], walk, tombstones + {ZERO});
    WithoutAll([ZERO], tombstones + {ZERO});
    WithoutTwice(walk, tombstones, {ZERO});
    WalkNoDup(f, ZERO);
    WalkUnfold(f, ZERO);
    NoDupSplit([ZERO], walk);
    WalkNoDupTail(walk, tombstones);
    WithoutNone(Without(walk, tombstones), {ZERO});
    assert [] + Without(walk, tombstones) == Without(walk, tombstones);
  }

  lemma {:induction false} WalkNoDupTail(walk: seq<Tag>, dead: set<Tag>)
    requires NoDup(walk) && forall m :: m in [ZERO] ==> m !in walk
    ensures forall x :: x in Without(walk, dead) ==> x !in {ZERO}
  {
    WithoutNoDup(walk, dead);
    assert ZERO in [ZERO];
  }

  // ----- what a new or rewritten chain does to the decisions -----

  /** A known anchor: the decision is only about cycles. */
  ghost predicate HasAnchor(places: Placements, id: Tag)
    requires id in places
  {
    var anchor := places[id].anchor;
    anchor.Valid() && anchor != id && anchor in places
  }

  /** Where the parents say so, the choice falls on the anchor. */
  lemma {:induction false} ChosenAnchor(places: Placements, par: map<Tag, Tag>, id: Tag)
    requires id in places && id in par && Acyclic(par) && par[id] == places[id].anchor && HasAnchor(places, id)
    ensures Chosen(places, Earlier(places, par, id), id) == par[id]
  {
    hide Acyclic, Ahead, Tag.Valid;
    AcyclicPart(par, Earlier(places, par, id)[id := places[id].anchor]);
  }

  // ----- when an anchor is not taken -----

  /** A chain of parents, all decided before id, from the anchor of id to id. */
  ghost predicate Blocks(places: Placements, par: map<Tag, Tag>, id: Tag, trail: seq<Tag>)
    requires id in places
  {
    && trail != [] && trail[0] == places[id].anchor && trail[|trail| - 1] == id
    && forall k :: 0 <= k < |trail| - 1 ==>
      trail[k] in par && Ahead(places, false, trail[k], id) && par[trail[k]] == trail[k + 1]
  }

  lemma {:induction false} BlocksCycle(places: Placements, par: map<Tag, Tag>, id: Tag, trail: seq<Tag>)
    requires id in places && Blocks(places, par, id, trail)
    ensures !Acyclic(Earlier(places, par, id)[id := places[id].anchor])
  {
    hide Acyclic, Ahead;
    AheadTotal(places, false, id, id);
    var next := Earlier(places, par, id)[id := places[id].anchor];
    forall k | 0 <= k < |trail| - 1 ensures trail[k] in next && next[trail[k]] == trail[k + 1] {
      assert trail[k] != id;
    }
    assert Path(next, trail);
    ClosesHere(next, id, trail);
  }

  /** Rotates a cycle so that it starts after a given member, up to its next occurrence. */
  lemma {:induction false} CycleFrom(next: map<Tag, Tag>, c: seq<Tag>, id: Tag) returns (trail: seq<Tag>)
    requires Cycle(next, c) && id in c
    ensures id in next && Path(next, trail) && trail[0] == next[id] && trail[|trail| - 1] == id
  {
    var i :| 0 <= i < |c| && c[i] == id;
    if i == |c| - 1 {
      trail := c[1..];
    } else {
      trail := c[i + 1..] + c[1..i + 1];
    }
  }

  /** The part of a trail up to the first id. */
  lemma {:induction false} FirstReach(next: map<Tag, Tag>, trail: seq<Tag>, id: Tag) returns (p: seq<Tag>)
    requires Path(next, trail) && trail[|trail| - 1] == id
    ensures Path(next, p) && p[0] == trail[0] && p[|p| - 1] == id && id !in p[..|p| - 1]
    decreases |trail|
  {
    if id in trail[..|trail| - 1] {
      var i :| 0 <= i < |trail| - 1 && trail[i] == id;
      p := FirstReach(next, trail[..i + 1], id);
    } else {
      p := trail;
    }
  }

  lemma {:induction false} CycleBlocks(places: Placements, par: map<Tag, Tag>, id: Tag) returns (trail: seq<Tag>)
    requires id in places && Acyclic(Earlier(places, par, id))
    requires !Acyclic(Earlier(places, par, id)[id := places[id].anchor])
    ensures Blocks(places, par, id, trail)
  {
    hide Acyclic, Ahead;
    var earlier := Earlier(places, par, id);
    var next := earlier[id := places[id].anchor];
    AcyclicIffNoCycle(next);
    var c :| Cycle(next, c);
    if id !in c {
      assert Cycle(earlier, c);
      CycleIsTrap(earlier, c);
    }
    var whole := CycleFrom(next, c, id);
    trail := FirstReach(next, whole, id);
    forall k | 0 <= k < |trail| - 1
      ensures trail[k] in par && Ahead(places, false, trail[k], id) && par[trail[k]] == trail[k + 1] {
      assert trail[..|trail| - 1][k] != id;
    }
  }

  /**
    An element hangs under its anchor, unless the anchor is not a known element or is already below it by decisions
    of newer placements; then it hangs under the root.
   */
  lemma {:induction false} AttachedUnlessBlocked(places: Placements, id: Tag)
    requires id in places && ZERO !in places
    ensures id in ParentsOf(places)
    ensures ParentsOf(places)[id] == places[id].anchor != ZERO <==>
      HasAnchor(places, id) && !exists trail :: Blocks(places, ParentsOf(places), id, trail)
    ensures ParentsOf(places)[id] == places[id].anchor || ParentsOf(places)[id] == ZERO
  {
    hide Ahead, Acyclic, ParentsOf, Blocks, Earlier;
    var par := ParentsOf(places);
    DecidedHolds(places);
    ParentsAreForest(places);
    EarlierAcyclic(places, par, id);
    if HasAnchor(places, id) {
      if trail :| Blocks(places, par, id, trail) {
        BlocksCycle(places, par, id, trail);
      } else if !Acyclic(Earlier(places, par, id)[id := places[id].anchor]) {
        var trail := CycleBlocks(places, par, id);
      }
    }
  }

  lemma {:induction false} EarlierAcyclic(places: Placements, par: map<Tag, Tag>, id: Tag)
    requires Acyclic(par)
    ensures Acyclic(Earlier(places, par, id))
  {
    hide Ahead, Acyclic;
    AcyclicPart(par, Earlier(places, par, id));
  }
}
