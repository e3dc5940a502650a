/** The projection of a move-capable list: cycle-breaking attachment decisions and the visible walk. */
module MoveProjections {
  import opened Tags
  import opened Forests
  import opened RgaOrder
  import opened RgaStates
  import opened Cycles
  import opened MoveOrders
  import opened MoveSplices

  datatype MoveRecord = MoveRecord(tag: Tag, anchor: Tag, rank: nat)

  datatype MoveState = MoveState(nodes: Nodes, tombstones: set<Tag>, moves: map<Tag, MoveRecord>)

  predicate ValidRecord(id: Tag, r: MoveRecord) {
    id.Valid() && r.tag.Valid() && id != r.anchor && (r.anchor == ZERO || r.anchor.Valid())
  }

  predicate ValidState(s: MoveState) {
    && ValidNodes(s.nodes) && (forall id :: id in s.tombstones ==> id.Valid())
    && (forall id :: id in s.moves ==> ValidRecord(id, s.moves[id]))
  }

  /** The placement register of each element: its insertion, unless a newer move overrides it. */
  function PlacementOf(s: MoveState, id: Tag): Placement
    requires id in s.nodes
  {
    if id in s.moves && Less(id, s.moves[id].tag) then Placement(s.moves[id].anchor, s.moves[id].tag, s.moves[id].rank)
    else Placement(s.nodes[id].parent, id, 0)
  }

  ghost function Placed(s: MoveState): (places: Placements)
    ensures places.Keys == s.nodes.Keys
  {
    map id | id in s.nodes :: PlacementOf(s, id)
  }

  // ----- attachment decisions -----

  /** The parent of id once the attachments in parents are decided. */
  ghost function Chosen(places: Placements, parents: map<Tag, Tag>, id: Tag): Tag
    requires id in places
  {
    var anchor := places[id].anchor;
    if !anchor.Valid() || anchor == id || anchor !in places || !Acyclic(parents[id := anchor]) then ZERO else anchor
  }

  ghost function Decide(places: Placements, ids: seq<Tag>): map<Tag, Tag>
    requires forall id :: id in ids ==> id in places
  {
    if ids == [] then map[]
    else
      var n := |ids| - 1;
      assert ids[n] in ids;
      var parents := Decide(places, ids[..n]);
      parents[ids[n] := Chosen(places, parents, ids[n])]
  }

  lemma {:induction false} InDecisionOrder(places: Placements)
    ensures StrictTotalOrder(DecisionOrder(places))
    ensures forall id :: id in SortSet(DecisionOrder(places), places.Keys) <==> id in places
    ensures NoDup(SortSet(DecisionOrder(places), places.Keys))
  {
    OrdersAreStrict(places);
    SortSetSorts(DecisionOrder(places), places.Keys);
    SortedDistinct(DecisionOrder(places), SortSet(DecisionOrder(places), places.Keys));
    DistinctNoDup(SortSet(DecisionOrder(places), places.Keys));
  }

  /** All decisions, newest placement first. */
  ghost function ParentsOf(places: Placements): map<Tag, Tag> {
    InDecisionOrder(places);
    Decide(places, SortSet(DecisionOrder(places), places.Keys))
  }

  /** Whatever the anchors say, each decision keeps the attachments a forest. */
  lemma {:induction false} DecideForest(places: Placements, ids: seq<Tag>)
    requires (forall id :: id in ids ==> id in places) && ZERO !in places && NoDup(ids)
    ensures Decide(places, ids).Keys == Elems(ids) && Acyclic(Decide(places, ids))
    ensures forall id :: id in ids ==> Decide(places, ids)[id] == ZERO || Decide(places, ids)[id] in places
    decreases |ids|
  {
    hide Acyclic, NoDup, Tag.Valid;
    if ids == [] {
      EmptyAcyclic();
    } else {
      var n := |ids| - 1;
      var id, before := ids[n], Decide(places, ids[..n]);
      assert ids == ids[..n] + [id];
      NoDupSplit(ids[..n], [id]);
      assert id in [id] && id in ids;
      DecideForest(places, ids[..n]);
      AcyclicToRoot(before, id);
    }
  }

  lemma {:induction false} AcyclicToRoot(par: map<Tag, Tag>, id: Tag)
    requires Acyclic(par) && ZERO !in par && id !in par && id != ZERO
    ensures Acyclic(par[id := ZERO])
  {
    var after := par[id := ZERO];
    forall S: set<Tag> ensures !Trap(after, S) {
      if Trap(after, S) {
        assert ZERO !in S;
        assert id !in S;
        TrapPart(par, after, S);
      }
    }
  }

  /** For every state, with cyclic moves and missing anchors too, the chosen parents form a forest under the root. */
  lemma {:induction false} ParentsAreForest(places: Placements)
    requires ZERO !in places
    ensures ParentsOf(places).Keys == places.Keys && Rooted(ParentsOf(places))
  {
    InDecisionOrder(places);
    var ids := SortSet(DecisionOrder(places), places.Keys);
    DecideForest(places, ids);
    assert Elems(ids) == places.Keys;
  }

  /** The visible list of a state. */
  ghost function VisibleMoves(s: MoveState): seq<Tag>
    requires ZERO !in s.nodes
  {
    var places := Placed(s);
    ParentsAreForest(places);
    GrownWF(places, ParentsOf(places));
    Without(Walk(Grown(places, ParentsOf(places)), KidsBy(places, ParentsOf(places), ZERO)), s.tombstones)
  }

  /** Every element that is not deleted appears exactly once. */
  lemma {:induction false} EveryLiveNodeOnce(s: MoveState)
    requires ZERO !in s.nodes
    ensures NoDup(VisibleMoves(s)) && forall x :: x in VisibleMoves(s) <==> x in s.nodes && x !in s.tombstones
  {
    var places := Placed(s);
    var par := ParentsOf(places);
    ParentsAreForest(places);
    GrownWF(places, par);
    WalkRooted(places, par);
    WithoutNoDup(Walk(Grown(places, par), KidsBy(places, par, ZERO)), s.tombstones);
  }

  lemma {:induction false} WalkRooted(places: Placements, par: map<Tag, Tag>)
    requires Rooted(par) && Grown(places, par).WF()
    ensures NoDup(Walk(Grown(places, par), KidsBy(places, par, ZERO)))
    ensures forall x :: x in Walk(Grown(places, par), KidsBy(places, par, ZERO)) <==> x in par
  {
    hide KidsBy, NoDup;
    var f := Grown(places, par);
    WalkNoDup(f, ZERO);
    WalkUnfold(f, ZERO);
    NoDupSplit([ZERO], Walk(f, f.Kids(ZERO)));
    forall x ensures x in Walk(f, f.Kids(ZERO)) <==> x in par {
      WalkIn(f, [ZERO], x);
      assert ZERO in [ZERO];
      if x in par {
        AllReached(f, ZERO, x);
      }
      if Enter(x) in Tour(f, ZERO) {
        OnlyNodes(f, ZERO, x);
      }
    }
  }

  // ----- the projection, step by step -----

  /** Follows decided parents from anchor; true exactly when attaching id there would close a cycle. */
  method MoveWouldCycle(id: Tag, anchor: Tag, parents: map<Tag, Tag>) returns (cycle: bool)
    requires Acyclic(parents) && id !in parents && forall x :: x in parents ==> x.Valid()
    requires id.Valid()
    ensures cycle <==> !Acyclic(parents[id := anchor])
  {
    hide Blank;
    ghost var par, trail := parents[id := anchor], [anchor];
    var current := anchor;
    while current.Valid()
      invariant Path(par, trail) && trail[0] == anchor && trail[|trail| - 1] == current
      decreases |parents| - Height(parents, current)
    {
      if current == id {
        ClosesHere(par, id, trail);
        return true;
      }
      if current !in parents {
        break;
      }
      trail := trail + [parents[current]];
      current := parents[current];
    }
    FreePath(par, trail);
    assert anchor in trail;
    FreeUp(par, id);
    StillAcyclic(parents, id, anchor);
    return false;
  }

  lemma {:induction false} ClosesHere(par: map<Tag, Tag>, id: Tag, trail: seq<Tag>)
    requires Path(par, trail) && id in par && par[id] == trail[0] && trail[|trail| - 1] == id
    ensures !Acyclic(par)
  {
    CycleIsTrap(par, [id] + trail);
  }

  lemma {:induction false} StillAcyclic(parents: map<Tag, Tag>, id: Tag, anchor: Tag)
    requires Acyclic(parents) && Free(parents[id := anchor], id)
    ensures Acyclic(parents[id := anchor])
  {
    var par := parents[id := anchor];
    forall S: set<Tag> ensures !Trap(par, S) {
      if Trap(par, S) {
        assert id !in S;
        TrapPart(parents, par, S);
      }
    }
  }

  method Place(s: MoveState) returns (places: Placements)
    ensures places == Placed(s)
  {
    places := map id | id in s.nodes :: Placement(s.nodes[id].parent, id, 0);
    var rest := s.moves.Keys;
    while rest != {}
      invariant rest <= s.moves.Keys && places.Keys == s.nodes.Keys
      invariant forall id :: id in places ==>
        places[id] == if id in rest then Placement(s.nodes[id].parent, id, 0) else PlacementOf(s, id)
    {
      var id :| id in rest;
      rest := rest - {id};
      if id in places && Less(places[id].tag, s.moves[id].tag) {
        places := places[id := Placement(s.moves[id].anchor, s.moves[id].tag, s.moves[id].rank)];
      }
    }
  }

  method DecideAll(places: Placements, ids: seq<Tag>) returns (parents: map<Tag, Tag>)
    requires (forall id :: id in ids ==> id in places) && NoDup(ids) && forall id :: id in places ==> id.Valid()
    ensures parents == Decide(places, ids)
  {
    hide Acyclic, Tag.Valid;
    ZeroInvalid();
    parents := map[];
    var i := 0;
    while i < |ids|
      invariant 0 <= i <= |ids| && parents == Decide(places, ids[..i])
    {
      var id := ids[i];
      assert id in ids;
      NextDecision(places, ids, i);
      var anchor := places[id].anchor;
      if !anchor.Valid() || anchor == id || anchor !in places {
        parents := parents[id := ZERO];
      } else {
        var cycle := MoveWouldCycle(id, anchor, parents);
        parents := parents[id := if cycle then ZERO else anchor];
      }
      i := i + 1;
    }
    assert ids[..i] == ids;
  }

  lemma {:induction false} NextDecision(places: Placements, ids: seq<Tag>, i: int)
    requires 0 <= i < |ids| && (forall id :: id in ids ==> id in places) && NoDup(ids) && ZERO !in places
    ensures var before := Decide(places, ids[..i]);
      && Acyclic(before) && ids[i] !in before && (forall x :: x in before ==> x in places)
      && Decide(places, ids[..i + 1]) == before[ids[i] := Chosen(places, before, ids[i])]
  {
    DecideForest(places, ids[..i]);
    assert ids[..i + 1][..i] == ids[..i];
  }

  /** Group by parent, each group in sibling order. */
  method GroupSiblings(places: Placements, parents: map<Tag, Tag>) returns (children: map<Tag, seq<Tag>>)
    ensures children.Keys == parents.Values
    ensures forall p :: p in children ==> children[p] == KidsBy(places, parents, p)
  {
    hide StrictTotalOrder, SortSet;
    OrdersAreStrict(places);
    children := map[];
    var rest := parents.Values;
    while rest != {}
      invariant rest <= parents.Values && children.Keys == parents.Values - rest
      invariant forall p :: p in children ==> children[p] == KidsBy(places, parents, p)
    {
      var p :| p in rest;
      rest := rest - {p};
      var group := set id | id in parents && parents[id] == p;
      assert group == ChildSet(parents, p);
      var sorted := SortKeys(SiblingOrder(places), group);
      children := children[p := sorted];
    }
  }

  /** The stack read from its top. */
  ghost function Rev(s: seq<Tag>): seq<Tag> {
    if s == [] then [] else [s[|s| - 1]] + Rev(s[..|s| - 1])
  }

  method PushReversed(stack: seq<Tag>, kids: seq<Tag>) returns (out: seq<Tag>)
    ensures Rev(out) == kids + Rev(stack)
  {
    out := stack;
    var index := |kids|;
    assert kids[index..] + Rev(stack) == Rev(stack);
    while index > 0
      invariant 0 <= index <= |kids| && Rev(out) == kids[index..] + Rev(stack)
    {
      index := index - 1;
      assert (out + [kids[index]])[..|out|] == out;
      assert kids[index..] == [kids[index]] + kids[index + 1..];
      out := out + [kids[index]];
    }
    assert kids[0..] == kids;
  }

  /** The explicit-stack walk visits exactly the depth-first walk. */
  method StackWalk(places: Placements, parents: map<Tag, Tag>, children: map<Tag, seq<Tag>>, tombstones: set<Tag>)
    returns (result: seq<Tag>)
    requires Acyclic(parents) && Grown(places, parents).WF()
    requires children.Keys == parents.Values && forall p :: p in children ==> children[p] == KidsBy(places, parents, p)
    ensures result == Without(Walk(Grown(places, parents), KidsBy(places, parents, ZERO)), tombstones)
  {
    hide KidsBy, Walk, Without, Acyclic;
    ghost var f := Grown(places, parents);
    result := [];
    var kids := Lookup(places, parents, children, ZERO);
    var stack := PushReversed([], kids);
    ghost var total := Without(Walk(f, kids), tombstones);
    assert kids + Rev([]) == kids;
    assert [] + total == total;
    while stack != []
      invariant total == result + Without(Walk(f, Rev(stack)), tombstones)
      decreases |Walk(f, Rev(stack))|
    {
      var current, rest := stack[|stack| - 1], stack[..|stack| - 1];
      kids := Lookup(places, parents, children, current);
      StackStep(f, stack, kids, tombstones);
      Shift3(result, if current in tombstones then [] else [current], [],
        Without(Walk(f, kids + Rev(rest)), tombstones));
      if current !in tombstones {
        result := result + [current];
      }
      stack := PushReversed(rest, kids);
    }
    WalkNothing(f, tombstones);
  }

  lemma {:induction false} StackStep(f: Forest, stack: seq<Tag>, kids: seq<Tag>, tombstones: set<Tag>)
    requires f.WF() && stack != [] && kids == f.Kids(stack[|stack| - 1])
    ensures var current, rest := stack[|stack| - 1], stack[..|stack| - 1];
      && |Walk(f, kids + Rev(rest))| < |Walk(f, Rev(stack))|
      && Without(Walk(f, Rev(stack)), tombstones)
           == (if current in tombstones then [] else [current]) + [] + Without(Walk(f, kids + Rev(rest)), tombstones)
  {
    hide Without, Walk, Forest.WF, Rev;
    var current, rest := stack[|stack| - 1], stack[..|stack| - 1];
    RevTop(stack);
    WalkHead(f, Rev(stack));
    WalkUnfold(f, current);
    WalkConcat(f, kids, Rev(rest));
    Shift3([], [current], Walk(f, kids), Walk(f, Rev(rest)));
    assert Walk(f, Rev(stack)) == [current] + Walk(f, kids + Rev(rest));
    WithoutConcat([current], Walk(f, kids + Rev(rest)), tombstones);
    WithoutSingle(current, tombstones);
  }

  lemma {:induction false} RevTop(stack: seq<Tag>)
    requires stack != []
    ensures Rev(stack) != [] && Rev(stack)[0] == stack[|stack| - 1] && Rev(stack)[1..] == Rev(stack[..|stack| - 1])
  {
  }

  lemma {:induction false} WithoutSingle(x: Tag, dead: set<Tag>)
    ensures Without([x], dead) == (if x in dead then [] else [x]) + []
  {
  }

  lemma {:induction false} WalkConcat(f: Forest, a: seq<Tag>, b: seq<Tag>)
    requires f.WF()
    ensures Walk(f, a + b) == Walk(f, a) + Walk(f, b)
  {
    ToursConcat(f, a, b);
    EnteredTours(f, a);
    EnteredTours(f, b);
    EnteredTours(f, a + b);
    EnteredConcat(Tours(f, a), Tours(f, b));
  }

  method Lookup(ghost places: Placements, ghost parents: map<Tag, Tag>, children: map<Tag, seq<Tag>>, p: Tag)
    returns (kids: seq<Tag>)
    requires children.Keys == parents.Values && forall p :: p in children ==> children[p] == KidsBy(places, parents, p)
    ensures kids == KidsBy(places, parents, p)
  {
    if p in children {
      return children[p];
    }
    KidsByNone(places, parents, p);
    return [];
  }

  /** The visible positions; the result depends on the state alone, not on map iteration order. */
  method VisiblePositions(s: MoveState) returns (result: seq<Tag>)
    requires ValidState(s) && |s.tombstones| <= |s.nodes|
    ensures result == VisibleMoves(s)
  {
    hide Acyclic, Walk, KidsBy, Tag.Valid, NoDup;
    ZeroInvalid();
    var places := Place(s);
    InDecisionOrder(places);
    var ids := SortKeys(DecisionOrder(places), places.Keys);
    var parents := DecideAll(places, ids);
    ParentsAreForest(places);
    GrownWF(places, parents);
    var children := GroupSiblings(places, parents);
    result := StackWalk(places, parents, children, s.tombstones);
  }
}
