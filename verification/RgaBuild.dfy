/** Ordering new nodes parents first, and rebuilding the index of a full state. */
module RgaBuilds {
  import opened Tags
  import opened Forests
  import opened RgaOrder
  import opened RgaStates
  import opened RgaIndexes

  /** Parents first, over the new nodes only; the rest stays blocked. */
  method Classify(base: Nodes, added: Nodes) returns (resolved: seq<Tag>, blocked: set<Tag>)
    requires base.Keys !! added.Keys && ValidNodes(added)
    ensures NoDup(resolved) && ParentFirst(base.Keys, Par(added), resolved)
    ensures Elems(resolved) == Ground(base.Keys, Par(added)) && blocked == added.Keys - Elems(resolved)
  {
    hide StrictTotalOrder, Sorted, SortSet, Blank;
    ZeroInvalid();
    LessIsStrictTotalOrder();
    ghost var par := Par(added);
    var roots := set id | id in added && (!added[id].parent.Valid() || added[id].parent in base);
    assert roots == Hung(base, added);
    resolved := SortKeys(Less, roots);
    SortedNoDup(roots);
    assert forall i :: 0 <= i < |resolved| ==> resolved[i] in roots;
    var known: set<Tag> := {};
    var index := 0;
    while index < |resolved|
      invariant 0 <= index <= |resolved| && known == Elems(resolved[..index]) && known <= added.Keys
      invariant NoDup(resolved) && ParentFirst(base.Keys, par, resolved)
      invariant forall x :: x in resolved <==> x in roots || (x in par && par[x] in known)
      decreases added.Keys - known
    {
      var id := resolved[index];
      var children := set c | c in added && added[c].parent == id;
      var sorted := SortKeys(Less, children);
      SortedNoDup(children);
      MoreResolved(base, added, roots, resolved, index, sorted);
      known := known + {id};
      resolved := resolved + sorted;
      index := index + 1;
    }
    assert resolved[..index] == resolved;
    GroundIs(base.Keys, par, resolved);
    blocked := set id | id in added && id !in known;
  }

  lemma {:induction false} SortedNoDup(ids: set<Tag>)
    requires StrictTotalOrder(Less)
    ensures NoDup(SortSet(Less, ids)) && forall x :: x in SortSet(Less, ids) <==> x in ids
  {
    SortSetSorts(Less, ids);
  }

  ghost function Hung(base: Nodes, added: Nodes): set<Tag> {
    set id | id in added && Attachable(base, added[id])
  }

  /** Appending the children of the next resolved node. */
  lemma {:induction false} MoreResolved(base: Nodes, added: Nodes, roots: set<Tag>, resolved: seq<Tag>, index: int,
                                        sorted: seq<Tag>)
    requires base.Keys !! added.Keys && ValidNodes(added) && 0 <= index < |resolved| && roots == Hung(base, added)
    requires NoDup(resolved) && ParentFirst(base.Keys, Par(added), resolved)
    requires forall x :: x in resolved <==> x in roots || (x in added && added[x].parent in Elems(resolved[..index]))
    requires forall x :: x in sorted <==> x in added && added[x].parent == resolved[index]
    requires NoDup(sorted)
    ensures var after := resolved + sorted;
      && Elems(after[..index + 1]) == Elems(resolved[..index]) + {resolved[index]}
      && NoDup(after) && ParentFirst(base.Keys, Par(added), after)
      && forall x :: x in after <==> x in roots || (x in added && added[x].parent in Elems(after[..index + 1]))
  {
    hide Blank, ParentFirst;
    ZeroInvalid();
    var id, after := resolved[index], resolved + sorted;
    assert after[..index + 1] == resolved[..index] + [id];
    assert id in resolved && id in added && ValidNode(id, added[id]);
    assert id !in resolved[..index];
    assert forall x :: x in resolved ==> x !in sorted;
    NoDupConcat(resolved, sorted);
    ParentFirstMore(base.Keys, Par(added), resolved, index, sorted);
  }

  lemma {:induction false} ParentFirstMore(base: set<Tag>, par: map<Tag, Tag>, ids: seq<Tag>, index: int,
                                           more: seq<Tag>)
    requires ParentFirst(base, par, ids) && 0 <= index < |ids|
    requires forall x :: x in more ==> x in par && par[x] == ids[index]
    ensures ParentFirst(base, par, ids + more)
  {
    var after := ids + more;
    forall i | 0 <= i < |after|
      ensures after[i] in par && (par[after[i]] == ZERO || par[after[i]] in base || par[after[i]] in after[..i]) {
      if i < |ids| {
        assert after[..i] == ids[..i];
      } else {
        assert after[i] in more && after[..i][index] == ids[index];
      }
    }
  }

  // ----- rebuilding from a full state -----

  /** A parent-closed, acyclic state is exactly one that is grounded as a whole. */
  lemma {:induction false} RootedIffGrounded(par: map<Tag, Tag>)
    requires ZERO !in par
    ensures Rooted(par) ==> Ground({}, par) == par.Keys
  {
    if Rooted(par) {
      var lost := par.Keys - Ground({}, par);
      forall x | x in lost ensures par[x] in lost {
        if par[x] == ZERO || par[x] in Ground({}, par) {
          GroundClosed({}, par, x);
        }
      }
      assert !Trap(par, lost);
      assert lost == {};
    }
  }

  /** The queue lists the roots and the children of everything already integrated, parents first. */
  ghost predicate Building(nodes: Nodes, queue: seq<Tag>, done: int) {
    && 0 <= done <= |queue| && NoDup(queue) && ParentFirst({}, Par(nodes), queue)
    && forall x :: x in queue <==> x in Hung(map[], nodes) || (x in nodes && nodes[x].parent in Elems(queue[..done]))
  }

  method BuildStep(index: RgaIndex, nodes: Nodes, tombstones: set<Tag>, queue: seq<Tag>, done: int)
    returns (next: seq<Tag>)
    requires ValidNodes(nodes) && Building(nodes, queue, done) && done < |queue|
    requires index.Valid() && index.hidden == tombstones && index.par == Restricted(Par(nodes), Elems(queue[..done]))
    modifies index.repr
    ensures index.Valid() && index.hidden == tombstones && fresh(index.repr - old(index.repr))
    ensures Building(nodes, next, done + 1) && index.par == Restricted(Par(nodes), Elems(next[..done + 1]))
    ensures Elems(next[..done + 1]) == Elems(queue[..done]) + {queue[done]} && queue[done] in nodes
    ensures queue[done] !in Elems(queue[..done])
  {
    hide StrictTotalOrder, Sorted, SortSet, Tag.Valid, RgaIndex.Valid, NoDup, ParentFirst;
    LessIsStrictTotalOrder();
    var id := queue[done];
    var entryPriority: Uint64, exitPriority: Uint64 := *, *;
    NextBuilt(nodes, queue, done);
    PairsKnown(index, nodes[id].parent);
    index.Integrate(id, nodes[id].parent, id in tombstones, entryPriority, exitPriority);
    var children := set c | c in nodes && nodes[c].parent == id;
    var sorted := SortKeys(Less, children);
    SortedNoDup(children);
    ghost var none: Nodes := map[];
    assert none.Keys == {};
    MoreResolved(none, nodes, Hung(none, nodes), queue, done, sorted);
    next := queue + sorted;
    assert next[..done + 1] == queue[..done + 1];
  }

  /** Integrate a full state from scratch, breadth first; it fails exactly when some node is not grounded. */
  method BuildIndex(nodes: Nodes, tombstones: set<Tag>) returns (index: RgaIndex, ok: bool)
    requires ValidNodes(nodes) && ZERO !in tombstones
    ensures ok <==> Rooted(Par(nodes))
    ensures ok ==> index.Valid() && index.par == Par(nodes) && index.hidden == tombstones && fresh(index.repr)
  {
    hide StrictTotalOrder, SortSet, ValidNodes, RgaIndex.Valid, Building, Rooted;
    LessIsStrictTotalOrder();
    index := NewIndex(tombstones);
    var first := set id | id in nodes && nodes[id].parent == ZERO;
    assert first == Hung(map[], nodes);
    var queue := SortKeys(Less, first);
    FirstQueue(nodes, queue);
    var done := 0;
    while done < |queue|
      invariant 0 <= done <= |queue| && Building(nodes, queue, done)
      invariant index.Valid() && index.hidden == tombstones && fresh(index.repr)
      invariant index.par == Restricted(Par(nodes), Elems(queue[..done]))
      decreases nodes.Keys - Elems(queue[..done])
    {
      queue := BuildStep(index, nodes, tombstones, queue, done);
      done := done + 1;
      BuildingIn(nodes, queue, done);
    }
    assert queue[..done] == queue;
    ok := done == |nodes|;
    Built(nodes, queue);
    IndexRooted(index);
  }

  lemma {:induction false} BuildingIn(nodes: Nodes, queue: seq<Tag>, done: int)
    requires Building(nodes, queue, done)
    ensures done <= |queue|
  {
  }

  lemma {:induction false} FirstQueue(nodes: Nodes, queue: seq<Tag>)
    requires StrictTotalOrder(Less) && queue == SortSet(Less, Hung(map[], nodes))
    ensures Building(nodes, queue, 0)
  {
    SortedNoDup(Hung(map[], nodes));
    assert forall i :: 0 <= i < |queue| ==> queue[i] in queue;
  }

  lemma {:induction false} IndexRooted(index: RgaIndex)
    requires index.Valid()
    ensures Rooted(index.par)
  {
  }

  ghost function Restricted(par: map<Tag, Tag>, ids: set<Tag>): map<Tag, Tag> {
    map id | id in par && id in ids :: par[id]
  }

  lemma {:induction false} NextBuilt(nodes: Nodes, queue: seq<Tag>, done: int)
    requires 0 <= done < |queue| && NoDup(queue) && ParentFirst({}, Par(nodes), queue) && ValidNodes(nodes)
    ensures queue[done] !in queue[..done]
    ensures var id, par := queue[done], Restricted(Par(nodes), Elems(queue[..done]));
      && id in nodes && id != ZERO && id !in par && (nodes[id].parent == ZERO || nodes[id].parent in par)
      && par[id := nodes[id].parent] == Restricted(Par(nodes), Elems(queue[..done + 1]))
  {
    hide Tag.Valid;
    ZeroInvalid();
    var id := queue[done];
    assert queue[..done + 1] == queue[..done] + [id];
    if nodes[id].parent != ZERO {
      var j :| 0 <= j < done && queue[j] == nodes[id].parent;
      assert queue[j] in Par(nodes);
    }
  }

  lemma {:induction false} Built(nodes: Nodes, queue: seq<Tag>)
    requires Building(nodes, queue, |queue|) && ValidNodes(nodes)
    ensures Rooted(Par(nodes)) ==> |queue| == |nodes|
    ensures |queue| == |nodes| ==> Restricted(Par(nodes), Elems(queue)) == Par(nodes)
  {
    hide Tag.Valid, Rooted, Ground;
    ZeroInvalid();
    assert queue[..|queue|] == queue;
    GroundIs({}, Par(nodes), queue);
    RootedIffGrounded(Par(nodes));
    CountAll(nodes.Keys, queue);
  }

  lemma {:induction false} CountAll(keys: set<Tag>, queue: seq<Tag>)
    requires NoDup(queue) && Elems(queue) <= keys
    ensures |queue| == |keys| <==> Elems(queue) == keys
  {
    NoDupCount(queue);
    if |queue| == |keys| {
      SameSize(Elems(queue), keys);
    }
  }

  lemma {:induction false} SameSize(a: set<Tag>, b: set<Tag>)
    requires a <= b && |a| == |b|
    ensures a == b
  {
    Cards(a, b - a);
    assert a + (b - a) == b;
  }

  method NewIndex(tombstones: set<Tag>) returns (index: RgaIndex)
    requires ZERO !in tombstones
    ensures index.Valid() && index.par == map[] && index.hidden == tombstones && fresh(index.repr)
  {
    hide RgaIndex.Valid;
    index := new RgaIndex(0, 0);
    var rest := tombstones;
    while rest != {}
      invariant rest <= tombstones && index.Valid() && index.par == map[] && index.hidden == tombstones - rest
      invariant fresh(index.repr)
    {
      var id :| id in rest;
      index.Hide(id);
      rest := rest - {id};
    }
  }

  lemma {:induction false} Cards(a: set<Tag>, b: set<Tag>)
    requires a !! b
    ensures |a + b| == |a| + |b|
  {
  }

  lemma {:induction false} NoDupCount(s: seq<Tag>)
    requires NoDup(s)
    ensures |Elems(s)| == |s|
  {
    if s != [] {
      assert s == [s[0]] + s[1..];
      NoDupSplit([s[0]], s[1..]);
      NoDupCount(s[1..]);
      assert s[0] in [s[0]];
      assert Elems(s) == {s[0]} + Elems(s[1..]);
    }
  }

  lemma {:induction false} PairsKnown(index: RgaIndex, p: Tag)
    requires index.Valid() && (p == ZERO || p in index.par)
    ensures p in index.sequence.pairs
  {
  }
}
