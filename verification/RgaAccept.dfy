/** Which deltas a list must take, said without the order in which it checks them. */
module RgaAcceptances {
  import opened Tags
  import opened Forests
  import opened Clocks
  import opened RgaOrder
  import opened RgaStates
  import opened RgaBuilds
  import opened RgaVerdicts

  // ----- the exact condition -----

  /** A new node whose chain of parents does not lead to the root through what is integrated or comes with it. */
  ghost predicate Stranded(s: State, d: Delta, id: Tag) {
    id in d.nodes && id !in s.All() && !exists S: set<Tag> :: ParentClosed(s.nodes + Added(s, d), S) && id in S
  }

  ghost function AllStranded(s: State, d: Delta): set<Tag> {
    set id | id in d.nodes && Stranded(s, d, id)
  }

  /**
    What the list would hold is acyclic and within the limits, counting what has to wait before anything moves over.
   */
  ghost predicate Affordable(s: State, d: Delta, o: Options) {
    && Acyclic(Par(s.All() + d.nodes)) && |s.All() + d.nodes| <= o.maxNodes
    && |s.pending| + |AllStranded(s, d)| <= o.maxPendingNodes
    && s.pendingBytes + SumBytes(Restrict(d.nodes, AllStranded(s, d))) <= o.maxPendingBytes
    && |s.tombstones + d.tombstones| <= o.maxTombstones
  }

  /** The delta adds nothing, or it is affordable and the clock can pass its newest tag. */
  ghost predicate Welcome(s: State, d: Delta, codecID: Bytes, o: Options, now: Time, physical: Millis) {
    && d.codecID == codecID && ValidDelta(d) && Consistent(s.All(), d.nodes)
    && (forall id :: id in d.nodes ==> |d.nodes[id].value| <= o.maxValueBytes)
    && (Subsumed(s, d) || (Affordable(s, d, o) && CanPass(d, now, physical)))
  }

  ghost predicate CanPass(d: Delta, now: Time, physical: Millis) {
    TagsOf(d) != {} && exists u :: Later(now, Observe(Newest(TagsOf(d)), physical), u)
  }

  lemma {:induction false} GroundIsClosed(nodes: Nodes, added: Nodes)
    requires Rooted(Par(nodes)) && added.Keys !! nodes.Keys
    ensures ParentClosed(nodes + added, nodes.Keys + Ground(nodes.Keys, Par(added)))
  {
    hide Ground, Acyclic;
    var all, S := nodes + added, nodes.Keys + Ground(nodes.Keys, Par(added));
    forall x | x in S ensures x in all && (all[x].parent == ZERO || all[x].parent in S) {
      if x in nodes {
        assert all[x] == nodes[x] && Par(nodes)[x] == nodes[x].parent;
      } else {
        GroundParent(nodes.Keys, Par(added), x);
      }
    }
  }

  lemma {:induction false} GroundParent(base: set<Tag>, par: map<Tag, Tag>, x: Tag)
    requires x in Ground(base, par)
    ensures x in par && (par[x] == ZERO || par[x] in base || par[x] in Ground(base, par))
    decreases |par|
  {
    var ready := set y | y in par && (par[y] == ZERO || par[y] in base);
    if x !in ready {
      assert (par - ready).Keys == par.Keys - ready;
      GroundParent(base + ready, par - ready, x);
    }
  }

  /** Whatever a closed set holds beyond the integrated nodes is grounded. */
  lemma {:induction false} ClosedIsGround(nodes: Nodes, added: Nodes, S: set<Tag>, id: Tag)
    requires added.Keys !! nodes.Keys && Acyclic(Par(added)) && ParentClosed(nodes + added, S) && id in S && id in added
    ensures id in Ground(nodes.Keys, Par(added))
  {
    hide Ground, Acyclic;
    var par := Par(added);
    var lost := set x | x in S && x in added && x !in Ground(nodes.Keys, par);
    if id !in Ground(nodes.Keys, par) {
      forall x | x in lost ensures par[x] in lost {
        assert (nodes + added)[x] == added[x];
        if par[x] == ZERO || par[x] in nodes.Keys || par[x] in Ground(nodes.Keys, par) {
          GroundClosed(nodes.Keys, par, x);
        }
      }
      assert id in lost;
      NoTrap(par, lost);
    }
  }

  lemma {:induction false} StrandedAt(s: State, d: Delta, id: Tag)
    requires Rooted(Par(s.nodes)) && Added(s, d).Keys !! s.nodes.Keys && Acyclic(Par(Added(s, d)))
    requires id in d.nodes && id !in s.All() && id in Added(s, d)
    ensures Stranded(s, d, id) <==> id !in Ground(s.nodes.Keys, Par(Added(s, d)))
  {
    hide Acyclic, Ground, ParentClosed, Added, State.All, Rooted, Par;
    var added := Added(s, d);
    GroundIsClosed(s.nodes, added);
    if id in Ground(s.nodes.Keys, Par(added)) {
      assert id in s.nodes.Keys + Ground(s.nodes.Keys, Par(added));
    } else if S: set<Tag> :| ParentClosed(s.nodes + added, S) && id in S {
      ClosedIsGround(s.nodes, added, S, id);
    }
  }

  lemma {:induction false} StrandedIs(s: State, d: Delta)
    requires s.Settled() && Consistent(s.All(), d.nodes) && Acyclic(Par(s.All() + d.nodes))
    ensures AllStranded(s, d) == Added(s, d).Keys - Ground(s.nodes.Keys, Par(Added(s, d)))
    ensures Restrict(d.nodes, AllStranded(s, d)) == Restrict(Added(s, d), AllStranded(s, d))
  {
    hide Acyclic, SumBytes, WaitingOf, Attachable, Ground, Tag.Valid, Stranded, Rooted, ValidNodes, Added, State.All;
    var added := Added(s, d);
    AddedParts(s, d);
    PartAcyclic(s, d);
    hide State.Settled, Par;
    var ground := Ground(s.nodes.Keys, Par(added));
    forall id ensures id in AllStranded(s, d) <==> id in added.Keys - ground {
      if id in added {
        StrandedAt(s, d, id);
      } else {
        NotNew(s, d, id);
      }
    }
    SameRestriction(s, d, AllStranded(s, d));
  }

  lemma {:induction false} PartAcyclic(s: State, d: Delta)
    requires s.nodes.Keys !! s.pending.Keys && Consistent(s.All(), d.nodes) && Acyclic(Par(s.All() + d.nodes))
    ensures Acyclic(Par(Added(s, d)))
  {
    hide Acyclic, State.All, Added;
    AddedParts(s, d);
    AcyclicPart(Par(s.All() + d.nodes), Par(Added(s, d)));
  }

  lemma {:induction false} NotNew(s: State, d: Delta, id: Tag)
    requires id !in Added(s, d)
    ensures !Stranded(s, d, id)
  {
    hide ParentClosed, State.All;
  }

  lemma {:induction false} SameRestriction(s: State, d: Delta, ids: set<Tag>)
    requires ids <= Added(s, d).Keys
    ensures Restrict(d.nodes, ids) == Restrict(Added(s, d), ids)
  {
    hide State.All;
  }

  lemma {:induction false} AddedParts(s: State, d: Delta)
    requires Consistent(s.All(), d.nodes)
    ensures var added := Added(s, d);
      && added.Keys == d.nodes.Keys - s.All().Keys && added.Keys !! s.nodes.Keys
      && (forall x :: x in added ==> x in s.All() + d.nodes && added[x] == (s.All() + d.nodes)[x])
  {
    forall x | x in s.nodes ensures x in s.All() {
    }
  }

  lemma {:induction false} AllCounted(s: State, d: Delta)
    requires s.nodes.Keys !! s.pending.Keys
    ensures |s.All() + d.nodes| == |s.nodes| + |s.pending| + |Added(s, d)|
  {
    ThreeParts(s.nodes.Keys, s.pending.Keys, d.nodes.Keys);
    assert (s.All() + d.nodes).Keys == s.nodes.Keys + s.pending.Keys + d.nodes.Keys;
    assert Added(s, d).Keys == d.nodes.Keys - (s.nodes.Keys + s.pending.Keys);
    assert |s.All() + d.nodes| == |(s.All() + d.nodes).Keys| && |Added(s, d)| == |Added(s, d).Keys|;
  }

  lemma {:induction false} ThreeParts(a: set<Tag>, b: set<Tag>, c: set<Tag>)
    requires a !! b
    ensures |a + b + c| == |a| + |b| + |c - (a + b)|
  {
    Cards(a, b);
    Cards(a + b, c - (a + b));
    assert a + b + c == a + b + (c - (a + b));
  }

  lemma {:induction false} FitsAffordable(s: State, d: Delta, o: Options)
    requires s.Settled() && Consistent(s.All(), d.nodes) && Acyclic(Par(s.All() + d.nodes))
    ensures Fits(s, d, o) <==> Affordable(s, d, o)
  {
    hide State.All, Acyclic, SumBytes, Ground, Added, Restrict, AllStranded, Par, Consistent, Fits, WaitingOf, Rooted,
      ValidNodes, Attachable;
    StrandedIs(s, d);
    AllCounted(s, d);
    var added, blocked := Added(s, d), AllStranded(s, d);
    FitsIs(s, d, o, added, blocked, SumBytes(Restrict(added, blocked)));
  }

  /** The verdict accepts exactly what is welcome. */
  lemma {:induction false} WelcomeIff(s: State, d: Delta, codecID: Bytes, o: Options, now: Time, physical: Millis)
    requires s.Settled()
    ensures Verdict(s, d, codecID, o, now, physical).None? <==> Welcome(s, d, codecID, o, now, physical)
  {
    hide State.Settled, State.All, Acyclic, ValidDelta, Subsumed, TagsOf, Newest, Advance, Par, Later, Consistent, Fits,
      Affordable;
    if TagsOf(d) != {} {
      AdvanceEarliest(now, Observe(Newest(TagsOf(d)), physical));
    }
    AffordableAcyclic(s, d, o);
    if Consistent(s.All(), d.nodes) && Acyclic(Par(s.All() + d.nodes)) {
      FitsAffordable(s, d, o);
    }
  }

  lemma {:induction false} AffordableAcyclic(s: State, d: Delta, o: Options)
    ensures Affordable(s, d, o) ==> Acyclic(Par(s.All() + d.nodes))
  {
  }

  // ----- full states -----

  /** A full state within the limits, without a missing parent or a cycle, whose newest tag the clock can pass. */
  ghost predicate Restorable(d: Delta, o: Options, now: Time, physical: Millis) {
    && (forall id :: id in d.nodes ==> |d.nodes[id].value| <= o.maxValueBytes)
    && |d.nodes| <= o.maxNodes && |d.tombstones| <= o.maxTombstones
    && Acyclic(Par(d.nodes)) && ZERO !in d.nodes && (forall id :: id in d.nodes ==> Attachable(d.nodes, d.nodes[id]))
    && (TagsOf(d) == {} || CanPass(d, now, physical))
  }

  lemma {:induction false} RestorableIff(d: Delta, o: Options, now: Time, physical: Millis)
    ensures RestoreVerdict(d, o, now, physical).None? <==> Restorable(d, o, now, physical)
  {
    hide Acyclic, TagsOf, Newest, Advance, Later;
    if TagsOf(d) != {} {
      AdvanceEarliest(now, Observe(Newest(TagsOf(d)), physical));
    }
    assert forall id :: id in d.nodes ==> Par(d.nodes)[id] == d.nodes[id].parent;
  }

  /** What a list with nothing pending holds can always be restored under the same limits. */
  lemma {:induction false} OwnStateRestores(s: State, codecID: Bytes, o: Options, now: Time, physical: Millis)
    requires s.Settled() && s.pending == map[] && Within(s, o)
    requires forall id :: id in s.nodes ==> |s.nodes[id].value| <= o.maxValueBytes
    ensures var d := Delta(codecID, s.nodes, s.tombstones);
      Restorable(d, o, now, physical) <==> TagsOf(d) == {} || CanPass(d, now, physical)
  {
    hide Acyclic, TagsOf, Newest, Later, SumBytes, WaitingOf, ValidNodes;
    forall id | id in s.nodes ensures Attachable(s.nodes, s.nodes[id]) {
      assert Par(s.nodes)[id] == s.nodes[id].parent;
    }
  }
}
