/** Exactly how a local edit of an insert-only list ends. */
module RgaOutcomes {
  import opened Tags
  import opened Forests
  import opened Clocks
  import opened RgaOrder
  import opened RgaStates
  import opened RgaSplices
  import opened RgaEdits
  import opened RgaBuilds
  import opened RgaVerdicts
  import opened EditOutcomes

  /** The verdict together with the clock that the delivery leaves behind. */
  ghost function Ends(s: State, d: Delta, codecID: Bytes, o: Options, now: Time, physical: Millis): Outcome {
    if Screen(s, d, codecID, o).Some? then Outcome(Screen(s, d, codecID, o), now)
    else if Subsumed(s, d) then Outcome(None, now)
    else if TagsOf(d) == {} then Outcome(Some(ClockError), now)
    else Finish(now, Newest(TagsOf(d)), physical)
  }

  // ----- what an edit hands out -----

  const NO_DELTA := Delta([], map[], {})

  /** The delta of an insertion: exactly the new nodes, as a chain below the position before the offset. */
  ghost predicate InsertDelta(s: State, d: Delta, codecID: Bytes, o: int, ids: seq<Tag>, values: seq<Bytes>) {
    && d.codecID == codecID && d.tombstones == {} && Rooted(Par(s.nodes)) && 0 <= o <= |s.Visible()|
    && IsRun(d.nodes, ids, values, if o > 0 then s.Visible()[o - 1] else ZERO)
  }

  /** The delta of a deletion: exactly the tombstones of the range. */
  ghost predicate DeleteDelta(s: State, d: Delta, codecID: Bytes, o: int, count: int) {
    && d.codecID == codecID && d.nodes == map[] && Rooted(Par(s.nodes)) && 0 <= o && 0 <= count
    && o + count <= |s.Visible()|
    && d.tombstones == Elems(s.Visible()[o..o + count])
  }

  lemma {:induction false} RangeHandedOut(s: State, d: Delta, codecID: Bytes, o: int, count: int)
    requires d.codecID == codecID && d.nodes == map[] && Rooted(Par(s.nodes)) && 0 <= o && 0 <= count
    requires o + count <= |s.Visible()|
    requires d.tombstones == Elems(s.Visible()[o..o + count])
    ensures DeleteDelta(s, d, codecID, o, count)
  {
  }

  // ----- insertion -----

  /** A fresh run below a visible position: new, valid, acyclic, and all of it attachable. */
  ghost predicate Insertable(s: State, run: Nodes, ids: seq<Tag>) {
    && ValidNodes(run) && run.Keys == Elems(ids) && NoDup(ids) && run.Keys !! s.All().Keys
    && Acyclic(Par(s.All() + run)) && Ground(s.nodes.Keys, Par(run)) == run.Keys
  }

  lemma {:induction false} HangsAt(s: State, o: int, p: Tag, was: Time)
    requires s.Settled() && Seen(s, was) && At(s.Visible(), o, p)
    ensures Hangs(p, was) && (p == ZERO || p in s.nodes)
  {
    hide Rooted, Acyclic, SumBytes, WaitingOf, Attachable, VisibleWalk, NoDup, Tag.Valid;
    if p != ZERO {
      VisibleOnce(Par(s.nodes), s.tombstones);
      assert p in s.Visible();
      assert p in s.All();
    }
  }

  lemma {:induction false} RunInsertable(s: State, run: Nodes, ids: seq<Tag>, values: seq<Bytes>, o: int, p: Tag,
                                         was: Time, now: Time)
    requires s.Settled() && Seen(s, was) && Issued(ids, was, now) && IsRun(run, ids, values, p) && At(s.Visible(), o, p)
    ensures Insertable(s, run, ids)
  {
    hide State.Settled, Seen, Issued, ValidNodes, VisibleWalk, Par, Chained, Rooted, Acyclic, IsRun, Ground, At, NoDup,
      Elems;
    SettledRooted(s);
    HangsAt(s, o, p, was);
    RunNodesValid(run, ids, values, p, was, now);
    RunKeys(run, ids, values, p, was, now);
    RunApart(s, run, ids, values, p, was, now);
    RunGrounded(s.nodes.Keys, run, ids, values, p);
    RunAcyclic(s, run, ids, values, o, p, was, now);
  }

  lemma {:induction false} RunApart(s: State, run: Nodes, ids: seq<Tag>, values: seq<Bytes>, p: Tag, was: Time,
                                    now: Time)
    requires Seen(s, was) && Issued(ids, was, now) && run.Keys == Elems(ids)
    ensures forall id :: id in run ==>
      id !in s.nodes && id !in s.pending && forall x :: x in s.pending ==> s.pending[x].parent != id
    ensures run.Keys !! s.All().Keys
  {
    hide Seen, Issued, Tag.Valid;
    forall id | id in run ensures id !in s.All() && forall x :: x in s.pending ==> s.pending[x].parent != id {
      FreshTags(s, ids, was, now, id);
    }
  }

  lemma {:induction false} RunAcyclic(s: State, run: Nodes, ids: seq<Tag>, values: seq<Bytes>, o: int, p: Tag,
                                      was: Time, now: Time)
    requires s.Settled() && Seen(s, was) && Issued(ids, was, now) && IsRun(run, ids, values, p) && At(s.Visible(), o, p)
    requires ValidNodes(run)
    ensures Acyclic(Par(s.All() + run))
  {
    hide Seen, Issued, ValidNodes, VisibleWalk, Par, Chained, Rooted, Acyclic, IsRun, At, NoDup, SumBytes, WaitingOf,
      Attachable, NewerThanAll;
    var want := State(s.nodes + run, s.pending, s.waiting, s.pendingBytes, s.tombstones);
    forall n | n in ids ensures n != ZERO && n !in Par(s.nodes) && n !in s.tombstones && NewerThanAll(Par(s.nodes), n) {
      FreshTags(s, ids, was, now, n);
    }
    RunKeys(run, ids, values, p, was, now);
    InsertRun(Par(s.nodes), s.tombstones, ids, p, o);
    RunApart(s, run, ids, values, p, was, now);
    RunParents(s.nodes, run, ids, values, p);
    WantSettled(s, run);
    Regrouped(s.nodes, s.pending, run);
    SettledAcyclic(want);
  }

  /** No cycle runs through a settled state. */
  lemma {:induction false} SettledAcyclic(s: State)
    requires s.Settled()
    ensures Acyclic(Par(s.All()))
  {
    hide SumBytes, WaitingOf, Attachable, Acyclic, Rooted, Par, Tag.Valid;
    ZeroInvalid();
    assert ValidNodes(s.pending);
    NoCycleThroughNodes(s, map[]);
    assert s.pending + map[] == s.pending && s.All() + map[] == s.All();
  }

  lemma {:induction false} RunGrounded(base: set<Tag>, run: Nodes, ids: seq<Tag>, values: seq<Bytes>, p: Tag)
    requires IsRun(run, ids, values, p) && (p == ZERO || p in base)
    ensures Ground(base, Par(run)) == run.Keys
  {
    hide Ground;
    forall i | 0 <= i < |ids| ensures ids[i] in Ground(base, Par(run)) {
      RunChained(base, run, ids, values, p);
      InGround(base, Par(run), ids, i);
    }
  }

  lemma {:induction false} RunChained(base: set<Tag>, run: Nodes, ids: seq<Tag>, values: seq<Bytes>, p: Tag)
    requires IsRun(run, ids, values, p) && (p == ZERO || p in base)
    ensures ParentFirst(base, Par(run), ids)
  {
    forall i | 0 <= i < |ids|
      ensures ids[i] in run
      ensures (run[ids[i]].parent == ZERO || run[ids[i]].parent in base || run[ids[i]].parent in ids[..i]) {
      if i > 0 {
        assert ids[..i][i - 1] == ids[i - 1];
      }
    }
  }

  lemma {:induction false} RunFits(s: State, d: Delta, ids: seq<Tag>, o: Options)
    requires Insertable(s, d.nodes, ids) && d.tombstones == {} && Within(s, o)
    ensures Fits(s, d, o) <==> |s.nodes| + |s.pending| + |ids| <= o.maxNodes
  {
    hide Ground, SumBytes, Acyclic, ValidNodes, NoDup, Par, Elems, Fits, State.All, Restrict, Added;
    NoDupCount(ids);
    AddedAll(s, d);
    NothingBlocked(d.nodes);
    FitsIs(s, d, o, d.nodes, {}, 0);
    assert d.tombstones - s.tombstones == {};
  }

  lemma {:induction false} AddedAll(s: State, d: Delta)
    requires d.nodes.Keys !! s.All().Keys
    ensures Added(s, d) == d.nodes && |d.nodes| == |d.nodes.Keys|
  {
    hide State.All;
    assert d.nodes.Keys - s.All().Keys == d.nodes.Keys;
  }

  lemma {:induction false} NothingBlocked(nodes: Nodes)
    ensures SumBytes(Restrict(nodes, {})) == 0 && nodes.Keys - nodes.Keys == {}
  {
    assert Restrict(nodes, {}) == map[];
  }

  /** The verdict on a freshly issued run depends on the element count and one clock step only. */
  lemma {:induction false} RunEnds(s: State, d: Delta, ids: seq<Tag>, values: seq<Bytes>, offset: int, p: Tag,
                                   o: Options, was: Time, now: Time, physical: Millis)
    requires s.Settled() && Seen(s, was) && Within(s, o) && Issued(ids, was, now) && IsRun(d.nodes, ids, values, p)
    requires At(s.Visible(), offset, p)
    requires d.tombstones == {} && !Blank(d.codecID) && ids != []
    requires forall i :: 0 <= i < |values| ==> |values[i]| <= o.maxValueBytes
    ensures Ends(s, d, d.codecID, o, now, physical)
         == if |s.nodes| + |s.pending| + |ids| > o.maxNodes then Outcome(Some(ResourceLimit), now)
           else Finish(now, ids[|ids| - 1], physical)
  {
    hide State.Settled, Seen, Issued, Within, ValidNodes, Par, Acyclic, IsRun, Ground, At, NoDup, Elems, Fits, TagsOf,
      Newest, Finish, State.All, Blank;
    SettledRooted(s);
    RunInsertable(s, d.nodes, ids, values, offset, p, was, now);
    RunFits(s, d, ids, o);
    HangsAt(s, offset, p, was);
    RunNewest(d.codecID, d.nodes, ids, values, p, was, now);
    SizesFit(d.nodes, ids, values, p, o.maxValueBytes);
    NotYetThere(s, d, ids);
    assert d == Delta(d.codecID, d.nodes, {});
  }

  lemma {:induction false} NotYetThere(s: State, d: Delta, ids: seq<Tag>)
    requires d.nodes.Keys == Elems(ids) && d.nodes.Keys !! s.All().Keys && ids != []
    ensures !Subsumed(s, d) && Consistent(s.All(), d.nodes)
  {
    hide State.All;
    assert ids[0] in d.nodes;
  }

  // ----- deletion -----

  lemma {:induction false} BuryEnds(s: State, d: Delta, offset: int, count: int, o: Options, now: Time,
                                    physical: Millis)
    requires s.Settled() && Within(s, o) && 0 <= offset && 0 <= count && offset + count <= |s.Visible()|
    requires d.nodes == map[] && d.tombstones == Elems(s.Visible()[offset..offset + count]) && !Blank(d.codecID)
    ensures Ends(s, d, d.codecID, o, now, physical)
         == DeleteOutcome(s.Visible(), |s.tombstones|, offset, count, o, now, physical)
  {
    hide State.Settled, VisibleWalk, Par, Acyclic, Fits, Newest, Finish, State.All, Blank, TagsOf, State.Visible;
    SettledRooted(s);
    var range := s.Visible()[offset..offset + count];
    Burial(s, d, offset, count, o);
    if count > 0 {
      assert range[0] in Elems(range);
    }
  }

  lemma {:induction false} Burial(s: State, d: Delta, offset: int, count: int, o: Options)
    requires s.Settled() && Within(s, o) && 0 <= offset && 0 <= count && offset + count <= |s.Visible()|
    requires d.nodes == map[] && d.tombstones == Elems(s.Visible()[offset..offset + count]) && !Blank(d.codecID)
    ensures ValidDelta(d) && TagsOf(d) == d.tombstones && Acyclic(Par(s.All() + d.nodes))
    ensures Subsumed(s, d) <==> count == 0
    ensures Fits(s, d, o) <==> |s.tombstones| + count <= o.maxTombstones
  {
    hide Acyclic, VisibleWalk, NoDup, Fits, Blank, State.Settled, Within, Par, State.All, State.Visible, Elems, TagsOf;
    SettledRooted(s);
    SettledAcyclic(s);
    assert s.All() + map[] == s.All();
    RangeLive(s, offset, count);
    OnlyTombstones(s, d);
    BurialFits(s, d, o);
  }

  lemma {:induction false} OnlyTombstones(s: State, d: Delta)
    requires d.nodes == map[] && d.tombstones !! s.tombstones && !Blank(d.codecID)
    requires forall x :: x in d.tombstones ==> x.Valid()
    ensures ValidDelta(d) && TagsOf(d) == d.tombstones && (Subsumed(s, d) <==> d.tombstones == {})
  {
    hide Blank, Tag.Valid, State.All;
  }

  lemma {:induction false} RangeLive(s: State, offset: int, count: int)
    requires s.Settled() && Rooted(Par(s.nodes)) && 0 <= offset && 0 <= count && offset + count <= |s.Visible()|
    ensures var range := Elems(s.Visible()[offset..offset + count]);
      && range !! s.tombstones && |range| == count && (range == {} <==> count == 0)
      && forall x :: x in range ==> x.Valid()
  {
    hide VisibleWalk, Tag.Valid, NoDup, Rooted, Acyclic, WaitingOf, SumBytes, Attachable;
    VisibleOnce(Par(s.nodes), s.tombstones);
    var range := s.Visible()[offset..offset + count];
    RangeOf(s.Visible(), offset, count);
    NoDupCount(range);
    assert forall x :: x in range ==> x in s.Visible();
  }

  lemma {:induction false} BurialFits(s: State, d: Delta, o: Options)
    requires Within(s, o) && d.nodes == map[] && d.tombstones !! s.tombstones
    ensures Fits(s, d, o) <==> |s.tombstones| + |d.tombstones| <= o.maxTombstones
  {
    hide SumBytes, State.All;
    assert Added(s, d) == map[] && Par(map[]) == map[];
    assert Restrict(map[], {}) == map[];
    NothingBlocked(map[]);
    NoGround(s.nodes.Keys);
    assert d.tombstones - s.tombstones == d.tombstones;
  }

  lemma {:induction false} NoGround(base: set<Tag>)
    ensures Ground(base, map[]) == {}
  {
  }
}
