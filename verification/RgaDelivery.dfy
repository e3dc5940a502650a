/** Families of deltas that belong together are delivered in every order and batching. */
module RgaDeliveries {
  import opened Tags
  import opened Forests
  import opened Clocks
  import opened RgaOrder
  import opened RgaStates
  import opened RgaBuilds
  import opened RgaEdits
  import opened RgaVerdicts
  import opened EditOutcomes
  import opened RgaOutcomes
  import opened RgaAcceptances
  import opened RgaLists

  // ----- families -----

  ghost predicate Part(a: Nodes, all: Nodes) {
    forall id :: id in a ==> id in all && all[id] == a[id]
  }

  /** Everything there is to deliver: valid, acyclic, and within every limit even if all of it has to wait. */
  ghost predicate Family(all: Nodes, dead: set<Tag>, o: Options) {
    && ValidNodes(all) && Acyclic(Par(all)) && (forall id :: id in dead ==> id.Valid())
    && (forall id :: id in all ==> |all[id].value| <= o.maxValueBytes)
    && |all| <= o.maxNodes && |all| <= o.maxPendingNodes && SumBytes(all) <= o.maxPendingBytes
    && |dead| <= o.maxTombstones
  }

  /** Any part of it, in any batch. */
  ghost predicate Member(d: Delta, codecID: Bytes, all: Nodes, dead: set<Tag>) {
    d.codecID == codecID && Part(d.nodes, all) && d.tombstones <= dead
  }

  ghost predicate Inside(s: State, all: Nodes, dead: set<Tag>) {
    s.Settled() && Part(s.All(), all) && s.tombstones <= dead
  }

  lemma {:induction false} SumBytesPart(a: Nodes, b: Nodes)
    requires Part(a, b)
    ensures SumBytes(a) <= SumBytes(b)
    decreases |a|
  {
    hide NodeBytes, SumBytes;
    if a == map[] {
      NoBytes();
    } else {
      var id :| id in a;
      SumBytesRemove(a, id);
      SumBytesRemove(b, id);
      assert |a - {id}| < |a| by {
        OneLess(a, id);
      }
      SumBytesPart(a - {id}, b - {id});
    }
  }

  lemma {:induction false} NoBytes()
    ensures SumBytes(map[]) == 0
  {
  }

  lemma {:induction false} SumBytesUnion(a: Nodes, b: Nodes)
    requires a.Keys !! b.Keys
    ensures SumBytes(a + b) == SumBytes(a) + SumBytes(b)
    decreases |b|
  {
    hide NodeBytes, SumBytes;
    if b == map[] {
      NoBytes();
      assert a + b == a;
    } else {
      var id :| id in b;
      SumBytesRemove(b, id);
      UnionMinus(a, b, id);
      SumBytesRemove(a + b, id);
      OneLess(b, id);
      SumBytesUnion(a, b - {id});
    }
  }

  lemma {:induction false} UnionMinus(a: Nodes, b: Nodes, id: Tag)
    requires a.Keys !! b.Keys && id in b
    ensures (a + b) - {id} == a + (b - {id}) && id in a + b && (a + b)[id] == b[id] && a.Keys !! (b - {id}).Keys
  {
  }

  lemma {:induction false} UnionPart(a: Nodes, b: Nodes, all: Nodes)
    requires Part(a, all) && Part(b, all)
    ensures Part(a + b, all) && Consistent(a, b)
  {
  }

  lemma {:induction false} PartSmaller(a: Nodes, all: Nodes)
    requires Part(a, all)
    ensures |a| <= |all|
  {
    Fewer(a.Keys, all.Keys);
    assert |a| == |a.Keys| && |all| == |all.Keys|;
  }

  lemma {:induction false} PartAcyclicToo(a: Nodes, all: Nodes)
    requires Part(a, all) && Acyclic(Par(all))
    ensures Acyclic(Par(a))
  {
    hide Acyclic;
    AcyclicPart(Par(all), Par(a));
  }

  /** What is pending and what has to wait are different parts of the family. */
  lemma {:induction false} WaitingFits(pending: Nodes, more: Nodes, waits: set<Tag>, all: Nodes)
    requires Part(pending, all) && Part(more, all) && waits <= more.Keys && waits !! pending.Keys
    ensures |pending| + |waits| <= |all| && SumBytes(pending) + SumBytes(Restrict(more, waits)) <= SumBytes(all)
  {
    hide SumBytes;
    var rest := Restrict(more, waits);
    assert rest.Keys == waits && Part(rest, all);
    SumBytesUnion(pending, rest);
    UnionPart(pending, rest, all);
    SumBytesPart(pending + rest, all);
    PartSmaller(pending + rest, all);
    Cards(pending.Keys, waits);
    assert (pending + rest).Keys == pending.Keys + waits;
    assert |pending + rest| == |(pending + rest).Keys| && |pending| == |pending.Keys|;
  }

  /** A part of the family on top of a part of it is affordable: nothing has to fit twice. */
  lemma {:induction false} MemberAffordable(s: State, d: Delta, all: Nodes, dead: set<Tag>, o: Options)
    requires Family(all, dead, o) && Inside(s, all, dead) && Part(d.nodes, all) && d.tombstones <= dead
    ensures Consistent(s.All(), d.nodes) && Affordable(s, d, o)
  {
    hide Acyclic, SumBytes, ValidNodes, AllStranded, Part, State.All, Consistent, State.Settled, Par, Restrict;
    UnionPart(s.All(), d.nodes, all);
    PartAcyclicToo(s.All() + d.nodes, all);
    PartSmaller(s.All() + d.nodes, all);
    Fewer(s.tombstones + d.tombstones, dead);
    StrandedNew(s, d);
    PendingPart(s, all);
    WaitingFits(s.pending, d.nodes, AllStranded(s, d), all);
  }

  lemma {:induction false} PendingPart(s: State, all: Nodes)
    requires s.Settled() && Part(s.All(), all)
    ensures Part(s.pending, all) && s.pendingBytes == SumBytes(s.pending)
  {
    hide Acyclic, SumBytes, WaitingOf, Attachable, ValidNodes, Rooted;
    forall id | id in s.pending ensures id in all && all[id] == s.pending[id] {
      assert id in s.All() && s.All()[id] == s.pending[id];
    }
  }

  lemma {:induction false} StrandedNew(s: State, d: Delta)
    ensures AllStranded(s, d) <= d.nodes.Keys && AllStranded(s, d) !! s.pending.Keys
  {
    forall id | id in AllStranded(s, d) ensures id !in s.pending {
      assert id !in s.All();
    }
  }

  /** A member is welcome whenever the clock can pass it. */
  lemma {:induction false} MemberWelcome(s: State, d: Delta, codecID: Bytes, all: Nodes, dead: set<Tag>, o: Options,
                                         now: Time, physical: Millis)
    requires Family(all, dead, o) && Inside(s, all, dead) && Member(d, codecID, all, dead) && !Blank(codecID)
    ensures Welcome(s, d, codecID, o, now, physical) <==> Subsumed(s, d) || CanPass(d, now, physical)
    ensures ValidDelta(d)
  {
    hide Acyclic, SumBytes, State.Settled, Affordable, Subsumed, CanPass, Blank, Tag.Valid, State.All;
    MemberAffordable(s, d, all, dead, o);
  }

  lemma {:induction false} StaysInside(s: State, d: Delta, t: State, codecID: Bytes, all: Nodes, dead: set<Tag>)
    requires Inside(s, all, dead) && Member(d, codecID, all, dead) && Accepts(s, d, t)
    ensures Inside(t, all, dead)
  {
    hide State.Settled, State.All;
  }

  // ----- a clock with room -----

  /** No tag of the family and no reading so far is beyond this wall time. */
  ghost predicate Early(d: Delta, wall: nat) {
    forall t :: t in TagsOf(d) ==> t.wall <= wall
  }

  lemma {:induction false} NewestValid(d: Delta)
    requires ValidDelta(d) && TagsOf(d) != {}
    ensures Newest(TagsOf(d)) in TagsOf(d) && Newest(TagsOf(d)).Valid()
  {
    hide Tag.Valid, Less, Newest;
    assert IsLeast(Greater, TagsOf(d), Newest(TagsOf(d)));
  }

  /** With room on the clock, a member is accepted and the clock moves by one at most. */
  lemma {:induction false} MemberPasses(s: State, d: Delta, codecID: Bytes, all: Nodes, dead: set<Tag>, o: Options,
                                        now: Time, physical: Millis, wall: nat)
    requires Family(all, dead, o) && Inside(s, all, dead) && Member(d, codecID, all, dead) && !Blank(codecID)
    requires Early(d, wall) && now.wall <= wall && 0 <= physical <= wall < MAX_UINT64
    ensures Welcome(s, d, codecID, o, now, physical) && Ends(s, d, codecID, o, now, physical).clock.wall <= wall + 1
  {
    hide Acyclic, SumBytes, State.Settled, Welcome, Subsumed, Blank, Tag.Valid, State.All, Advance, TagsOf, Newest,
      Screen, Family, ValidDelta;
    MemberWelcome(s, d, codecID, all, dead, o, now, physical);
    WelcomeIff(s, d, codecID, o, now, physical);
    if TagsOf(d) != {} {
      var newest := Newest(TagsOf(d));
      NewestValid(d);
      StepRoom(now, Observe(newest, physical), wall);
      AdvanceEarliest(now, Observe(newest, physical));
    } else {
      NothingNewSubsumed(s, d);
    }
  }

  lemma {:induction false} NothingNewSubsumed(s: State, d: Delta)
    requires TagsOf(d) == {}
    ensures Subsumed(s, d)
  {
    if !Subsumed(s, d) {
      NotSubsumed(s, d);
    }
  }

  // ----- deliveries -----

  /** The deltas and clock readings of a run of deliveries. */
  ghost predicate Deliveries(ds: seq<Delta>, physicals: seq<Millis>, codecID: Bytes, all: Nodes, dead: set<Tag>,
                             wall: nat)
  {
    && |physicals| == |ds|
    && forall k :: 0 <= k < |ds| ==>
      Member(ds[k], codecID, all, dead) && Early(ds[k], wall) && 0 <= physicals[k] <= wall
  }

  /** Each delta was accepted in turn. */
  ghost predicate AcceptedRun(ds: seq<Delta>, states: seq<State>) {
    |states| == |ds| + 1 && forall i :: 0 <= i < |ds| ==> Accepts(states[i], ds[i], states[i + 1])
  }

  lemma {:induction false} AcceptedNext(ds: seq<Delta>, states: seq<State>, n: nat, t: State)
    requires n < |ds| && AcceptedRun(ds[..n], states) && Accepts(states[n], ds[n], t)
    ensures AcceptedRun(ds[..n + 1], states + [t])
  {
    hide Accepts;
  }

  /**
    Whatever the order and the batching, children before parents included, a list takes every part of the family,
    as long as the wall clock is not about to run out.
   */
  method DeliverAll(list: Rga, ds: seq<Delta>, physicals: seq<Millis>, ghost all: Nodes, ghost dead: set<Tag>,
                    ghost wall: nat)
    returns (errors: seq<Option<Error>>, ghost states: seq<State>)
    requires list.Valid() && Family(all, dead, list.options) && Inside(list.Now(), all, dead)
    requires Deliveries(ds, physicals, list.codecID, all, dead, wall)
    requires list.clock.Reading().wall <= wall && wall + |ds| < MAX_UINT64
    modifies list, list.clock, list.index.repr
    ensures list.Valid() && Inside(list.Now(), all, dead)
    ensures |errors| == |ds| && forall k :: 0 <= k < |ds| ==> errors[k].None?
    ensures AcceptedRun(ds, states) && states[0] == old(list.Now()) && states[|ds|] == list.Now()
  {
    hide Rga.Valid, Family, Inside, Member, Early, Welcome, Accepts, Ends, Verdict, AcceptedRun;
    errors, states := [], [list.Now()];
    ghost var owned := list.index.repr;
    var k := 0;
    FirstState(list.Now());
    assert ds[..0] == [];
    while k < |ds|
      invariant 0 <= k <= |ds| && list.Valid() && Inside(list.Now(), all, dead) && fresh(list.index.repr - owned)
      invariant list.index == old(list.index) && list.clock.Reading().wall <= wall + k
      invariant |errors| == k && forall j :: 0 <= j < k ==> errors[j].None?
      invariant |states| == k + 1 && AcceptedRun(ds[..k], states) && states[0] == old(list.Now())
      invariant states[k] == list.Now()
    {
      Nonblank(list);
      EarlyLater(ds[k], wall, wall + k);
      MemberPasses(list.Now(), ds[k], list.codecID, all, dead, list.options, list.clock.Reading(), physicals[k],
        wall + k);
      ghost var before := list.Now();
      var error := list.ApplyDelta(ds[k], physicals[k]);
      StaysInside(before, ds[k], list.Now(), list.codecID, all, dead);
      AcceptedNext(ds, states, k, list.Now());
      errors, states := errors + [error], states + [list.Now()];
      k := k + 1;
    }
    assert ds[..k] == ds;
  }

  lemma {:induction false} FirstState(s: State)
    ensures AcceptedRun([], [s])
  {
  }

  lemma {:induction false} Nonblank(list: Rga)
    requires list.Valid()
    ensures !Blank(list.codecID)
  {
    hide Blank, State.Settled, Seen, Within;
  }

  lemma {:induction false} EarlyLater(d: Delta, wall: nat, later: nat)
    requires Early(d, wall) && wall <= later
    ensures Early(d, later)
  {
    hide TagsOf;
  }

  // ----- the runs that converge exist -----

  /** For all acyclic content there is a settled state that holds it. */
  lemma {:induction false} SettledExists(all: Nodes, dead: set<Tag>) returns (t: State)
    requires ValidNodes(all) && Acyclic(Par(all)) && forall id :: id in dead ==> id.Valid()
    ensures t.Settled() && t.All() == all && t.tombstones == dead
  {
    hide Acyclic, SumBytes, WaitingOf, Tag.Valid, Ground;
    var ground := Ground({}, Par(all));
    var nodes, pending := Restrict(all, ground), Restrict(all, all.Keys - ground);
    t := State(nodes, pending, WaitingOf(pending), SumBytes(pending), dead);
    PartAcyclicToo(nodes, all);
    PartAcyclicToo(pending, all);
    GroundedRooted(all, nodes);
    forall id | id in pending ensures !Attachable(nodes, pending[id]) {
      if Attachable(nodes, pending[id]) {
        GroundClosed({}, Par(all), id);
      }
    }
    assert nodes + pending == all;
  }

  lemma {:induction false} GroundedRooted(all: Nodes, nodes: Nodes)
    requires ValidNodes(all) && nodes == Restrict(all, Ground({}, Par(all))) && Acyclic(Par(nodes))
    ensures Rooted(Par(nodes))
  {
    hide Acyclic, Ground, Tag.Valid;
    ZeroInvalid();
    forall x | x in nodes ensures nodes[x].parent == ZERO || nodes[x].parent in nodes {
      GroundParent({}, Par(all), x);
    }
  }

  /** Every sequence of parts of a family is an accepted run. */
  lemma {:induction false} RunsExist(ds: seq<Delta>, codecID: Bytes, all: Nodes, dead: set<Tag>)
    returns (states: seq<State>)
    requires ValidNodes(all) && Acyclic(Par(all)) && forall id :: id in dead ==> id.Valid()
    requires forall k :: 0 <= k < |ds| ==> Member(ds[k], codecID, all, dead)
    ensures Run(ds, states) && Inside(states[|ds|], all, dead)
    decreases |ds|
  {
    hide State.Settled, Acyclic, Part, Consistent, Tag.Valid, ValidNodes, State.All;
    if ds == [] {
      EmptySettled();
      states := [EMPTY];
      EmptyPart(all);
    } else {
      var n := |ds| - 1;
      var before := RunsExist(ds[..n], codecID, all, dead);
      var s, d := before[n], ds[n];
      UnionPart(s.All(), d.nodes, all);
      PartAcyclicToo(s.All() + d.nodes, all);
      PartValid(s.All() + d.nodes, all);
      var t := SettledExists(s.All() + d.nodes, s.tombstones + d.tombstones);
      states := before + [t];
      RunNext(ds, before, n, t);
    }
  }

  lemma {:induction false} EmptyPart(all: Nodes)
    ensures Part(EMPTY.All(), all)
  {
  }

  lemma {:induction false} PartValid(a: Nodes, all: Nodes)
    requires Part(a, all) && ValidNodes(all)
    ensures ValidNodes(a)
  {
  }

  lemma {:induction false} RunNext(ds: seq<Delta>, states: seq<State>, n: nat, t: State)
    requires |ds| == n + 1 && Run(ds[..n], states) && Accepts(states[n], ds[n], t)
    ensures Run(ds, states + [t])
  {
    hide Accepts;
  }

  // ----- families from deltas -----

  /** Everything in a list of deltas. */
  ghost function UnionOf(ds: seq<Delta>): Nodes {
    if ds == [] then map[] else UnionOf(ds[..|ds| - 1]) + ds[|ds| - 1].nodes
  }

  /** No tag stands for two nodes anywhere in the list. */
  ghost predicate Agreeing(ds: seq<Delta>) {
    forall i, j :: 0 <= i < j < |ds| ==> Consistent(ds[i].nodes, ds[j].nodes)
  }

  /** Every node of the union comes from some delta. */
  lemma {:induction false} UnionFrom(ds: seq<Delta>, id: Tag) returns (k: nat)
    requires id in UnionOf(ds)
    ensures k < |ds| && id in ds[k].nodes && UnionOf(ds)[id] == ds[k].nodes[id]
    decreases |ds|
  {
    var n := |ds| - 1;
    if id in ds[n].nodes {
      k := n;
    } else {
      k := UnionFrom(ds[..n], id);
    }
  }

  lemma {:induction false} InUnion(ds: seq<Delta>, k: nat, id: Tag)
    requires k < |ds| && id in ds[k].nodes
    ensures id in UnionOf(ds)
    decreases |ds|
  {
    if k < |ds| - 1 {
      InUnion(ds[..|ds| - 1], k, id);
    }
  }

  /** Deltas that agree are the parts of one whole. */
  lemma {:induction false} AgreeingParts(ds: seq<Delta>, k: nat)
    requires Agreeing(ds) && k < |ds|
    ensures Part(ds[k].nodes, UnionOf(ds))
  {
    hide UnionOf;
    forall id | id in ds[k].nodes ensures id in UnionOf(ds) && UnionOf(ds)[id] == ds[k].nodes[id] {
      InUnion(ds, k, id);
      var j := UnionFrom(ds, id);
      if j < k {
        assert Consistent(ds[j].nodes, ds[k].nodes);
      } else if k < j {
        assert Consistent(ds[k].nodes, ds[j].nodes);
      }
    }
  }

  /** Valid deltas that agree, whose union is acyclic and within the limits, are the members of a family. */
  lemma {:induction false} AgreeingFamily(ds: seq<Delta>, codecID: Bytes, o: Options)
    requires Agreeing(ds) && Acyclic(Par(UnionOf(ds)))
    requires forall k :: 0 <= k < |ds| ==> ValidDelta(ds[k]) && ds[k].codecID == codecID
    requires forall k, id :: 0 <= k < |ds| && id in ds[k].nodes ==> |ds[k].nodes[id].value| <= o.maxValueBytes
    requires |UnionOf(ds)| <= o.maxNodes && |UnionOf(ds)| <= o.maxPendingNodes
    requires SumBytes(UnionOf(ds)) <= o.maxPendingBytes
    requires |Deleted(ds)| <= o.maxTombstones
    ensures Family(UnionOf(ds), Deleted(ds), o)
    ensures forall k :: 0 <= k < |ds| ==> Member(ds[k], codecID, UnionOf(ds), Deleted(ds))
  {
    hide UnionOf, Acyclic, SumBytes, Tag.Valid, Part, Blank;
    var all := UnionOf(ds);
    forall id | id in all ensures ValidNode(id, all[id]) && |all[id].value| <= o.maxValueBytes {
      var k := UnionFrom(ds, id);
      assert ValidDelta(ds[k]);
    }
    forall k | 0 <= k < |ds| ensures Part(ds[k].nodes, all) && ds[k].tombstones <= Deleted(ds) {
      AgreeingParts(ds, k);
    }
  }
}
