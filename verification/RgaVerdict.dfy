/** The verdict on a delta, and what every step of applying one keeps. */
module RgaVerdicts {
  import opened Tags
  import opened Forests
  import opened Clocks
  import opened RgaOrder
  import opened RgaStates
  import opened RgaSplices
  import opened RgaEdits
  import opened RgaBuilds

  // ----- the verdict on a delta -----

  ghost function TagsOf(d: Delta): set<Tag> {
    d.nodes.Keys + (set id | id in d.nodes && d.nodes[id].parent.Valid() :: d.nodes[id].parent) + d.tombstones
  }

  ghost function Newest(tags: set<Tag>): (g: Tag)
    requires tags != {}
    ensures IsLeast(Greater, tags, g)
  {
    GreaterIsStrictTotalOrder();
    LeastExists(Greater, tags);
    var g :| IsLeast(Greater, tags, g);
    g
  }

  lemma {:induction false} NewestIs(tags: set<Tag>, g: Tag)
    requires IsLeast(Greater, tags, g)
    ensures tags != {} && Newest(tags) == g
  {
    GreaterIsStrictTotalOrder();
  }

  lemma {:induction false} NewestMore(tags: set<Tag>, g: Tag, x: Tag)
    requires tags != {} ==> IsLeast(Greater, tags, g)
    ensures tags == {} || Less(g, x) ==> IsLeast(Greater, tags + {x}, x)
    ensures tags != {} && !Less(g, x) ==> IsLeast(Greater, tags + {x}, g)
  {
    LessIsStrictTotalOrder();
  }

  method GreatestTag(d: Delta) returns (greatest: Tag, found: bool)
    ensures found <==> TagsOf(d) != {}
    ensures found ==> greatest == Newest(TagsOf(d))
  {
    hide IsLeast, Less, Newest, Tag.Valid;
    greatest, found := ZERO, false;
    ghost var met: set<Tag> := {};
    var rest := d.nodes.Keys;
    while rest != {}
      invariant rest <= d.nodes.Keys && met <= TagsOf(d) && (found <==> met != {})
      invariant found ==> IsLeast(Greater, met, greatest)
      invariant forall id :: id in d.nodes && id !in rest ==>
        id in met && (d.nodes[id].parent.Valid() ==> d.nodes[id].parent in met)
    {
      var id :| id in rest;
      var parent := d.nodes[id].parent;
      rest := rest - {id};
      NewestMore(met, greatest, id);
      met := met + {id};
      if !found || Less(greatest, id) {
        greatest, found := id, true;
      }
      NewestMore(met, greatest, parent);
      if parent.Valid() {
        met := met + {parent};
        if Less(greatest, parent) {
          greatest := parent;
        }
      }
    }
    var dead := d.tombstones;
    while dead != {}
      invariant dead <= d.tombstones && met <= TagsOf(d) && (found <==> met != {})
      invariant found ==> IsLeast(Greater, met, greatest)
      invariant forall id :: id in d.nodes ==> id in met && (d.nodes[id].parent.Valid() ==> d.nodes[id].parent in met)
      invariant forall id :: id in d.tombstones && id !in dead ==> id in met
    {
      var id :| id in dead;
      dead := dead - {id};
      NewestMore(met, greatest, id);
      met := met + {id};
      if !found || Less(greatest, id) {
        greatest, found := id, true;
      }
    }
    assert met == TagsOf(d);
    if found {
      NewestIs(met, greatest);
    }
  }

  ghost function Added(s: State, d: Delta): Nodes {
    Restrict(d.nodes, d.nodes.Keys - s.All().Keys)
  }

  ghost predicate Subsumed(s: State, d: Delta) {
    d.nodes.Keys <= s.All().Keys && d.tombstones <= s.tombstones
  }

  /** The retention limits, measured before anything that was pending moves over. */
  ghost predicate Fits(s: State, d: Delta, o: Options) {
    var added := Added(s, d);
    var blocked := added.Keys - Ground(s.nodes.Keys, Par(added));
    && |s.nodes| + |s.pending| + |added| <= o.maxNodes && |s.pending| + |blocked| <= o.maxPendingNodes
    && s.pendingBytes + SumBytes(Restrict(added, blocked)) <= o.maxPendingBytes
    && |s.tombstones| + |d.tombstones - s.tombstones| <= o.maxTombstones
  }

  /** The checks that do not involve the clock, in order. */
  ghost function Screen(s: State, d: Delta, codecID: Bytes, o: Options): Option<Error> {
    if d.codecID != codecID || !ValidDelta(d) then Some(InvalidDelta)
    else if exists id :: id in d.nodes && |d.nodes[id].value| > o.maxValueBytes then Some(ResourceLimit)
    else if !Consistent(s.All(), d.nodes) then Some(TagConflict)
    else if Subsumed(s, d) then None
    else if !Acyclic(Par(s.All() + d.nodes)) then Some(InvalidDelta)
    else if !Fits(s, d, o) then Some(ResourceLimit)
    else None
  }

  lemma {:induction false} Screened(s: State, d: Delta, codecID: Bytes, o: Options)
    requires Screen(s, d, codecID, o).None?
    ensures Consistent(s.All(), d.nodes)
  {
  }

  /** Exactly which deltas are refused, and why. */
  ghost function Verdict(s: State, d: Delta, codecID: Bytes, o: Options, now: Time, physical: Millis): Option<Error> {
    if Screen(s, d, codecID, o).Some? then Screen(s, d, codecID, o)
    else if Subsumed(s, d) then None
    else if TagsOf(d) != {} && Advance(now, Observe(Newest(TagsOf(d)), physical)).Some? then None
    else Some(ClockError)
  }

  /** Exactly which full states are refused as a replacement, and why: unlike a delta, one must be complete. */
  ghost function RestoreVerdict(d: Delta, o: Options, now: Time, physical: Millis): Option<Error> {
    if exists id :: id in d.nodes && |d.nodes[id].value| > o.maxValueBytes then Some(ResourceLimit)
    else if |d.nodes| > o.maxNodes || |d.tombstones| > o.maxTombstones then Some(ResourceLimit)
    else if !Rooted(Par(d.nodes)) then Some(InvalidDelta)
    else if TagsOf(d) != {} && Advance(now, Observe(Newest(TagsOf(d)), physical)).None? then Some(ClockError)
    else None
  }

  /** A delta that passed every check, with its new nodes classified. */
  ghost predicate Cleared(s: State, d: Delta, o: Options, added: Nodes, resolved: seq<Tag>, blocked: set<Tag>) {
    && ValidDelta(d) && Consistent(s.All(), d.nodes)
    && ValidNodes(added) && added.Keys !! s.All().Keys && s.All() + added == s.All() + d.nodes
    && Acyclic(Par(s.pending + added))
    && NoDup(resolved) && ParentFirst(s.nodes.Keys, Par(added), resolved)
    && (forall id :: id in resolved ==> id in added)
    && blocked == added.Keys - Elems(resolved)
    && |s.nodes| + |s.pending| + |added| <= o.maxNodes && |s.pending| + |blocked| <= o.maxPendingNodes
    && s.pendingBytes + SumBytes(Restrict(added, blocked)) <= o.maxPendingBytes
    && |s.tombstones + d.tombstones| <= o.maxTombstones
  }

  lemma {:induction false} ClearedValid(s: State, d: Delta, o: Options, added: Nodes, resolved: seq<Tag>,
                                        blocked: set<Tag>)
    requires Cleared(s, d, o, added, resolved, blocked)
    ensures ValidDelta(d)
  {
  }

  method ByteCount(added: Nodes, ids: set<Tag>) returns (total: int)
    requires ids <= added.Keys
    ensures total == SumBytes(Restrict(added, ids))
  {
    total := 0;
    var rest := ids;
    assert Restrict(added, ids - rest) == map[];
    while rest != {}
      invariant rest <= ids && total == SumBytes(Restrict(added, ids - rest))
    {
      var id :| id in rest;
      total := total + NodeBytes(id, added[id]);
      SumBytesAdd(Restrict(added, ids - rest), id, added[id]);
      assert Restrict(added, ids - (rest - {id})) == Restrict(added, ids - rest)[id := added[id]];
      rest := rest - {id};
    }
    assert ids - rest == ids;
  }

  ghost predicate Within(s: State, o: Options) {
    && |s.nodes| + |s.pending| <= o.maxNodes && |s.pending| <= o.maxPendingNodes
    && s.pendingBytes <= o.maxPendingBytes && |s.tombstones| <= o.maxTombstones
  }

  /** Tombstoned leaves that nothing integrated or pending depends on. */
  ghost predicate Droppable(s: State, t: Tag) {
    t in s.nodes && t !in Par(s.nodes).Values && t !in Par(s.pending).Values
  }

  lemma {:induction false} DroppableIs(s: State, t: Tag)
    requires s.Settled()
    ensures Droppable(s, t) <==> t in s.nodes && !(t in s.waiting && s.waiting[t] != {}) && t !in Par(s.nodes).Values
    ensures t in s.nodes ==> t in Par(s.nodes)
  {
    WaitingNonempty(s.pending);
  }

  lemma {:induction false} DroppedSettled(s: State, t: Tag)
    requires s.Settled() && Droppable(s, t) && t in s.tombstones
    ensures var r := s.(nodes := s.nodes - {t}, tombstones := s.tombstones - {t});
      && r.Settled() && Par(r.nodes) == Par(s.nodes) - {t} && Rooted(Par(s.nodes)) && Rooted(Par(r.nodes))
      && r.Visible() == s.Visible()
    ensures t in Par(s.nodes) && Par(s.nodes)[t] == s.nodes[t].parent && t !in Par(s.nodes).Values
  {
    hide Acyclic, SumBytes, WaitingOf, ValidNode, VisibleWalk;
    assert Par(s.nodes - {t}) == Par(s.nodes) - {t};
    CompactOne(Par(s.nodes), s.tombstones, t);
  }

  lemma {:induction false} NextDrop(before: State, now: State, compact: seq<Tag>, i: int)
    requires 0 <= i < |compact| && NoDup(compact) && now.pending == before.pending
    requires forall t :: t in compact ==> t in before.tombstones && Droppable(before, t)
    requires now.nodes == before.nodes - Elems(compact[..i])
    requires now.tombstones == before.tombstones - Elems(compact[..i])
    ensures compact[i] in now.tombstones && Droppable(now, compact[i])
    ensures now.nodes - {compact[i]} == before.nodes - Elems(compact[..i + 1])
    ensures now.tombstones - {compact[i]} == before.tombstones - Elems(compact[..i + 1])
  {
    var t := compact[i];
    assert compact[..i + 1] == compact[..i] + [t];
    assert t in compact && t !in compact[..i] && Droppable(before, t);
    forall x | x in now.nodes ensures Par(now.nodes)[x] != t {
      assert Par(before.nodes)[x] == Par(now.nodes)[x];
    }
  }

  lemma {:induction false} Compacted(s: State, t: State, tags: seq<Tag>, compact: seq<Tag>, now: Time, o: Options)
    requires NoDup(compact) && forall x :: x in compact <==> x in tags && x in s.tombstones
    requires t == s.(nodes := s.nodes - Elems(compact), tombstones := s.tombstones - Elems(compact))
    requires s.Settled() && Seen(s, now) && Within(s, o)
    ensures Elems(compact) == Elems(tags) * s.tombstones && |compact| == |Elems(tags) * s.tombstones|
    ensures t.tombstones == s.tombstones - Elems(tags) && Seen(t, now) && Within(t, o)
  {
    hide State.Settled, Seen, Within, NoDup;
    NoDupCount(compact);
    assert Elems(compact) == Elems(tags) * s.tombstones;
    SeenLess(s, Elems(compact), now);
    WithinLess(s, Elems(compact), o);
  }

  lemma {:induction false} SeenLess(s: State, gone: set<Tag>, now: Time)
    requires s.Settled() && Seen(s, now)
    ensures Seen(s.(nodes := s.nodes - gone, tombstones := s.tombstones - gone), now)
  {
    hide Rooted, Acyclic, SumBytes, WaitingOf, ValidNodes, Attachable, NotAfter;
    var t := s.(nodes := s.nodes - gone, tombstones := s.tombstones - gone);
    forall id | id in t.All() ensures id in s.All() && t.All()[id] == s.All()[id] {
    }
  }

  lemma {:induction false} WithinLess(s: State, gone: set<Tag>, o: Options)
    requires Within(s, o)
    ensures Within(s.(nodes := s.nodes - gone, tombstones := s.tombstones - gone), o)
  {
    assert (s.nodes - gone).Keys == s.nodes.Keys - gone;
    Fewer(s.nodes.Keys - gone, s.nodes.Keys);
    Fewer(s.tombstones - gone, s.tombstones);
  }

  lemma {:induction false} Fewer(a: set<Tag>, b: set<Tag>)
    requires a <= b
    ensures |a| <= |b|
  {
    Cards(a, b - a);
    assert a + (b - a) == b;
  }

  lemma {:induction false} RestoredSeen(codecID: Bytes, nodes: Nodes, tombstones: set<Tag>, was: Time, now: Time,
                                        physical: Millis, o: Options)
    requires ValidDelta(Delta(codecID, nodes, tombstones)) && Rooted(Par(nodes)) && o.Valid()
    requires |nodes| <= o.maxNodes && |tombstones| <= o.maxTombstones
    requires var d := Delta(codecID, nodes, tombstones);
      TagsOf(d) != {} ==> Advance(was, Observe(Newest(TagsOf(d)), physical)) == Some(now)
    ensures var s := EMPTY.(nodes := nodes, tombstones := tombstones);
      s.Settled() && Seen(s, now) && Within(s, o)
  {
    hide Advance, Newest, Rooted, Tag.Valid, State.Settled, Within, Seen, TagsOf;
    var d, s := Delta(codecID, nodes, tombstones), EMPTY.(nodes := nodes, tombstones := tombstones);
    RestoredSettled(nodes, tombstones);
    assert s.All() == EMPTY.All() + d.nodes;
    EmptyFits(was, o);
    RestoredWithin(nodes, tombstones, o);
    if TagsOf(d) != {} {
      SeenAfter(EMPTY, d, s, was, physical);
    } else {
      NothingSeen(d, now);
    }
  }

  lemma {:induction false} NothingSeen(d: Delta, now: Time)
    requires TagsOf(d) == {}
    ensures Seen(EMPTY.(nodes := d.nodes, tombstones := d.tombstones), now)
  {
    assert d.nodes.Keys <= TagsOf(d) && d.tombstones <= TagsOf(d);
  }

  lemma {:induction false} RestoredWithin(nodes: Nodes, tombstones: set<Tag>, o: Options)
    requires o.Valid() && |nodes| <= o.maxNodes && |tombstones| <= o.maxTombstones
    ensures Within(EMPTY.(nodes := nodes, tombstones := tombstones), o)
  {
  }

  lemma {:induction false} RestoredSettled(nodes: Nodes, tombstones: set<Tag>)
    requires ValidNodes(nodes) && Rooted(Par(nodes)) && forall id :: id in tombstones ==> id.Valid()
    ensures EMPTY.(nodes := nodes, tombstones := tombstones).Settled()
  {
    hide Rooted, Acyclic, SumBytes, WaitingOf, ValidNode, Par, Tag.Valid;
    EmptySettled();
  }

  lemma {:induction false} VerdictFacts(s: State, d: Delta, codecID: Bytes, o: Options, now: Time, physical: Millis)
    ensures Verdict(s, d, codecID, o, now, physical) != Some(RangeError)
    ensures Verdict(s, d, codecID, o, now, physical).None? ==> ValidNodes(d.nodes)
  {
  }

  lemma {:induction false} NothingInserted(s: State, d: Delta, ids: seq<Tag>, values: seq<Bytes>, o: int, p: Tag)
    requires s.Settled() && 0 <= o <= |s.Visible()| && IsRun(d.nodes, ids, values, p) && |d.nodes| == 0
    requires d.tombstones == {}
    ensures Accepts(s, d, s) && InsertedAt(s, s, o, ids, values)
  {
    hide State.Settled, VisibleWalk, IsRun;
    SettledRooted(s);
    EmptyRun(d.nodes, ids, values, p);
    assert s.All() + d.nodes == s.All();
    var visible := s.Visible();
    assert visible == visible[..o] + ids + visible[o..];
  }

  lemma {:induction false} EmptyRun(nodes: Nodes, ids: seq<Tag>, values: seq<Bytes>, p: Tag)
    requires IsRun(nodes, ids, values, p) && |nodes| == 0
    ensures nodes == map[] && ids == [] && values == []
  {
    hide Prev;
    if ids != [] {
      FirstIn(ids);
    }
  }

  lemma {:induction false} FirstIn(ids: seq<Tag>)
    requires ids != []
    ensures Elems(ids) != {}
  {
    assert ids[0] in Elems(ids);
  }

  /** One fresh tag per value, each node below the one before it. */
  method IssueRun(clock: HLC, values: seq<Bytes>, ticks: seq<Millis>, anchor: Tag)
    returns (ok: bool, nodes: Nodes, ids: seq<Tag>)
    requires |ticks| >= |values| && Tag(clock.replica, 0, 0).Valid()
    modifies clock
    ensures NotAfter(old(clock.Reading()), clock.Reading())
    ensures ok ==> IsRun(nodes, ids, values, anchor) && Issued(ids, old(clock.Reading()), clock.Reading())
    ensures (ids, clock.Reading(), ok) == IssueAll(clock.replica, old(clock.Reading()), ticks[..|values|])
  {
    hide IsRun, Issued;
    ghost var used := ticks[..|values|];
    ghost var was := clock.Reading();
    nodes, ids := map[], [];
    var parent := anchor;
    NoRun(was, anchor);
    var i := 0;
    while i < |values|
      invariant 0 <= i <= |values| && |ids| == i && parent == Prev(ids, |ids|, anchor) && NotAfter(was, clock.Reading())
      invariant IsRun(nodes, ids, values[..i], anchor) && Issued(ids, was, clock.Reading())
      invariant IssueAll(clock.replica, was, used[..i]) == (ids, clock.Reading(), true)
    {
      ghost var before := clock.Reading();
      assert used[..i + 1][..i] == used[..i];
      var tag := clock.Now(ticks[i]);
      if tag.None? {
        IssuePrefix(clock.replica, was, used, i + 1);
        return false, nodes, ids;
      }
      IssueNext(ids, was, before, clock.replica, ticks[i]);
      RunMore(nodes, ids, values[..i], anchor, tag.value, values[i]);
      assert values[..i + 1] == values[..i] + [values[i]];
      nodes := nodes[tag.value := Node(parent, values[i])];
      ids := ids + [tag.value];
      parent := tag.value;
      i := i + 1;
    }
    assert values[..i] == values && used[..i] == used;
    return true, nodes, ids;
  }

  lemma {:induction false} NoRun(was: Time, p: Tag)
    ensures IsRun(map[], [], [], p) && Issued([], was, was)
  {
  }

  lemma {:induction false} IssueNext(ids: seq<Tag>, was: Time, before: Time, replica: Bytes, tick: Millis)
    requires Issued(ids, was, before) && Tag(replica, 0, 0).Valid() && Advance(before, Issue(tick)).Some?
    ensures var tag := Met(replica, before, Issue(tick)).value;
      Issued(ids + [tag], was, Advance(before, Issue(tick)).value) && tag !in ids
  {
    AdvanceMoves(before, Issue(tick));
    IssueOne(ids, was, before, Met(replica, before, Issue(tick)).value);
  }

  lemma {:induction false} Scan(s: State, d: Delta)
    requires s.Settled()
    ensures !Consistent(s.All(), d.nodes) <==>
      exists id ::
        id in d.nodes
          && ((id in s.nodes && s.nodes[id] != d.nodes[id]) || (id in s.pending && s.pending[id] != d.nodes[id]))
    ensures Subsumed(s, d) <==>
      (forall id :: id in d.nodes ==> id in s.nodes || id in s.pending) && d.tombstones <= s.tombstones
  {
    hide Rooted, Acyclic, SumBytes, WaitingOf, Attachable, ValidNodes;
    forall id ensures id in s.All() <==> id in s.nodes || id in s.pending {
    }
    forall id | id in s.All() ensures s.All()[id] == if id in s.nodes then s.nodes[id] else s.pending[id] {
    }
  }

  lemma {:induction false} SubsumedAccepts(s: State, d: Delta)
    requires s.Settled() && Consistent(s.All(), d.nodes) && Subsumed(s, d)
    ensures Accepts(s, d, s)
  {
    hide State.Settled, State.All;
    assert s.All() + d.nodes == s.All();
  }

  lemma {:induction false} NotSubsumed(s: State, d: Delta)
    requires !Subsumed(s, d)
    ensures TagsOf(d) != {}
  {
  }

  /** The new nodes, and why checking them against the pending buffer is enough. */
  lemma {:induction false} AddedIs(s: State, d: Delta, added: Nodes)
    requires s.Settled() && ValidDelta(d) && Consistent(s.All(), d.nodes)
    requires added == map id | id in d.nodes && id !in s.nodes && id !in s.pending :: d.nodes[id]
    ensures added == Added(s, d) && added.Keys !! s.All().Keys && s.All() + added == s.All() + d.nodes
    ensures ValidNodes(added)
    ensures Par(s.pending) + Par(added) == Par(s.pending + added) && Acyclic(Par(s.pending))
    ensures Acyclic(Par(s.pending + added)) <==> Acyclic(Par(s.All() + d.nodes))
    ensures forall id :: id in added || id in s.pending ==> id.Valid()
    ensures added.Keys !! s.nodes.Keys
  {
    hide SumBytes, WaitingOf, Attachable, Acyclic, Rooted, Tag.Valid;
    ZeroInvalid();
    assert ValidNodes(added) && ValidNodes(s.pending);
    NewParts(s.nodes, s.pending, d.nodes, added);
    NoCycleThroughNodes(s, added);
  }

  lemma {:induction false} NewParts(nodes: Nodes, pending: Nodes, more: Nodes, added: Nodes)
    requires added == map id | id in more && id !in nodes && id !in pending :: more[id]
    requires Consistent(nodes + pending, more)
    ensures added.Keys !! (nodes + pending).Keys && nodes + pending + added == nodes + pending + more
    ensures added == Restrict(more, more.Keys - (nodes + pending).Keys)
    ensures Par(pending) + Par(added) == Par(pending + added)
  {
  }

  lemma {:induction false} NoCycleThroughNodes(s: State, added: Nodes)
    requires s.Settled() && added.Keys !! s.All().Keys && ZERO !in added && ZERO !in s.pending
    ensures Acyclic(Par(s.pending + added)) <==> Acyclic(Par(s.All() + added))
  {
    hide SumBytes, WaitingOf, Attachable, ValidNodes;
    var part, whole := Par(s.pending + added), Par(s.All() + added);
    forall x | x in part ensures x in whole && whole[x] == part[x] {
    }
    if Acyclic(whole) {
      AcyclicPart(whole, part);
    }
    if Acyclic(part) {
      forall S: set<Tag> ensures !Trap(whole, S) {
        if Trap(whole, S) {
          TrapBeyond(s, added, S);
        }
      }
    }
  }

  lemma {:induction false} TrapBeyond(s: State, added: Nodes, S: set<Tag>)
    requires s.Settled() && added.Keys !! s.All().Keys && ZERO !in added && ZERO !in s.pending
    requires Acyclic(Par(s.pending + added))
    ensures !Trap(Par(s.All() + added), S)
  {
    hide SumBytes, WaitingOf, Attachable, ValidNodes, Acyclic, Trap;
    var part, whole := Par(s.pending + added), Par(s.All() + added);
    if Trap(whole, S) {
      TrapAboveNodes(s, added, S);
      TrapPart(part, map x | x in S :: whole[x], S);
      NoTrap(part, S);
    }
  }

  /** A trap has no integrated node in it. */
  lemma {:induction false} TrapAboveNodes(s: State, added: Nodes, S: set<Tag>)
    requires s.Settled() && added.Keys !! s.All().Keys && ZERO !in added && ZERO !in s.pending
    requires Trap(Par(s.All() + added), S)
    ensures forall x :: x in S ==>
      x !in s.nodes && x in Par(s.pending + added) && Par(s.pending + added)[x] == Par(s.All() + added)[x]
    ensures Trap(map x | x in S :: Par(s.All() + added)[x], S)
  {
    hide SumBytes, WaitingOf, Attachable, ValidNodes, Acyclic, Par;
    ParParts(s.nodes, s.pending, added);
    var whole, base := Par(s.All() + added), Par(s.nodes);
    var low := S * s.nodes.Keys;
    forall x | x in low ensures x in base && base[x] in low {
      assert x in whole;
    }
    NoTrap(base, low);
    assert low == {};
  }

  lemma {:induction false} ParParts(nodes: Nodes, pending: Nodes, added: Nodes)
    requires nodes.Keys !! pending.Keys && added.Keys !! (nodes + pending).Keys
    ensures forall x :: x in nodes ==> Par(nodes + pending + added)[x] == Par(nodes)[x]
    ensures forall x :: x in Par(nodes + pending + added) && x !in nodes ==>
      x in Par(pending + added) && Par(pending + added)[x] == Par(nodes + pending + added)[x]
  {
    forall x | x in nodes ensures (nodes + pending + added)[x] == nodes[x] {
      assert x in nodes + pending;
    }
  }

  lemma {:induction false} NoTrap(par: map<Tag, Tag>, S: set<Tag>)
    requires Acyclic(par)
    ensures !Trap(par, S)
  {
  }

  lemma {:induction false} FitsIs(s: State, d: Delta, o: Options, added: Nodes, blocked: set<Tag>, bytes: int)
    requires added == Added(s, d) && blocked == added.Keys - Ground(s.nodes.Keys, Par(added))
    requires bytes == SumBytes(Restrict(added, blocked))
    ensures Fits(s, d, o) <==>
      && |s.nodes| + |s.pending| + |added| <= o.maxNodes && |s.pending| + |blocked| <= o.maxPendingNodes
      && s.pendingBytes + bytes <= o.maxPendingBytes
      && |s.tombstones| + |d.tombstones - s.tombstones| <= o.maxTombstones
    ensures |s.tombstones + d.tombstones| == |s.tombstones| + |d.tombstones - s.tombstones|
  {
    hide Ground, SumBytes, Restrict, Added;
    Cards(s.tombstones, d.tombstones - s.tombstones);
    assert s.tombstones + d.tombstones == s.tombstones + (d.tombstones - s.tombstones);
  }

  /** After witnessing the newest tag of a delta, everything retained has been seen. */
  lemma {:induction false} SeenAfter(s: State, d: Delta, t: State, now: Time, physical: Millis)
    requires Seen(s, now) && ValidDelta(d) && TagsOf(d) != {}
    requires Advance(now, Observe(Newest(TagsOf(d)), physical)).Some?
    requires t.All() == s.All() + d.nodes && t.tombstones == s.tombstones + d.tombstones
    ensures Seen(t, Advance(now, Observe(Newest(TagsOf(d)), physical)).value)
  {
    hide State.All, Tag.Valid, Advance;
    var g := Newest(TagsOf(d));
    var next := Advance(now, Observe(g, physical)).value;
    AdvanceMoves(now, Observe(g, physical));
    forall id | id in t.All() ensures NotAfter(TimeOf(id), next) && NotAfter(TimeOf(t.All()[id].parent), next) {
      if id in d.nodes {
        assert ValidNode(id, d.nodes[id]);
        NotNewer(d, id, next);
        NotNewer(d, d.nodes[id].parent, next);
      }
    }
    forall id | id in t.tombstones ensures NotAfter(TimeOf(id), next) {
      if id in d.tombstones {
        NotNewer(d, id, next);
      }
    }
  }

  lemma {:induction false} NotNewer(d: Delta, x: Tag, next: Time)
    requires TagsOf(d) != {} && Before(TimeOf(Newest(TagsOf(d))), next)
    requires x == ZERO || x in TagsOf(d)
    ensures NotAfter(TimeOf(x), next)
  {
    hide TagsOf;
    var g := Newest(TagsOf(d));
    assert x == g || x == ZERO || Greater(g, x);
  }

  lemma {:induction false} SettledKept(s: State, added: Nodes)
    requires s.Settled() && added.Keys !! s.All().Keys
    ensures s.Kept() && s.nodes.Keys !! s.pending.Keys && added.Keys !! s.nodes.Keys && added.Keys !! s.pending.Keys
  {
    hide Rooted, Acyclic, SumBytes, WaitingOf, ValidNodes, Attachable;
    forall id | id in s.nodes || id in s.pending ensures id in s.All() {
    }
  }

  lemma {:induction false} SettledBury(s: State, dead: set<Tag>)
    requires s.Settled() && forall id :: id in dead ==> id.Valid()
    ensures s.(tombstones := s.tombstones + dead).Settled()
  {
    hide Rooted, Acyclic, SumBytes, WaitingOf, Tag.Valid, Par;
  }

  lemma {:induction false} AdmittedApart(nodes: Nodes, added: Nodes, resolved: seq<Tag>, blocked: set<Tag>)
    requires added.Keys !! nodes.Keys && (forall id :: id in resolved ==> id in added)
    requires blocked == added.Keys - Elems(resolved)
    ensures blocked !! Admitted(nodes, added, resolved).Keys && blocked <= added.Keys
  {
    hide Admitted;
    AdmittedIs(nodes, added, resolved);
  }

  lemma {:induction false} Absorbed(s: State, t: State, added: Nodes, resolved: seq<Tag>, blocked: set<Tag>)
    requires s.nodes.Keys !! s.pending.Keys && added.Keys !! s.nodes.Keys && added.Keys !! s.pending.Keys
    requires (forall id :: id in resolved ==> id in added) && blocked == added.Keys - Elems(resolved)
    requires t.nodes == Admitted(s.nodes, added, resolved) && t.pending == s.pending + Restrict(added, blocked)
    ensures t.All() == s.All() + added
    ensures |t.pending| == |s.pending| + |blocked| && |t.nodes| + |t.pending| == |s.nodes| + |s.pending| + |added|
  {
    hide Admitted, Restrict;
    AdmittedIs(s.nodes, added, resolved);
    Parted(s.nodes, s.pending, added, Admitted(s.nodes, added, resolved), Elems(resolved), blocked);
  }

  lemma {:induction false} Parted(nodes: Nodes, pending: Nodes, added: Nodes, more: Nodes, taken: set<Tag>,
                                  blocked: set<Tag>)
    requires nodes.Keys !! pending.Keys && added.Keys !! nodes.Keys && added.Keys !! pending.Keys
    requires taken <= added.Keys && blocked == added.Keys - taken
    requires more.Keys == nodes.Keys + taken
    requires forall id :: id in more ==> more[id] == if id in taken then added[id] else nodes[id]
    ensures more + (pending + Restrict(added, blocked)) == nodes + pending + added
    ensures |more| + |pending + Restrict(added, blocked)| == |nodes| + |pending| + |added|
    ensures |pending + Restrict(added, blocked)| == |pending| + |blocked|
  {
    hide Restrict;
    PartedMap(nodes, pending, added, more, taken, blocked);
    PartedCards(nodes.Keys, pending.Keys, added.Keys, taken, blocked);
    SameCard(more, nodes.Keys + taken);
    SameCard(pending + Restrict(added, blocked), pending.Keys + blocked);
    SameCard(nodes, nodes.Keys);
    SameCard(pending, pending.Keys);
    SameCard(added, added.Keys);
  }

  lemma {:induction false} SameCard(m: Nodes, keys: set<Tag>)
    requires m.Keys == keys
    ensures |m| == |keys|
  {
  }

  lemma {:induction false} PartedCards(nodes: set<Tag>, pending: set<Tag>, added: set<Tag>, taken: set<Tag>,
                                       blocked: set<Tag>)
    requires added !! nodes && added !! pending && taken <= added && blocked == added - taken
    ensures |nodes + taken| + |pending + blocked| == |nodes| + |pending| + |added|
    ensures |pending + blocked| == |pending| + |blocked|
  {
    Cards(nodes, taken);
    Cards(pending, blocked);
    Cards(taken, blocked);
    assert added == taken + blocked;
  }

  lemma {:induction false} PartedMap(nodes: Nodes, pending: Nodes, added: Nodes, more: Nodes, taken: set<Tag>,
                                     blocked: set<Tag>)
    requires nodes.Keys !! pending.Keys && added.Keys !! nodes.Keys && added.Keys !! pending.Keys
    requires taken <= added.Keys && blocked == added.Keys - taken
    requires more.Keys == nodes.Keys + taken
    requires forall id :: id in more ==> more[id] == if id in taken then added[id] else nodes[id]
    ensures more + (pending + Restrict(added, blocked)) == nodes + pending + added
    ensures (pending + Restrict(added, blocked)).Keys == pending.Keys + blocked
  {
    var left, right := more + (pending + Restrict(added, blocked)), nodes + pending + added;
    forall id ensures id in left <==> id in right {
    }
    forall id | id in left ensures left[id] == right[id] {
    }
  }

  /** Nothing attachable is missing from the work list. */
  ghost predicate Covers(s: State, ready: seq<Tag>) {
    forall id :: id in s.pending && Attachable(s.nodes, s.pending[id]) ==> id in ready
  }

  lemma {:induction false} CoveredBy(s: State)
    requires s.Kept() && Covers(s, [])
    ensures s.Settled()
  {
  }

  lemma {:induction false} CoversMore(s: State, t: State, id: Tag, ready: seq<Tag>, next: seq<Tag>)
    requires Covers(s, ready) && id in s.pending && ready != [] && ready[0] == id
    requires t.nodes == s.nodes[id := s.pending[id]] && t.pending == s.pending - {id}
    requires forall x :: x in ready[1..] ==> x in next
    requires forall x :: x in t.pending && t.pending[x].parent == id ==> x in next
    ensures Covers(t, next)
  {
    assert ready == [ready[0]] + ready[1..];
  }

  lemma {:induction false} PendingValid(s: State, id: Tag)
    requires s.Kept() && id in s.pending
    ensures id != ZERO && id !in s.nodes && ValidNode(id, s.pending[id])
  {
    ZeroInvalid();
  }

  lemma {:induction false} OneLess(pending: Nodes, id: Tag)
    requires id in pending
    ensures |pending - {id}| == |pending| - 1
  {
    assert (pending - {id}).Keys == pending.Keys - {id};
  }

  lemma {:induction false} AllWaiting(s: State, p: Tag)
    requires s.Kept()
    ensures forall id :: id in s.pending && s.pending[id].parent == p ==> p in s.waiting && id in s.waiting[p]
  {
    forall id | id in s.pending && s.pending[id].parent == p ensures p in s.waiting && id in s.waiting[p] {
      WaitingHas(s.pending, id);
    }
  }

  ghost function Restrict(nodes: Nodes, ids: set<Tag>): Nodes {
    map id | id in nodes && id in ids :: nodes[id]
  }

  lemma {:induction false} RestrictNone(pending: Nodes, added: Nodes)
    ensures pending + Restrict(added, {}) == pending && SumBytes(Restrict(added, {})) == 0
  {
  }

  lemma {:induction false} RestrictMore(pending: Nodes, added: Nodes, ids: set<Tag>, id: Tag)
    requires ids <= added.Keys && id in added && id !in ids && added.Keys !! pending.Keys
    requires Acyclic(Par(pending + added))
    ensures pending + Restrict(added, ids + {id}) == (pending + Restrict(added, ids))[id := added[id]]
    ensures SumBytes(Restrict(added, ids + {id})) == NodeBytes(id, added[id]) + SumBytes(Restrict(added, ids))
    ensures Acyclic(Par(pending + Restrict(added, ids + {id}))) && id !in pending + Restrict(added, ids)
  {
    hide SumBytes, NodeBytes, Acyclic;
    var some := Restrict(added, ids);
    assert Restrict(added, ids + {id}) == some[id := added[id]];
    SumBytesAdd(some, id, added[id]);
    AcyclicPart(Par(pending + added), Par(pending + Restrict(added, ids + {id})));
  }

  /** The nodes after admitting the listed ones in turn. */
  ghost function Admitted(nodes: Nodes, added: Nodes, ids: seq<Tag>): (r: Nodes)
    requires forall id :: id in ids ==> id in added
  {
    if ids == [] then nodes
    else
      var n := |ids| - 1;
      assert ids[n] in ids;
      Admitted(nodes, added, ids[..n])[ids[n] := added[ids[n]]]
  }

  lemma {:induction false} AdmittedIs(nodes: Nodes, added: Nodes, ids: seq<Tag>)
    requires forall id :: id in ids ==> id in added
    ensures Admitted(nodes, added, ids).Keys == nodes.Keys + Elems(ids)
    ensures forall id :: id in Admitted(nodes, added, ids) ==>
      Admitted(nodes, added, ids)[id] == if id in ids then added[id] else nodes[id]
    decreases |ids|
  {
    if ids != [] {
      var n := |ids| - 1;
      AdmittedIs(nodes, added, ids[..n]);
      assert ids == ids[..n] + [ids[n]];
    }
  }

  lemma {:induction false} NextAdmitted(s: State, added: Nodes, resolved: seq<Tag>, i: int)
    requires 0 <= i < |resolved| && ValidNodes(added) && added.Keys !! s.All().Keys
    requires NoDup(resolved) && ParentFirst(s.nodes.Keys, Par(added), resolved)
    ensures forall id :: id in resolved ==> id in added
    ensures var t, id := s.(nodes := Admitted(s.nodes, added, resolved[..i])), resolved[i];
      && id in added && id != ZERO && ValidNode(id, added[id])
      && id !in t.All() && Attachable(t.nodes, added[id])
      && t.nodes[id := added[id]] == Admitted(s.nodes, added, resolved[..i + 1])
  {
    hide State.Kept, Tag.Valid, Admitted;
    ZeroInvalid();
    var id := resolved[i];
    AdmittedIs(s.nodes, added, resolved[..i]);
    AdmittedNext(s.nodes, added, resolved, i);
    assert id !in resolved[..i];
  }

  lemma {:induction false} AdmittedNone(nodes: Nodes, added: Nodes)
    ensures Admitted(nodes, added, []) == nodes
  {
  }

  lemma {:induction false} AdmittedNext(nodes: Nodes, added: Nodes, ids: seq<Tag>, i: int)
    requires 0 <= i < |ids| && forall id :: id in ids ==> id in added
    ensures Admitted(nodes, added, ids[..i])[ids[i] := added[ids[i]]] == Admitted(nodes, added, ids[..i + 1])
  {
    assert ids[..i + 1][..i] == ids[..i];
  }

  lemma {:induction false} EmptyFits(now: Time, o: Options)
    requires o.Valid()
    ensures Seen(EMPTY, now) && Within(EMPTY, o) && Par(EMPTY.nodes) == map[]
  {
  }
}
