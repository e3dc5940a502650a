/** The insert-only list as an object: delivery, local edits and compaction. */
module RgaLists {
  import opened Tags
  import opened Forests
  import opened Clocks
  import opened Cycles
  import opened RgaOrder
  import opened RgaStates
  import opened RgaIndexes
  import opened RgaSplices
  import opened RgaEdits
  import opened RgaBuilds
  import opened RgaVerdicts
  import opened EditOutcomes
  import opened RgaOutcomes
  import opened RgaAcceptances

  class Rga {
    const clock: HLC
    const codecID: Bytes
    const options: Options
    var nodes: Nodes
    var pending: Nodes
    var waitingByParent: map<Tag, set<Tag>>
    var pendingBytes: int
    var tombstones: set<Tag>
    var version: Uint64
    var index: RgaIndex

    ghost function Now(): State
      reads this`nodes, this`pending, this`waitingByParent, this`pendingBytes, this`tombstones
    {
      State(nodes, pending, waitingByParent, pendingBytes, tombstones)
    }

    /** The index describes exactly the integrated nodes and the tombstones. */
    ghost predicate Indexed()
      reads this`index, this`nodes, this`tombstones, index, index.repr
    {
      && this !in index.repr && clock !in index.repr
      && index.Valid() && index.par == Par(nodes) && index.hidden == tombstones
    }

    ghost predicate Valid()
      reads this`index, this`nodes, this`pending, this`waitingByParent, this`pendingBytes, this`tombstones, clock,
        index, index.repr
    {
      && Now().Settled() && Indexed() && Seen(Now(), clock.Reading()) && Within(Now(), options)
      && Tag(clock.replica, 0, 0).Valid() && options.Valid() && !Blank(codecID)
    }

    /** The visible positions. */
    ghost function Shown(): seq<Tag>
      requires Now().Settled()
      reads this`nodes, this`pending, this`waitingByParent, this`pendingBytes, this`tombstones
    {
      Now().Visible()
    }

    constructor (clock: HLC, codecID: Bytes, options: Options)
      requires options.Valid() && Tag(clock.replica, 0, 0).Valid() && !Blank(codecID)
      ensures Valid() && Now() == EMPTY && this.clock == clock && this.codecID == codecID && this.options == options
      ensures fresh(index.repr)
    {
      hide RgaIndex.Valid, State.Settled, Seen, Within, Options.Valid;
      this.clock, this.codecID, this.options := clock, codecID, options;
      nodes, pending, waitingByParent, pendingBytes, tombstones, version := map[], map[], map[], 0, {}, 0;
      index := new RgaIndex(0, 0);
      new;
      EmptySettled();
      EmptyFits(clock.Reading(), options);
    }

    /** Record a node and put it into the index. */
    method Admit(id: Tag, item: Node)
      requires Indexed() && id !in nodes && id != ZERO && Attachable(nodes, item)
      modifies this`nodes, index.repr
      ensures nodes == old(nodes)[id := item] && Indexed() && fresh(index.repr - old(index.repr))
    {
      hide RgaIndex.Valid, Tag.Valid;
      var entryPriority: Uint64, exitPriority: Uint64 := *, *;
      PairsKnown(index, item.parent);
      index.Integrate(id, item.parent, id in tombstones, entryPriority, exitPriority);
      nodes := nodes[id := item];
      assert index.par == Par(nodes);
    }

    method Enqueue(id: Tag, item: Node)
      modifies this`pending, this`waitingByParent, this`pendingBytes
      ensures pending == old(pending)[id := item] && waitingByParent == WaitMore(old(waitingByParent), id, item.parent)
      ensures pendingBytes == old(pendingBytes) + NodeBytes(id, item)
    {
      pending := pending[id := item];
      if item.parent !in waitingByParent {
        waitingByParent := waitingByParent[item.parent := {}];
      }
      waitingByParent := waitingByParent[item.parent := waitingByParent[item.parent] + {id}];
      pendingBytes := pendingBytes + NodeBytes(id, item);
    }

    method Dequeue(id: Tag)
      requires id in pending && pending[id].parent in waitingByParent
      modifies this`pending, this`waitingByParent, this`pendingBytes
      ensures pending == old(pending) - {id}
      ensures waitingByParent == WaitLess(old(waitingByParent), id, old(pending)[id].parent)
      ensures pendingBytes == old(pendingBytes) - NodeBytes(id, old(pending)[id])
    {
      var item := pending[id];
      pending := pending - {id};
      pendingBytes := pendingBytes - NodeBytes(id, item);
      waitingByParent := waitingByParent[item.parent := waitingByParent[item.parent] - {id}];
      if waitingByParent[item.parent] == {} {
        waitingByParent := waitingByParent - {item.parent};
      }
    }

    /** Integrate the resolved nodes, parents first. */
    method AdmitAll(added: Nodes, resolved: seq<Tag>)
      requires Now().Kept() && Indexed() && ValidNodes(added) && added.Keys !! Now().All().Keys
      requires NoDup(resolved) && ParentFirst(nodes.Keys, Par(added), resolved)
      requires forall id :: id in resolved ==> id in added
      modifies this`nodes, index.repr
      ensures Now().Kept() && Indexed() && fresh(index.repr - old(index.repr))
      ensures nodes == Admitted(old(nodes), added, resolved)
    {
      hide State.Kept, ParentFirst, RgaIndex.Valid, Tag.Valid, ValidNode, Attachable, Admitted, NoDup, Par, ValidNodes;
      ghost var before, owned := Now(), index.repr;
      AdmittedNone(nodes, added);
      var i := 0;
      while i < |resolved|
        invariant 0 <= i <= |resolved| && Now().Kept() && Indexed() && fresh(index.repr - owned)
        invariant Now() == before.(nodes := Admitted(before.nodes, added, resolved[..i]))
        modifies this`nodes, index.repr
      {
        var id := resolved[i];
        NextAdmitted(before, added, resolved, i);
        AdmitKept(Now(), id, added[id]);
        Admit(id, added[id]);
        i := i + 1;
      }
      assert resolved[..i] == resolved;
    }

    method EnqueueAll(added: Nodes, blocked: set<Tag>)
      requires Now().Kept() && ValidNodes(added) && added.Keys !! pending.Keys && blocked <= added.Keys
      requires blocked !! nodes.Keys
      requires Acyclic(Par(pending + added))
      modifies this`pending, this`waitingByParent, this`pendingBytes
      ensures Now().Kept() && pending == old(pending) + Restrict(added, blocked)
      ensures pendingBytes == old(pendingBytes) + SumBytes(Restrict(added, blocked))
    {
      hide State.Kept, NodeBytes, SumBytes, WaitMore, Acyclic, Restrict, Par, ValidNode;
      ghost var before := pending;
      var rest := blocked;
      RestrictNone(before, added);
      assert blocked - rest == {};
      while rest != {}
        invariant rest <= blocked && Now().Kept() && pending == before + Restrict(added, blocked - rest)
        invariant pendingBytes == old(pendingBytes) + SumBytes(Restrict(added, blocked - rest))
      {
        var id :| id in rest;
        RestrictMore(before, added, blocked - rest, id);
        EnqueueKept(Now(), id, added[id]);
        Enqueue(id, added[id]);
        assert blocked - (rest - {id}) == blocked - rest + {id};
        rest := rest - {id};
      }
      assert blocked - rest == blocked;
    }

    /** Everything waiting for an integrated parent. */
    method ReadyNodes() returns (ready: seq<Tag>)
      requires Now().Kept()
      ensures Covers(Now(), ready)
    {
      hide StrictTotalOrder, SortSet, Sorted, Rooted, Acyclic, SumBytes, Tag.Valid;
      ZeroInvalid();
      LessIsStrictTotalOrder();
      var open := set p | p in waitingByParent && (!p.Valid() || p in nodes);
      var parents := SortKeys(Less, open);
      SortedNoDup(open);
      ready := [];
      var i := 0;
      while i < |parents|
        invariant 0 <= i <= |parents|
        invariant forall p, id :: p in parents[..i] && p in waitingByParent && id in waitingByParent[p] ==> id in ready
      {
        assert parents[i] in parents;
        var more := SortKeys(Less, waitingByParent[parents[i]]);
        SortedNoDup(waitingByParent[parents[i]]);
        ready := ready + more;
        assert parents[..i + 1] == parents[..i] + [parents[i]];
        i := i + 1;
      }
      assert parents[..i] == parents;
      forall id | id in pending && Attachable(nodes, pending[id]) ensures id in ready {
        WaitingHas(pending, id);
        assert pending[id].parent in open;
      }
    }

    method MoveReady(id: Tag)
      requires Now().Kept() && Indexed() && id in pending && Attachable(nodes, pending[id])
      modifies this`nodes, this`pending, this`waitingByParent, this`pendingBytes, index.repr
      ensures Now().Kept() && Indexed() && fresh(index.repr - old(index.repr)) && Now().All() == old(Now().All())
      ensures nodes == old(nodes)[id := old(pending)[id]] && pending == old(pending) - {id} && id !in old(nodes)
      ensures pendingBytes <= old(pendingBytes) && |nodes| == old(|nodes|) + 1 && |pending| == old(|pending|) - 1
    {
      hide State.Kept, RgaIndex.Valid, Par, State.All, SumBytes, WaitLess, Tag.Valid, Attachable;
      OneLess(pending, id);
      var item := pending[id];
      PendingValid(Now(), id);
      MoveOver(Now(), id);
      Dequeue(id);
      Admit(id, item);
    }

    /** Take the next ready node; it moves over if it is still pending and attachable. */
    method StepReady(ready: seq<Tag>) returns (next: seq<Tag>)
      requires Now().Kept() && Indexed() && ready != [] && Covers(Now(), ready)
      modifies this`nodes, this`pending, this`waitingByParent, this`pendingBytes, index.repr
      ensures Now().Kept() && Indexed() && fresh(index.repr - old(index.repr))
      ensures Now().All() == old(Now().All()) && Covers(Now(), next) && pendingBytes <= old(pendingBytes)
      ensures |nodes| + |pending| == old(|nodes| + |pending|)
      ensures |pending| < old(|pending|) || (|pending| == old(|pending|) && |next| < |ready|)
    {
      hide State.Kept, RgaIndex.Valid, Par, State.All, Tag.Valid, StrictTotalOrder, SortSet;
      LessIsStrictTotalOrder();
      ZeroInvalid();
      var id := ready[0];
      next := ready[1..];
      if id in pending {
        PendingValid(Now(), id);
        if !pending[id].parent.Valid() || pending[id].parent in nodes {
          ghost var before := Now();
          MoveReady(id);
          AllWaiting(Now(), id);
          if id in waitingByParent {
            var more := SortKeys(Less, waitingByParent[id]);
            SortedNoDup(waitingByParent[id]);
            next := next + more;
          }
          CoversMore(before, Now(), id, ready, next);
        }
      }
    }

    /** Move every pending node over whose parent has become available, and what waits for it. */
    method IntegrateReady()
      requires Now().Kept() && Indexed()
      modifies this`nodes, this`pending, this`waitingByParent, this`pendingBytes, index.repr
      ensures Now().Settled() && Indexed() && fresh(index.repr - old(index.repr))
      ensures Now().All() == old(Now().All())
      ensures |pending| <= old(|pending|) && pendingBytes <= old(pendingBytes)
      ensures |nodes| + |pending| == old(|nodes| + |pending|)
    {
      hide State.Kept, RgaIndex.Valid, Par, State.All, Covers;
      ghost var all, owned := Now().All(), index.repr;
      var ready := ReadyNodes();
      while ready != []
        invariant Now().Kept() && Indexed() && fresh(index.repr - owned) && Now().All() == all && Covers(Now(), ready)
        invariant |pending| <= old(|pending|) && pendingBytes <= old(pendingBytes)
        invariant |nodes| + |pending| == old(|nodes| + |pending|)
        decreases |pending|, |ready|
      {
        ready := StepReady(ready);
      }
      CoveredBy(Now());
    }

    method Bury(id: Tag)
      requires Indexed() && id != ZERO
      modifies this`tombstones, index.repr
      ensures Indexed() && index.repr == old(index.repr) && tombstones == old(tombstones) + {id}
    {
      hide RgaIndex.Valid;
      tombstones := tombstones + {id};
      index.Hide(id);
    }

    method BuryAll(dead: set<Tag>)
      requires Indexed() && ZERO !in dead
      modifies this`tombstones, index.repr
      ensures Indexed() && index.repr == old(index.repr) && tombstones == old(tombstones) + dead
    {
      hide Indexed;
      ghost var owned := index.repr;
      var rest := dead;
      while rest != {}
        invariant rest <= dead && Indexed() && index.repr == owned && tombstones == old(tombstones) + (dead - rest)
        modifies this`tombstones, index.repr
      {
        var id :| id in rest;
        if id !in tombstones {
          Bury(id);
        }
        rest := rest - {id};
      }
    }

    /** Integrate the resolved new nodes and buffer the blocked ones. */
    method Receive(added: Nodes, resolved: seq<Tag>, blocked: set<Tag>)
      requires Now().Settled() && Indexed() && ValidNodes(added) && added.Keys !! Now().All().Keys
      requires Acyclic(Par(pending + added))
      requires NoDup(resolved) && ParentFirst(nodes.Keys, Par(added), resolved)
      requires forall id :: id in resolved ==> id in added
      requires blocked == added.Keys - Elems(resolved)
      modifies this`nodes, this`pending, this`waitingByParent, this`pendingBytes, index.repr
      ensures Now().Kept() && Indexed() && fresh(index.repr - old(index.repr))
      ensures Now().All() == old(Now().All()) + added
      ensures |pending| == old(|pending|) + |blocked| && |nodes| + |pending| == old(|nodes| + |pending|) + |added|
      ensures pendingBytes == old(pendingBytes) + SumBytes(Restrict(added, blocked))
    {
      hide RgaIndex.Valid, ParentFirst, State.Kept, State.Settled, State.All, Acyclic, SumBytes, Admitted, Restrict,
        Par, NoDup, ValidNodes, Elems;
      ghost var before := Now();
      SettledKept(before, added);
      AdmittedApart(before.nodes, added, resolved, blocked);
      AdmitAll(added, resolved);
      assert Now() == before.(nodes := nodes) && fresh(index.repr - old(index.repr));
      hide Indexed;
      EnqueueAll(added, blocked);
      Absorbed(before, Now(), added, resolved, blocked);
    }

    /** The mutation phase of a delivery, after every check has passed. */
    method Absorb(added: Nodes, resolved: seq<Tag>, blocked: set<Tag>, dead: set<Tag>)
      requires Now().Settled() && Indexed() && ValidNodes(added) && added.Keys !! Now().All().Keys
      requires Acyclic(Par(pending + added))
      requires NoDup(resolved) && ParentFirst(nodes.Keys, Par(added), resolved)
      requires forall id :: id in resolved ==> id in added
      requires blocked == added.Keys - Elems(resolved) && forall id :: id in dead ==> id.Valid()
      modifies this`nodes, this`pending, this`waitingByParent, this`pendingBytes, this`tombstones, index.repr
      ensures Now().Settled() && Indexed() && fresh(index.repr - old(index.repr))
      ensures Now().All() == old(Now().All()) + added && tombstones == old(tombstones) + dead
      ensures |pending| <= old(|pending|) + |blocked| && |nodes| + |pending| == old(|nodes| + |pending|) + |added|
      ensures pendingBytes <= old(pendingBytes) + SumBytes(Restrict(added, blocked))
    {
      hide RgaIndex.Valid, ParentFirst, State.Kept, State.Settled, Acyclic, SumBytes, Restrict, Par, NoDup, ValidNodes,
        Tag.Valid;
      ghost var before := Now();
      Receive(added, resolved, blocked);
      IntegrateReady();
      ZeroInvalid();
      SettledBury(Now(), dead);
      BuryAll(dead);
    }

    /** Every check on a delta, without touching anything. */
    method Judge(delta: Delta)
      returns (error: Option<Error>, nothingNew: bool, added: Nodes, resolved: seq<Tag>, blocked: set<Tag>)
      requires Now().Settled()
      ensures error == Screen(Now(), delta, codecID, options)
      ensures nothingNew ==> error.None? && Subsumed(Now(), delta)
      ensures error.None? && !nothingNew ==>
        !Subsumed(Now(), delta) && Cleared(Now(), delta, options, added, resolved, blocked)
    {
      hide State.Kept, State.Settled, State.All, Acyclic, SumBytes, Ground, Fits, Par, Consistent, Subsumed, Added,
        Restrict, ParentFirst, NoDup, ValidDelta, ValidNodes;
      nothingNew, added, resolved, blocked := false, map[], [], {};
      if delta.codecID != codecID || !ValidDelta(delta) {
        return Some(InvalidDelta), nothingNew, added, resolved, blocked;
      }
      if exists id :: id in delta.nodes && |delta.nodes[id].value| > options.maxValueBytes {
        return Some(ResourceLimit), nothingNew, added, resolved, blocked;
      }
      Scan(Now(), delta);
      if exists id ::
        id in delta.nodes
          && ((id in nodes && nodes[id] != delta.nodes[id]) || (id in pending && pending[id] != delta.nodes[id])) {
        return Some(TagConflict), nothingNew, added, resolved, blocked;
      }
      if (forall id :: id in delta.nodes ==> id in nodes || id in pending) && delta.tombstones <= tombstones {
        return None, true, added, resolved, blocked;
      }
      error, added, resolved, blocked := Measure(delta);
    }

    /** The checks that look at the whole prospective state: cycles and retention limits. */
    method Measure(delta: Delta) returns (error: Option<Error>, added: Nodes, resolved: seq<Tag>, blocked: set<Tag>)
      requires Now().Settled() && ValidDelta(delta) && Consistent(Now().All(), delta.nodes)
      ensures error
           == if !Acyclic(Par(Now().All() + delta.nodes)) then Some(InvalidDelta) else if !Fits(Now(), delta, options)
             then Some(ResourceLimit) else None
      ensures error.None? ==> Cleared(Now(), delta, options, added, resolved, blocked)
    {
      hide State.Kept, State.Settled, State.All, Acyclic, SumBytes, Ground, Fits, Par, Consistent, Added, Restrict,
        ParentFirst, NoDup, ValidDelta, ValidNodes;
      resolved, blocked := [], {};
      added := map id | id in delta.nodes && id !in nodes && id !in pending :: delta.nodes[id];
      AddedIs(Now(), delta, added);
      var acyclic := AcyclicAgainst(Par(added), Par(pending));
      if !acyclic {
        return Some(InvalidDelta), added, resolved, blocked;
      }
      resolved, blocked := Classify(nodes, added);
      var bytes := ByteCount(added, blocked);
      FitsIs(Now(), delta, options, added, blocked, bytes);
      if |nodes| + |pending| + |added| > options.maxNodes || |pending| + |blocked| > options.maxPendingNodes
         || pendingBytes + bytes > options.maxPendingBytes
         || |tombstones| + |delta.tombstones - tombstones| > options.maxTombstones {
        return Some(ResourceLimit), added, resolved, blocked;
      }
      return None, added, resolved, blocked;
    }

    /** Witness the newest tag, then absorb a delta that passed every check. */
    method Commit(delta: Delta, added: Nodes, resolved: seq<Tag>, blocked: set<Tag>, physical: Millis)
      returns (ok: bool)
      requires Valid() && !Subsumed(Now(), delta) && Cleared(Now(), delta, options, added, resolved, blocked)
      modifies this, clock, index.repr
      ensures Valid() && index == old(index) && fresh(index.repr - old(index.repr))
      ensures ok
           == (TagsOf(delta) != {} && Advance(old(clock.Reading()), Observe(Newest(TagsOf(delta)), physical)).Some?)
      ensures ok ==> Accepts(old(Now()), delta, Now())
      ensures ok ==> clock.Reading() == Advance(old(clock.Reading()), Observe(Newest(TagsOf(delta)), physical)).value
      ensures !ok ==> Now() == old(Now()) && version == old(version) && clock.Reading() == old(clock.Reading())
      ensures ok ==> version == Bump(old(version))
    {
      hide RgaIndex.Valid, State.Settled, Seen, Within, Newest, TagsOf, Subsumed, Cleared, Advance;
      ghost var before, was := Now(), clock.Reading();
      NotSubsumed(before, delta);
      assert ValidDelta(delta) by {
        ClearedValid(before, delta, options, added, resolved, blocked);
      }
      var greatest, found := GreatestTag(delta);
      ok := clock.Witness(greatest, physical);
      if ok {
        AbsorbCleared(delta, added, resolved, blocked);
        version := Bump(version);
        SeenAfter(before, delta, Now(), was, physical);
      }
    }

    method AbsorbCleared(delta: Delta, added: Nodes, resolved: seq<Tag>, blocked: set<Tag>)
      requires Now().Settled() && Indexed() && Within(Now(), options)
      requires Cleared(Now(), delta, options, added, resolved, blocked)
      modifies this`nodes, this`pending, this`waitingByParent, this`pendingBytes, this`tombstones, index.repr
      ensures Now().Settled() && Indexed() && fresh(index.repr - old(index.repr)) && Within(Now(), options)
      ensures Accepts(old(Now()), delta, Now())
    {
      hide RgaIndex.Valid, State.Settled, ParentFirst, NoDup, Acyclic, SumBytes, Ground, ValidNodes, Consistent, Par,
        Restrict;
      Absorb(added, resolved, blocked, delta.tombstones);
    }

    /**
      Deliver a delta. It is refused exactly as Verdict says, and then nothing changes; otherwise
      the new state holds everything the old one held and everything in the delta.
     */
    method ApplyDelta(delta: Delta, physical: Millis) returns (error: Option<Error>)
      requires Valid()
      modifies this, clock, index.repr
      ensures Valid() && index == old(index) && fresh(index.repr - old(index.repr))
      ensures error.None? <==> Welcome(old(Now()), delta, codecID, options, old(clock.Reading()), physical)
      ensures error == Verdict(old(Now()), delta, codecID, options, old(clock.Reading()), physical)
      ensures Outcome(error, clock.Reading())
           == Ends(old(Now()), delta, codecID, options, old(clock.Reading()), physical)
      ensures error.None? ==> Accepts(old(Now()), delta, Now())
      ensures error.None? ==> version == if Subsumed(old(Now()), delta) then old(version) else Bump(old(version))
      ensures error.Some? ==> Now() == old(Now()) && version == old(version) && clock.Reading() == old(clock.Reading())
    {
      hide RgaIndex.Valid, State.Settled, Seen, Within, Newest, TagsOf, Subsumed, Cleared, Advance, Screen, Welcome;
      WelcomeIff(Now(), delta, codecID, options, clock.Reading(), physical);
      var nothingNew, added, resolved, blocked;
      error, nothingNew, added, resolved, blocked := Judge(delta);
      if error.Some? {
        return;
      }
      Screened(Now(), delta, codecID, options);
      if nothingNew {
        SubsumedAccepts(Now(), delta);
        return;
      }
      var ok := Commit(delta, added, resolved, blocked, physical);
      if !ok {
        return Some(ClockError);
      }
    }

    /** Replace the list by a decoded full state, rebuilding the index; all or nothing. */
    method Restore(nodes: Nodes, tombstones: set<Tag>, physical: Millis) returns (error: Option<Error>)
      requires Valid() && ValidDelta(Delta(codecID, nodes, tombstones))
      modifies this, clock
      ensures Valid() && (index == old(index) || fresh(index.repr))
      ensures error == RestoreVerdict(Delta(codecID, nodes, tombstones), options, old(clock.Reading()), physical)
      ensures error.None? <==> Restorable(Delta(codecID, nodes, tombstones), options, old(clock.Reading()), physical)
      ensures error.None? ==> version == Bump(old(version))
      ensures error.Some? ==> Now() == old(Now()) && version == old(version) && clock.Reading() == old(clock.Reading())
      ensures error.None? ==> Rooted(Par(nodes)) && Now() == EMPTY.(nodes := nodes, tombstones := tombstones)
    {
      hide RgaIndex.Valid, State.Settled, Seen, Within, Rooted, Newest, TagsOf, Advance, Tag.Valid, Restorable;
      RestorableIff(Delta(codecID, nodes, tombstones), options, clock.Reading(), physical);
      if exists id :: id in nodes && |nodes[id].value| > options.maxValueBytes {
        return Some(ResourceLimit);
      }
      if |nodes| > options.maxNodes || |tombstones| > options.maxTombstones {
        return Some(ResourceLimit);
      }
      ZeroInvalid();
      var rebuilt, ok := BuildIndex(nodes, tombstones);
      if !ok {
        return Some(InvalidDelta);
      }
      var greatest, found := GreatestTag(Delta(codecID, nodes, tombstones));
      ghost var was := clock.Reading();
      if found {
        var fine := clock.Witness(greatest, physical);
        if !fine {
          return Some(ClockError);
        }
      }
      RestoredSeen(codecID, nodes, tombstones, was, clock.Reading(), physical, options);
      Replace(nodes, tombstones, rebuilt);
      return None;
    }

    method Replace(nodes: Nodes, tombstones: set<Tag>, rebuilt: RgaIndex)
      requires rebuilt.Valid() && rebuilt.par == Par(nodes) && rebuilt.hidden == tombstones && this !in rebuilt.repr
      requires clock !in rebuilt.repr
      modifies this
      ensures Indexed() && index == rebuilt && Now() == EMPTY.(nodes := nodes, tombstones := tombstones)
      ensures version == Bump(old(version))
    {
      hide RgaIndex.Valid, Par;
      this.nodes, this.tombstones, index := nodes, tombstones, rebuilt;
      pending, waitingByParent, pendingBytes := map[], map[], 0;
      version := Bump(version);
    }

    // ----- local edits -----

    /** Insert values before a visible offset; one reading of the physical clock per value and one for delivery. */
    method Insert(offset: int, values: seq<Bytes>, ticks: seq<Millis>)
      returns (delta: Delta, error: Option<Error>, ids: seq<Tag>)
      requires Valid() && |ticks| == |values| + 1
      modifies this, clock, index.repr
      ensures Valid() && index == old(index) && fresh(index.repr - old(index.repr))
      ensures Outcome(error, clock.Reading())
           == InsertOutcome(|old(Shown())|, old(|nodes| + |pending|), offset, values, ticks, options, clock.replica,
             old(clock.Reading()))
      ensures error.Some? ==> Now() == old(Now())
      ensures error.None? ==> Accepts(old(Now()), delta, Now()) && InsertedAt(old(Now()), Now(), offset, ids, values)
      ensures error.None? ==> ids == IssueAll(clock.replica, old(clock.Reading()), ticks[..|values|]).0
      ensures error.None? ==> InsertDelta(old(Now()), delta, codecID, offset, ids, values)
      ensures error.Some? ==> delta == NO_DELTA
    {
      hide RgaIndex.Valid, State.Settled, Seen, Within, Accepts, InsertedAt, VisibleWalk, IssueAll, Finish, Blank;
      delta, ids := NO_DELTA, [];
      SettledRooted(Now());
      if offset < 0 {
        return delta, Some(RangeError), ids;
      }
      var count := index.VisibleCount();
      if offset > count {
        return delta, Some(RangeError), ids;
      }
      var parent := ZERO;
      if offset > 0 {
        var found;
        parent, found := index.VisibleAt(offset - 1);
      }
      if exists i :: 0 <= i < |values| && |values[i]| > options.maxValueBytes {
        return delta, Some(InvalidCodec), ids;
      }
      delta, error, ids := InsertBelow(offset, parent, values, ticks);
    }

    /** Issue a tag per value and apply the run below its parent. */
    method InsertBelow(offset: int, parent: Tag, values: seq<Bytes>, ticks: seq<Millis>)
      returns (delta: Delta, error: Option<Error>, ids: seq<Tag>)
      requires Valid() && |ticks| == |values| + 1 && At(Now().Visible(), offset, parent)
      requires forall i :: 0 <= i < |values| ==> |values[i]| <= options.maxValueBytes
      modifies this, clock, index.repr
      ensures Valid() && index == old(index) && fresh(index.repr - old(index.repr))
      ensures Outcome(error, clock.Reading())
           == InsertOutcome(|old(Shown())|, old(|nodes| + |pending|), offset, values, ticks, options, clock.replica,
             old(clock.Reading()))
      ensures error.Some? ==> Now() == old(Now())
      ensures error.None? ==> Accepts(old(Now()), delta, Now()) && InsertedAt(old(Now()), Now(), offset, ids, values)
      ensures error.None? ==> ids == IssueAll(clock.replica, old(clock.Reading()), ticks[..|values|]).0
      ensures error.None? ==> InsertDelta(old(Now()), delta, codecID, offset, ids, values)
      ensures error.Some? ==> delta == NO_DELTA
    {
      hide RgaIndex.Valid, State.Settled, Seen, Within, Accepts, InsertedAt, IsRun, Issued, VisibleWalk, Verdict,
        IssueAll, Finish, Ends, Blank;
      delta := NO_DELTA;
      ghost var before, was := Now(), clock.Reading();
      SettledRooted(before);
      var ok, run;
      ok, run, ids := IssueRun(clock, values, ticks, parent);
      SeenLater(before, was, clock.Reading());
      if !ok {
        return delta, Some(ClockError), ids;
      }
      delta := Delta(codecID, run, {});
      RunSize(run, ids, values, parent);
      if |run| == 0 {
        NothingInserted(before, delta, ids, values, offset, parent);
        return delta, None, ids;
      }
      ghost var issued := clock.Reading();
      RunEnds(before, delta, ids, values, offset, parent, options, was, issued, ticks[|values|]);
      error := ApplyDelta(delta, ticks[|values|]);
      VerdictFacts(before, delta, codecID, options, issued, ticks[|values|]);
      if error.Some? {
        return NO_DELTA, error, ids;
      }
      InsertExact(before, delta, Now(), ids, values, offset, parent, was, issued);
    }

    /** Hide count visible positions from offset on. */
    method Delete(offset: int, count: int, physical: Millis) returns (delta: Delta, error: Option<Error>)
      requires Valid()
      modifies this, clock, index.repr
      ensures Valid() && index == old(index) && fresh(index.repr - old(index.repr))
      ensures Outcome(error, clock.Reading())
           == DeleteOutcome(old(Shown()), old(|tombstones|), offset, count, options, old(clock.Reading()), physical)
      ensures error.Some? ==> Now() == old(Now())
      ensures error.None? ==> Accepts(old(Now()), delta, Now()) && DeletedAt(old(Now()), Now(), offset, count)
      ensures error.None? ==> DeleteDelta(old(Now()), delta, codecID, offset, count)
      ensures error.Some? ==> delta == NO_DELTA
    {
      hide RgaIndex.Valid, State.Settled, Seen, Within, VisibleWalk, Verdict, Ends, Finish, Blank, DeletedAt,
        DeleteDelta, Welcome, Accepts;
      delta := NO_DELTA;
      ghost var before, was := Now(), clock.Reading();
      SettledRooted(before);
      if offset < 0 || count < 0 {
        return delta, Some(RangeError);
      }
      var positions := index.VisiblePositions();
      assert positions == before.Visible() == Shown();
      hide State.Visible;
      if offset > |positions| || count > |positions| - offset {
        return delta, Some(RangeError);
      }
      var range := positions[offset..offset + count];
      delta := Delta(codecID, map[], set id | id in range);
      assert delta.tombstones == Elems(range);
      RangeHandedOut(before, delta, codecID, offset, count);
      BuryEnds(before, delta, offset, count, options, was, physical);
      error := ApplyDelta(delta, physical);
      if error.Some? {
        return NO_DELTA, error;
      }
      DeleteExact(before, delta, Now(), offset, count);
    }

    // ----- compaction -----

    /** The check phase: the requested tombstones, or nothing if one of them cannot go. */
    method Compactable(tags: seq<Tag>) returns (ok: bool, compact: seq<Tag>)
      requires Now().Settled() && Indexed()
      ensures ok <==> forall t :: t in tags && t in tombstones ==> Droppable(Now(), t)
      ensures ok ==> NoDup(compact) && forall t :: t in compact <==> t in tags && t in tombstones
    {
      hide RgaIndex.Valid, State.Settled, Par, Droppable;
      compact := [];
      var seen: set<Tag> := {};
      var i := 0;
      while i < |tags|
        invariant 0 <= i <= |tags| && NoDup(compact)
        invariant forall t :: t in seen <==> t in tags[..i]
        invariant forall t :: t in compact <==> t in tags[..i] && t in tombstones
        invariant forall t :: t in tags[..i] && t in tombstones ==> Droppable(Now(), t)
      {
        var tag := tags[i];
        assert tags[..i + 1] == tags[..i] + [tag];
        if tag !in seen {
          seen := seen + {tag};
          if tag in tombstones {
            DroppableIs(Now(), tag);
            if tag !in nodes || (tag in waitingByParent && waitingByParent[tag] != {}) {
              return false, compact;
            }
            var children := index.ChildCount(tag);
            if children > 0 {
              return false, compact;
            }
            NoDupConcat(compact, [tag]);
            compact := compact + [tag];
          }
        }
        i := i + 1;
      }
      assert tags[..i] == tags;
      return true, compact;
    }

    /** One removal; once the check phase has passed it cannot fail. */
    method Drop(tag: Tag) returns (ok: bool)
      requires Now().Settled() && Indexed() && tag in tombstones && Droppable(Now(), tag)
      modifies this`nodes, this`tombstones, index.repr
      ensures ok && Now().Settled() && Indexed() && index.repr == old(index.repr)
      ensures nodes == old(nodes) - {tag} && tombstones == old(tombstones) - {tag}
      ensures Now().Visible() == old(Shown())
    {
      hide RgaIndex.Valid, State.Settled, VisibleWalk, Par;
      ghost var before := Now();
      DroppedSettled(before, tag);
      ok := index.RemoveLeaf(tag, nodes[tag].parent);
      nodes := nodes - {tag};
      tombstones := tombstones - {tag};
    }

    /**
      Remove exactly the requested tombstones, all or none. Whatever is removed was an invisible
      leaf without dependents, so the visible list stays the same.
     */
    method CompactTombstones(tags: seq<Tag>) returns (count: int, error: Option<Error>)
      requires Valid()
      modifies this, index.repr
      ensures Valid() && index == old(index) && index.repr == old(index.repr)
      ensures error.Some? <==>
        exists t :: t in tags && (!t.Valid() || (t in old(tombstones) && !Droppable(old(Now()), t)))
      ensures error.Some? ==>
        error == Some(UnsafeCompaction) && count == 0 && Now() == old(Now()) && version == old(version)
      ensures error.None? ==> version == if count > 0 then Bump(old(version)) else old(version)
      ensures error.None? ==> count == |Elems(tags) * old(tombstones)|
      ensures error.None? ==>
        nodes == old(nodes) - (Elems(tags) * old(tombstones)) && tombstones == old(tombstones) - Elems(tags)
      ensures error.None? ==> pending == old(pending) && Now().Visible() == old(Shown())
    {
      hide RgaIndex.Valid, State.Settled, VisibleWalk, Par, Droppable, NoDup, Seen, Within, Tag.Valid, Acyclic,
        State.Visible, Elems;
      ghost var before := Now();
      SettledRooted(before);
      if exists t :: t in tags && !t.Valid() {
        return 0, Some(UnsafeCompaction);
      }
      var ok, compact := Compactable(tags);
      if !ok {
        return 0, Some(UnsafeCompaction);
      }
      DropAll(compact);
      Compacted(before, Now(), tags, compact, clock.Reading(), options);
      if |compact| > 0 {
        version := Bump(version);
      }
      return |compact|, None;
    }

    method DropAll(compact: seq<Tag>)
      requires Now().Settled() && Indexed() && NoDup(compact)
      requires forall t :: t in compact ==> t in tombstones && Droppable(Now(), t)
      modifies this`nodes, this`tombstones, index.repr
      ensures Now().Settled() && Indexed() && index.repr == old(index.repr)
      ensures nodes == old(nodes) - Elems(compact) && tombstones == old(tombstones) - Elems(compact)
      ensures Now().Visible() == old(Shown())
    {
      hide RgaIndex.Valid, State.Settled, VisibleWalk, Par, Droppable, NoDup;
      ghost var before, owned := Now(), index.repr;
      SettledRooted(before);
      var i := 0;
      assert nodes == nodes - Elems(compact[..0]) && tombstones == tombstones - Elems(compact[..0]);
      while i < |compact|
        invariant 0 <= i <= |compact| && Now().Settled() && Indexed() && index.repr == owned
        invariant nodes == before.nodes - Elems(compact[..i]) && tombstones == before.tombstones - Elems(compact[..i])
        invariant Rooted(Par(nodes)) && Now().Visible() == before.Visible()
        modifies this`nodes, this`tombstones, index.repr
      {
        var tag := compact[i];
        NextDrop(before, Now(), compact, i);
        var dropped := Drop(tag);
        i := i + 1;
        SettledRooted(Now());
      }
      assert compact[..i] == compact;
    }
  }
}
