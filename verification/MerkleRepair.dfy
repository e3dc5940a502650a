/** One round of anti-entropy: snapshot, reconcile, fetch, put; afterwards the roots agree. */
module MerkleRepairs {
  import opened Tags
  import opened Wires
  import opened Clocks
  import opened Merkles
  import opened Changes
  import opened Logs
  import opened Stores
  import opened StoreReads
  import opened MerkleIndexes
  import opened StoreMerkles

  lemma {:induction false} LackingIs(local: map<Bytes, Leaf>, remote: seq<Leaf>, t: Tag)
    ensures t in Lacking(local, remote) <==> LeafKey(t) !in local && exists i :: 0 <= i < |remote| && remote[i].hlc == t
  {
    hide LeafKey;
    if remote != [] {
      LackingIs(local, remote[..|remote| - 1], t);
    }
  }

  /** The missing identities come sorted, as the remote inventory is. */
  lemma {:induction false} LackingSorted(local: map<Bytes, Leaf>, remote: seq<Leaf>)
    requires TagsAscend(remote)
    ensures Sorted(Less, Lacking(local, remote))
  {
    hide LeafKey, Less;
    if remote != [] {
      var n := |remote| - 1;
      LackingSorted(local, remote[..n]);
      forall t | t in Lacking(local, remote[..n]) ensures Less(t, remote[n].hlc) {
        LackingIs(local, remote[..n], t);
      }
    }
  }

  /** The local leaves are remote leaves. */
  ghost predicate Within(local: map<Bytes, Leaf>, remote: map<Bytes, Leaf>) {
    forall k :: k in local ==> k in remote && remote[k] == local[k]
  }

  lemma {:induction false} AgreesWithin(local: map<Bytes, Leaf>, remote: seq<Leaf>)
    requires Keyed(local) && Agrees(local, remote)
    ensures Within(local, LeafMap(remote))
  {
    hide LeafMap, LeafKey;
    LeafMapKeyed(remote);
    forall k | k in local ensures k in LeafMap(remote) && LeafMap(remote)[k] == local[k] {
      SameKey(local[k].hlc, LeafMap(remote)[k].hlc);
    }
  }

  /** Whatever is not there yet is among the missing identities from n on. */
  ghost predicate Remaining(local: map<Bytes, Leaf>, remote: map<Bytes, Leaf>, missing: seq<Tag>, n: nat) {
    forall k :: k in remote && k !in local ==> exists j :: n <= j < |missing| && LeafKey(missing[j]) == k
  }

  lemma {:induction false} RemainingAll(local: map<Bytes, Leaf>, remote: seq<Leaf>)
    requires TagsAscend(remote)
    ensures Remaining(local, LeafMap(remote), Lacking(local, remote), 0)
  {
    hide LeafMap, LeafKey, Less;
    LeafMapKeyed(remote);
    forall k | k in LeafMap(remote) && k !in local ensures exists j ::
      0 <= j < |Lacking(local, remote)| && LeafKey(Lacking(local, remote)[j]) == k {
      var t := LeafMap(remote)[k].hlc;
      LeafMapAt(remote, t);
      LackingIs(local, remote, t);
    }
  }

  /** The event for a missing identity makes exactly the leaf the snapshot names. */
  lemma {:induction false} EventMakesLeaf(log: Sized, relay: Bytes, limits: ReadLimits, admits: Change -> bool, t: Tag)
    requires WellFormed(log) && AllAttested(log, relay, limits, admits) && FindTag(log, t).Some?
    ensures var e := EventOf(log, FindTag(log, t).value);
      && e.hlc == Some(t) && LeafFor(t, e.change).Some? && TagsAscend(LeavesOf(log))
      && LeafKey(t) in LeafMap(LeavesOf(log)) && LeafMap(LeavesOf(log))[LeafKey(t)] == LeafFor(t, e.change).value
  {
    hide LeafMap, LeafKey, LeafFor, Attested, LeafOf, EntryOk, DotsDistinct, Less;
    var i := FindTag(log, t).value;
    assert EntryOk(log[i]) && Attested(log[i], relay, limits, admits);
    AttestedLeaf(log[i], relay, limits, admits);
    LeavesAscend(log, relay, limits, admits);
    assert LeavesOf(log)[i].hlc == t;
    LeafMapAt(LeavesOf(log), t);
  }

  /** The two inventories are the same. */
  lemma {:induction false} NothingRemains(local: map<Bytes, Leaf>, remote: map<Bytes, Leaf>, missing: seq<Tag>)
    requires Within(local, remote) && Remaining(local, remote, missing, |missing|)
    ensures local == remote
  {
    hide LeafKey;
  }

  /** The event is the one asked for and makes the remote leaf. */
  ghost predicate Supplies(e: Event, t: Tag, remote: map<Bytes, Leaf>) {
    && e.hlc == Some(t) && LeafFor(t, e.change).Some?
    && LeafKey(t) in remote && remote[LeafKey(t)] == LeafFor(t, e.change).value
  }

  lemma {:induction false} RemainingStep(local: map<Bytes, Leaf>, remote: map<Bytes, Leaf>, missing: seq<Tag>, n: nat,
                                         leaf: Leaf)
    requires Remaining(local, remote, missing, n) && n < |missing|
    ensures Remaining(local[LeafKey(missing[n]) := leaf], remote, missing, n + 1)
  {
    hide LeafKey;
  }

  /** Put every fetched event. */
  method PutAll(index: MerkleIndex, events: seq<Event>, missing: seq<Tag>, ghost remote: map<Bytes, Leaf>)
    requires index.Valid() && |events| == |missing| && Within(index.leaves, remote)
    requires Remaining(index.leaves, remote, missing, 0)
    requires forall k :: 0 <= k < |events| ==> Supplies(events[k], missing[k], remote)
    modifies index`leaves, index.tree
    ensures index.Valid() && index.leaves == remote && index.tree == old(index.tree)
  {
    hide LeafFor, LeafKey, MerkleIndex.Valid;
    var n := 0;
    while n < |events|
      invariant 0 <= n <= |events| && index.Valid() && Within(index.leaves, remote)
      invariant Remaining(index.leaves, remote, missing, n)
    {
      RemainingStep(index.leaves, remote, missing, n, LeafFor(missing[n], events[n].change).value);
      var error := index.Put(events[n].hlc.value, events[n].change);
      assert error != Some(BadEvent) && error != Some(Diverged);
      assert error.Some? ==> error.value.BadEvent? || error.value.Diverged?;
      n := n + 1;
    }
    NothingRemains(index.leaves, remote, missing);
  }

  /** Exactly when a round succeeds, given the log at the time of the snapshot. */
  ghost predicate Repairable(local: map<Bytes, Leaf>, log: seq<Entry>, relay: Bytes, snap: ReadLimits,
                             fetch: ReadLimits, admits: Change -> bool)
  {
    && snap.Valid() && Snapshotable(log, relay, snap, admits)
    && (local == LeafMap(LeavesOf(log))
        || (Agrees(local, LeavesOf(log)) && Fetchable(log, Lacking(local, LeavesOf(log)), relay, fetch, admits)))
  }

  /** With an ideal hash, equal roots are equal inventories. */
  lemma {:induction false} SameRoot(a: map<Bytes, Leaf>, b: map<Bytes, Leaf>)
    requires Keyed(a) && Keyed(b)
    ensures RootOf(Digests(a)) == RootOf(Digests(b)) <==> a == b
  {
    hide RootOf, LeafKey;
    RootsIdentifyMaps(Digests(a), Digests(b));
    if Digests(a) == Digests(b) {
      assert a.Keys == Digests(a).Keys == b.Keys;
      forall k | k in a ensures a[k] == b[k] {
        assert Digests(a)[k] == Digests(b)[k];
        SameKey(a[k].hlc, b[k].hlc);
      }
    }
  }

  /** The leaves of a snapshot are always a well-formed inventory, and what is missing is found in the log. */
  lemma {:induction false} SnapshotInventory(log: Sized, relay: Bytes, snap: ReadLimits, admits: Change -> bool)
    requires WellFormed(log) && snap.Valid() && Snapshotable(log, relay, snap, admits) && log != []
    ensures Inventory(LeavesOf(log), |log|, MAX_UINT64, MAX_STRING_BYTES)
  {
    hide LeafOf, ValidHLC, Attested, DotsDistinct, LeavesSize, Less, TagsGrow;
    LeavesAscend(log, relay, snap, admits);
    forall i | 0 <= i < |log| ensures ValidHLC(LeavesOf(log)[i].hlc, MAX_STRING_BYTES) {
      assert EntryOk(log[i]) && Attested(log[i], relay, snap, admits);
      AttestedLeaf(log[i], relay, snap, admits);
    }
  }

  lemma {:induction false} MissingFound(local: map<Bytes, Leaf>, log: Sized, relay: Bytes, snap: ReadLimits,
                                        admits: Change -> bool)
    requires WellFormed(log) && AllAttested(log, relay, snap, admits)
    ensures forall t :: t in Lacking(local, LeavesOf(log)) ==> FindTag(log, t).Some?
    ensures forall t :: t in Lacking(local, LeavesOf(log)) ==> exists i :: 0 <= i < |log| && LeavesOf(log)[i].hlc == t
  {
    hide LeafOf, Attested, DotsDistinct, TagsGrow, FindTag, LeafKey, Lacking;
    forall t | t in Lacking(local, LeavesOf(log)) ensures FindTag(log, t).Some? && exists i ::
      0 <= i < |log| && LeavesOf(log)[i].hlc == t {
      LackingIs(local, LeavesOf(log), t);
      var i :| 0 <= i < |log| && LeavesOf(log)[i].hlc == t;
      assert EntryOk(log[i]) && Attested(log[i], relay, snap, admits);
      AttestedLeaf(log[i], relay, snap, admits);
      assert Tagged(log, t, i);
    }
  }

  /** The request names only leaves of the snapshot. */
  method Contained(leaves: seq<Leaf>, ids: seq<Tag>) returns (ok: bool)
    ensures ok <==> forall t :: t in ids ==> exists i :: 0 <= i < |leaves| && leaves[i].hlc == t
  {
    hide LeafKey;
    var keys := set leaf | leaf in leaves :: LeafKey(leaf.hlc);
    ok := forall t | t in ids :: LeafKey(t) in keys;
    forall t ensures LeafKey(t) in keys <==> exists i :: 0 <= i < |leaves| && leaves[i].hlc == t {
      if LeafKey(t) in keys {
        var leaf :| leaf in leaves && LeafKey(leaf.hlc) == LeafKey(t);
        SameKey(leaf.hlc, t);
      }
      if i :| 0 <= i < |leaves| && leaves[i].hlc == t {
        assert leaves[i] in leaves;
      }
    }
  }

  /** The fetched events are those of the log at the time of the snapshot, and make its leaves. */
  lemma {:induction false} FetchedSupply(log: Sized, more: Sized, relay: Bytes, snap: ReadLimits,
                                         admits: Change -> bool, missing: seq<Tag>, events: seq<Event>)
    requires WellFormed(log) && TagsGrow(more) && log <= more && AllAttested(log, relay, snap, admits)
    requires |events| == |missing|
    requires forall k :: 0 <= k < |missing| ==> FindTag(log, missing[k]).Some?
    requires forall k :: 0 <= k < |missing| ==>
      FindTag(more, missing[k]).Some? && events[k] == EventOf(more, FindTag(more, missing[k]).value)
    ensures forall k :: 0 <= k < |missing| ==> Supplies(events[k], missing[k], LeafMap(LeavesOf(log)))
  {
    hide WellFormed, LeafMap, LeavesOf, FindTag, EventOf, LeafFor, LeafKey, AllAttested, TagsGrow;
    forall k | 0 <= k < |missing| ensures Supplies(events[k], missing[k], LeafMap(LeavesOf(log))) {
      FindTagGrows(log, more, missing[k]);
      EventMakesLeaf(log, relay, snap, admits, missing[k]);
    }
  }

  /** Compare with the snapshot's inventory and fetch what is missing, while others append. */
  method Exchange(index: MerkleIndex, store: GroupLog, leaves: seq<Leaf>, snap: ReadLimits, fetch: ReadLimits,
                  admits: Change -> bool,
                  between: seq<(Change, Millis)>) returns (ok: bool)
    requires index.Valid() && store.Valid() && snap.Valid() && Snapshotable(store.log, store.config.relay, snap, admits)
    requires leaves == LeavesOf(store.log)
    modifies index`leaves, index.tree, store`group, store`log
    ensures index.Valid() && store.Valid() && index.tree == old(index.tree) && old(store.log) <= store.log
    ensures ok <==>
      Agrees(old(index.leaves), leaves)
        && Fetchable(old(store.log), Lacking(old(index.leaves), leaves), store.config.relay, fetch, admits)
    ensures ok ==> index.leaves == LeafMap(leaves) && Within(old(index.leaves), index.leaves)
    ensures !ok ==> index.leaves == old(index.leaves)
  {
    hide RootOf, LeafMap, Digests, LeavesOf, WellFormed, InStep, MerkleIndex.Valid, Agrees, Within, Remaining, Lacking,
      LeafFor, LeafKey,
      EventOf, FindTag, Fetchable, Snapshotable, Inventory;
    ghost var log, relay := store.log, store.config.relay;
    InventoryOf(log, relay, snap, admits);
    var missing, error := index.Reconcile(leaves);
    Interrupt(store, between);
    if error.Some? {
      assert error.value.BadEvent? || error.value.Diverged?;
      return false;
    }
    MissingFound(index.leaves, log, relay, snap, admits);
    var contained := Contained(leaves, missing);
    FoundEach(missing, log);
    StoreTags(store);
    FetchableGrows(log, store.log, missing, relay, fetch, admits);
    var events := MerkleEvents(store, missing, fetch, admits);
    if !contained || events.Err? {
      return false;
    }
    FetchedFound(store.log, missing, relay, fetch, admits);
    IndexKeyed(index);
    AgreesWithin(index.leaves, leaves);
    RemainingAll(index.leaves, leaves);
    FetchedSupply(log, store.log, relay, snap, admits, missing, events.value);
    PutAll(index, events.value, missing, LeafMap(leaves));
    return true;
  }

  lemma {:induction false} InventoryOf(log: Sized, relay: Bytes, snap: ReadLimits, admits: Change -> bool)
    requires WellFormed(log) && snap.Valid() && Snapshotable(log, relay, snap, admits)
    ensures AllAttested(log, relay, snap, admits) && |LeavesOf(log)| == |log|
    ensures LeavesOf(log) != [] ==> Inventory(LeavesOf(log), |LeavesOf(log)|, MAX_UINT64, MAX_STRING_BYTES)
  {
    hide WellFormed, AllAttested, Inventory;
    if log != [] {
      SnapshotInventory(log, relay, snap, admits);
    }
  }

  lemma {:induction false} FoundEach(missing: seq<Tag>, log: Sized)
    requires forall t :: t in missing ==> FindTag(log, t).Some?
    ensures forall k :: 0 <= k < |missing| ==> FindTag(log, missing[k]).Some?
  {
    hide FindTag;
  }

  lemma {:induction false} StoreTags(store: GroupLog)
    requires store.Valid()
    ensures TagsGrow(store.log)
  {
  }

  lemma {:induction false} FetchedFound(log: seq<Entry>, missing: seq<Tag>, relay: Bytes, fetch: ReadLimits,
                                        admits: Change -> bool)
    requires Fetchable(log, missing, relay, fetch, admits)
    ensures forall k :: 0 <= k < |missing| ==> FindTag(log, missing[k]).Some?
  {
    hide FindTag, Deliverable, IdentityRequest;
    forall k | 0 <= k < |missing| ensures FindTag(log, missing[k]).Some? {
      DeliverableFound(log, missing[k], relay, fetch, admits);
    }
  }

  /**
    A complete round, with appends by others between the snapshot and the fetch: it succeeds exactly when
    Repairable says so, and then the local inventory and its root are those of the snapshot.
   */
  method Repair(index: MerkleIndex, store: GroupLog, snap: ReadLimits, fetch: ReadLimits, admits: Change -> bool,
                between: seq<(Change, Millis)>) returns (ok: bool, root: Hash)
    requires index.Valid() && store.Valid()
    modifies index`leaves, index.tree, store`group, store`log
    ensures index.Valid() && store.Valid() && index.tree == old(index.tree) && old(store.log) <= store.log
    ensures ok <==> Repairable(old(index.leaves), old(store.log), store.config.relay, snap, fetch, admits)
    ensures ok ==> index.leaves == LeafMap(LeavesOf(old(store.log))) && root == RootOf(Digests(index.leaves))
    ensures ok ==> Within(old(index.leaves), index.leaves)
    ensures !ok ==> index.leaves == old(index.leaves)
  {
    hide RootOf, LeafMap, Digests, LeavesOf, WellFormed, InStep, MerkleIndex.Valid, Agrees, Lacking, Fetchable,
      Snapshotable;
    root := index.Root();
    var snapshot := MerkleSnapshot(store, snap, admits);
    if snapshot.Err? {
      return false, root;
    }
    IndexKeyed(index);
    LeafMapKeyed(LeavesOf(store.log));
    SameRoot(index.leaves, LeafMap(LeavesOf(store.log)));
    if root == snapshot.value.root {
      return true, root;
    }
    ok := Exchange(index, store, snapshot.value.leaves, snap, fetch, admits, between);
    root := index.Root();
  }

  lemma {:induction false} IndexKeyed(index: MerkleIndex)
    requires index.Valid()
    ensures Keyed(index.leaves)
  {
  }

  // ----- agreeing replicas can always be repaired -----

  lemma {:induction false} LackingSmall(local: map<Bytes, Leaf>, remote: seq<Leaf>)
    ensures |Lacking(local, remote)| <= |remote| && TagSizes(Lacking(local, remote)) <= LeavesSize(remote)
  {
    hide LeafKey, TagSize;
    if remote != [] {
      var n := |remote| - 1;
      LackingSmall(local, remote[..n]);
      var before, t := Lacking(local, remote[..n]), remote[n].hlc;
      assert (before + [t])[..|before|] == before;
      assert before + [] == before;
    }
  }

  lemma {:induction false} LackingValid(local: map<Bytes, Leaf>, log: Sized, relay: Bytes, limits: ReadLimits,
                                        admits: Change -> bool)
    requires WellFormed(log) && AllAttested(log, relay, limits, admits)
    ensures forall t :: t in Lacking(local, LeavesOf(log)) ==> ValidHLC(t, limits.maxActor)
  {
    hide LeafOf, DotsDistinct, TagsGrow, LeafKey, Lacking, ValidUtf8, Blank, Fits;
    forall t | t in Lacking(local, LeavesOf(log)) ensures ValidHLC(t, limits.maxActor) {
      LackingIs(local, LeavesOf(log), t);
      var i :| 0 <= i < |log| && LeavesOf(log)[i].hlc == t;
      assert EntryOk(log[i]) && Attested(log[i], relay, limits, admits);
      AttestedLeaf(log[i], relay, limits, admits);
    }
  }

  /**
    If every change was published with room for the repair form, an agreeing replica can be repaired within the byte
    budget.
   */
  lemma {:induction false} AgreeingIsRepairable(local: map<Bytes, Leaf>, log: Sized, relay: Bytes, limits: ReadLimits,
                                                admits: Change -> bool)
    requires WellFormed(log) && limits.Valid() && Snapshotable(log, relay, limits, admits) && Roomy(log, limits)
    requires Agrees(local, LeavesOf(log)) && RequestBytes(log, Lacking(local, LeavesOf(log))) <= limits.maxBytes
    ensures Repairable(local, log, relay, limits, limits, admits)
  {
    hide WellFormed, AllAttested, LeavesOf, Lacking, Roomy, FindTag, Agrees, Deliverable, RequestBytes, ValidHLC,
      TagSizes, LeavesSize, Less;
    var missing := Lacking(local, LeavesOf(log));
    LeavesAscend(log, relay, limits, admits);
    LackingSorted(local, LeavesOf(log));
    LackingSmall(local, LeavesOf(log));
    LackingValid(local, log, relay, limits, admits);
    MissingFound(local, log, relay, limits, admits);
    forall k | 0 <= k < |missing|
      ensures Deliverable(log, missing[k], relay, limits, admits) && ValidHLC(missing[k], limits.maxActor) {
      assert missing[k] in missing;
      RoomyDeliverable(log, relay, limits, admits, missing[k]);
    }
  }
}
