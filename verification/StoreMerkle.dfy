/** Anti-entropy over the durable log: the snapshot, the requested events, and a complete repair. */
module StoreMerkles {
  import opened Tags
  import opened Wires
  import opened Merkles
  import opened MerkleTrees
  import opened Changes
  import opened Logs
  import opened Stores
  import opened StoreReads
  import opened MerkleIndexes

  datatype Snapshot = Snapshot(root: Hash, highWater: nat, hlc: Option<Tag>, leaves: seq<Leaf>)

  /** The entry can be part of a snapshot for this relay and reader. */
  predicate Attested(e: Entry, relay: Bytes, limits: ReadLimits, admits: Change -> bool) {
    Readable(e.hlc, relay, limits.maxActor) && Fits(e.change, limits, admits)
  }

  ghost predicate AllAttested(log: seq<Entry>, relay: Bytes, limits: ReadLimits, admits: Change -> bool) {
    forall i :: 0 <= i < |log| ==> Attested(log[i], relay, limits, admits)
  }

  /** The leaf of an entry; entries without a tag have none that matters. */
  function LeafOf(e: Entry): Leaf {
    if e.hlc.Some? && LeafFor(e.hlc.value, e.change).Some? then LeafFor(e.hlc.value, e.change).value
      else Leaf(ZERO, Zero)
  }

  ghost function LeavesOf(log: seq<Entry>): (r: seq<Leaf>)
    ensures |r| == |log| && forall i :: 0 <= i < |log| ==> r[i] == LeafOf(log[i])
  {
    seq(|log|, i requires 0 <= i < |log| => LeafOf(log[i]))
  }

  lemma {:induction false} AttestedLeaf(e: Entry, relay: Bytes, limits: ReadLimits, admits: Change -> bool)
    requires EntryOk(e) && Attested(e, relay, limits, admits)
    ensures e.hlc.Some? && LeafFor(e.hlc.value, e.change) == Some(LeafOf(e)) && LeafOf(e).hlc == e.hlc.value
    ensures ValidHLC(e.hlc.value, MAX_STRING_BYTES)
  {
    hide Encodable, Envelope, TagBytes, ValidUtf8, Blank;
  }

  /** The leaves of an attested log ascend by tag, as the relay issued the tags. */
  lemma {:induction false} LeavesAscend(log: seq<Entry>, relay: Bytes, limits: ReadLimits, admits: Change -> bool)
    requires WellFormed(log) && AllAttested(log, relay, limits, admits)
    ensures TagsAscend(LeavesOf(log))
  {
    hide EntryOk, Attested, LeafOf, Compare;
    var leaves := LeavesOf(log);
    forall i, j | 0 <= i < j < |log| ensures Less(leaves[i].hlc, leaves[j].hlc) {
      assert EntryOk(log[i]) && EntryOk(log[j]);
      AttestedLeaf(log[i], relay, limits, admits);
      AttestedLeaf(log[j], relay, limits, admits);
    }
  }

  /** The whole log can be attested within the budget. */
  ghost predicate Snapshotable(log: seq<Entry>, relay: Bytes, limits: ReadLimits, admits: Change -> bool) {
    relay != [] && |log| <= limits.maxEvents && AllAttested(log, relay, limits, admits)
      && LeavesSize(LeavesOf(log)) <= limits.maxBytes
  }

  /** Check one entry of the log and make its leaf. */
  method SnapshotOne(b: Buckets, ghost log: Sized, n: Uint64, relay: Bytes, limits: ReadLimits, admits: Change -> bool,
                     used: Uint64, soFar: nat)
    returns (r: Result<Leaf>)
    requires InStep(b, log) && WellFormed(log) && limits.Valid() && 1 <= n <= |log| && used <= limits.maxBytes
    requires relay != []
    ensures r.Ok? <==>
      soFar < limits.maxEvents && Attested(log[n - 1], relay, limits, admits)
        && used + LeafBytes(LeafOf(log[n - 1])) <= limits.maxBytes
    ensures r.Ok? ==>
      r.value == LeafOf(log[n - 1]) && LeafFor(r.value.hlc, log[n - 1].change) == Some(r.value)
        && log[n - 1].hlc == Some(r.value.hlc)
    ensures r.Err? ==> r.error.AntiEntropyUnavailable? || r.error.CorruptStore?
  {
    hide EventsOf, DotsOf, HlcsOf, HlcIndexOf, TotalBytes, LastTag, ActorMaxima, Envelope, SequenceKey, UnmarshalChange,
      DotsDistinct, EntryOk;
    hide TagBytes, RelayHLCState, ValidHLC, LeafFor, Encodable, LeafBytes, LeafOf, Less;
    ghost var e := log[n - 1];
    assert EntryOk(e);
    EventAt(log, n);
    HlcAt(log, n);
    var key := SequenceKey(n);
    if key !in b.events || key !in b.hlcs || soFar >= limits.maxEvents {
      return Err(AntiEntropyUnavailable);
    }
    TagFits(e);
    RelayStateRoundTrip(e.hlc.value, relay, limits.maxActor);
    var tag := RelayHLCState(b.hlcs[key], relay, limits.maxActor);
    if tag.None? {
      return Err(CorruptStore);
    }
    var change := DecodeOne(e, b.events[key], limits);
    if change.None? || !admits(change.value) {
      return Err(CorruptStore);
    }
    AttestedLeaf(e, relay, limits, admits);
    var leaf := LeafFor(tag.value, change.value);
    if leaf.None? || LeafBytes(leaf.value) > limits.maxBytes - used {
      return Err(AntiEntropyUnavailable);
    }
    assert Tagged(log, tag.value, n - 1);
    HlcIndexAt(log, tag.value);
    if LeafKey(tag.value) !in b.hlcIndex || b.hlcIndex[LeafKey(tag.value)] != n {
      return Err(AntiEntropyUnavailable);
    }
    return Ok(leaf.value);
  }

  lemma {:induction false} TagFits(e: Entry)
    requires EntryOk(e)
    ensures e.hlc.Some? ==> |TagBytes(e.hlc.value)| <= MAX_UINT64
  {
    if e.hlc.Some? {
      TagBytesFit(e.hlc.value);
    }
  }

  method DecodeOne(ghost e: Entry, value: Bytes, limits: ReadLimits) returns (c: Option<Change>)
    requires EntryOk(e) && value == Envelope(e.change) && limits.Valid()
    ensures c == if |value| <= limits.maxMessage && |e.change.dot.actor| <= limits.maxActor then Some(e.change)
      else None
  {
    hide UnmarshalChange, Envelope, EntryOk;
    if |value| <= limits.maxMessage {
      Decodes(e, limits);
    } else {
      TooLong(value, limits);
    }
    return UnmarshalChange(value, limits.maxMessage, limits.maxActor);
  }

  lemma {:induction false} TooLong(value: Bytes, limits: ReadLimits)
    requires |value| > limits.maxMessage
    ensures UnmarshalChange(value, limits.maxMessage, limits.maxActor).None?
  {
  }

  // ----- the snapshot -----

  ghost function TagsOf(leaves: seq<Leaf>): (r: seq<Tag>)
    ensures |r| == |leaves| && forall i :: 0 <= i < |leaves| ==> r[i] == leaves[i].hlc
  {
    seq(|leaves|, i requires 0 <= i < |leaves| => leaves[i].hlc)
  }

  /** The map holds exactly these leaves, each under its tag. */
  ghost predicate ByTag(byTag: map<Tag, Leaf>, leaves: seq<Leaf>) {
    && (forall t :: t in byTag ==> byTag[t] in leaves && byTag[t].hlc == t)
    && (forall x :: x in leaves ==> x.hlc in byTag && byTag[x.hlc] == x)
  }

  method IndexByTag(leaves: seq<Leaf>) returns (byTag: map<Tag, Leaf>)
    requires forall i, j :: 0 <= i < j < |leaves| ==> leaves[i].hlc != leaves[j].hlc
    ensures ByTag(byTag, leaves)
  {
    byTag := map[];
    var n := 0;
    while n < |leaves|
      invariant 0 <= n <= |leaves| && ByTag(byTag, leaves[..n])
    {
      assert forall x :: x in leaves[..n] ==> x.hlc != leaves[n].hlc;
      assert leaves[..n + 1] == leaves[..n] + [leaves[n]];
      byTag := byTag[leaves[n].hlc := leaves[n]];
      n := n + 1;
    }
    assert leaves[..n] == leaves;
  }

  /** Sort leaves with different tags by tag. */
  method SortLeaves(leaves: seq<Leaf>) returns (sorted: seq<Leaf>)
    requires forall i, j :: 0 <= i < j < |leaves| ==> leaves[i].hlc != leaves[j].hlc
    ensures TagsAscend(sorted) && forall x :: x in sorted <==> x in leaves
  {
    hide Less, ByTag, StrictTotalOrder;
    var byTag := IndexByTag(leaves);
    LessIsStrictTotalOrder();
    var tags := SortKeys(Less, byTag.Keys);
    SortSetSorts(Less, byTag.Keys);
    assert forall i :: 0 <= i < |tags| ==> tags[i] in tags;
    sorted := seq(|tags|, i requires 0 <= i < |tags| => byTag[tags[i]]);
    SortedLeaves(leaves, byTag, tags, sorted);
  }

  lemma {:induction false} SortedLeaves(leaves: seq<Leaf>, byTag: map<Tag, Leaf>, tags: seq<Tag>, sorted: seq<Leaf>)
    requires ByTag(byTag, leaves) && Sorted(Less, tags) && (forall t :: t in tags <==> t in byTag)
    requires |sorted| == |tags| && forall i :: 0 <= i < |tags| ==> tags[i] in byTag && sorted[i] == byTag[tags[i]]
    ensures TagsAscend(sorted) && forall x :: x in sorted <==> x in leaves
  {
    hide Less;
    forall x | x in leaves ensures x in sorted {
      assert x.hlc in tags;
      var k :| 0 <= k < |tags| && tags[k] == x.hlc;
      assert sorted[k] == x;
    }
  }

  lemma {:induction false} AscendDistinct(leaves: seq<Leaf>)
    requires TagsAscend(leaves)
    ensures forall i, j :: 0 <= i < j < |leaves| ==> leaves[i].hlc != leaves[j].hlc
  {
    hide Compare;
    LessIsStrictTotalOrder();
  }

  /** Ascending leaves are determined by which they are. */
  lemma {:induction false} LeavesUnique(a: seq<Leaf>, b: seq<Leaf>)
    requires TagsAscend(a) && TagsAscend(b) && forall x :: x in a <==> x in b
    ensures a == b
  {
    hide Less;
    LessIsStrictTotalOrder();
    var s, t := TagsOf(a), TagsOf(b);
    forall x ensures x in s <==> x in t {
      if x in s {
        var i :| 0 <= i < |a| && a[i].hlc == x;
        assert a[i] in b;
        var j :| 0 <= j < |b| && b[j] == a[i];
        assert t[j] == x;
      }
      if x in t {
        var i :| 0 <= i < |b| && b[i].hlc == x;
        assert b[i] in a;
        var j :| 0 <= j < |a| && a[j] == b[i];
        assert s[j] == x;
      }
    }
    SortedUnique(Less, s, t);
    forall i | 0 <= i < |a| ensures a[i] == b[i] {
      assert a[i] in b;
      var j :| 0 <= j < |b| && b[j] == a[i];
      assert s[i] == t[i] && t[j] == s[i];
      assert !Less(t[i], t[j]) && !Less(t[j], t[i]);
    }
  }

  ghost predicate SnapshotSoFar(log: Sized, n: nat, relay: Bytes, limits: ReadLimits, admits: Change -> bool,
                                leaves: seq<Leaf>, used: Uint64)
    requires n <= |log|
  {
    && leaves == LeavesOf(log[..n]) && used == LeavesSize(leaves) && used <= limits.maxBytes && n <= limits.maxEvents
    && AllAttested(log[..n], relay, limits, admits)
  }

  lemma {:induction false} SnapshotStep(log: Sized, n: nat, relay: Bytes, limits: ReadLimits, admits: Change -> bool,
                                        leaves: seq<Leaf>, used: Uint64)
    requires n < |log| && SnapshotSoFar(log, n, relay, limits, admits, leaves, used) && n < limits.maxEvents
    requires Attested(log[n], relay, limits, admits) && used + LeafBytes(LeafOf(log[n])) <= limits.maxBytes
    ensures SnapshotSoFar(log, n + 1, relay, limits, admits, leaves + [LeafOf(log[n])],
      used + LeafBytes(LeafOf(log[n])))
  {
    hide LeafOf, LeafBytes, Attested;
    assert log[..n + 1] == log[..n] + [log[n]];
    assert LeavesOf(log[..n + 1]) == leaves + [LeafOf(log[n])];
    var more := leaves + [LeafOf(log[n])];
    assert more[..|more| - 1] == leaves;
  }

  lemma {:induction false} NotSnapshotable(log: Sized, n: nat, relay: Bytes, limits: ReadLimits, admits: Change -> bool,
                                           leaves: seq<Leaf>, used: Uint64)
    requires n < |log| && SnapshotSoFar(log, n, relay, limits, admits, leaves, used)
    requires n >= limits.maxEvents || !Attested(log[n], relay, limits, admits)
      || used + LeafBytes(LeafOf(log[n])) > limits.maxBytes
    ensures !Snapshotable(log, relay, limits, admits)
  {
    hide LeafOf, LeafBytes, Attested;
    var all := LeavesOf(log);
    assert all[..n] == leaves;
    SizeStep(all, n);
    SizeGrows(all, n + 1);
  }

  /** One leaf more in the tree. */
  lemma {:induction false} DigestsStep(leaves: seq<Leaf>, leaf: Leaf)
    ensures Digests(LeafMap(leaves + [leaf])) == Digests(LeafMap(leaves))[LeafKey(leaf.hlc) := leaf.digest]
  {
    hide LeafKey;
    var more := leaves + [leaf];
    assert more[..|more| - 1] == leaves;
    assert LeafMap(more) == LeafMap(leaves)[LeafKey(leaf.hlc) := leaf];
  }

  /** The complete attested view of the log: every event's leaf in tag order and the root over them. */
  method MerkleSnapshot(store: GroupLog, limits: ReadLimits, admits: Change -> bool) returns (r: Result<Snapshot>)
    requires store.Valid()
    ensures r.Ok? <==> limits.Valid() && Snapshotable(store.log, store.config.relay, limits, admits)
    ensures r.Ok? ==> TagsAscend(LeavesOf(store.log))
    ensures r.Ok? ==>
      r.value == Snapshot(RootOf(Digests(LeafMap(LeavesOf(store.log)))), |store.log|, LastTag(store.log),
        LeavesOf(store.log))
    ensures r == Err(InvalidConfig) <==> !limits.Valid()
  {
    hide RootOf, LeafMap, Digests, LeavesOf, WellFormed, InStep, Snapshotable, Tree.Valid;
    if !limits.Valid() {
      return Err(InvalidConfig);
    }
    if store.config.relay == [] {
      NoRelay(store.log, limits, admits);
      return Err(AntiEntropyUnavailable);
    }
    var tree := new Tree();
    NothingAttested(store.config.relay, limits, admits);
    if store.group.None? {
      var root := tree.Root();
      return Ok(Snapshot(root, 0, None, []));
    }
    var b := store.group.value;
    Counted(b, store.log);
    var relay := store.config.relay;
    var leaves: seq<Leaf> := [];
    var used: Uint64 := 0;
    var last: Option<Tag> := None;
    var n := 0;
    assert store.log[..0] == [];
    while n < b.highWater
      invariant 0 <= n <= |store.log| && fresh(tree) && tree.Valid()
      invariant SnapshotSoFar(store.log, n, relay, limits, admits, leaves, used)
      invariant tree.entries == Digests(LeafMap(leaves)) && last == LastTag(store.log[..n])
    {
      var one := SnapshotOne(b, store.log, n + 1, relay, limits, admits, used, |leaves|);
      if one.Err? {
        NotSnapshotable(store.log, n, relay, limits, admits, leaves, used);
        return Err(one.error);
      }
      SnapshotStep(store.log, n, relay, limits, admits, leaves, used);
      DigestsStep(leaves, one.value);
      LastStep(store.log, n, one.value.hlc);
      tree.InsertDigest(LeafKey(one.value.hlc), one.value.digest);
      used := used + LeafBytes(one.value);
      leaves := leaves + [one.value];
      last := Some(one.value.hlc);
      n := n + 1;
    }
    assert store.log[..n] == store.log;
    Complete(store.log, relay, limits, admits, leaves, used);
    AscendDistinct(leaves);
    var root := tree.Root();
    var sorted := SortLeaves(leaves);
    LeavesUnique(sorted, leaves);
    return Ok(Snapshot(root, b.highWater, last, sorted));
  }

  lemma {:induction false} NoRelay(log: seq<Entry>, limits: ReadLimits, admits: Change -> bool)
    ensures !Snapshotable(log, [], limits, admits)
  {
  }

  lemma {:induction false} NothingAttested(relay: Bytes, limits: ReadLimits, admits: Change -> bool)
    requires limits.Valid() && relay != []
    ensures Snapshotable([], relay, limits, admits) && LeavesOf([]) == [] && Digests(LeafMap([])) == map[]
    ensures SnapshotSoFar([], 0, relay, limits, admits, [], 0) && TagsAscend([])
    ensures forall log: Sized :: log[..0] == [] ==> SnapshotSoFar(log, 0, relay, limits, admits, [], 0)
  {
  }

  lemma {:induction false} Counted(b: Buckets, log: Sized)
    requires InStep(b, log)
    ensures b.highWater == |log|
  {
  }

  lemma {:induction false} LastStep(log: seq<Entry>, n: nat, t: Tag)
    requires n < |log| && log[n].hlc == Some(t)
    ensures LastTag(log[..n + 1]) == Some(t)
  {
  }

  lemma {:induction false} Complete(log: Sized, relay: Bytes, limits: ReadLimits, admits: Change -> bool,
                                    leaves: seq<Leaf>, used: Uint64)
    requires SnapshotSoFar(log, |log|, relay, limits, admits, leaves, used) && relay != [] && WellFormed(log)
    ensures Snapshotable(log, relay, limits, admits) && leaves == LeavesOf(log) && TagsAscend(leaves)
  {
    hide WellFormed, TagsAscend, Attested;
    assert log[..|log|] == log;
    LeavesAscend(log, relay, limits, admits);
  }

  // ----- the requested events -----

  ghost predicate IdentityRequest(ids: seq<Tag>, maxEvents: Uint64, maxBytes: Uint64, maxReplica: int) {
    && maxEvents > 0 && maxBytes > 0 && |ids| <= maxEvents && TagSizes(ids) <= maxBytes
    && Sorted(Less, ids) && forall i :: 0 <= i < |ids| ==> ValidHLC(ids[i], maxReplica)
  }

  ghost function TagSizes(ids: seq<Tag>): nat {
    if ids == [] then 0 else TagSizes(ids[..|ids| - 1]) + TagSize(ids[|ids| - 1])
  }

  lemma {:induction false} TagSizesPrefix(ids: seq<Tag>, n: nat)
    requires n < |ids|
    ensures TagSizes(ids[..n + 1]) == TagSizes(ids[..n]) + TagSize(ids[n]) && TagSizes(ids[..n + 1]) <= TagSizes(ids)
  {
    hide TagSize;
    assert ids[..n + 1][..n] == ids[..n];
    if n + 1 < |ids| {
      TagSizesPrefix(ids[..|ids| - 1], n);
      assert ids[..|ids| - 1][..n + 1] == ids[..n + 1] && ids[..|ids| - 1][..n] == ids[..n];
    } else {
      assert ids[..n + 1] == ids;
    }
  }

  method ValidateIdentities(ids: seq<Tag>, maxEvents: Uint64, maxBytes: Uint64, maxReplica: int) returns (ok: bool)
    ensures ok <==> IdentityRequest(ids, maxEvents, maxBytes, maxReplica)
  {
    hide ValidHLC, Less, TagSize;
    if maxEvents == 0 || maxBytes == 0 || |ids| > maxEvents {
      return false;
    }
    var used: Uint64 := 0;
    var index := 0;
    assert Sorted(Less, ids[..0]) && TagSizes(ids[..0]) == 0;
    hide Sorted, TagSizes;
    while index < |ids|
      invariant 0 <= index <= |ids| && used <= maxBytes && used == TagSizes(ids[..index])
      invariant Sorted(Less, ids[..index]) && forall i :: 0 <= i < index ==> ValidHLC(ids[i], maxReplica)
    {
      TagSizesPrefix(ids, index);
      if !ValidHLC(ids[index], maxReplica) {
        return false;
      }
      if (index > 0 && !Less(ids[index - 1], ids[index])) || TagSize(ids[index]) > maxBytes - used {
        if index > 0 {
          SortedPair(ids, index);
        }
        return false;
      }
      SortedStep(ids, index);
      used := used + TagSize(ids[index]);
      index := index + 1;
    }
    assert ids[..index] == ids;
    return true;
  }

  lemma {:induction false} SortedPair(ids: seq<Tag>, n: nat)
    requires 0 < n < |ids|
    ensures Sorted(Less, ids) ==> Less(ids[n - 1], ids[n])
  {
    hide Less;
  }

  lemma {:induction false} SortedStep(ids: seq<Tag>, n: nat)
    requires n < |ids| && Sorted(Less, ids[..n]) && (n > 0 ==> Less(ids[n - 1], ids[n]))
    ensures Sorted(Less, ids[..n + 1])
  {
    hide Compare;
    var longer := ids[..n + 1];
    forall i, j | 0 <= i < j < |longer| ensures Less(longer[i], longer[j]) {
      if j < n {
        assert Less(ids[..n][i], ids[..n][j]);
      } else if i < n - 1 {
        assert Less(ids[..n][i], ids[..n][n - 1]);
        Transitive(ids[i], ids[n - 1], ids[n]);
      }
    }
  }

  /** Where the log holds a tag. */
  ghost function FindTag(log: seq<Entry>, t: Tag): (r: Option<nat>)
    ensures r.Some? ==> Tagged(log, t, r.value)
    ensures r.None? ==> forall i :: !Tagged(log, t, i)
  {
    if log == [] then None
    else if log[|log| - 1].hlc == Some(t) then Some(|log| - 1)
    else
      var r := FindTag(log[..|log| - 1], t);
      assert forall i :: Tagged(log, t, i) ==> Tagged(log[..|log| - 1], t, i);
      r
  }

  const MERKLE_EVENT_MESSAGE: Byte := 3

  /** The wire form of a repaired event. */
  function MerkleEventBytes(e: Event): Bytes
    requires e.hlc.Some?
  {
    [MERKLE_EVENT_MESSAGE] + Uvarint(e.sequence) + TagBytes(e.hlc.value) + Envelope(e.change)
  }

  function EventOf(log: seq<Entry>, i: nat): Event
    requires i < |log|
  {
    Event(i + 1, log[i].change, log[i].hlc)
  }

  /** The identity names an event this reader can be sent. */
  ghost predicate Deliverable(log: seq<Entry>, t: Tag, relay: Bytes, limits: ReadLimits, admits: Change -> bool) {
    var r := FindTag(log, t);
    r.Some? && Attested(log[r.value], relay, limits, admits)
      && |MerkleEventBytes(EventOf(log, r.value))| <= limits.maxMessage
  }

  /** The envelope bytes of the named events. */
  ghost function RequestBytes(log: seq<Entry>, ids: seq<Tag>): nat {
    if ids == [] then 0
    else
      var r := FindTag(log, ids[|ids| - 1]);
      RequestBytes(log, ids[..|ids| - 1]) + if r.Some? then |Envelope(log[r.value].change)| else 0
  }

  lemma {:induction false} RequestPrefix(log: seq<Entry>, ids: seq<Tag>, n: nat)
    requires n < |ids|
    ensures RequestBytes(log, ids[..n + 1]) == RequestBytes(log, ids[..n])
      + (var r := FindTag(log, ids[n]); if r.Some? then |Envelope(log[r.value].change)| else 0)
    ensures RequestBytes(log, ids[..n + 1]) <= RequestBytes(log, ids)
  {
    hide Envelope, FindTag;
    assert ids[..n + 1][..n] == ids[..n];
    if n + 1 < |ids| {
      RequestPrefix(log, ids[..|ids| - 1], n);
      assert ids[..|ids| - 1][..n + 1] == ids[..n + 1] && ids[..|ids| - 1][..n] == ids[..n];
    } else {
      assert ids[..n + 1] == ids;
    }
  }

  /** One requested identity. */
  method EventOne(b: Buckets, ghost log: Sized, t: Tag, relay: Bytes, limits: ReadLimits, admits: Change -> bool,
                  used: Uint64) returns (r: Result<Event>)
    requires InStep(b, log) && WellFormed(log) && limits.Valid() && used <= limits.maxBytes && relay != []
    ensures r.Ok? <==>
      Deliverable(log, t, relay, limits, admits)
        && used + |Envelope(log[FindTag(log, t).value].change)| <= limits.maxBytes
    ensures r.Ok? ==> r.value == EventOf(log, FindTag(log, t).value)
    ensures r.Err? ==> r.error.AntiEntropyUnavailable? || r.error.CorruptStore?
  {
    hide EventsOf, DotsOf, HlcsOf, HlcIndexOf, TotalBytes, LastTag, ActorMaxima, Envelope, SequenceKey, UnmarshalChange,
      DotsDistinct, EntryOk;
    hide TagBytes, RelayHLCState, ValidHLC, Encodable, Less, MerkleEventBytes, FindTag;
    ghost var found := FindTag(log, t);
    HlcIndexAt(log, t);
    if LeafKey(t) !in b.hlcIndex {
      return Err(AntiEntropyUnavailable);
    }
    var n := b.hlcIndex[LeafKey(t)];
    ghost var e := log[found.value];
    assert EntryOk(e);
    EventAt(log, n);
    HlcAt(log, n);
    var key := SequenceKey(n);
    if n == 0 || key !in b.events || key !in b.hlcs || |b.events[key]| > limits.maxBytes - used
      || |b.events[key]| > limits.maxMessage {
      return Err(AntiEntropyUnavailable);
    }
    TagFits(e);
    RelayStateRoundTrip(t, relay, limits.maxActor);
    var tag := RelayHLCState(b.hlcs[key], relay, limits.maxActor);
    if tag.None? || tag.value != t {
      return Err(AntiEntropyUnavailable);
    }
    var change := DecodeOne(e, b.events[key], limits);
    if change.None? || !admits(change.value) {
      return Err(CorruptStore);
    }
    var event := Event(n, change.value, tag);
    AttestedLeaf(e, relay, limits, admits);
    if |MerkleEventBytes(event)| > limits.maxMessage {
      return Err(AntiEntropyUnavailable);
    }
    return Ok(event);
  }

  /** The request is in order and within the budget, and every identity names an event this reader can be sent. */
  ghost predicate Fetchable(log: seq<Entry>, ids: seq<Tag>, relay: Bytes, limits: ReadLimits, admits: Change -> bool) {
    && limits.Valid() && relay != [] && IdentityRequest(ids, limits.maxEvents, limits.maxBytes, limits.maxActor)
    && RequestBytes(log, ids) <= limits.maxBytes
    && forall k :: 0 <= k < |ids| ==> Deliverable(log, ids[k], relay, limits, admits)
  }

  /** Every requested event, in the order of the request, or nothing. */
  method MerkleEvents(store: GroupLog, ids: seq<Tag>, limits: ReadLimits, admits: Change -> bool)
    returns (r: Result<seq<Event>>)
    requires store.Valid()
    ensures r.Ok? <==> Fetchable(store.log, ids, store.config.relay, limits, admits)
    ensures r.Ok? ==>
      |r.value| == |ids| && forall k :: 0 <= k < |ids| ==>
        r.value[k] == EventOf(store.log, FindTag(store.log, ids[k]).value)
  {
    hide InStep, WellFormed, Deliverable, FindTag, IdentityRequest, Envelope, EventOf;
    if !limits.Valid() {
      return Err(InvalidConfig);
    }
    var relay := store.config.relay;
    if relay == [] {
      return Err(AntiEntropyUnavailable);
    }
    var ok := ValidateIdentities(ids, limits.maxEvents, limits.maxBytes, limits.maxActor);
    if !ok {
      return Err(InvalidConfig);
    }
    if ids == [] {
      return Ok([]);
    }
    if store.group.None? {
      Undeliverable(ids[0], relay, limits, admits);
      return Err(AntiEntropyUnavailable);
    }
    var events: seq<Event> := [];
    var used: Uint64 := 0;
    var n := 0;
    while n < |ids|
      invariant 0 <= n <= |ids| && used <= limits.maxBytes && used == RequestBytes(store.log, ids[..n]) && |events| == n
      invariant forall k :: 0 <= k < n ==> Deliverable(store.log, ids[k], relay, limits, admits)
      invariant forall k :: 0 <= k < n ==>
        FindTag(store.log, ids[k]).Some? && events[k] == EventOf(store.log, FindTag(store.log, ids[k]).value)
    {
      RequestPrefix(store.log, ids, n);
      DeliverableFound(store.log, ids[n], relay, limits, admits);
      var one := EventOne(store.group.value, store.log, ids[n], relay, limits, admits, used);
      if one.Err? {
        return Err(one.error);
      }
      EventChange(store.log, FindTag(store.log, ids[n]).value);
      events := events + [one.value];
      used := used + |Envelope(one.value.change)|;
      n := n + 1;
    }
    assert ids[..n] == ids;
    return Ok(events);
  }

  lemma {:induction false} EventChange(log: seq<Entry>, i: nat)
    requires i < |log|
    ensures EventOf(log, i).change == log[i].change
  {
  }

  lemma {:induction false} Undeliverable(t: Tag, relay: Bytes, limits: ReadLimits, admits: Change -> bool)
    ensures !Deliverable([], t, relay, limits, admits)
  {
  }

  lemma {:induction false} DeliverableFound(log: seq<Entry>, t: Tag, relay: Bytes, limits: ReadLimits,
                                            admits: Change -> bool)
    ensures Deliverable(log, t, relay, limits, admits) ==> FindTag(log, t).Some?
  {
  }

  // ----- the log grows while nobody holds the lock -----

  lemma {:induction false} FindTagGrows(log: seq<Entry>, more: seq<Entry>, t: Tag)
    requires log <= more && TagsGrow(more) && FindTag(log, t).Some?
    ensures FindTag(more, t) == FindTag(log, t)
    ensures EventOf(more, FindTag(log, t).value) == EventOf(log, FindTag(log, t).value)
  {
    hide FindTag, Less;
    LessIsStrictTotalOrder();
    var i := FindTag(log, t).value;
    assert Tagged(more, t, i);
    var j := FindTag(more, t).value;
    assert !Less(t, t);
  }

  lemma {:induction false} RequestGrows(log: seq<Entry>, more: seq<Entry>, ids: seq<Tag>)
    requires log <= more && TagsGrow(more) && forall k :: 0 <= k < |ids| ==> FindTag(log, ids[k]).Some?
    ensures RequestBytes(more, ids) == RequestBytes(log, ids)
  {
    hide FindTag, Envelope, TagsGrow;
    if ids != [] {
      var n := |ids| - 1;
      RequestGrows(log, more, ids[..n]);
      FindTagGrows(log, more, ids[n]);
    }
  }

  /**
    What could be fetched when the snapshot was taken can be fetched later, and nothing else that the snapshot
    names.
   */
  lemma {:induction false} FetchableGrows(log: seq<Entry>, more: seq<Entry>, ids: seq<Tag>, relay: Bytes,
                                          limits: ReadLimits, admits: Change -> bool)
    requires log <= more && TagsGrow(more) && forall k :: 0 <= k < |ids| ==> FindTag(log, ids[k]).Some?
    ensures Fetchable(more, ids, relay, limits, admits) <==> Fetchable(log, ids, relay, limits, admits)
  {
    hide FindTag, Attested, MerkleEventBytes, TagsGrow, IdentityRequest;
    RequestGrows(log, more, ids);
    forall k | 0 <= k < |ids| ensures Deliverable(more, ids[k], relay, limits, admits) <==>
      Deliverable(log, ids[k], relay, limits, admits) {
      FindTagGrows(log, more, ids[k]);
    }
  }

  // ----- room for the repair envelope -----

  /** The most that the repair form adds to a change's envelope. */
  function MerkleOverhead(maxReplica: int): int
    requires maxReplica >= 0
  {
    1 + UvarintSize(MAX_UINT64) + UvarintSize(maxReplica) + maxReplica + 2 * UvarintSize(MAX_UINT64)
  }

  lemma {:induction false} UvarintSizeGrows(a: nat, b: nat)
    requires a <= b
    ensures UvarintSize(a) <= UvarintSize(b)
  {
    if a >= 128 {
      UvarintSizeGrows(a / 128, b / 128);
    }
  }

  lemma {:induction false} MerkleEventFits(e: Event, maxReplica: int)
    requires e.hlc.Some? && e.sequence <= MAX_UINT64 && |e.hlc.value.replica| <= maxReplica
    ensures |MerkleEventBytes(e)| <= |Envelope(e.change)| + MerkleOverhead(maxReplica)
  {
    hide Envelope, TagBytes, Uvarint, UvarintSize;
    var t := e.hlc.value;
    UvarintSizeGrows(e.sequence, MAX_UINT64);
    UvarintSizeGrows(t.wall, MAX_UINT64);
    UvarintSizeGrows(t.logical, MAX_UINT64);
    UvarintSizeGrows(|t.replica|, maxReplica);
    assert |TagBytes(t)| == TagSize(t);
  }

  /** Every change leaves room for the repair form. */
  ghost predicate Roomy(log: seq<Entry>, limits: ReadLimits)
    requires limits.maxActor >= 0
  {
    forall i :: 0 <= i < |log| ==> |Envelope(log[i].change)| <= limits.maxMessage - MerkleOverhead(limits.maxActor)
  }

  /** Whatever was published with that room can be sent again on repair. */
  lemma {:induction false} RoomyDeliverable(log: Sized, relay: Bytes, limits: ReadLimits, admits: Change -> bool,
                                            t: Tag)
    requires limits.Valid() && AllAttested(log, relay, limits, admits) && Roomy(log, limits) && FindTag(log, t).Some?
    ensures Deliverable(log, t, relay, limits, admits)
  {
    hide FindTag, MerkleOverhead, MerkleEventBytes, Envelope, Blank, ValidUtf8;
    var i := FindTag(log, t).value;
    assert Attested(log[i], relay, limits, admits);
    MerkleEventFits(EventOf(log, i), limits.maxActor);
  }
}
