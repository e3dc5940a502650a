/** A client's inventory of relay events: leaves by tag, kept in step with a Merkle tree. */
module MerkleIndexes {
  import opened Tags
  import opened Wires
  import opened Merkles
  import opened MerkleTrees
  import opened Changes
  import opened Logs

  datatype Leaf = Leaf(hlc: Tag, digest: Hash)

  function LeafKey(t: Tag): Bytes {
    TagBytes(t)
  }

  /** What a leaf commits to: the tag and the change's envelope, but not the sequence number. */
  function LeafValue(hlc: Tag, c: Change): Option<Bytes> {
    if !ValidHLC(hlc, MAX_STRING_BYTES) then None
    else
      match MarshalChange(c)
      case None => None
      case Some(encoded) => Some(TagBytes(hlc) + encoded)
  }

  function LeafFor(hlc: Tag, c: Change): Option<Leaf> {
    match LeafValue(hlc, c)
    case None => None
    case Some(value) => Some(Leaf(hlc, Sha(Plain(value))))
  }

  function LeafBytes(leaf: Leaf): nat {
    TagSize(leaf.hlc) + 32
  }

  // ----- inventories -----

  ghost predicate TagsAscend(leaves: seq<Leaf>) {
    forall i, j :: 0 <= i < j < |leaves| ==> Less(leaves[i].hlc, leaves[j].hlc)
  }

  ghost function LeavesSize(leaves: seq<Leaf>): nat {
    if leaves == [] then 0 else LeavesSize(leaves[..|leaves| - 1]) + LeafBytes(leaves[|leaves| - 1])
  }

  /** An inventory a peer may send: valid tags in strictly ascending order, within the bounds. */
  ghost predicate Inventory(leaves: seq<Leaf>, maxLeaves: Uint64, maxBytes: Uint64, maxReplica: int) {
    && maxLeaves > 0 && maxBytes > 0 && |leaves| <= maxLeaves && LeavesSize(leaves) <= maxBytes
    && TagsAscend(leaves) && forall i :: 0 <= i < |leaves| ==> ValidHLC(leaves[i].hlc, maxReplica)
  }

  /** Adjacent leaves in order and a running total decide the whole inventory. */
  method ValidateLeaves(leaves: seq<Leaf>, maxLeaves: Uint64, maxBytes: Uint64, maxReplica: int) returns (ok: bool)
    ensures ok <==> Inventory(leaves, maxLeaves, maxBytes, maxReplica)
  {
    hide ValidHLC, Less, LeafBytes;
    if maxLeaves == 0 || maxBytes == 0 || |leaves| > maxLeaves {
      return false;
    }
    var used: Uint64 := 0;
    var index := 0;
    while index < |leaves|
      invariant 0 <= index <= |leaves| && used <= maxBytes && used == LeavesSize(leaves[..index])
      invariant TagsAscend(leaves[..index]) && forall i :: 0 <= i < index ==> ValidHLC(leaves[i].hlc, maxReplica)
    {
      var leaf := leaves[index];
      SizeStep(leaves, index);
      SizeGrows(leaves, index + 1);
      if !ValidHLC(leaf.hlc, maxReplica) || (index > 0 && !Less(leaves[index - 1].hlc, leaf.hlc))
        || LeafBytes(leaf) > maxBytes - used {
        return false;
      }
      AscendStep(leaves, index);
      used := used + LeafBytes(leaf);
      index := index + 1;
    }
    assert leaves[..index] == leaves;
    return true;
  }

  lemma {:induction false} SizeStep(leaves: seq<Leaf>, i: nat)
    requires i < |leaves|
    ensures LeavesSize(leaves[..i + 1]) == LeavesSize(leaves[..i]) + LeafBytes(leaves[i])
  {
    hide LeafBytes;
    assert leaves[..i + 1][..i] == leaves[..i];
  }

  lemma {:induction false} SizeGrows(leaves: seq<Leaf>, i: nat)
    requires i <= |leaves|
    ensures LeavesSize(leaves[..i]) <= LeavesSize(leaves)
  {
    hide LeafBytes;
    if i < |leaves| {
      SizeGrows(leaves[..|leaves| - 1], i);
      assert leaves[..|leaves| - 1][..i] == leaves[..i];
    } else {
      assert leaves[..i] == leaves;
    }
  }

  lemma {:induction false} AscendStep(leaves: seq<Leaf>, n: nat)
    requires n < |leaves| && TagsAscend(leaves[..n]) && (n > 0 ==> Less(leaves[n - 1].hlc, leaves[n].hlc))
    ensures TagsAscend(leaves[..n + 1])
  {
    hide Compare;
    forall i | 0 <= i < n ensures Less(leaves[i].hlc, leaves[n].hlc) {
      if i < n - 1 {
        assert Less(leaves[..n][i].hlc, leaves[..n][n - 1].hlc);
        Transitive(leaves[i].hlc, leaves[n - 1].hlc, leaves[n].hlc);
      }
    }
    var longer := leaves[..n + 1];
    forall i, j | 0 <= i < j < |longer| ensures Less(longer[i].hlc, longer[j].hlc) {
      if j < n {
        assert Less(leaves[..n][i].hlc, leaves[..n][j].hlc);
      }
    }
  }

  /** The leaves by key. */
  ghost function LeafMap(leaves: seq<Leaf>): map<Bytes, Leaf> {
    if leaves == [] then map[]
    else
      var last := leaves[|leaves| - 1];
      LeafMap(leaves[..|leaves| - 1])[LeafKey(last.hlc) := last]
  }

  ghost function Digests(m: map<Bytes, Leaf>): Entries {
    map k | k in m :: m[k].digest
  }

  lemma {:induction false} LeafMapAt(leaves: seq<Leaf>, t: Tag)
    requires TagsAscend(leaves)
    ensures LeafKey(t) in LeafMap(leaves) <==> exists i :: 0 <= i < |leaves| && leaves[i].hlc == t
    ensures forall i :: 0 <= i < |leaves| && leaves[i].hlc == t ==> LeafMap(leaves)[LeafKey(t)] == leaves[i]
  {
    hide Compare, LeafKey;
    if leaves != [] {
      var n := |leaves| - 1;
      LeafMapAt(leaves[..n], t);
      assert forall i :: 0 <= i < n ==> leaves[..n][i] == leaves[i];
      SameKey(leaves[n].hlc, t);
      Trichotomy(t, t);
    }
  }

  lemma {:induction false} SameKey(s: Tag, t: Tag)
    ensures LeafKey(s) == LeafKey(t) <==> s == t
  {
    hide TagBytes;
    if LeafKey(s) == LeafKey(t) {
      TagBytesInjective(s, t);
    }
  }

  ghost predicate Keyed(m: map<Bytes, Leaf>) {
    forall k :: k in m ==> k == LeafKey(m[k].hlc)
  }

  lemma {:induction false} LeafMapKeyed(leaves: seq<Leaf>)
    ensures Keyed(LeafMap(leaves))
  {
    hide LeafKey;
    if leaves != [] {
      LeafMapKeyed(leaves[..|leaves| - 1]);
    }
  }

  // ----- the index -----

  datatype IndexError = BadEvent | Diverged

  /** The remote leaves the local inventory lacks, in order. */
  ghost function Lacking(local: map<Bytes, Leaf>, remote: seq<Leaf>): seq<Tag> {
    if remote == [] then []
    else
      var last := remote[|remote| - 1];
      Lacking(local, remote[..|remote| - 1]) + if LeafKey(last.hlc) in local then [] else [last.hlc]
  }

  /** Every local leaf is in the remote inventory with the same digest. */
  ghost predicate Agrees(local: map<Bytes, Leaf>, remote: seq<Leaf>) {
    forall k :: k in local ==> k in LeafMap(remote) && LeafMap(remote)[k].digest == local[k].digest
  }

  class MerkleIndex {
    var leaves: map<Bytes, Leaf>
    var tree: Tree

    ghost predicate Valid()
      reads this, tree
    {
      tree.Valid() && Keyed(leaves) && tree.entries == Digests(leaves)
    }

    constructor ()
      ensures Valid() && leaves == map[] && fresh(tree)
    {
      leaves := map[];
      tree := new Tree();
    }

    /** Record one accepted event: new, already there, or in conflict with what is there. */
    method Put(hlc: Tag, c: Change) returns (error: Option<IndexError>)
      requires Valid()
      modifies this`leaves, tree
      ensures Valid()
      ensures error == Some(BadEvent) <==> LeafFor(hlc, c).None?
      ensures error == Some(Diverged) <==>
        && LeafFor(hlc, c).Some? && LeafKey(hlc) in old(leaves)
        && old(leaves)[LeafKey(hlc)].digest != LeafFor(hlc, c).value.digest
      ensures error.Some? ==> leaves == old(leaves)
      ensures error.None? ==> leaves == old(leaves)[LeafKey(hlc) := LeafFor(hlc, c).value]
    {
      hide LeafFor, LeafKey, Tree.Valid;
      var made := LeafFor(hlc, c);
      if made.None? {
        return Some(BadEvent);
      }
      LeafNamed(hlc, c);
      var leaf := made.value;
      var key := LeafKey(leaf.hlc);
      if key in leaves {
        SameKey(leaves[key].hlc, leaf.hlc);
        if leaves[key].digest != leaf.digest {
          return Some(Diverged);
        }
        assert leaves == leaves[key := leaf];
        return None;
      }
      leaves := leaves[key := leaf];
      tree.InsertDigest(key, leaf.digest);
      return None;
    }

    method Root() returns (root: Hash)
      requires Valid()
      modifies tree`cachedRoot, tree`cachedRootFor, tree`hasCachedRoot
      ensures Valid() && root == RootOf(Digests(leaves))
    {
      hide RootOf, Tree.Valid;
      root := tree.Root();
    }

    /** Compare with a complete remote inventory: refuse, report divergence, or list what is missing here. */
    method Reconcile(remote: seq<Leaf>) returns (missing: seq<Tag>, error: Option<IndexError>)
      requires Valid() && |remote| <= MAX_UINT64
      ensures error == Some(BadEvent) <==> remote != [] && !Inventory(remote, |remote|, MAX_UINT64, MAX_STRING_BYTES)
      ensures error == Some(Diverged) <==> error != Some(BadEvent) && !Agrees(leaves, remote)
      ensures error.None? ==> missing == Lacking(leaves, remote) && TagsAscend(remote)
    {
      hide LeafKey, ValidHLC, LeavesSize, Less, Tree.Valid, LeafMap;
      missing := [];
      if remote != [] {
        var ok := ValidateLeaves(remote, |remote|, MAX_UINT64, MAX_STRING_BYTES);
        if !ok {
          return [], Some(BadEvent);
        }
      }
      var remoteKeys: set<Bytes> := {};
      var n := 0;
      NoLeaves();
      while n < |remote|
        invariant 0 <= n <= |remote| && missing == Lacking(leaves, remote[..n])
        invariant remoteKeys == LeafMap(remote[..n]).Keys
        invariant SameOn(leaves, LeafMap(remote[..n]))
      {
        var leaf := remote[n];
        var key := LeafKey(leaf.hlc);
        remoteKeys := remoteKeys + {key};
        Longer(leaves, remote, n);
        LeafMapAt(remote, leaf.hlc);
        if key !in leaves {
          missing := missing + [leaf.hlc];
        } else if leaves[key].digest != leaf.digest {
          return [], Some(Diverged);
        }
        n := n + 1;
      }
      assert remote[..n] == remote;
      var rest := leaves.Keys;
      while rest != {}
        invariant rest <= leaves.Keys && forall k :: k in leaves && k !in rest ==> k in remoteKeys
        decreases |rest|
      {
        var key :| key in rest;
        if key !in remoteKeys {
          return [], Some(Diverged);
        }
        rest := rest - {key};
      }
      error := None;
    }
  }

  /** No key is in both with different digests. */
  ghost predicate SameOn(local: map<Bytes, Leaf>, remote: map<Bytes, Leaf>) {
    forall k :: k in local && k in remote ==> local[k].digest == remote[k].digest
  }

  lemma {:induction false} NoLeaves()
    ensures LeafMap([]) == map[]
  {
  }

  lemma {:induction false} LeafNamed(hlc: Tag, c: Change)
    requires LeafFor(hlc, c).Some?
    ensures LeafFor(hlc, c).value.hlc == hlc
  {
  }

  lemma {:induction false} Longer(local: map<Bytes, Leaf>, remote: seq<Leaf>, n: nat)
    requires n < |remote|
    ensures LeafMap(remote[..n + 1]) == LeafMap(remote[..n])[LeafKey(remote[n].hlc) := remote[n]]
    ensures Lacking(local, remote[..n + 1])
         == Lacking(local, remote[..n]) + if LeafKey(remote[n].hlc) in local then [] else [remote[n].hlc]
  {
    hide LeafKey;
    assert remote[..n + 1][..n] == remote[..n];
  }
}
