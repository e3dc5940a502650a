/** The Merkle tree object: computing the root, caching it across concurrent writers, and comparing trees. */
module MerkleTrees {
  import opened Tags
  import opened Merkles

  // ----- computing a root -----

  method HashLeaves(es: seq<TreeEntry>) returns (hs: seq<Hash>)
    ensures hs == Leaves(es)
  {
    hide LeafHash;
    hs := [];
    var index := 0;
    while index < |es|
      invariant 0 <= index <= |es| && hs == Leaves(es[..index])
    {
      assert es[..index + 1] == es[..index] + [es[index]];
      hs := hs + [LeafHash(es[index])];
      index := index + 1;
    }
    assert es[..index] == es;
  }

  /** One level up, two nodes at a time. */
  method NextLevel(hs: seq<Hash>) returns (next: seq<Hash>)
    ensures next == Level(hs)
  {
    hide InnerHash;
    next := [];
    var i := 0;
    assert hs[0..] == hs && [] + Level(hs) == Level(hs);
    while i < |hs|
      invariant 0 <= i <= |hs| + 1 && (i <= |hs| ==> next + Level(hs[i..]) == Level(hs))
      invariant i > |hs| ==> next == Level(hs)
    {
      var right := Zero;
      if i + 1 < |hs| {
        right := hs[i + 1];
        assert hs[i..][2..] == hs[i + 2..];
        assert Level(hs[i..]) == [InnerHash(hs[i], right)] + Level(hs[i + 2..]);
        assert next + Level(hs[i..]) == next + [InnerHash(hs[i], right)] + Level(hs[i + 2..]);
      } else {
        assert Level(hs[i..]) == [InnerHash(hs[i], right)];
      }
      next := next + [InnerHash(hs[i], right)];
      i := i + 2;
    }
    if i == |hs| {
      assert next + Level([]) == next && hs[i..] == [];
    }
  }

  method RootForEntries(m: Entries) returns (root: Hash)
    ensures root == RootOf(m)
  {
    hide LeafHash, Level;
    if |m| == 0 {
      return EmptyRoot();
    }
    KeysOrdered();
    var keys := SortKeys(ByKey, m.Keys);
    SortSetSorts(ByKey, m.Keys);
    assert forall i :: 0 <= i < |keys| ==> keys[i] in keys;
    var sorted := seq(|keys|, i requires 0 <= i < |keys| => TreeEntry(keys[i], m[keys[i]]));
    assert sorted == SortedEntries(m);
    NonemptyEntries(m);
    var hs := HashLeaves(sorted);
    ghost var top := Fold(hs);
    while |hs| > 1
      invariant hs != [] && Fold(hs) == top
      decreases |hs|
    {
      hs := NextLevel(hs);
    }
    return hs[0];
  }

  // ----- the object -----

  /** What a reader takes out of the first lock region of Root. */
  datatype Ticket = Ticket(entries: Entries, generation: nat)

  class Tree {
    var entries: Entries
    var generation: nat
    var cachedRoot: Hash
    var cachedRootFor: nat
    var hasCachedRoot: bool
    /** The entries of every generation so far. */
    ghost var history: map<nat, Entries>

    ghost predicate Valid()
      reads this
    {
      && generation in history && history[generation] == entries
      && (forall g :: g in history ==> g <= generation)
      && (hasCachedRoot ==> cachedRootFor in history && cachedRoot == RootOf(history[cachedRootFor]))
    }

    /** The ticket was taken at some point of this tree's past. */
    ghost predicate Issued(t: Ticket)
      reads this
    {
      t.generation in history && history[t.generation] == t.entries
    }

    constructor ()
      ensures Valid() && entries == map[]
    {
      entries, generation, cachedRoot, cachedRootFor, hasCachedRoot := map[], 0, Zero, 0, false;
      history := map[0 := map[]];
    }

    method InsertDigest(key: Bytes, digest: Hash)
      requires Valid()
      modifies this
      ensures Valid() && entries == old(entries)[key := digest]
      ensures forall t :: old(Issued(t)) ==> Issued(t)
    {
      if key in entries && entries[key] == digest {
        assert entries == entries[key := digest];
        return;
      }
      entries := entries[key := digest];
      Invalidate();
    }

    method Delete(key: Bytes)
      requires Valid()
      modifies this
      ensures Valid() && entries == old(entries) - {key}
      ensures forall t :: old(Issued(t)) ==> Issued(t)
    {
      if key !in entries {
        return;
      }
      entries := entries - {key};
      Invalidate();
    }

    method Invalidate()
      requires forall g :: g in history ==> g <= generation
      modifies this`generation, this`hasCachedRoot, this`history
      ensures Valid() && history == old(history)[generation := entries] && generation == old(generation) + 1
    {
      generation := generation + 1;
      hasCachedRoot := false;
      history := history[generation := entries];
    }

    /** First lock region of Root: a root cached for this generation, or a snapshot to compute from. */
    method BeginRoot() returns (root: Option<Hash>, ticket: Ticket)
      requires Valid()
      ensures root.Some? ==> root.value == RootOf(entries)
      ensures ticket == Ticket(entries, generation) && Issued(ticket)
    {
      ticket := Ticket(entries, generation);
      if hasCachedRoot && cachedRootFor == generation {
        return Some(cachedRoot), ticket;
      }
      return None, ticket;
    }

    /** Second lock region: install only if no writer came in between. */
    method InstallRoot(ticket: Ticket, root: Hash)
      requires Valid() && Issued(ticket) && root == RootOf(ticket.entries)
      modifies this`cachedRoot, this`cachedRootFor, this`hasCachedRoot
      ensures Valid()
      ensures hasCachedRoot && cachedRootFor == generation ==> cachedRoot == RootOf(entries)
    {
      if generation == ticket.generation {
        cachedRoot := root;
        cachedRootFor := ticket.generation;
        hasCachedRoot := true;
      }
    }

    /** Root without interference: both regions in a row. */
    method Root() returns (root: Hash)
      requires Valid()
      modifies this`cachedRoot, this`cachedRootFor, this`hasCachedRoot
      ensures Valid() && root == RootOf(entries)
    {
      var cached, ticket := BeginRoot();
      if cached.Some? {
        return cached.value;
      }
      root := RootForEntries(ticket.entries);
      InstallRoot(ticket, root);
    }
  }

  // ----- interleavings -----

  /** One atomic step of some thread; readers are named by the order in which they began. */
  datatype Step = Write(key: Bytes, digest: Hash) | Erase(key: Bytes) | Begin | Finish(reader: nat)

  /** The entries after the first n steps, whatever the readers do. */
  ghost function Written(start: Entries, steps: seq<Step>): Entries {
    if steps == [] then start
    else
      var before := Written(start, steps[..|steps| - 1]);
      match steps[|steps| - 1]
      case Write(k, d) => before[k := d]
      case Erase(k) => before - {k}
      case Begin => before
      case Finish(_) => before
  }

  /** The entries the tree held at some moment of the run. */
  ghost predicate Held(start: Entries, steps: seq<Step>, m: Entries) {
    exists n :: 0 <= n <= |steps| && m == Written(start, steps[..n])
  }

  lemma {:induction false} HeldLonger(start: Entries, steps: seq<Step>, i: nat, m: Entries)
    requires i < |steps| && Held(start, steps[..i], m)
    ensures Held(start, steps[..i + 1], m)
  {
    var n :| 0 <= n <= i && m == Written(start, steps[..i][..n]);
    assert steps[..i][..n] == steps[..i + 1][..n];
  }

  lemma {:induction false} HeldNow(start: Entries, steps: seq<Step>, i: nat)
    requires i < |steps|
    ensures Held(start, steps[..i + 1], Written(start, steps[..i]))
  {
    assert steps[..i + 1][..i] == steps[..i];
  }

  /**
    Any interleaving of writers with readers that are between their two lock regions, finishing in
    any order and any number of times: a cached root is always that of the current entries, and
    every root handed out is that of entries the tree held at one moment of the run.
   */
  method Interleave(tree: Tree, steps: seq<Step>) returns (roots: seq<Hash>, ghost held: seq<Entries>)
    requires tree.Valid()
    modifies tree
    ensures tree.Valid() && tree.entries == Written(old(tree.entries), steps)
    ensures tree.hasCachedRoot && tree.cachedRootFor == tree.generation ==>
      tree.cachedRoot == RootOf(Written(old(tree.entries), steps))
    ensures |held| == |roots|
    ensures forall k :: 0 <= k < |roots| ==> roots[k] == RootOf(held[k]) && Held(old(tree.entries), steps, held[k])
  {
    hide RootOf, Tree.Valid, Tree.Issued, Held;
    var tickets: seq<Ticket> := [];
    roots, held := [], [];
    ghost var start := tree.entries;
    var i := 0;
    while i < |steps|
      invariant 0 <= i <= |steps| && tree.Valid()
      invariant forall t :: t in tickets ==> tree.Issued(t) && Held(start, steps[..i], t.entries)
      invariant tree.entries == Written(start, steps[..i])
      invariant |held| == |roots|
      invariant forall k :: 0 <= k < |roots| ==> roots[k] == RootOf(held[k]) && Held(start, steps[..i], held[k])
    {
      assert steps[..i + 1][..i] == steps[..i];
      forall m | Held(start, steps[..i], m) ensures Held(start, steps[..i + 1], m) {
        HeldLonger(start, steps, i, m);
      }
      HeldNow(start, steps, i);
      match steps[i] {
        case Write(k, d) =>
          tree.InsertDigest(k, d);
        case Erase(k) =>
          tree.Delete(k);
        case Begin =>
          var cached, ticket := tree.BeginRoot();
          if cached.Some? {
            roots, held := roots + [cached.value], held + [tree.entries];
          }
          tickets := tickets + [ticket];
        case Finish(reader) =>
          if reader < |tickets| {
            var root := RootForEntries(tickets[reader].entries);
            Install(tree, tickets, reader, root);
            roots, held := roots + [root], held + [tickets[reader].entries];
          }
      }
      i := i + 1;
    }
    assert steps[..i] == steps;
    CacheRight(tree);
  }

  lemma {:induction false} CacheRight(tree: Tree)
    requires tree.Valid()
    ensures tree.hasCachedRoot && tree.cachedRootFor == tree.generation ==> tree.cachedRoot == RootOf(tree.entries)
  {
  }

  method Install(tree: Tree, tickets: seq<Ticket>, reader: nat, root: Hash)
    requires tree.Valid() && reader < |tickets| && (forall t :: t in tickets ==> tree.Issued(t))
    requires root == RootOf(tickets[reader].entries)
    modifies tree`cachedRoot, tree`cachedRootFor, tree`hasCachedRoot
    ensures tree.Valid() && forall t :: t in tickets ==> tree.Issued(t)
  {
    assert tickets[reader] in tickets;
    tree.InstallRoot(tickets[reader], root);
  }

  // ----- comparing two trees -----

  /** The keys on which two trees differ, by kind and in key order. */
  method Diff(left: Tree, right: Tree) returns (leftOnly: seq<Bytes>, rightOnly: seq<Bytes>, different: seq<Bytes>)
    requires left.Valid() && right.Valid()
    modifies left`cachedRoot, left`cachedRootFor, left`hasCachedRoot
    modifies right`cachedRoot, right`cachedRootFor, right`hasCachedRoot
    ensures left.Valid() && right.Valid() && StrictTotalOrder(ByKey)
    ensures leftOnly == SortSet(ByKey, left.entries.Keys - right.entries.Keys)
    ensures rightOnly == SortSet(ByKey, right.entries.Keys - left.entries.Keys)
    ensures different
         == SortSet(ByKey, set k | k in left.entries && k in right.entries && left.entries[k] != right.entries[k])
  {
    hide RootOf, StrictTotalOrder;
    KeysOrdered();
    var l := left.Root();
    var r := right.Root();
    RootsIdentifyMaps(left.entries, right.entries);
    if l == r {
      NothingDiffers(left.entries);
      return [], [], [];
    }
    leftOnly := SortKeys(ByKey, left.entries.Keys - right.entries.Keys);
    rightOnly := SortKeys(ByKey, right.entries.Keys - left.entries.Keys);
    different :=
      SortKeys(ByKey, set k | k in left.entries && k in right.entries && left.entries[k] != right.entries[k]);
  }

  lemma {:induction false} NothingDiffers(m: Entries)
    requires StrictTotalOrder(ByKey)
    ensures SortSet(ByKey, m.Keys - m.Keys) == [] && SortSet(ByKey, set k | k in m && k in m && m[k] != m[k]) == []
  {
    assert m.Keys - m.Keys == {};
    assert (set k | k in m && k in m && m[k] != m[k]) == {};
  }
}
