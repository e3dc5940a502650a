/** Merkle trees over key digests, with an ideal hash, and the generation-tagged root cache. */
module Merkles {
  import opened Tags
  import opened Wires

  /** Hash values: the all-zero digest, or the hash of a preimage in which embedded digests are symbols. */
  datatype Hash = Zero | Sha(pre: seq<Symbol>)
  datatype Symbol = B(byte: Byte) | D(digest: Hash)

  type Entries = map<Bytes, Hash>
  datatype TreeEntry = TreeEntry(key: Bytes, digest: Hash)

  function Plain(s: Bytes): (r: seq<Symbol>)
    ensures |r| == |s| && forall i :: 0 <= i < |s| ==> r[i] == B(s[i])
  {
    seq(|s|, i requires 0 <= i < |s| => B(s[i]))
  }

  function LeafHash(e: TreeEntry): Hash {
    Sha([B(0)] + Plain(PrefixedBytes(e.key)) + [D(e.digest)])
  }

  function InnerHash(left: Hash, right: Hash): Hash {
    Sha([B(1), D(left), D(right)])
  }

  function EmptyRoot(): Hash {
    Sha([B(2)])
  }

  // ----- folding levels -----

  /** Pair neighbours; an odd last node is paired with the zero digest. */
  ghost function Level(hs: seq<Hash>): (r: seq<Hash>)
    ensures |r| == (|hs| + 1) / 2
  {
    if hs == [] then []
    else if |hs| == 1 then [InnerHash(hs[0], Zero)]
    else [InnerHash(hs[0], hs[1])] + Level(hs[2..])
  }

  ghost function Fold(hs: seq<Hash>): Hash
    requires hs != []
    decreases |hs|
  {
    if |hs| == 1 then hs[0] else Fold(Level(hs))
  }

  ghost function SortedEntries(m: Entries): seq<TreeEntry> {
    KeysOrdered();
    var keys := SortSet(ByKey, m.Keys);
    SortSetSorts(ByKey, m.Keys);
    seq(|keys|, i requires 0 <= i < |keys| => assert keys[i] in keys; TreeEntry(keys[i], m[keys[i]]))
  }

  predicate ByKey(a: Bytes, b: Bytes) {
    CompareBytes(a, b) < 0
  }

  lemma {:induction false} KeysOrdered()
    ensures StrictTotalOrder(ByKey)
  {
    forall a, b
      ensures !ByKey(a, a)
      ensures a != b ==> ByKey(a, b) || ByKey(b, a)
    {
      CompareBytesAntisymmetric(a, a);
      CompareBytesAntisymmetric(a, b);
    }
    forall a, b, c | ByKey(a, b) && ByKey(b, c)
      ensures ByKey(a, c)
    {
      CompareBytesTransitive(a, b, c);
    }
  }

  ghost function Leaves(es: seq<TreeEntry>): (hs: seq<Hash>)
    ensures |hs| == |es| && forall i :: 0 <= i < |es| ==> hs[i] == LeafHash(es[i])
  {
    seq(|es|, i requires 0 <= i < |es| => LeafHash(es[i]))
  }

  /** The root of a key-to-digest map. */
  ghost function RootOf(m: Entries): Hash {
    if m == map[] then EmptyRoot()
    else
      NonemptyEntries(m);
      Fold(Leaves(SortedEntries(m)))
  }

  lemma {:induction false} NonemptyEntries(m: Entries)
    requires m != map[]
    ensures SortedEntries(m) != []
  {
    KeysOrdered();
    SortSetSorts(ByKey, m.Keys);
    var k :| k in m;
    assert k in SortSet(ByKey, m.Keys);
  }

  // ----- equal roots mean equal maps -----

  /** h roots a tree of exactly this height over leaves, odd nodes padded with the zero digest. */
  ghost predicate Height(h: Hash, n: nat)
    decreases n
  {
    if n == 0 then exists e :: h == LeafHash(e)
    else exists l, r :: h == InnerHash(l, r) && Height(l, n - 1) && (r == Zero || Height(r, n - 1))
  }

  lemma {:induction false} LeafIsNotInner(e: TreeEntry, l: Hash, r: Hash)
    ensures LeafHash(e) != InnerHash(l, r) && LeafHash(e) != EmptyRoot() && InnerHash(l, r) != EmptyRoot()
    ensures LeafHash(e) != Zero && InnerHash(l, r) != Zero
  {
    assert LeafHash(e).pre[0] == B(0) && InnerHash(l, r).pre[0] == B(1) && EmptyRoot().pre[0] == B(2);
  }

  /** No hash has two heights, and none is the zero digest or the empty root. */
  lemma {:induction false} HeightUnique(h: Hash, m: nat, n: nat)
    requires Height(h, m) && Height(h, n)
    ensures m == n
    decreases m
  {
    if m == 0 {
      var e :| h == LeafHash(e);
      if n > 0 {
        var l, r :| h == InnerHash(l, r) && Height(l, n - 1) && (r == Zero || Height(r, n - 1));
        LeafIsNotInner(e, l, r);
      }
    } else {
      var l, r :| h == InnerHash(l, r) && Height(l, m - 1) && (r == Zero || Height(r, m - 1));
      if n == 0 {
        var e :| h == LeafHash(e);
        LeafIsNotInner(e, l, r);
      } else {
        var l2, r2 :| h == InnerHash(l2, r2) && Height(l2, n - 1) && (r2 == Zero || Height(r2, n - 1));
        InnerInjective(l, r, l2, r2);
        HeightUnique(l, m - 1, n - 1);
      }
    }
  }

  lemma {:induction false} InnerInjective(l: Hash, r: Hash, l2: Hash, r2: Hash)
    requires InnerHash(l, r) == InnerHash(l2, r2)
    ensures l == l2 && r == r2
  {
    var a, b := [B(1), D(l), D(r)], [B(1), D(l2), D(r2)];
    assert a == b && a[1] == b[1] && a[2] == b[2];
  }

  lemma {:induction false} HeightNonzero(h: Hash, n: nat)
    requires Height(h, n)
    ensures h != Zero && h != EmptyRoot()
  {
    if n == 0 {
      var e :| h == LeafHash(e);
      LeafIsNotInner(e, Zero, Zero);
    } else {
      var l, r :| h == InnerHash(l, r) && Height(l, n - 1) && (r == Zero || Height(r, n - 1));
      LeafIsNotInner(TreeEntry([], Zero), l, r);
    }
  }

  ghost predicate AllHeight(hs: seq<Hash>, n: nat) {
    forall h :: h in hs ==> Height(h, n)
  }

  lemma {:induction false} LevelHeight(hs: seq<Hash>, n: nat)
    requires AllHeight(hs, n)
    ensures AllHeight(Level(hs), n + 1)
  {
    hide Height;
    if hs != [] {
      assert hs[0] in hs;
      if |hs| == 1 {
        InnerHeight(hs[0], Zero, n);
      } else {
        assert hs[1] in hs && hs == hs[..2] + hs[2..];
        InnerHeight(hs[0], hs[1], n);
        LevelHeight(hs[2..], n);
      }
    }
  }

  lemma {:induction false} InnerHeight(l: Hash, r: Hash, n: nat)
    requires Height(l, n) && (r == Zero || Height(r, n))
    ensures Height(InnerHash(l, r), n + 1)
  {
  }

  /** The zero padding is unambiguous: it can only stand for a missing last node. */
  lemma {:induction false} LevelInjective(hs: seq<Hash>, gs: seq<Hash>, n: nat)
    requires AllHeight(hs, n) && AllHeight(gs, n) && Level(hs) == Level(gs)
    ensures hs == gs
  {
    hide Height;
    if hs != [] && gs != [] {
      assert hs[0] in hs && gs[0] in gs;
      var a, b := Level(hs)[0], Level(gs)[0];
      assert a == InnerHash(hs[0], if |hs| > 1 then hs[1] else Zero);
      assert b == InnerHash(gs[0], if |gs| > 1 then gs[1] else Zero);
      InnerInjective(hs[0], if |hs| > 1 then hs[1] else Zero, gs[0], if |gs| > 1 then gs[1] else Zero);
      if |hs| > 1 {
        assert hs[1] in hs;
        HeightNonzero(hs[1], n);
      }
      if |gs| > 1 {
        assert gs[1] in gs;
        HeightNonzero(gs[1], n);
      }
      if |hs| > 1 && |gs| > 1 {
        assert Level(hs)[1..] == Level(hs[2..]) && Level(gs)[1..] == Level(gs[2..]);
        assert hs == hs[..2] + hs[2..] && gs == gs[..2] + gs[2..];
        LevelInjective(hs[2..], gs[2..], n);
        assert hs[..2] == gs[..2];
      }
    }
  }

  lemma {:induction false} FoldHeight(hs: seq<Hash>, n: nat) returns (k: nat)
    requires hs != [] && AllHeight(hs, n)
    ensures Height(Fold(hs), k) && k >= n && (|hs| > 1 ==> k > n)
    decreases |hs|
  {
    hide Height;
    assert hs[0] in hs;
    if |hs| == 1 {
      k := n;
    } else {
      LevelHeight(hs, n);
      k := FoldHeight(Level(hs), n + 1);
    }
  }

  lemma {:induction false} FoldInjective(hs: seq<Hash>, gs: seq<Hash>, n: nat)
    requires hs != [] && gs != [] && AllHeight(hs, n) && AllHeight(gs, n) && Fold(hs) == Fold(gs)
    ensures hs == gs
    decreases |hs| + |gs|
  {
    hide Height;
    var j := FoldHeight(hs, n);
    var k := FoldHeight(gs, n);
    HeightUnique(Fold(hs), j, k);
    assert hs[0] in hs && gs[0] in gs;
    if |hs| == 1 || |gs| == 1 {
      if |hs| == 1 {
        HeightUnique(Fold(hs), n, j);
      } else {
        HeightUnique(Fold(gs), n, k);
      }
      assert hs == [hs[0]] && gs == [gs[0]];
    } else {
      LevelHeight(hs, n);
      LevelHeight(gs, n);
      FoldInjective(Level(hs), Level(gs), n + 1);
      LevelInjective(hs, gs, n);
    }
  }

  lemma {:induction false} LeafInjective(a: TreeEntry, b: TreeEntry)
    requires LeafHash(a) == LeafHash(b)
    ensures a == b
  {
    hide PrefixedBytes;
    var x, y := Plain(PrefixedBytes(a.key)), Plain(PrefixedBytes(b.key));
    var s, t := [B(0)] + x + [D(a.digest)], [B(0)] + y + [D(b.digest)];
    assert s == t && |x| == |y|;
    assert s[|s| - 1] == D(a.digest) && t[|t| - 1] == D(b.digest);
    assert x == s[1..|s| - 1] && y == t[1..|t| - 1];
    var p, q := PrefixedBytes(a.key), PrefixedBytes(b.key);
    forall i | 0 <= i < |p| ensures p[i] == q[i] {
      assert x[i] == B(p[i]) && y[i] == B(q[i]);
    }
    assert p + [] == q + [];
    PrefixedInjective(a.key, b.key, [], []);
  }

  lemma {:induction false} LeavesInjective(es: seq<TreeEntry>, fs: seq<TreeEntry>)
    requires Leaves(es) == Leaves(fs)
    ensures es == fs
  {
    hide LeafHash;
    assert |es| == |fs|;
    forall i | 0 <= i < |es| ensures es[i] == fs[i] {
      assert Leaves(es)[i] == Leaves(fs)[i];
      LeafInjective(es[i], fs[i]);
    }
  }

  lemma {:induction false} SortedEntriesDetermine(a: Entries, b: Entries)
    requires SortedEntries(a) == SortedEntries(b)
    ensures a == b
  {
    KeysOrdered();
    SortSetSorts(ByKey, a.Keys);
    SortSetSorts(ByKey, b.Keys);
    var x, y := SortSet(ByKey, a.Keys), SortSet(ByKey, b.Keys);
    forall i | 0 <= i < |x| ensures x[i] == y[i] && x[i] in a && y[i] in b && a[x[i]] == b[y[i]] {
      assert SortedEntries(a)[i] == SortedEntries(b)[i];
      assert x[i] in x && y[i] in y;
    }
    assert x == y;
    forall k ensures k in a <==> k in b {
      assert k in x <==> k in a;
    }
    forall k | k in a ensures a[k] == b[k] {
      assert k in x;
      var i :| 0 <= i < |x| && x[i] == k;
    }
  }

  lemma {:induction false} LeavesHeight(es: seq<TreeEntry>)
    ensures AllHeight(Leaves(es), 0)
  {
  }

  /** Two trees have equal roots exactly when they bind the same keys to the same digests. */
  lemma {:induction false} RootsIdentifyMaps(a: Entries, b: Entries)
    ensures RootOf(a) == RootOf(b) <==> a == b
  {
    hide Height, SortedEntries, Leaves;
    if RootOf(a) == RootOf(b) && a != b {
      if a == map[] || b == map[] {
        var m := if a == map[] then b else a;
        NonemptyEntries(m);
        LeavesHeight(SortedEntries(m));
        var k := FoldHeight(Leaves(SortedEntries(m)), 0);
        HeightNonzero(RootOf(m), k);
      } else {
        NonemptyEntries(a);
        NonemptyEntries(b);
        LeavesHeight(SortedEntries(a));
        LeavesHeight(SortedEntries(b));
        FoldInjective(Leaves(SortedEntries(a)), Leaves(SortedEntries(b)), 0);
        LeavesInjective(SortedEntries(a), SortedEntries(b));
        SortedEntriesDetermine(a, b);
      }
    }
  }
}
