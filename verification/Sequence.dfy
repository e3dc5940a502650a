/** The sequence index as one object: markers paired by position, kept in a treap and in a list. */
module Sequence {
  import opened Tags
  import opened Forests
  import opened Markers

  /** One list position: its enter and exit markers, and its child while it has only one. */
  class Pair {
    const position: Tag
    const entry: Marker
    const exit: Marker
    var singleChild: Pair?

    /** The two priorities only shape the treap; every choice is allowed. */
    constructor (position: Tag, visible: bool, entryPriority: Uint64, exitPriority: Uint64)
      ensures this.position == position && singleChild == null
      ensures fresh(entry) && fresh(exit) && Loose()
      ensures entry.visible == visible && !exit.visible
      ensures entry.prev == null && entry.next == null && exit.prev == null && exit.next == null
    {
      this.position := position;
      entry := new Marker(Enter(position), visible, entryPriority);
      exit := new Marker(Exit(position), false, exitPriority);
      singleChild := null;
    }

    /** Not yet part of any index. */
    ghost predicate Loose()
      reads this, entry, exit
    {
      && entry.mark == Enter(position) && exit.mark == Exit(position)
      && Leaf(entry) && Leaf(exit)
    }
  }

  ghost predicate Leaf(m: Marker)
    reads m
  {
    m.left == null && m.right == null && m.markers == 1 && m.visibleN == if m.visible then 1 else 0
  }

  ghost function LeafShape(m: Marker): Shape {
    Bin(Nil, m, Nil)
  }

  lemma {:induction false} LeafTree(m: Marker)
    ensures Simple(LeafShape(m)) && Set(LeafShape(m)) == {m} && InOrder(LeafShape(m)) == [m]
    ensures Leaf(m) ==> Tree(m, LeafShape(m), m.parent)
  {
  }

  // ----- the doubly linked list -----

  ghost predicate Chain(ms: seq<Marker>)
    reads ms`prev, ms`next
  {
    && (forall i {:trigger ms[i].next} :: 0 <= i < |ms| ==> ms[i].next == if i + 1 < |ms| then ms[i + 1] else null)
    && (forall i {:trigger ms[i].prev} :: 0 <= i < |ms| ==> ms[i].prev == if i > 0 then ms[i - 1] else null)
  }

  ghost function Insert2<T>(s: seq<T>, k: int, a: T, b: T): seq<T>
    requires 0 <= k <= |s|
  {
    s[..k] + [a, b] + s[k..]
  }

  ghost function Remove2<T>(s: seq<T>, k: int): seq<T>
    requires 0 <= k && k + 2 <= |s|
  {
    s[..k] + s[k + 2..]
  }

  lemma {:induction false} InsertAt<T>(s: seq<T>, k: int, a: T, b: T)
    requires 0 <= k <= |s|
    ensures forall i {:trigger Insert2(s, k, a, b)[i]} :: 0 <= i < |s| + 2 ==>
      Insert2(s, k, a, b)[i] == if i < k then s[i] else if i == k then a else if i == k + 1 then b else s[i - 2]
  {
  }

  lemma {:induction false} ChainInserted(ms: seq<Marker>, k: int, entry: Marker, exit: Marker)
    requires 0 <= k < |ms|
    requires forall i {:trigger ms[i].next} :: 0 <= i < |ms| && i != k ==>
      ms[i].next == if i + 1 < |ms| then ms[i + 1] else null
    requires forall i {:trigger ms[i].prev} :: 0 <= i < |ms| && i != k + 1 ==>
      ms[i].prev == if i > 0 then ms[i - 1] else null
    requires ms[k].next == entry && entry.next == exit && exit.next == if k + 1 < |ms| then ms[k + 1] else null
    requires entry.prev == ms[k] && exit.prev == entry && (k + 1 < |ms| ==> ms[k + 1].prev == exit)
    ensures Chain(Insert2(ms, k + 1, entry, exit))
  {
    var after := Insert2(ms, k + 1, entry, exit);
    InsertAt(ms, k + 1, entry, exit);
    forall i | 0 <= i < |after| ensures after[i].next == if i + 1 < |after| then after[i + 1] else null {
    }
    forall i | 0 <= i < |after| ensures after[i].prev == if i > 0 then after[i - 1] else null {
    }
  }

  /** Splice entry and exit into the list right after the k-th marker. */
  method LinkAfter(anchor: Marker, entry: Marker, exit: Marker, ghost ms: seq<Marker>, ghost k: int)
    requires Chain(ms) && NoDup(ms) && 0 <= k < |ms| && ms[k] == anchor
    requires entry !in ms && exit !in ms && entry != exit
    modifies ms`next, ms`prev, entry`next, entry`prev, exit`next, exit`prev
    ensures Chain(Insert2(ms, k + 1, entry, exit))
  {
    var next := anchor.next;
    anchor.next, entry.prev := entry, anchor;
    entry.next, exit.prev := exit, entry;
    exit.next := next;
    if next != null {
      next.prev := exit;
    }
    ChainInserted(ms, k, entry, exit);
  }

  /** Take the adjacent markers k and k+1 out of the list. */
  method Unlink(entry: Marker, exit: Marker, ghost ms: seq<Marker>, ghost k: int)
    requires Chain(ms) && NoDup(ms) && 0 < k && k + 1 < |ms| && ms[k] == entry && ms[k + 1] == exit
    modifies ms`next, ms`prev
    ensures Chain(Remove2(ms, k))
  {
    var before, after := entry.prev, exit.next;
    assert before == ms[k - 1];
    before.next := after;
    if after != null {
      after.prev := before;
    }
    ghost var left := Remove2(ms, k);
    assert forall i :: 0 <= i < k ==> left[i] == ms[i];
    assert forall i :: k <= i < |left| ==> left[i] == ms[i + 2];
  }

  // ----- the treap -----

  lemma {:induction false} SimpleNoDup(t: Shape)
    requires Simple(t)
    ensures NoDup(InOrder(t)) && Elems(InOrder(t)) == Set(t)
  {
    InOrderSet(t);
    if t.Bin? {
      SimpleNoDup(t.l);
      SimpleNoDup(t.r);
      InOrderSet(t.l);
      InOrderSet(t.r);
      NoDupConcat(InOrder(t.l), [t.m]);
      NoDupConcat(InOrder(t.l) + [t.m], InOrder(t.r));
    }
  }

  /** Append two loose markers to a treap. */
  method AppendLeaves(root: Marker?, entry: Marker, exit: Marker, ghost t: Shape, ghost S: set<Marker>)
    returns (r: Marker?, ghost u: Shape)
    requires Tree(root, t, null) && Simple(t) && Leaf(entry) && Leaf(exit)
    requires entry !in Set(t) && exit !in Set(t) && entry != exit && Set(t) + {entry, exit} <= S
    modifies (Set(t) + {entry, exit})`left, (Set(t) + {entry, exit})`right, (Set(t) + {entry, exit})`parent
    modifies (Set(t) + {entry, exit})`markers, (Set(t) + {entry, exit})`visibleN
    ensures Tree(r, u, null) && Simple(u) && Set(u) == Set(t) + {entry, exit}
    ensures InOrder(u) == InOrder(t) + [entry] + [exit]
  {
    LeafTree(entry);
    LeafTree(exit);
    r, u := Merge(root, entry, t, LeafShape(entry), null, entry.parent, S);
    LeafTree(exit);
    r, u := Merge(r, exit, u, LeafShape(exit), null, exit.parent, S);
  }

  /** The same, next to another tree that stays as it is. */
  method AppendBeside(root: Marker?, entry: Marker, exit: Marker, ghost t: Shape, ghost other: Marker?, ghost to: Shape,
                      ghost S: set<Marker>)
    returns (r: Marker?, ghost u: Shape)
    requires Tree(root, t, null) && Simple(t) && Leaf(entry) && Leaf(exit)
    requires entry !in Set(t) && exit !in Set(t) && entry != exit && Set(t) + Set(to) + {entry, exit} <= S
    requires Tree(other, to, null) && Set(to) !! Set(t) + {entry, exit}
    modifies (Set(t) + {entry, exit})`left, (Set(t) + {entry, exit})`right, (Set(t) + {entry, exit})`parent
    modifies (Set(t) + {entry, exit})`markers, (Set(t) + {entry, exit})`visibleN
    ensures Tree(r, u, null) && Simple(u) && Set(u) == Set(t) + {entry, exit}
    ensures InOrder(u) == InOrder(t) + [entry] + [exit]
    ensures Tree(other, to, null)
  {
    r, u := AppendLeaves(root, entry, exit, t, S);
  }

  /** Insert two loose markers after the first `at` markers. */
  method TreapInsert(root: Marker?, at: int, entry: Marker, exit: Marker, ghost t: Shape, ghost S: set<Marker>)
    returns (r: Marker?, ghost u: Shape)
    requires Tree(root, t, null) && Simple(t) && 0 <= at <= |InOrder(t)|
    requires Leaf(entry) && Leaf(exit) && entry !in Set(t) && exit !in Set(t) && entry != exit
    requires Set(t) + {entry, exit} <= S
    modifies S`left, S`right, S`parent, S`markers, S`visibleN
    ensures Tree(r, u, null) && Simple(u) && Set(u) == Set(t) + {entry, exit}
    ensures InOrder(u) == Insert2(InOrder(t), at, entry, exit)
  {
    var left, right;
    ghost var a, b, c;
    left, right, a, b := Split(root, at, t, null, S);
    left, c := AppendBeside(left, entry, exit, a, right, b, S);
    r, u := Merge(left, right, c, b, null, null, S);
    Inserted(InOrder(t), InOrder(a), InOrder(b), at, entry, exit);
  }

  lemma {:induction false} Inserted<T>(s: seq<T>, a: seq<T>, b: seq<T>, at: int, e: T, x: T)
    requires s == a + b && |a| == at
    ensures a + [e] + [x] + b == Insert2(s, at, e, x)
  {
  }

  /** Remove the two markers at positions `at` and at+1. */
  method TreapRemove(root: Marker?, at: int, ghost t: Shape, ghost S: set<Marker>)
    returns (r: Marker?, ghost u: Shape)
    requires Tree(root, t, null) && Simple(t) && 0 <= at && at + 2 <= |InOrder(t)| && Set(t) <= S
    modifies S`left, S`right, S`parent, S`markers, S`visibleN
    ensures Tree(r, u, null) && Simple(u) && Set(u) <= Set(t)
    ensures InOrder(u) == Remove2(InOrder(t), at)
  {
    var left, rest, mid, right;
    ghost var a, b, c, d;
    left, rest, a, b := Split(root, at, t, null, S);
    mid, right, c, d := Split(rest, 2, b, null, S);
    r, u := Merge(left, right, a, d, null, null, S);
    Removed(InOrder(t), InOrder(a), InOrder(c), InOrder(d), at);
  }

  lemma {:induction false} Removed<T>(s: seq<T>, a: seq<T>, c: seq<T>, d: seq<T>, at: int)
    requires s == a + (c + d) && |a| == at && |c| == 2
    ensures a + d == Remove2(s, at)
  {
  }

  ghost function MarksOf(ms: seq<Marker>): (r: seq<Mark>)
    ensures |r| == |ms| && forall i :: 0 <= i < |ms| ==> r[i] == ms[i].mark
  {
    seq(|ms|, i requires 0 <= i < |ms| => ms[i].mark)
  }

  ghost predicate PairIn(pair: Pair, p: Tag, list: seq<Marker>) {
    && pair.position == p && pair.entry.mark == Enter(p) && pair.exit.mark == Exit(p)
    && pair.entry in list && pair.exit in list
  }

  ghost function MarkerOf(pair: Pair, m: Mark): Marker {
    if m.Enter? then pair.entry else pair.exit
  }

  /** The list has exactly the two markers of every known position. */
  ghost predicate Paired(pairs: map<Tag, Pair>, list: seq<Marker>) {
    && ZERO in pairs && list != [] && list[0] == pairs[ZERO].entry
    && (forall p :: p in pairs ==> PairIn(pairs[p], p, list))
    && (forall m :: m in list ==> m.mark.id in pairs && m == MarkerOf(pairs[m.mark.id], m.mark))
  }

  lemma {:induction false} PairedInsert(pairs: map<Tag, Pair>, list: seq<Marker>, k: int, pair: Pair)
    requires Paired(pairs, list) && 0 < k <= |list|
    requires pair.position !in pairs && pair.entry.mark == Enter(pair.position) && pair.exit.mark == Exit(pair.position)
    ensures Paired(pairs[pair.position := pair], Insert2(list, k, pair.entry, pair.exit))
  {
    InsertElems(list, k, pair.entry, pair.exit);
  }

  lemma {:induction false} PairedRemove(pairs: map<Tag, Pair>, list: seq<Marker>, k: int, p: Tag)
    requires Paired(pairs, list) && NoDup(list) && p in pairs
    requires 0 < k && k + 1 < |list| && list[k] == pairs[p].entry && list[k + 1] == pairs[p].exit
    ensures Paired(pairs - {p}, Remove2(list, k))
  {
    forall m ensures m in Remove2(list, k) <==> m in list && m != list[k] && m != list[k + 1] {
      RemoveElems(list, k, m);
    }
  }

  lemma {:induction false} RemoveElems<T>(s: seq<T>, k: int, m: T)
    requires NoDup(s) && 0 <= k && k + 2 <= |s|
    ensures m in Remove2(s, k) <==> m in s && m != s[k] && m != s[k + 1]
  {
    if m in s && m != s[k] && m != s[k + 1] {
      var i :| 0 <= i < |s| && s[i] == m;
      assert m == Remove2(s, k)[if i < k then i else i - 2];
    }
    if m in Remove2(s, k) {
      var i :| 0 <= i < |Remove2(s, k)| && Remove2(s, k)[i] == m;
      assert m == s[if i < k then i else i + 2];
    }
  }

  lemma {:induction false} Where<T>(s: seq<T>, e: T) returns (k: int)
    requires e in s
    ensures 0 <= k < |s| && s[k] == e
  {
    k :| 0 <= k < |s| && s[k] == e;
  }

  lemma {:induction false} InsertElems<T>(s: seq<T>, k: int, a: T, b: T)
    requires 0 <= k <= |s|
    ensures forall m :: m in Insert2(s, k, a, b) <==> m in s || m == a || m == b
  {
    assert s == s[..k] + s[k..];
  }

  /** The treap and the linked list hold the same markers. */
  ghost predicate Agree(root: Marker?, shape: Shape, list: seq<Marker>)
    reads list
  {
    list == InOrder(shape) && Elems(list) == Set(shape) && Simple(shape) && Tree(root, shape, null) && Chain(list)
  }

  class SequenceIndex {
    var root: Marker?
    var pairs: map<Tag, Pair>
    ghost var shape: Shape
    /** All markers, in sequence order. */
    ghost var list: seq<Marker>

    ghost predicate Valid()
      reads this, list
    {
      Agree(root, shape, list) && Paired(pairs, list)
    }

    ghost function Marks(): seq<Mark>
      reads this
    {
      MarksOf(list)
    }

    constructor (entryPriority: Uint64, exitPriority: Uint64)
      ensures Valid() && Marks() == [Enter(ZERO), Exit(ZERO)]
      ensures fresh(list) && pairs.Keys == {ZERO} && fresh(pairs[ZERO]) && pairs[ZERO].singleChild == null
      ensures !pairs[ZERO].entry.visible && !pairs[ZERO].exit.visible
    {
      new;
      var pair, r;
      ghost var t;
      pair, r, t := RootPair(entryPriority, exitPriority);
      Install(r, map[ZERO := pair], t, [pair.entry, pair.exit]);
    }

    method InsertPairAfter(anchor: Marker, pair: Pair)
      requires Valid() && anchor in list
      requires pair.Loose() && pair.position !in pairs && pair.entry !in list && pair.exit !in list
      modifies this, list`next, list`prev, pair.entry`next, pair.entry`prev, pair.exit`next, pair.exit`prev
      modifies list`left, list`right, list`parent, list`markers, list`visibleN
      modifies pair.entry`left, pair.entry`right, pair.entry`parent, pair.entry`markers, pair.entry`visibleN
      modifies pair.exit`left, pair.exit`right, pair.exit`parent, pair.exit`markers, pair.exit`visibleN
      ensures Valid()
      ensures pairs == old(pairs)[pair.position := pair]
      ensures exists k ::
        0 <= k < |old(list)| && old(list)[k] == anchor && list == Insert2(old(list), k + 1, pair.entry, pair.exit)
    {
      var known, r := pairs, root;
      ghost var u, k, before := shape, 0, list;
      PairedInsertAll(known, before, pair);
      r, u, k := Splice(r, anchor, pair.entry, pair.exit, u, before, Elems(before) + {pair.entry, pair.exit});
      Install(r, known[pair.position := pair], u, Insert2(before, k + 1, pair.entry, pair.exit));
    }

    /** Remove a position that has nothing between its enter and exit markers. */
    method RemoveLeaf(position: Tag) returns (ok: bool)
      requires Valid()
      modifies this, list`next, list`prev, list`left, list`right, list`parent, list`markers, list`visibleN
      ensures Valid()
      ensures ok <==>
        position in old(pairs) && exists k ::
          0 < k < |old(list)| - 1 && old(list)[k] == old(pairs)[position].entry
            && old(list)[k + 1] == old(pairs)[position].exit
      ensures ok ==> pairs == old(pairs) - {position}
      ensures ok ==>
        exists k ::
          0 < k < |old(list)| - 1 && old(list)[k] == old(pairs)[position].entry && list == Remove2(old(list), k)
      ensures !ok ==> pairs == old(pairs) && list == old(list)
    {
      SimpleNoDup(shape);
      if position !in pairs {
        return false;
      }
      var pair, known, r := pairs[position], pairs, root;
      ghost var k, u, before := 0, shape, list;
      k := Where(before, pair.entry);
      if pair.entry.next != pair.exit || pair.entry.prev == null {
        return false;
      }
      PairedRemove(known, before, k, position);
      r, u := Cut(r, pair.entry, pair.exit, u, before, k);
      Install(r, known - {position}, u, Remove2(before, k));
      return true;
    }

    method SetVisible(position: Tag, visible: bool)
      requires Valid()
      modifies list`visible, list`markers, list`visibleN
      ensures Valid()
      ensures forall m :: m in list ==>
        m.visible == if position in pairs && m == pairs[position].entry then visible else old(m.visible)
    {
      if position in pairs {
        SetFlag(pairs[position].entry, visible, root, shape, Elems(list));
      }
    }

    method VisibleAt(offset: int) returns (id: Tag, ok: bool)
      requires Valid()
      ensures ok <==> 0 <= offset < |VisibleOf(list)|
      ensures ok ==> id == VisibleOf(list)[offset]
    {
      id, ok := VisibleAtOffset(root, offset, shape);
    }

    method VisiblePositions() returns (positions: seq<Tag>)
      requires Valid()
      ensures positions == VisibleOf(list[1..])
    {
      positions := FollowNext(pairs[ZERO].entry.next, list);
    }

    method Install(root: Marker?, pairs: map<Tag, Pair>, ghost shape: Shape, ghost list: seq<Marker>)
      requires Agree(root, shape, list) && Paired(pairs, list)
      modifies this
      ensures Valid() && this.root == root && this.pairs == pairs && this.shape == shape && this.list == list
    {
      hide Agree, Paired;
      this.root, this.shape, this.list := root, shape, list;
      InstallPairs(pairs);
    }

    method InstallPairs(pairs: map<Tag, Pair>)
      requires Agree(root, shape, list) && Paired(pairs, list)
      modifies this`pairs
      ensures Valid() && this.pairs == pairs
    {
      hide Agree, Paired;
      this.pairs := pairs;
    }
  }

  lemma {:induction false} PairedInsertAll(pairs: map<Tag, Pair>, list: seq<Marker>, pair: Pair)
    requires Paired(pairs, list)
    requires pair.position !in pairs && pair.entry.mark == Enter(pair.position) && pair.exit.mark == Exit(pair.position)
    ensures forall k :: 0 < k <= |list| ==>
      Paired(pairs[pair.position := pair], Insert2(list, k, pair.entry, pair.exit))
  {
    forall k | 0 < k <= |list| ensures Paired(pairs[pair.position := pair], Insert2(list, k, pair.entry, pair.exit)) {
      PairedInsert(pairs, list, k, pair);
    }
  }

  lemma {:induction false} Shift<T>(p: seq<T>, x: seq<T>, r: seq<T>)
    ensures p + (x + r) == (p + x) + r
  {
  }

  /** Follow the next pointers and collect the visible ids. */
  method FollowNext(start: Marker?, ghost list: seq<Marker>) returns (positions: seq<Tag>)
    requires Chain(list) && list != [] && start == list[0].next
    ensures positions == VisibleOf(list[1..])
  {
    positions := [];
    var current := start;
    ghost var i, all := 1, VisibleOf(list[1..]);
    while current != null
      invariant 1 <= i <= |list| && current == if i < |list| then list[i] else null
      invariant all == positions + VisibleOf(list[i..])
      decreases |list| - i
    {
      VisibleStep(list, i);
      Shift(positions, if list[i].visible then [list[i].mark.id] else [], VisibleOf(list[i + 1..]));
      if current.visible {
        positions := positions + [current.mark.id];
      }
      current, i := current.next, i + 1;
    }
  }

  method RootPair(entryPriority: Uint64, exitPriority: Uint64) returns (pair: Pair, root: Marker?, ghost t: Shape)
    ensures fresh(pair) && fresh(pair.entry) && fresh(pair.exit)
    ensures pair.position == ZERO && pair.entry.mark == Enter(ZERO) && pair.exit.mark == Exit(ZERO)
    ensures pair.singleChild == null && !pair.entry.visible && !pair.exit.visible
    ensures Agree(root, t, [pair.entry, pair.exit]) && Paired(map[ZERO := pair], [pair.entry, pair.exit])
  {
    pair := new Pair(ZERO, false, entryPriority, exitPriority);
    pair.entry.next, pair.exit.prev := pair.exit, pair.entry;
    LeafTree(pair.entry);
    LeafTree(pair.exit);
    root, t := Merge(pair.entry, pair.exit, LeafShape(pair.entry), LeafShape(pair.exit), pair.entry.parent,
      pair.exit.parent, {pair.entry, pair.exit});
    assert pair.entry.prev == null && pair.entry.next == pair.exit && pair.exit.prev == pair.entry;
    assert pair.exit.next == null;
  }

  /** LinkAfter, next to a treap that stays as it is. */
  method LinkBeside(anchor: Marker, entry: Marker, exit: Marker, ghost list: seq<Marker>, ghost k: int,
                    ghost root: Marker?, ghost t: Shape)
    requires Chain(list) && NoDup(list) && 0 <= k < |list| && list[k] == anchor
    requires entry !in list && exit !in list && entry != exit
    requires Tree(root, t, null) && Set(t) <= Elems(list) && Leaf(entry) && Leaf(exit)
    modifies list`next, list`prev, entry`next, entry`prev, exit`next, exit`prev
    ensures Chain(Insert2(list, k + 1, entry, exit))
    ensures Tree(root, t, null) && Leaf(entry) && Leaf(exit)
  {
    LinkAfter(anchor, entry, exit, list, k);
  }

  /** TreapInsert, next to a linked list that stays as it is. */
  method InsertBeside(root: Marker?, at: int, entry: Marker, exit: Marker, ghost t: Shape, ghost S: set<Marker>,
                      ghost after: seq<Marker>)
    returns (r: Marker?, ghost u: Shape)
    requires Tree(root, t, null) && Simple(t) && 0 <= at <= |InOrder(t)|
    requires Leaf(entry) && Leaf(exit) && entry !in Set(t) && exit !in Set(t) && entry != exit
    requires S == Set(t) + {entry, exit}
    requires after == Insert2(InOrder(t), at, entry, exit) && Chain(after)
    modifies S`left, S`right, S`parent, S`markers, S`visibleN
    ensures Agree(r, u, after)
  {
    r, u := TreapInsert(root, at, entry, exit, t, S);
    InOrderSet(u);
  }

  /** Put two loose markers right after the anchor, in the list and in the treap. */
  method Splice(root: Marker?, anchor: Marker, entry: Marker, exit: Marker, ghost t: Shape, ghost list: seq<Marker>,
                ghost S: set<Marker>)
    returns (r: Marker?, ghost u: Shape, ghost k: int)
    requires Agree(root, t, list) && anchor in list
    requires Leaf(entry) && Leaf(exit) && entry !in list && exit !in list && entry != exit
    requires S == Elems(list) + {entry, exit}
    modifies S`left, S`right, S`parent, S`markers, S`visibleN, S`next, S`prev
    ensures 0 <= k < |list| && list[k] == anchor && Agree(r, u, Insert2(list, k + 1, entry, exit))
  {
    SimpleNoDup(t);
    var rank := MarkerRank(anchor, root, t);
    k := rank;
    LinkBeside(anchor, entry, exit, list, rank, root, t);
    r, u := InsertBeside(root, rank + 1, entry, exit, t, S, Insert2(list, k + 1, entry, exit));
  }

  /** Unlink, next to a treap that stays as it is. */
  method UnlinkBeside(entry: Marker, exit: Marker, ghost list: seq<Marker>, ghost k: int, ghost root: Marker?,
                      ghost t: Shape)
    requires Chain(list) && NoDup(list) && 0 < k && k + 1 < |list| && list[k] == entry && list[k + 1] == exit
    requires Tree(root, t, null) && Set(t) <= Elems(list)
    modifies list`next, list`prev
    ensures Chain(Remove2(list, k)) && Tree(root, t, null)
  {
    Unlink(entry, exit, list, k);
  }

  /** TreapRemove, next to a linked list that stays as it is. */
  method RemoveBeside(root: Marker?, at: int, ghost t: Shape, ghost list: seq<Marker>)
    returns (r: Marker?, ghost u: Shape)
    requires Tree(root, t, null) && Simple(t) && list == InOrder(t) && Elems(list) == Set(t)
    requires 0 <= at && at + 2 <= |list| && Chain(Remove2(list, at))
    modifies list`left, list`right, list`parent, list`markers, list`visibleN
    ensures Agree(r, u, Remove2(list, at))
  {
    hide Tree, Simple;
    r, u := TreapRemove(root, at, t, Elems(list));
    assert Chain(Remove2(list, at));
    InOrderSet(u);
  }

  /** Take two adjacent markers out of the list and out of the treap. */
  method Cut(root: Marker?, entry: Marker, exit: Marker, ghost t: Shape, ghost list: seq<Marker>, ghost k: int)
    returns (r: Marker?, ghost u: Shape)
    requires Agree(root, t, list) && 0 < k && k + 1 < |list| && list[k] == entry && list[k + 1] == exit
    modifies list`left, list`right, list`parent, list`markers, list`visibleN, list`next, list`prev
    ensures Agree(r, u, Remove2(list, k))
  {
    hide Tree, NoDup, Chain, Simple, InOrder;
    SimpleNoDup(t);
    UnlinkBeside(entry, exit, list, k, root, t);
    var rank := MarkerRank(entry, root, t);
    r, u := RemoveBeside(root, rank, t, list);
  }
}
