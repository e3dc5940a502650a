/**
  The incremental sequence index: enter/exit markers held both in an implicit treap with parent
  pointers and in a doubly linked list.
 */
module Markers {
  import opened Tags
  import opened Forests

  class Marker {
    const mark: Mark
    const priority: Uint64
    var visible: bool
    var left: Marker?
    var right: Marker?
    var parent: Marker?
    var prev: Marker?
    var next: Marker?
    var markers: int
    var visibleN: int

    constructor (mark: Mark, visible: bool, priority: Uint64)
      ensures this.mark == mark && this.visible == visible
      ensures left == null && right == null && parent == null && prev == null && next == null
      ensures markers == 1 && visibleN == if visible then 1 else 0
    {
      this.mark, this.visible, this.priority := mark, visible, priority;
      left, right, parent, prev, next := null, null, null, null, null;
      markers, visibleN := 1, if visible then 1 else 0;
    }
  }

  // ----- the shape of a treap -----

  /** The tree that the left and right pointers below one marker spell out. */
  datatype Shape = Nil | Bin(l: Shape, m: Marker, r: Shape)

  ghost function Set(t: Shape): set<Marker> {
    match t
    case Nil => {}
    case Bin(l, m, r) => Set(l) + {m} + Set(r)
  }

  ghost function InOrder(t: Shape): seq<Marker> {
    match t
    case Nil => []
    case Bin(l, m, r) => InOrder(l) + [m] + InOrder(r)
  }

  ghost predicate Simple(t: Shape) {
    match t
    case Nil => true
    case Bin(l, m, r) => Simple(l) && Simple(r) && m !in Set(l) && m !in Set(r) && Set(l) !! Set(r)
  }

  lemma {:induction false} InOrderSet(t: Shape)
    ensures forall m :: m in InOrder(t) <==> m in Set(t)
  {
    if t.Bin? {
      InOrderSet(t.l);
      InOrderSet(t.r);
    }
  }

  /**
    The child pointers below root spell t, the parent pointers go back up to p, and every cached
    count is right.
   */
  ghost predicate Tree(root: Marker?, t: Shape, p: Marker?)
    reads Set(t)`left, Set(t)`right, Set(t)`parent, Set(t)`markers, Set(t)`visibleN, Set(t)`visible
  {
    match t
    case Nil => root == null
    case Bin(l, m, r) =>
      && root == m && m.parent == p
      && Tree(m.left, l, m) && Tree(m.right, r, m)
      && m.markers == 1 + Count(l) + Count(r)
      && m.visibleN == Visible(l) + Visible(r) + (if m.visible then 1 else 0)
  }

  ghost function Count(t: Shape): int
    reads Set(t)`markers
  {
    if t.Nil? then 0 else t.m.markers
  }

  ghost function Visible(t: Shape): int
    reads Set(t)`visibleN
  {
    if t.Nil? then 0 else t.m.visibleN
  }

  /** The ids of the visible markers of a list, in order. */
  ghost function VisibleOf(ms: seq<Marker>): (r: seq<Tag>)
    reads ms`visible
  {
    if ms == [] then []
    else (if ms[0].visible then [ms[0].mark.id] else []) + VisibleOf(ms[1..])
  }

  lemma {:induction false} VisibleConcat(a: seq<Marker>, b: seq<Marker>)
    ensures VisibleOf(a + b) == VisibleOf(a) + VisibleOf(b)
  {
    if a == [] {
      assert a + b == b;
    } else {
      VisibleConcat(a[1..], b);
      assert (a + b)[1..] == a[1..] + b;
    }
  }

  lemma {:induction false} VisibleStep(ms: seq<Marker>, i: int)
    requires 0 <= i < |ms|
    ensures VisibleOf(ms[i..]) == (if ms[i].visible then [ms[i].mark.id] else []) + VisibleOf(ms[i + 1..])
  {
    assert ms[i..][0] == ms[i] && ms[i..][1..] == ms[i + 1..];
  }

  lemma {:induction false} VisibleBin(l: seq<Marker>, m: Marker, r: seq<Marker>)
    ensures VisibleOf(l + [m] + r) == VisibleOf(l) + (if m.visible then [m.mark.id] else []) + VisibleOf(r)
  {
    VisibleConcat(l + [m], r);
    VisibleConcat(l, [m]);
  }

  /** Cached counts are the true number of markers and of visible markers. */
  lemma {:induction false} CountsExact(root: Marker?, t: Shape, p: Marker?)
    requires Tree(root, t, p)
    ensures Count(t) == |InOrder(t)|
    ensures Visible(t) == |VisibleOf(InOrder(t))|
  {
    if t.Bin? {
      CountsExact(t.m.left, t.l, t.m);
      CountsExact(t.m.right, t.r, t.m);
      VisibleBin(InOrder(t.l), t.m, InOrder(t.r));
    }
  }

  // ----- treap operations -----

  function MarkerCount(m: Marker?): int
    reads m
  {
    if m == null then 0 else m.markers
  }

  function MarkerVisible(m: Marker?): int
    reads m
  {
    if m == null then 0 else m.visibleN
  }

  method SetParent(m: Marker?, p: Marker?, ghost t: Shape, ghost q: Marker?)
    requires Tree(m, t, q) && Simple(t)
    modifies Set(t)`parent
    ensures Tree(m, t, p)
    ensures Count(t) == old(Count(t)) && Visible(t) == old(Visible(t))
  {
    if m != null {
      m.parent := p;
    }
  }

  method Recount(m: Marker)
    modifies m`markers, m`visibleN
    ensures m.markers == old(1 + MarkerCount(m.left) + MarkerCount(m.right))
    ensures m.visibleN == old(MarkerVisible(m.left) + MarkerVisible(m.right) + if m.visible then 1 else 0)
  {
    m.markers, m.visibleN := 1 + MarkerCount(m.left) + MarkerCount(m.right),
      MarkerVisible(m.left) + MarkerVisible(m.right);
    if m.visible {
      m.visibleN := m.visibleN + 1;
    }
  }

  // "Beside" variants also state that the trees they do not touch stay as they are. The ghost set S
  // only names allocated markers.

  method RecountBeside(m: Marker, ghost l: Shape, ghost r: Shape, ghost pl: Marker?, ghost pr: Marker?,
                       ghost S: set<Marker>)
    requires Tree(m.left, l, pl) && Tree(m.right, r, pr) && m !in Set(l) && m !in Set(r) && Set(l) + Set(r) <= S
    modifies m`markers, m`visibleN
    ensures Tree(m.left, l, pl) && Tree(m.right, r, pr)
    ensures m.markers == 1 + Count(l) + Count(r) && m.visibleN == Visible(l) + Visible(r) + if m.visible then 1 else 0
  {
    Recount(m);
  }

  method SetParentBeside(m: Marker?, p: Marker?, ghost t: Shape, ghost q: Marker?, ghost other: Marker?,
                         ghost to: Shape, ghost po: Marker?, ghost S: set<Marker>)
    requires Tree(m, t, q) && Simple(t) && Tree(other, to, po) && Set(to) !! Set(t) && Set(to) <= S
    modifies Set(t)`parent
    ensures Tree(m, t, p) && Count(t) == old(Count(t)) && Visible(t) == old(Visible(t))
    ensures Tree(other, to, po) && Count(to) == old(Count(to)) && Visible(to) == old(Visible(to))
  {
    SetParent(m, p, t, q);
  }

  /**
    Recompute the counts of m from its children and make the children point back to it.
   */
  method Refresh(m: Marker, ghost l: Shape, ghost r: Shape, ghost pl: Marker?, ghost pr: Marker?, ghost S: set<Marker>)
    requires Tree(m.left, l, pl) && Simple(l) && Tree(m.right, r, pr) && Simple(r)
    requires m !in Set(l) && m !in Set(r) && Set(l) !! Set(r) && Set(l) + Set(r) <= S
    modifies m`markers, m`visibleN, (Set(l) + Set(r))`parent
    ensures Tree(m, Bin(l, m, r), m.parent)
  {
    RecountBeside(m, l, r, pl, pr, S);
    SetParentBeside(m.left, m, l, pl, m.right, r, pr, S);
    SetParentBeside(m.right, m, r, pr, m.left, l, m, S);
  }

  /** Refresh m and make it a root. */
  method Hang(m: Marker, ghost l: Shape, ghost r: Shape, ghost pl: Marker?, ghost pr: Marker?, ghost S: set<Marker>)
    requires Tree(m.left, l, pl) && Simple(l) && Tree(m.right, r, pr) && Simple(r)
    requires m !in Set(l) && m !in Set(r) && Set(l) !! Set(r) && Set(l) + Set(r) <= S
    modifies m`markers, m`visibleN, m`parent, (Set(l) + Set(r))`parent
    ensures Tree(m, Bin(l, m, r), null)
  {
    Refresh(m, l, r, pl, pr, S);
    m.parent := null;
  }

  lemma {:induction false} MergedLeft(tl: Shape, tr: Shape, s: Shape)
    requires Simple(tl) && tl.Bin? && Set(tl) !! Set(tr)
    requires Simple(s) && Set(s) == Set(tl.r) + Set(tr) && InOrder(s) == InOrder(tl.r) + InOrder(tr)
    ensures var t := Bin(tl.l, tl.m, s);
      Simple(t) && Set(t) == Set(tl) + Set(tr) && InOrder(t) == InOrder(tl) + InOrder(tr)
  {
    Reassociate(InOrder(tl.l), [tl.m], InOrder(tl.r), InOrder(tr));
  }

  lemma {:induction false} MergedRight(tl: Shape, tr: Shape, s: Shape)
    requires Simple(tr) && tr.Bin? && Set(tl) !! Set(tr)
    requires Simple(s) && Set(s) == Set(tl) + Set(tr.l) && InOrder(s) == InOrder(tl) + InOrder(tr.l)
    ensures var t := Bin(s, tr.m, tr.r);
      Simple(t) && Set(t) == Set(tl) + Set(tr) && InOrder(t) == InOrder(tl) + InOrder(tr)
  {
    Reassociate(InOrder(tl), InOrder(tr.l), [tr.m], InOrder(tr.r));
  }

  method Merge(left: Marker?, right: Marker?, ghost tl: Shape, ghost tr: Shape, ghost pl: Marker?, ghost pr: Marker?,
               ghost S: set<Marker>)
    returns (root: Marker?, ghost t: Shape)
    requires Tree(left, tl, pl) && Simple(tl) && Tree(right, tr, pr) && Simple(tr)
    requires Set(tl) !! Set(tr) && Set(tl) + Set(tr) <= S
    modifies (Set(tl) + Set(tr))`left, (Set(tl) + Set(tr))`right, (Set(tl) + Set(tr))`parent
    modifies (Set(tl) + Set(tr))`markers, (Set(tl) + Set(tr))`visibleN
    ensures Tree(root, t, null) && Simple(t) && Set(t) == Set(tl) + Set(tr)
    ensures InOrder(t) == InOrder(tl) + InOrder(tr)
    decreases tl, tr, 1
  {
    if left == null {
      SetParent(right, null, tr, pr);
      return right, tr;
    }
    if right == null {
      SetParent(left, null, tl, pl);
      return left, tl;
    }
    if left.priority > right.priority {
      t := MergeIntoLeft(left, right, tl, tr, pr, S);
      return left, t;
    }
    t := MergeIntoRight(left, right, tl, tr, pl, S);
    return right, t;
  }

  method MergeIntoLeft(left: Marker, right: Marker?, ghost tl: Shape, ghost tr: Shape, ghost pr: Marker?,
                       ghost S: set<Marker>)
    returns (ghost t: Shape)
    requires Tree(left, tl, left.parent) && Simple(tl) && Tree(right, tr, pr) && Simple(tr)
    requires Set(tl) !! Set(tr) && Set(tl) + Set(tr) <= S
    modifies (Set(tl) + Set(tr))`left, (Set(tl) + Set(tr))`right, (Set(tl) + Set(tr))`parent
    modifies (Set(tl) + Set(tr))`markers, (Set(tl) + Set(tr))`visibleN
    ensures Tree(left, t, null) && Simple(t) && Set(t) == Set(tl) + Set(tr)
    ensures InOrder(t) == InOrder(tl) + InOrder(tr)
    decreases tl, tr, 0
  {
    ghost var s;
    left.right, s := Merge(left.right, right, tl.r, tr, left, pr, S);
    MergedLeft(tl, tr, s);
    Hang(left, tl.l, s, left, null, S);
    t := Bin(tl.l, left, s);
  }

  method MergeIntoRight(left: Marker?, right: Marker, ghost tl: Shape, ghost tr: Shape, ghost pl: Marker?,
                        ghost S: set<Marker>)
    returns (ghost t: Shape)
    requires Tree(left, tl, pl) && Simple(tl) && Tree(right, tr, right.parent) && Simple(tr)
    requires Set(tl) !! Set(tr) && Set(tl) + Set(tr) <= S
    modifies (Set(tl) + Set(tr))`left, (Set(tl) + Set(tr))`right, (Set(tl) + Set(tr))`parent
    modifies (Set(tl) + Set(tr))`markers, (Set(tl) + Set(tr))`visibleN
    ensures Tree(right, t, null) && Simple(t) && Set(t) == Set(tl) + Set(tr)
    ensures InOrder(t) == InOrder(tl) + InOrder(tr)
    decreases tl, tr, 0
  {
    hide InOrder;
    ghost var s;
    right.left, s := Merge(left, right.left, tl, tr.l, pl, right, S);
    MergedRight(tl, tr, s);
    Hang(right, s, tr.r, null, right, S);
    t := Bin(s, right, tr.r);
  }

  /** The same, next to another tree that stays as it is. */
  method HangBeside(m: Marker, ghost l: Shape, ghost r: Shape, ghost pl: Marker?, ghost pr: Marker?,
                    ghost other: Marker?, ghost to: Shape, ghost S: set<Marker>)
    requires Tree(m.left, l, pl) && Simple(l) && Tree(m.right, r, pr) && Simple(r)
    requires m !in Set(l) && m !in Set(r) && Set(l) !! Set(r) && Set(l) + Set(r) + Set(to) <= S
    requires Tree(other, to, null) && Set(to) !! Set(Bin(l, m, r))
    modifies m`markers, m`visibleN, m`parent, (Set(l) + Set(r))`parent
    ensures Tree(m, Bin(l, m, r), null) && Tree(other, to, null)
  {
    assert Set(Bin(l, m, r)) == Set(l) + Set(r) + {m};
    Hang(m, l, r, pl, pr, S);
  }

  lemma {:induction false} Reassociate<T>(a: seq<T>, b: seq<T>, c: seq<T>, d: seq<T>)
    ensures (a + b) + c + d == a + (b + c + d)
    ensures a + b + (c + d) == (a + b + c) + d
  {
  }

  lemma {:induction false} OrderLength(t: Shape)
    requires t.Bin?
    ensures |InOrder(t)| == |InOrder(t.l)| + 1 + |InOrder(t.r)|
  {
  }

  lemma {:induction false} SplitLeftShape(t: Shape, a: Shape, b: Shape)
    requires Simple(t) && t.Bin?
    requires Simple(a) && Simple(b) && Set(a) + Set(b) == Set(t.l) && Set(a) !! Set(b)
    requires InOrder(t.l) == InOrder(a) + InOrder(b)
    ensures var u := Bin(b, t.m, t.r);
      Simple(u) && Set(a) + Set(u) == Set(t) && Set(a) !! Set(u) && InOrder(t) == InOrder(a) + InOrder(u)
  {
    Reassociate(InOrder(a), InOrder(b), [t.m], InOrder(t.r));
  }

  lemma {:induction false} SplitRightShape(t: Shape, a: Shape, b: Shape)
    requires Simple(t) && t.Bin?
    requires Simple(a) && Simple(b) && Set(a) + Set(b) == Set(t.r) && Set(a) !! Set(b)
    requires InOrder(t.r) == InOrder(a) + InOrder(b)
    ensures var u := Bin(t.l, t.m, a);
      Simple(u) && Set(u) + Set(b) == Set(t) && Set(u) !! Set(b) && InOrder(t) == InOrder(u) + InOrder(b)
  {
    Reassociate(InOrder(t.l), [t.m], InOrder(a), InOrder(b));
  }

  /** Cut the first count markers off. */
  method Split(root: Marker?, count: int, ghost t: Shape, ghost p: Marker?, ghost S: set<Marker>)
    returns (left: Marker?, right: Marker?, ghost a: Shape, ghost b: Shape)
    requires Tree(root, t, p) && Simple(t) && Set(t) <= S && 0 <= count <= |InOrder(t)|
    modifies Set(t)`left, Set(t)`right, Set(t)`parent, Set(t)`markers, Set(t)`visibleN
    ensures Tree(left, a, null) && Simple(a) && Tree(right, b, null) && Simple(b)
    ensures Set(a) + Set(b) == Set(t) && Set(a) !! Set(b)
    ensures InOrder(t) == InOrder(a) + InOrder(b) && |InOrder(a)| == count
    decreases t, 1
  {
    if root == null {
      return null, null, Nil, Nil;
    }
    CountsExact(root.left, t.l, root);
    var leftCount := MarkerCount(root.left);
    if count <= leftCount {
      left, a, b := SplitInLeft(root, count, t, S);
      right := root;
    } else {
      right, a, b := SplitInRight(root, count, count - leftCount - 1, t, S);
      left := root;
    }
  }

  method SplitBeside(root: Marker?, count: int, ghost t: Shape, ghost p: Marker?, ghost other: Marker?, ghost to: Shape,
                     ghost S: set<Marker>)
    returns (left: Marker?, right: Marker?, ghost a: Shape, ghost b: Shape)
    requires Tree(root, t, p) && Simple(t) && 0 <= count <= |InOrder(t)|
    requires Tree(other, to, p) && Set(to) !! Set(t) && Set(t) + Set(to) <= S
    modifies Set(t)`left, Set(t)`right, Set(t)`parent, Set(t)`markers, Set(t)`visibleN
    ensures Tree(left, a, null) && Simple(a) && Tree(right, b, null) && Simple(b)
    ensures Set(a) + Set(b) == Set(t) && Set(a) !! Set(b)
    ensures InOrder(t) == InOrder(a) + InOrder(b) && |InOrder(a)| == count
    ensures Tree(other, to, p)
    decreases t, 2
  {
    left, right, a, b := Split(root, count, t, p, S);
  }

  method SplitInLeft(root: Marker, count: int, ghost t: Shape, ghost S: set<Marker>)
    returns (left: Marker?, ghost a: Shape, ghost b: Shape)
    requires Tree(root, t, root.parent) && Simple(t) && Set(t) <= S && 0 <= count <= |InOrder(t.l)|
    modifies Set(t)`left, Set(t)`right, Set(t)`parent, Set(t)`markers, Set(t)`visibleN
    ensures Tree(left, a, null) && Simple(a) && Tree(root, b, null) && Simple(b)
    ensures Set(a) + Set(b) == Set(t) && Set(a) !! Set(b)
    ensures InOrder(t) == InOrder(a) + InOrder(b) && |InOrder(a)| == count
    decreases t, 0
  {
    ghost var c;
    left, root.left, a, c := SplitBeside(root.left, count, t.l, root, root.right, t.r, S);
    SplitLeftShape(t, a, c);
    b := Bin(c, root, t.r);
    HangBeside(root, c, t.r, null, root, left, a, S);
  }

  method SplitInRight(root: Marker, ghost count: int, rest: int, ghost t: Shape, ghost S: set<Marker>)
    returns (right: Marker?, ghost a: Shape, ghost b: Shape)
    requires Tree(root, t, root.parent) && Simple(t) && Set(t) <= S
    requires |InOrder(t.l)| < count <= |InOrder(t)| && rest == count - |InOrder(t.l)| - 1
    modifies Set(t)`left, Set(t)`right, Set(t)`parent, Set(t)`markers, Set(t)`visibleN
    ensures Tree(root, a, null) && Simple(a) && Tree(right, b, null) && Simple(b)
    ensures Set(a) + Set(b) == Set(t) && Set(a) !! Set(b)
    ensures InOrder(t) == InOrder(a) + InOrder(b) && |InOrder(a)| == count
    decreases t, 0
  {
    hide InOrder;
    ghost var c;
    OrderLength(t);
    root.right, right, c, b := SplitBeside(root.right, rest, t.r, root, root.left, t.l, S);
    SplitRightShape(t, c, b);
    a := Bin(t.l, root, c);
    OrderLength(a);
    HangBeside(root, t.l, c, root, null, right, b, S);
  }

  // ----- climbing parent pointers -----

  /** The subtree rooted at x. */
  ghost function Find(t: Shape, x: Marker): (s: Shape)
    requires x in Set(t)
    ensures s.Bin? && s.m == x
    ensures |InOrder(s)| <= |InOrder(t)|
  {
    if t.m == x then t
    else if x in Set(t.l) then Find(t.l, x)
    else Find(t.r, x)
  }

  /** One step up from x: the parent exists, and x is exactly one of its two children. */
  lemma {:induction false} Climb(root: Marker?, t: Shape, p: Marker?, x: Marker)
    requires Tree(root, t, p) && Simple(t) && x in Set(t) && x != t.m
    ensures x.parent != null && x.parent in Set(t)
    ensures var q := Find(t, x.parent);
      || (q.l == Find(t, x) && x.parent.right != x)
      || (q.r == Find(t, x) && x.parent.right == x && x.parent.left != x)
  {
    if x in Set(t.l) {
      if x == t.l.m {
        assert Find(t, x) == t.l;
        if t.r.Bin? { assert t.m.right == t.r.m; }
      } else {
        Climb(t.m.left, t.l, t.m, x);
      }
    } else {
      if x == t.r.m {
        assert Find(t, x) == t.r;
        if t.l.Bin? { assert t.m.left == t.l.m; }
      } else {
        Climb(t.m.right, t.r, t.m, x);
      }
    }
  }

  lemma {:induction false} FindTree(root: Marker?, t: Shape, p: Marker?, x: Marker)
    requires Tree(root, t, p) && Simple(t) && x in Set(t)
    ensures Tree(x, Find(t, x), x.parent)
  {
    if x in Set(t.l) {
      FindTree(t.m.left, t.l, t.m, x);
    } else if x in Set(t.r) {
      FindTree(t.m.right, t.r, t.m, x);
    }
  }

  /** A rank inside the subtree of cur becomes a rank inside the subtree of its parent. */
  lemma {:induction false} RankUp(root: Marker?, t: Shape, cur: Marker, rank: int, marker: Marker)
    requires Tree(root, t, null) && Simple(t) && cur in Set(t) && cur.parent != null
    requires 0 <= rank < |InOrder(Find(t, cur))| && InOrder(Find(t, cur))[rank] == marker
    ensures cur.parent in Set(t) && |InOrder(Find(t, cur))| < |InOrder(Find(t, cur.parent))|
    ensures var up := rank + if cur == cur.parent.right then 1 + MarkerCount(cur.parent.left) else 0;
      0 <= up < |InOrder(Find(t, cur.parent))| && InOrder(Find(t, cur.parent))[up] == marker
  {
    Climb(root, t, null, cur);
    FindTree(root, t, null, cur.parent);
    var q := Find(t, cur.parent);
    CountsExact(cur.parent.left, q.l, cur.parent);
    Pick(InOrder(q.l), [q.m], InOrder(q.r), if cur == cur.parent.right then rank + 1 + |InOrder(q.l)| else rank);
  }

  lemma {:induction false} RankStart(root: Marker?, t: Shape, marker: Marker)
    requires Tree(root, t, null) && Simple(t) && marker in Set(t)
    ensures var k := MarkerCount(marker.left);
      0 <= k < |InOrder(Find(t, marker))| && InOrder(Find(t, marker))[k] == marker
  {
    FindTree(root, t, null, marker);
    CountsExact(marker.left, Find(t, marker).l, marker);
  }

  /** The position of a marker, read off the counts on its way to the root. */
  method MarkerRank(marker: Marker, ghost root: Marker?, ghost t: Shape) returns (rank: int)
    requires Tree(root, t, null) && Simple(t) && marker in Set(t)
    ensures 0 <= rank < |InOrder(t)| && InOrder(t)[rank] == marker
  {
    var cur := marker;
    RankStart(root, t, cur);
    rank := MarkerCount(cur.left);
    while cur.parent != null
      invariant cur in Set(t) && Tree(root, t, null)
      invariant 0 <= rank < |InOrder(Find(t, cur))| && InOrder(Find(t, cur))[rank] == marker
      decreases |InOrder(t)| - |InOrder(Find(t, cur))|
    {
      RankUp(root, t, cur, rank, marker);
      if cur == cur.parent.right {
        rank := rank + 1 + MarkerCount(cur.parent.left);
      }
      cur := cur.parent;
    }
    if cur != t.m {
      Climb(root, t, null, cur);
    }
  }

  // ----- changing one visibility flag -----

  /** The pointer part of Tree. */
  ghost predicate Links(root: Marker?, t: Shape, p: Marker?)
    reads Set(t)`left, Set(t)`right, Set(t)`parent
  {
    match t
    case Nil => root == null
    case Bin(l, m, r) => root == m && m.parent == p && Links(m.left, l, m) && Links(m.right, r, m)
  }

  /** The count part of Tree, at one marker. */
  ghost predicate CountsAt(m: Marker)
    reads m, m.left, m.right
  {
    && m.markers == 1 + MarkerCount(m.left) + MarkerCount(m.right)
    && m.visibleN == MarkerVisible(m.left) + MarkerVisible(m.right) + (if m.visible then 1 else 0)
  }

  lemma {:induction false} TreeParts(root: Marker?, t: Shape, p: Marker?)
    ensures Tree(root, t, p) <==> Links(root, t, p) && forall m :: m in Set(t) ==> CountsAt(m)
  {
    if t.Bin? && root == t.m {
      TreeParts(root.left, t.l, root);
      TreeParts(root.right, t.r, root);
      if Links(root, t, p) && forall m :: m in Set(t) ==> CountsAt(m) {
        assert CountsAt(t.m);
      }
    }
  }

  /** Parents and children name each other, inside the tree. */
  lemma {:induction false} LinksLocal(root: Marker?, t: Shape, p: Marker?)
    requires Links(root, t, p) && Simple(t)
    ensures forall m :: m in Set(t) && m.left != null ==> m.left in Set(t) && m.left.parent == m
    ensures forall m :: m in Set(t) && m.right != null ==> m.right in Set(t) && m.right.parent == m
    ensures forall m :: m in Set(t) && m != root ==> m.parent != null && m.parent in Set(t)
  {
    if t.Bin? {
      LinksLocal(root.left, t.l, root);
      LinksLocal(root.right, t.r, root);
    }
  }

  lemma {:induction false} LinksClimb(root: Marker?, t: Shape, p: Marker?, x: Marker)
    requires Links(root, t, p) && Simple(t) && x in Set(t) && x != root
    ensures x.parent != null && x.parent in Set(t)
    ensures |InOrder(Find(t, x))| < |InOrder(Find(t, x.parent))|
  {
    if x in Set(t.l) {
      if x != t.l.m { LinksClimb(root.left, t.l, root, x); }
    } else {
      if x != t.r.m { LinksClimb(root.right, t.r, root, x); }
    }
  }

  ghost predicate CountedExcept(S: set<Marker>, dirty: Marker?)
    reads S, set m | m in S :: m.left, set m | m in S :: m.right
  {
    forall m :: m in S && m != dirty ==> CountsAt(m)
  }

  /** Recounting the only stale marker leaves at most its parent stale. */
  method Repair(cur: Marker, ghost root: Marker?, ghost t: Shape, ghost S: set<Marker>)
    requires Links(root, t, null) && Simple(t) && cur in Set(t) && Set(t) <= S
    requires CountedExcept(Set(t), cur)
    modifies cur`markers, cur`visibleN
    ensures Links(root, t, null) && CountedExcept(Set(t), cur.parent)
  {
    LinksLocal(root, t, null);
    assert forall m :: m in Set(t) && (m.left == cur || m.right == cur) ==> m == cur.parent;
    Recount(cur);
  }

  /** A flag changes: the shape stays, and all counts but the ones at the marker itself are still right. */
  method Flip(marker: Marker, visible: bool, ghost root: Marker?, ghost t: Shape)
    requires Tree(root, t, null) && Simple(t) && marker in Set(t) && marker.visible != visible
    modifies marker`visible
    ensures Links(root, t, null) && CountedExcept(Set(t), marker) && marker.visible == visible
  {
    TreeParts(root, t, null);
    marker.visible := visible;
  }

  /** Change the flag of one marker and repair the counts on the way to the root. */
  method SetFlag(marker: Marker, visible: bool, root: Marker?, ghost t: Shape, ghost S: set<Marker>)
    requires Tree(root, t, null) && Simple(t) && marker in Set(t) && Set(t) <= S
    modifies marker`visible, Set(t)`markers, Set(t)`visibleN
    ensures Tree(root, t, null)
    ensures marker.visible == visible
  {
    if marker.visible == visible {
      return;
    }
    Flip(marker, visible, root, t);
    var cur: Marker? := marker;
    while cur != null
      invariant Links(root, t, null)
      invariant CountedExcept(Set(t), cur)
      invariant cur != null ==> cur in Set(t)
      invariant marker.visible == visible
      decreases if cur == null then 0 else 1 + |InOrder(t)| - |InOrder(Find(t, cur))|
    {
      if cur != root {
        LinksClimb(root, t, null, cur);
      }
      Repair(cur, root, t, S);
      cur := cur.parent;
    }
    TreeParts(root, t, null);
  }

  lemma {:induction false} Pick<T>(l: seq<T>, m: seq<T>, r: seq<T>, k: int)
    requires 0 <= k < |l + m + r|
    ensures k < |l| ==> (l + m + r)[k] == l[k]
    ensures |l| <= k < |l| + |m| ==> (l + m + r)[k] == m[k - |l|]
    ensures |l| + |m| <= k ==> k - |l| - |m| < |r| && (l + m + r)[k] == r[k - |l| - |m|]
  {
  }

  /** Which part of a tree holds the k-th visible id. */
  lemma {:induction false} Descend(cur: Marker?, s: Shape, p: Marker?, k: int)
    requires Tree(cur, s, p) && 0 <= k < |VisibleOf(InOrder(s))|
    ensures cur != null && s.Bin? && Tree(cur.left, s.l, cur) && Tree(cur.right, s.r, cur)
    ensures var v, l, r := VisibleOf(InOrder(s)), VisibleOf(InOrder(s.l)), VisibleOf(InOrder(s.r));
      && MarkerVisible(cur.left) == |l|
      && (k < |l| ==> v[k] == l[k])
      && (k == |l| && cur.visible ==> v[k] == cur.mark.id)
      && (k > |l| && cur.visible ==> k - |l| - 1 < |r| && v[k] == r[k - |l| - 1])
      && (k >= |l| && !cur.visible ==> k - |l| < |r| && v[k] == r[k - |l|])
  {
    VisibleBin(InOrder(s.l), s.m, InOrder(s.r));
    CountsExact(cur.left, s.l, cur);
    Pick(VisibleOf(InOrder(s.l)), if s.m.visible then [s.m.mark.id] else [], VisibleOf(InOrder(s.r)), k);
  }

  /** The offset-th visible id, by descending the counts. */
  method VisibleAtOffset(root: Marker?, offset: int, ghost t: Shape) returns (id: Tag, ok: bool)
    requires Tree(root, t, null)
    ensures ok <==> 0 <= offset < |VisibleOf(InOrder(t))|
    ensures ok ==> id == VisibleOf(InOrder(t))[offset]
  {
    CountsExact(root, t, null);
    if offset < 0 || offset >= MarkerVisible(root) {
      return ZERO, false;
    }
    var cur, rest := root, offset;
    ghost var s, p: Marker?, want := t, null, VisibleOf(InOrder(t))[offset];
    while cur != null
      invariant Tree(cur, s, p)
      invariant 0 <= rest < |VisibleOf(InOrder(s))| && VisibleOf(InOrder(s))[rest] == want
      decreases s
    {
      Descend(cur, s, p, rest);
      var leftVisible := MarkerVisible(cur.left);
      if rest < leftVisible {
        cur, s, p := cur.left, s.l, cur;
        continue;
      }
      rest := rest - leftVisible;
      if cur.visible {
        if rest == 0 {
          return cur.mark.id, true;
        }
        rest := rest - 1;
      }
      cur, s, p := cur.right, s.r, cur;
    }
    assert false;
  }
}
