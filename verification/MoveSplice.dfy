/** Why re-attaching chains of positions splices the visible list. */
module MoveSplices {
  import opened Tags
  import opened Forests
  import opened RgaOrder
  import opened Cycles
  import opened RgaSplices
  import opened MoveOrders

  // ----- attaching a tree in front -----

  /** In front of p's other children, the walk of m comes right after p. */
  lemma {:induction false} WalkAttach(f: Forest, root: Tag, p: Tag, m: Tag) returns (a: seq<Tag>, b: seq<Tag>)
    requires f.WF() && m !in f.par && Enter(p) !in Tour(f, m) && Enter(p) in Tour(f, root)
    ensures Attach(f, p, 0, m).WF()
    ensures Walk(f, [root]) == a + [p] + b && Walk(Attach(f, p, 0, m), [root]) == a + [p] + Walk(f, [m]) + b
  {
    AttachWF(f, p, 0, m);
    var u, v := AttachSplit(f, p, 0, m, [root]);
    var g := Attach(f, p, 0, m);
    EnteredTours(f, [root]);
    EnteredTours(g, [root]);
    EnteredTours(f, [m]);
    EnteredAround(u, p, Tour(f, m), v);
    a, b := Entered(u), Entered(v);
  }

  lemma {:induction false} EnteredAround(u: seq<Mark>, p: Tag, w: seq<Mark>, v: seq<Mark>)
    ensures Entered(u + [Enter(p)] + v) == Entered(u) + [p] + Entered(v)
    ensures Entered(u + [Enter(p)] + w + v) == Entered(u) + [p] + Entered(w) + Entered(v)
  {
    EnteredConcat(u + [Enter(p)], v);
    EnteredConcat(u, [Enter(p)]);
    EnteredConcat(u + [Enter(p)] + w, v);
    EnteredConcat(u + [Enter(p)], w);
    assert Entered([Enter(p)]) == [p];
  }

  /** Attaching m in front below the position before offset o inserts m's live walk at offset o. */
  lemma {:induction false} LiveAttach(f: Forest, root: Tag, p: Tag, m: Tag, dead: set<Tag>, o: int)
    requires f.WF() && m !in f.par && Enter(p) !in Tour(f, m) && Enter(p) in Tour(f, root)
    requires 0 <= o <= |Live(f, root, dead)|
    requires if o == 0 then p == root && p in dead else Live(f, root, dead)[o - 1] == p
    ensures Attach(f, p, 0, m).WF()
    ensures Live(Attach(f, p, 0, m), root, dead)
         == Live(f, root, dead)[..o] + Live(f, m, dead) + Live(f, root, dead)[o..]
  {
    hide Walk, NoDup, Without;
    var a, b := WalkAttach(f, root, p, m);
    LiveOnce(f, root, dead);
    WithoutConcat(a + [p], b, dead);
    WithoutConcat(a + [p] + Walk(f, [m]), b, dead);
    WithoutConcat(a + [p], Walk(f, [m]), dead);
    var before := Without(a + [p], dead);
    if o == 0 {
      FirstInWalk(f, root, a, b);
      WithoutAll(a + [p], dead);
    } else {
      EndsWith(a, p, dead, Live(f, root, dead), Without(b, dead), o);
    }
    Cut(before, Without(b, dead), o, Live(f, m, dead));
  }

  lemma {:induction false} FirstInWalk(f: Forest, root: Tag, a: seq<Tag>, b: seq<Tag>)
    requires f.WF() && Walk(f, [root]) == a + [root] + b
    ensures a == []
  {
    WalkNoDup(f, root);
    WalkUnfold(f, root);
    assert Walk(f, [root])[|a|] == root && Walk(f, [root])[0] == root;
  }

  lemma {:induction false} EndsWith(a: seq<Tag>, p: Tag, dead: set<Tag>, visible: seq<Tag>, rest: seq<Tag>, o: int)
    requires visible == Without(a + [p], dead) + rest && NoDup(visible) && 0 < o <= |visible| && visible[o - 1] == p
    requires forall x :: x in visible ==> x !in dead
    ensures |Without(a + [p], dead)| == o
  {
    assert visible[o - 1] in visible;
    WithoutConcat(a, [p], dead);
    assert Without([p], dead) == [p];
    var k := |Without(a + [p], dead)| - 1;
    assert visible[k] == p;
  }

  /** The trees of two roots have no node in common. */
  lemma {:induction false} RootsApart(f: Forest, x: Tag, y: Tag, z: Tag)
    requires f.WF() && x !in f.par && y !in f.par && x != y
    ensures Enter(z) !in Tour(f, x) || Enter(z) !in Tour(f, y)
  {
    SiblingTreesDisjoint(f, x, y, z);
  }

  lemma {:induction false} RootInOwn(f: Forest, x: Tag)
    requires f.WF()
    ensures Enter(x) in Tour(f, x)
  {
    TourUnfold(f, x);
  }

  /** Attaching below p leaves the walks of other roots alone. */
  lemma {:induction false} AttachApart(f: Forest, p: Tag, m: Tag, y: Tag, dead: set<Tag>)
    requires f.WF() && m !in f.par && Enter(p) !in Tour(f, m) && Enter(p) !in Tour(f, y)
    ensures Attach(f, p, 0, m).WF() && Live(Attach(f, p, 0, m), y, dead) == Live(f, y, dead)
  {
    AttachWF(f, p, 0, m);
    AttachElsewhere(f, p, 0, m, [y]);
    EnteredTours(f, [y]);
    EnteredTours(Attach(f, p, 0, m), [y]);
  }

  /** A first child may go in front of a sorted list. */
  lemma {:induction false} AttachArranged(places: Placements, f: Forest, p: Tag, m: Tag)
    requires Arranged(places, f) && forall k :: k in f.Kids(p) ==> Ahead(places, true, m, k)
    ensures Arranged(places, Attach(f, p, 0, m))
  {
    var g, less := Attach(f, p, 0, m), SiblingOrder(places);
    forall x ensures Sorted(less, g.Kids(x)) {
      assert Sorted(less, f.Kids(x));
      if x == p {
        var kids := f.Kids(p);
        assert kids[..0] + [m] + kids[0..] == [m] + kids;
        forall i, j | 0 <= i < j < |[m] + kids| ensures less(([m] + kids)[i], ([m] + kids)[j]) {
          assert ([m] + kids)[j] == kids[j - 1] && kids[j - 1] in kids;
          if i > 0 {
            assert ([m] + kids)[i] == kids[i - 1];
          }
        }
      } else {
        assert g.Kids(x) == f.Kids(x);
      }
    }
  }

  // ----- linking roots into a chain -----

  /** Each root becomes the first child of the one before it. */
  ghost function Link(f: Forest, xs: seq<Tag>): Forest
    decreases |xs|
  {
    if |xs| < 2 then f else Attach(Link(f, xs[1..]), xs[0], 0, xs[1])
  }

  /** xs are distinct roots that show exactly themselves. */
  ghost predicate Singles(f: Forest, xs: seq<Tag>, dead: set<Tag>)
    requires f.WF()
  {
    NoDup(xs) && forall x :: x in xs ==> x !in f.par && Live(f, x, dead) == [x]
  }

  /** A linked chain shows its members in order below the first one; other roots are untouched. */
  lemma {:induction false} LinkLive(f: Forest, xs: seq<Tag>, dead: set<Tag>)
    requires f.WF() && xs != [] && Singles(f, xs, dead)
    ensures Link(f, xs).WF() && xs[0] !in Link(f, xs).par
    ensures Live(Link(f, xs), xs[0], dead) == xs
    ensures forall y :: y !in f.par && y !in xs ==>
      y !in Link(f, xs).par && Live(Link(f, xs), y, dead) == Live(f, y, dead)
    decreases |xs|
  {
    hide Forest.WF, Live, NoDup;
    assert xs[0] in xs;
    if |xs| == 1 {
      assert xs == [xs[0]];
    } else {
      var rest, g := xs[1..], Link(f, xs[1..]);
      assert xs == [xs[0]] + rest && rest[0] == xs[1];
      SinglesTail(f, xs, dead);
      LinkLive(f, rest, dead);
      LinkStep(g, xs[0], rest, dead);
      forall y | y !in f.par && y !in xs
        ensures y !in Link(f, xs).par && Live(Link(f, xs), y, dead) == Live(f, y, dead) {
        RootsApart(g, xs[0], y, xs[0]);
        RootsApart(g, xs[0], xs[1], xs[0]);
        RootInOwn(g, xs[0]);
        AttachApart(g, xs[0], xs[1], y, dead);
      }
    }
  }

  lemma {:induction false} SinglesTail(f: Forest, xs: seq<Tag>, dead: set<Tag>)
    requires f.WF() && |xs| > 1 && Singles(f, xs, dead)
    ensures Singles(f, xs[1..], dead) && xs[0] !in xs[1..] && xs[1] in xs && xs[0] != xs[1]
  {
    hide Live;
    assert xs == [xs[0]] + xs[1..];
    NoDupSplit([xs[0]], xs[1..]);
    assert xs[0] in [xs[0]];
  }

  lemma {:induction false} LinkStep(g: Forest, x: Tag, rest: seq<Tag>, dead: set<Tag>)
    requires g.WF() && rest != [] && x !in rest && x !in g.par && rest[0] !in g.par
    requires Live(g, x, dead) == [x] && Live(g, rest[0], dead) == rest
    ensures Attach(g, x, 0, rest[0]).WF() && x !in Attach(g, x, 0, rest[0]).par
    ensures Live(Attach(g, x, 0, rest[0]), x, dead) == [x] + rest
  {
    hide Live, Forest.WF;
    var m := rest[0];
    RootInOwn(g, x);
    RootsApart(g, x, m, x);
    LiveAttach(g, x, x, m, dead, 1);
    assert [x][..1] + rest + [x][1..] == [x] + rest;
  }

  // ----- taking positions out -----

  /** Walking the forest without the moved positions skips exactly them. */
  lemma {:induction false} PruneWalk(f: Forest, g: Forest, moved: set<Tag>, dead: set<Tag>, ids: seq<Tag>)
    requires f.WF() && g.WF() && forall x :: g.Kids(x) == Without(f.Kids(x), moved)
    requires forall m, y :: m in moved && y in Walk(f, [m]) && y !in dead ==> y in moved
    ensures Without(Walk(g, Without(ids, moved)), dead) == Without(Walk(f, ids), dead + moved)
    decreases Bound(f.par, ids), |ids|
  {
    if ids != [] {
      var x, rest := ids[0], ids[1..];
      KidsBelow(f, x);
      PruneWalk(f, g, moved, dead, rest);
      WalkHead(f, ids);
      WithoutConcat(Walk(f, [x]), Walk(f, rest), dead + moved);
      if x in moved {
        assert Without(ids, moved) == Without(rest, moved);
        WithoutAll(Walk(f, [x]), dead + moved);
      } else {
        var kept := Without(rest, moved);
        assert Without(ids, moved) == [x] + kept;
        PruneWalk(f, g, moved, dead, f.Kids(x));
        PruneHead(f, g, moved, dead, x, kept);
      }
    }
  }

  lemma {:induction false} WalkHead(f: Forest, ids: seq<Tag>)
    requires f.WF() && ids != []
    ensures Walk(f, ids) == Walk(f, [ids[0]]) + Walk(f, ids[1..])
  {
    WalkUnfold(f, ids[0]);
  }

  lemma {:induction false} PruneHead(f: Forest, g: Forest, moved: set<Tag>, dead: set<Tag>, x: Tag, kept: seq<Tag>)
    requires f.WF() && g.WF() && g.Kids(x) == Without(f.Kids(x), moved) && x !in moved
    requires Without(Walk(g, Without(f.Kids(x), moved)), dead) == Without(Walk(f, f.Kids(x)), dead + moved)
    ensures Without(Walk(g, [x] + kept), dead) == Without(Walk(f, [x]), dead + moved) + Without(Walk(g, kept), dead)
  {
    hide Walk;
    WalkHead(g, [x] + kept);
    assert ([x] + kept)[1..] == kept;
    WalkUnfold(g, x);
    WalkUnfold(f, x);
    WithoutConcat(Walk(g, [x]), Walk(g, kept), dead);
    WithoutConcat([x], Walk(g, g.Kids(x)), dead);
    WithoutConcat([x], Walk(f, f.Kids(x)), dead + moved);
    assert Without([x], dead) == Without([x], dead + moved);
  }

  /** A subtree is one block of the walk, starting at its root. */
  lemma {:induction false} WalkBlock(f: Forest, ids: seq<Tag>, m: Tag) returns (a: seq<Tag>, b: seq<Tag>)
    requires f.WF() && m in Walk(f, ids)
    ensures Walk(f, ids) == a + Walk(f, [m]) + b
    decreases Bound(f.par, ids), |ids|
  {
    hide Acyclic, Distinct;
    var x, rest := ids[0], ids[1..];
    var below, after := Walk(f, f.Kids(x)), Walk(f, rest);
    KidsBelow(f, x);
    WalkHead(f, ids);
    WalkUnfold(f, x);
    if m == x {
      a, b := [], after;
      Nest([], [], Walk(f, [m]), [], after);
    } else if m in below {
      var c, d := WalkBlock(f, f.Kids(x), m);
      a, b := [x] + c, d + after;
      Nest([x], c, Walk(f, [m]), d, after);
    } else {
      var c, d := WalkBlock(f, rest, m);
      a, b := Walk(f, [x]) + c, d + [];
      Nest(Walk(f, [x]), c, Walk(f, [m]), d, []);
    }
  }

  lemma {:induction false} Nest<T>(e: seq<T>, c: seq<T>, w: seq<T>, d: seq<T>, r: seq<T>)
    ensures e + (c + w + d) + r == (e + c) + w + (d + r)
    ensures r == [] ==> e + (c + w + d) == (e + c) + w + (d + r)
    ensures c == [] && d == [] && e == [] ==> w + r == (e + c) + w + (d + r) == [] + w + r
  {
  }

  /** Whatever is visible below a position comes after it, so a visible suffix is closed downwards. */
  lemma {:induction false} SuffixClosed(f: Forest, root: Tag, dead: set<Tag>, from: int, m: Tag, y: Tag)
    requires f.WF() && 0 <= from <= |Live(f, root, dead)|
    requires m in Live(f, root, dead)[from..] && y in Walk(f, [m]) && y !in dead
    ensures y in Live(f, root, dead)[from..]
  {
    hide Walk, Without, Forest.WF, NoDup;
    var visible := Live(f, root, dead);
    LiveOnce(f, root, dead);
    assert m in visible;
    WalkIn(f, [root], m);
    var a, b := WalkBlock(f, [root], m);
    WithoutConcat(a + Walk(f, [m]), b, dead);
    WithoutConcat(a, Walk(f, [m]), dead);
    WalkNoDup(f, m);
    WithoutNoDup(Walk(f, [m]), dead);
    WalkUnfold(f, m);
    WithoutConcat([m], Walk(f, f.Kids(m)), dead);
    WithoutOne(m, dead);
    LaterInSuffix(Without(a, dead), Without(Walk(f, [m]), dead), Without(b, dead), from, m, y);
  }

  lemma {:induction false} WithoutOne(m: Tag, dead: set<Tag>)
    requires m !in dead
    ensures Without([m], dead) == [m]
  {
  }

  lemma {:induction false} LaterInSuffix(a: seq<Tag>, w: seq<Tag>, b: seq<Tag>, from: int, m: Tag, y: Tag)
    requires NoDup(a + w + b) && 0 <= from <= |a + w + b| && w != [] && w[0] == m
    requires m in (a + w + b)[from..] && y in w
    ensures y in (a + w + b)[from..]
  {
    var s := a + w + b;
    var j :| 0 <= j < |w| && w[j] == y;
    var k :| 0 <= k < |s[from..]| && s[from..][k] == m;
    assert s[|a|] == m && s[from + k] == m;
    assert s[|a| + j] == y;
    assert s[from..][|a| + j - from] == y;
  }
}
