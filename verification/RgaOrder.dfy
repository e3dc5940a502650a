/** The order of an insert-only list: a depth-first walk with siblings in descending tag order. */
module RgaOrder {
  import opened Tags
  import opened Forests

  predicate Greater(a: Tag, b: Tag) {
    Less(b, a)
  }

  lemma {:induction false} GreaterIsStrictTotalOrder()
    ensures StrictTotalOrder(Greater)
  {
    LessIsStrictTotalOrder();
    forall a, b
      ensures !Greater(a, a)
      ensures a != b ==> Greater(a, b) || Greater(b, a)
    {
      assert !Less(a, a);
      assert a != b ==> Less(a, b) || Less(b, a);
    }
    forall a, b, c | Greater(a, b) && Greater(b, c)
      ensures Greater(a, c)
    {
      assert Less(c, b) && Less(b, a);
    }
  }

  ghost function ChildSet(par: map<Tag, Tag>, x: Tag): set<Tag> {
    set c | c in par && par[c] == x
  }

  /** The children of x, newest tag first. */
  ghost function SortedKids(par: map<Tag, Tag>, x: Tag): (r: seq<Tag>) {
    GreaterIsStrictTotalOrder();
    SortSet(Greater, ChildSet(par, x))
  }

  lemma {:induction false} SortedKidsSpec(par: map<Tag, Tag>, x: Tag)
    ensures forall c :: c in SortedKids(par, x) <==> c in par && par[c] == x
    ensures Sorted(Greater, SortedKids(par, x))
  {
    GreaterIsStrictTotalOrder();
    SortSetSorts(Greater, ChildSet(par, x));
  }

  /** The forest that a parent map describes. */
  ghost function Canonical(par: map<Tag, Tag>): (f: Forest)
    ensures f.par == par
    ensures forall x :: f.Kids(x) == SortedKids(par, x)
  {
    var f := Forest(par, map x | x in par.Values :: SortedKids(par, x));
    assert forall x :: f.Kids(x) == SortedKids(par, x) by {
      forall x ensures f.Kids(x) == SortedKids(par, x) {
        var k := SortedKids(par, x);
        SortedKidsSpec(par, x);
        assert forall i :: 0 <= i < |k| ==> k[i] in par && par[k[i]] in par.Values;
      }
    }
    f
  }

  lemma {:induction false} SortedKidsDistinct(par: map<Tag, Tag>, x: Tag)
    ensures Distinct(SortedKids(par, x))
    ensures forall c :: c in SortedKids(par, x) <==> c in par && par[c] == x
  {
    SortedKidsSpec(par, x);
    GreaterIsStrictTotalOrder();
    DistinctNoDup(SortedKids(par, x));
  }

  lemma {:induction false} CanonicalWF(par: map<Tag, Tag>)
    requires Acyclic(par)
    ensures Canonical(par).WF()
  {
    var f := Canonical(par);
    forall x ensures Distinct(f.Kids(x)) && forall c :: c in f.Kids(x) <==> c in f.par && f.par[c] == x {
      SortedKidsDistinct(par, x);
    }
  }

  /** Tours depend only on the child lists. */
  lemma {:induction false} ToursExtensional(f: Forest, g: Forest, ids: seq<Tag>)
    requires f.WF() && g.WF() && forall x :: f.Kids(x) == g.Kids(x)
    ensures Tours(f, ids) == Tours(g, ids)
    decreases Bound(f.par, ids), |ids|
  {
    if ids != [] {
      KidsBelow(f, ids[0]);
      ToursExtensional(f, g, f.Kids(ids[0]));
      ToursExtensional(f, g, ids[1..]);
    }
  }

  // ----- adding and removing a leaf -----

  lemma {:induction false} AcyclicLeaf(par: map<Tag, Tag>, n: Tag, p: Tag)
    requires Acyclic(par) && n !in par && n !in par.Values && n != p
    ensures Acyclic(par[n := p])
  {
    var after := par[n := p];
    forall S: set<Tag> ensures !Trap(after, S) {
      if Trap(after, S) {
        var rest := S - {n};
        forall x | x in rest ensures x in par && par[x] in rest {
          assert after[x] == par[x];
        }
        assert n in S ==> after[n] == p && p in rest;
        assert Trap(par, rest);
      }
    }
  }

  lemma {:induction false} KidsAre(par: map<Tag, Tag>, x: Tag, s: seq<Tag>)
    requires Sorted(Greater, s) && forall c :: c in s <==> c in par && par[c] == x
    ensures SortedKids(par, x) == s
  {
    GreaterIsStrictTotalOrder();
    SortedKidsSpec(par, x);
    SortedUnique(Greater, SortedKids(par, x), s);
  }

  lemma {:induction false} InsertIn<T>(s: seq<T>, i: nat, n: T)
    requires i <= |s|
    ensures forall c :: c in s[..i] + [n] + s[i..] <==> c in s || c == n
  {
    assert s == s[..i] + s[i..];
  }

  lemma {:induction false} CanonicalAttach(par: map<Tag, Tag>, n: Tag, p: Tag, i: nat, x: Tag)
    requires n !in par && i <= |SortedKids(par, p)|
    requires Sorted(Greater, SortedKids(par, p)[..i] + [n] + SortedKids(par, p)[i..])
    ensures Canonical(par[n := p]).Kids(x) == Attach(Canonical(par), p, i, n).Kids(x)
  {
    SortedKidsSpec(par, x);
    if x == p {
      InsertIn(SortedKids(par, p), i, n);
      KidsAre(par[n := p], p, SortedKids(par, p)[..i] + [n] + SortedKids(par, p)[i..]);
    } else {
      KidsAre(par[n := p], x, SortedKids(par, x));
    }
  }

  /** Every parent is the root or a node: what integrating parents first ensures. */
  ghost predicate Rooted(par: map<Tag, Tag>) {
    Acyclic(par) && ZERO !in par && forall x :: x in par ==> par[x] == ZERO || par[x] in par
  }

  ghost predicate SortedInsert(par: map<Tag, Tag>, p: Tag, i: nat, n: Tag) {
    i <= |SortedKids(par, p)| && Sorted(Greater, SortedKids(par, p)[..i] + [n] + SortedKids(par, p)[i..])
  }

  lemma {:induction false} LeafAttached(par: map<Tag, Tag>, n: Tag, p: Tag, i: nat)
    requires Acyclic(par) && n !in par && n !in par.Values && n != p && SortedInsert(par, p, i, n)
    ensures Canonical(par).WF() && Canonical(par[n := p]).WF() && Attach(Canonical(par), p, i, n).WF()
    ensures Tour(Canonical(par), n) == [Enter(n), Exit(n)]
    ensures Tour(Canonical(par[n := p]), ZERO) == Tour(Attach(Canonical(par), p, i, n), ZERO)
  {
    AcyclicLeaf(par, n, p);
    CanonicalWF(par);
    CanonicalWF(par[n := p]);
    LeafTour(Canonical(par), n);
    AttachWF(Canonical(par), p, i, n);
    var f, g := Canonical(par[n := p]), Attach(Canonical(par), p, i, n);
    forall x ensures f.Kids(x) == g.Kids(x) {
      CanonicalAttach(par, n, p, i, x);
    }
    ToursExtensional(f, g, [ZERO]);
  }

  lemma {:induction false} RootReaches(par: map<Tag, Tag>, p: Tag)
    requires Rooted(par) && (p == ZERO || p in par) && Canonical(par).WF()
    ensures Enter(p) in Tour(Canonical(par), ZERO)
  {
    if p == ZERO {
      TourUnfold(Canonical(par), ZERO);
    } else {
      AllReached(Canonical(par), ZERO, p);
    }
  }

  /**
    Integrating a leaf n below p puts its two marks, next to each other, right after the exit of
    its nearest greater sibling or, without one, right after the entry of p.
   */
  lemma {:induction false} LeafInserted(par: map<Tag, Tag>, n: Tag, p: Tag, i: nat) returns (u: seq<Mark>, v: seq<Mark>)
    requires Rooted(par) && n !in par && n !in par.Values && n != p && (p == ZERO || p in par)
    requires SortedInsert(par, p, i, n)
    ensures Canonical(par).WF() && Canonical(par[n := p]).WF()
    ensures var anchor := if i == 0 then Enter(p) else Exit(SortedKids(par, p)[i - 1]);
      && Tour(Canonical(par), ZERO) == u + [anchor] + v
      && Tour(Canonical(par[n := p]), ZERO) == u + [anchor] + [Enter(n), Exit(n)] + v
  {
    LeafAttached(par, n, p, i);
    RootReaches(par, p);
    u, v := AttachSplit(Canonical(par), p, i, n, [ZERO]);
  }

  lemma {:induction false} LeafTour(f: Forest, n: Tag)
    requires f.WF() && n !in f.par.Values
    ensures Tour(f, n) == [Enter(n), Exit(n)]
  {
    TourUnfold(f, n);
    assert forall i :: 0 <= i < |f.Kids(n)| ==> f.Kids(n)[i] in f.Kids(n);
  }

  // ----- the walk -----

  /** Depth first, parent before children, without the markers. */
  ghost function Walk(f: Forest, ids: seq<Tag>): (r: seq<Tag>)
    requires f.WF()
    decreases Bound(f.par, ids), |ids|
  {
    if ids == [] then []
    else
      KidsBelow(f, ids[0]);
      [ids[0]] + Walk(f, f.Kids(ids[0])) + Walk(f, ids[1..])
  }

  ghost function Entered(ms: seq<Mark>): (r: seq<Tag>) {
    if ms == [] then []
    else (if ms[0].Enter? then [ms[0].id] else []) + Entered(ms[1..])
  }

  lemma {:induction false} Reassociated<T>(a: seq<T>, b: seq<T>, c: seq<T>)
    ensures a + (b + c) == (a + b) + c
  {
  }

  lemma {:induction false} EnteredConcat(a: seq<Mark>, b: seq<Mark>)
    ensures Entered(a + b) == Entered(a) + Entered(b)
  {
    if a == [] {
      assert a + b == b;
    } else {
      EnteredConcat(a[1..], b);
      assert (a + b)[0] == a[0] && (a + b)[1..] == a[1..] + b;
      Reassociated(if a[0].Enter? then [a[0].id] else [], Entered(a[1..]), Entered(b));
    }
  }

  lemma {:induction false} EnteredNode(x: Tag, mid: seq<Mark>, rest: seq<Mark>)
    ensures Entered([Enter(x)] + mid + [Exit(x)] + rest) == [x] + Entered(mid) + Entered(rest)
  {
    EnteredConcat([Enter(x)] + mid + [Exit(x)], rest);
    EnteredConcat([Enter(x)] + mid, [Exit(x)]);
    EnteredConcat([Enter(x)], mid);
    assert Entered([Enter(x)]) == [x] && Entered([Exit(x)]) == [];
  }

  /** The enter marks of a tour are the depth-first walk. */
  lemma {:induction false} EnteredTours(f: Forest, ids: seq<Tag>)
    requires f.WF()
    ensures Entered(Tours(f, ids)) == Walk(f, ids)
    decreases Bound(f.par, ids), |ids|
  {
    if ids != [] {
      KidsBelow(f, ids[0]);
      EnteredTours(f, f.Kids(ids[0]));
      EnteredTours(f, ids[1..]);
      EnteredNode(ids[0], Tours(f, f.Kids(ids[0])), Tours(f, ids[1..]));
    }
  }

  ghost function Without(s: seq<Tag>, hidden: set<Tag>): (r: seq<Tag>) {
    if s == [] then []
    else (if s[0] in hidden then [] else [s[0]]) + Without(s[1..], hidden)
  }

  /** What a reader of the list sees: the walk below the root without the deleted positions. */
  ghost function VisibleWalk(par: map<Tag, Tag>, hidden: set<Tag>): (r: seq<Tag>)
    requires Acyclic(par)
  {
    CanonicalWF(par);
    Without(Walk(Canonical(par), SortedKids(par, ZERO)), hidden)
  }
}
