/** Placements of a move-capable list: the two sort orders, and forests with siblings in placement order. */
module MoveOrders {
  import opened Tags
  import opened Forests
  import opened RgaOrder
  import opened Cycles

  /** Where a position currently hangs, and how that placement ranks among others. */
  datatype Placement = Placement(anchor: Tag, tag: Tag, rank: nat)
  type Placements = map<Tag, Placement>

  function TagOf(places: Placements, x: Tag): Tag {
    if x in places then places[x].tag else ZERO
  }

  function RankOf(places: Placements, x: Tag): nat {
    if x in places then places[x].rank else 0
  }

  /** Newer placement first, then lower rank; ties are broken by descending or ascending identity. */
  predicate Ahead(places: Placements, descending: bool, a: Tag, b: Tag) {
    var s, t := TagOf(places, a), TagOf(places, b);
    if s != t then Less(t, s)
    else if RankOf(places, a) != RankOf(places, b) then RankOf(places, a) < RankOf(places, b)
    else if descending then Less(b, a) else Less(a, b)
  }

  /** Siblings are listed in this order. */
  function SiblingOrder(places: Placements): (Tag, Tag) -> bool {
    (a, b) => Ahead(places, true, a, b)
  }

  /** Attachments are decided in this order. */
  function DecisionOrder(places: Placements): (Tag, Tag) -> bool {
    (a, b) => Ahead(places, false, a, b)
  }

  lemma {:induction false} AheadTotal(places: Placements, d: bool, a: Tag, b: Tag)
    ensures !Ahead(places, d, a, a)
    ensures a != b ==> Ahead(places, d, a, b) || Ahead(places, d, b, a)
  {
    LessIsStrictTotalOrder();
  }

  lemma {:induction false} AheadTransitive(places: Placements, d: bool, a: Tag, b: Tag, c: Tag)
    requires Ahead(places, d, a, b) && Ahead(places, d, b, c)
    ensures Ahead(places, d, a, c)
  {
    LessIsStrictTotalOrder();
  }

  lemma {:induction false} OrdersAreStrict(places: Placements)
    ensures StrictTotalOrder(SiblingOrder(places)) && StrictTotalOrder(DecisionOrder(places))
  {
    hide Ahead;
    var sib, dec := SiblingOrder(places), DecisionOrder(places);
    forall a, b
      ensures !sib(a, a) && !dec(a, a)
      ensures a != b ==> (sib(a, b) || sib(b, a)) && (dec(a, b) || dec(b, a))
    {
      AheadTotal(places, true, a, b);
      AheadTotal(places, false, a, b);
    }
    forall a, b, c
      ensures sib(a, b) && sib(b, c) ==> sib(a, c)
      ensures dec(a, b) && dec(b, c) ==> dec(a, c)
    {
      if sib(a, b) && sib(b, c) { AheadTransitive(places, true, a, b, c); }
      if dec(a, b) && dec(b, c) { AheadTransitive(places, false, a, b, c); }
    }
  }

  // ----- forests in sibling order -----

  ghost function KidsBy(places: Placements, par: map<Tag, Tag>, x: Tag): seq<Tag> {
    OrdersAreStrict(places);
    SortSet(SiblingOrder(places), ChildSet(par, x))
  }

  lemma {:induction false} KidsBySpec(places: Placements, par: map<Tag, Tag>, x: Tag)
    ensures forall c :: c in KidsBy(places, par, x) <==> c in par && par[c] == x
    ensures Sorted(SiblingOrder(places), KidsBy(places, par, x)) && Distinct(KidsBy(places, par, x))
  {
    OrdersAreStrict(places);
    SortSetSorts(SiblingOrder(places), ChildSet(par, x));
    SortedDistinct(SiblingOrder(places), KidsBy(places, par, x));
  }

  lemma {:induction false} SortedDistinct(less: (Tag, Tag) -> bool, s: seq<Tag>)
    requires StrictTotalOrder(less) && Sorted(less, s)
    ensures Distinct(s)
  {
    DistinctNoDup(s);
  }

  lemma {:induction false} KidsByAre(places: Placements, par: map<Tag, Tag>, x: Tag, s: seq<Tag>)
    requires Sorted(SiblingOrder(places), s) && forall c :: c in s <==> c in par && par[c] == x
    ensures KidsBy(places, par, x) == s
  {
    OrdersAreStrict(places);
    KidsBySpec(places, par, x);
    SortedUnique(SiblingOrder(places), KidsBy(places, par, x), s);
  }

  ghost function Grown(places: Placements, par: map<Tag, Tag>): (f: Forest)
    ensures f.par == par && forall x :: f.Kids(x) == KidsBy(places, par, x)
  {
    var f := Forest(par, map x | x in par.Values :: KidsBy(places, par, x));
    assert forall x :: f.Kids(x) == KidsBy(places, par, x) by {
      forall x ensures f.Kids(x) == KidsBy(places, par, x) {
        if x !in par.Values {
          KidsByNone(places, par, x);
        }
      }
    }
    f
  }

  lemma {:induction false} KidsByNone(places: Placements, par: map<Tag, Tag>, x: Tag)
    requires x !in par.Values
    ensures KidsBy(places, par, x) == []
  {
    assert ChildSet(par, x) == {};
  }

  lemma {:induction false} GrownWF(places: Placements, par: map<Tag, Tag>)
    requires Acyclic(par)
    ensures Grown(places, par).WF()
  {
    hide KidsBy, Acyclic, Distinct;
    var f := Grown(places, par);
    forall x ensures Distinct(f.Kids(x)) && forall c :: c in f.Kids(x) <==> c in f.par && f.par[c] == x {
      KidsBySpec(places, par, x);
    }
  }

  /** Every child list of f is in sibling order. */
  ghost predicate Arranged(places: Placements, f: Forest) {
    forall x :: Sorted(SiblingOrder(places), f.Kids(x))
  }

  /** An arranged forest is the grown one, so both are walked alike. */
  lemma {:induction false} ArrangedIsGrown(places: Placements, f: Forest, ids: seq<Tag>)
    requires f.WF() && Arranged(places, f)
    ensures Grown(places, f.par).WF() && Walk(f, ids) == Walk(Grown(places, f.par), ids)
  {
    hide KidsBy, Acyclic, Distinct, Sorted;
    var g := Grown(places, f.par);
    GrownWF(places, f.par);
    forall x ensures f.Kids(x) == g.Kids(x) {
      assert Sorted(SiblingOrder(places), f.Kids(x));
      KidsByAre(places, f.par, x, f.Kids(x));
    }
    ToursExtensional(f, g, ids);
    EnteredTours(f, ids);
    EnteredTours(g, ids);
  }

  // ----- the live part of a walk -----

  ghost function Live(f: Forest, x: Tag, dead: set<Tag>): (r: seq<Tag>)
    requires f.WF()
  {
    Without(Walk(f, [x]), dead)
  }

  lemma {:induction false} WalkUnfold(f: Forest, x: Tag)
    requires f.WF()
    ensures Walk(f, [x]) == [x] + Walk(f, f.Kids(x))
  {
    assert [x][1..] == [] && Walk(f, []) == [];
  }

  lemma {:induction false} WalkIn(f: Forest, ids: seq<Tag>, y: Tag)
    requires f.WF()
    ensures y in Walk(f, ids) <==> Enter(y) in Tours(f, ids)
  {
    EnteredTours(f, ids);
    EnteredIn(Tours(f, ids), y);
  }

  lemma {:induction false} WalkNoDup(f: Forest, x: Tag)
    requires f.WF()
    ensures NoDup(Walk(f, [x]))
  {
    ToursNoDup(f, [x]);
    EnteredTours(f, [x]);
    EnteredNoDup(Tours(f, [x]));
  }

  lemma {:induction false} WithoutNoDup(s: seq<Tag>, dead: set<Tag>)
    requires NoDup(s)
    ensures NoDup(Without(s, dead)) && forall x :: x in Without(s, dead) <==> x in s && x !in dead
  {
    if s != [] {
      assert s == [s[0]] + s[1..];
      NoDupSplit([s[0]], s[1..]);
      WithoutNoDup(s[1..], dead);
      if s[0] !in dead {
        NoDupConcat([s[0]], Without(s[1..], dead));
        assert Without(s, dead) == [s[0]] + Without(s[1..], dead);
      } else {
        assert Without(s, dead) == Without(s[1..], dead);
      }
    }
  }

  lemma {:induction false} LiveOnce(f: Forest, x: Tag, dead: set<Tag>)
    requires f.WF()
    ensures NoDup(Live(f, x, dead)) && forall y :: y in Live(f, x, dead) <==> Enter(y) in Tour(f, x) && y !in dead
  {
    hide Without, Walk, NoDup;
    WalkNoDup(f, x);
    WithoutNoDup(Walk(f, [x]), dead);
    forall y ensures y in Walk(f, [x]) <==> Enter(y) in Tour(f, x) {
      WalkIn(f, [x], y);
    }
  }
}
