/** Hanging chains of positions into a forest, and the states in which no attachment is dropped. */
module MoveLocals {
  import opened Tags
  import opened Forests
  import opened RgaOrder
  import opened RgaEdits
  import opened MoveOrders
  import opened MoveSplices
  import opened MoveProjections

  // ----- inserting a chain of single roots -----

  ghost function LinkPar(par: map<Tag, Tag>, xs: seq<Tag>): map<Tag, Tag>
    decreases |xs|
  {
    if |xs| < 2 then par else LinkPar(par, xs[1..])[xs[1] := xs[0]]
  }

  lemma {:induction false} LinkParIs(f: Forest, xs: seq<Tag>)
    ensures Link(f, xs).par == LinkPar(f.par, xs)
    decreases |xs|
  {
    if |xs| > 1 {
      LinkParIs(f, xs[1..]);
    }
  }

  lemma {:induction false} LinkParKeys(par: map<Tag, Tag>, xs: seq<Tag>, y: Tag)
    requires xs != []
    ensures y in LinkPar(par, xs) <==> y in par || y in xs[1..]
    ensures y in par && y !in xs[1..] ==> LinkPar(par, xs)[y] == par[y]
    decreases |xs|
  {
    if |xs| > 1 {
      LinkParKeys(par, xs[1..], y);
      assert xs[1..] == [xs[1]] + xs[1..][1..];
    }
  }

  lemma {:induction false} LinkParAt(par: map<Tag, Tag>, xs: seq<Tag>, i: int)
    requires NoDup(xs) && 0 < i < |xs|
    ensures xs[i] in LinkPar(par, xs) && LinkPar(par, xs)[xs[i]] == xs[i - 1]
    decreases |xs|
  {
    if i > 1 {
      var rest := xs[1..];
      assert xs[i] == rest[i - 1] && xs[i - 1] == rest[i - 2] && xs[i] != xs[1];
      assert forall j :: 0 <= j < |rest| ==> rest[j] == xs[j + 1];
      LinkParAt(par, rest, i - 1);
    }
  }

  /** The parents once xs hangs as a chain below p. */
  ghost function Chain(par: map<Tag, Tag>, xs: seq<Tag>, p: Tag): map<Tag, Tag>
    requires xs != []
  {
    LinkPar(par, xs)[xs[0] := p]
  }

  lemma {:induction false} ChainIs(par: map<Tag, Tag>, xs: seq<Tag>, p: Tag)
    requires xs != [] && NoDup(xs)
    ensures Chain(par, xs, p).Keys == par.Keys + Elems(xs)
    ensures forall y :: y in par && y !in xs ==> Chain(par, xs, p)[y] == par[y]
    ensures forall i {:trigger xs[i]} :: 0 <= i < |xs| ==> Chain(par, xs, p)[xs[i]] == Prev(xs, i, p)
  {
    hide LinkPar, Prev;
    var all := Chain(par, xs, p);
    assert xs == [xs[0]] + xs[1..] && xs[0] in xs;
    forall y ensures y in all <==> y in par || y in xs {
      LinkParKeys(par, xs, y);
    }
    forall y | y in par && y !in xs ensures all[y] == par[y] {
      LinkParKeys(par, xs, y);
    }
    forall i | 0 <= i < |xs| ensures all[xs[i]] == Prev(xs, i, p) {
      PrevIs(xs, i, p);
      if i > 0 {
        LinkParAt(par, xs, i);
        assert xs[i] != xs[0];
      }
    }
  }

  lemma {:induction false} PrevIs(ids: seq<Tag>, i: int, p: Tag)
    requires 0 <= i < |ids|
    ensures Prev(ids, i, p) == if i == 0 then p else ids[i - 1]
  {
  }

  /** Linking changes no child list except by putting members of the chain in front. */
  lemma {:induction false} LinkKids(f: Forest, xs: seq<Tag>, x: Tag)
    ensures x !in xs ==> Link(f, xs).Kids(x) == f.Kids(x)
    ensures forall k :: k in Link(f, xs).Kids(x) ==> k in f.Kids(x) || k in xs[if xs == [] then 0 else 1..]
    decreases |xs|
  {
    if |xs| > 1 {
      var rest := xs[1..];
      LinkKids(f, rest, x);
      assert rest == [rest[0]] + rest[1..];
      assert x in rest ==> x in xs;
    }
  }

  /** Every member of xs sorts before every child that any of them already has. */
  ghost predicate AheadOfKids(places: Placements, f: Forest, xs: seq<Tag>) {
    forall x, y, k {:trigger x in xs, k in f.Kids(y)} :: x in xs && y in xs && k in f.Kids(y) ==>
      Ahead(places, true, x, k)
  }

  lemma {:induction false} LinkArranged(places: Placements, f: Forest, xs: seq<Tag>)
    requires Arranged(places, f) && NoDup(xs) && AheadOfKids(places, f, xs)
    ensures Arranged(places, Link(f, xs))
    decreases |xs|
  {
    hide Ahead, NoDup, Arranged;
    if |xs| > 1 {
      var rest := xs[1..];
      assert xs == [xs[0]] + rest;
      NoDupSplit([xs[0]], rest);
      assert xs[0] in [xs[0]];
      assert xs[1] in xs && forall x :: x in rest ==> x in xs;
      forall x, y, k | x in rest && y in rest && k in f.Kids(y) ensures Ahead(places, true, x, k) {
        assert x in xs && y in xs;
      }
      LinkArranged(places, f, rest);
      LinkKids(f, rest, xs[0]);
      AttachArranged(places, Link(f, rest), xs[0], xs[1]);
    }
  }

  /** p is the live position before offset o in the tree of the root, or the root itself at offset 0. */
  ghost predicate Hangs(f: Forest, dead: set<Tag>, o: int, p: Tag)
    requires f.WF()
  {
    0 <= o <= |Live(f, ZERO, dead)| && (if o == 0 then p == ZERO && p in dead else Live(f, ZERO, dead)[o - 1] == p)
  }

  lemma {:induction false} HangsIn(f: Forest, dead: set<Tag>, o: int, p: Tag)
    requires f.WF() && Hangs(f, dead, o, p)
    ensures Enter(p) in Tour(f, ZERO)
  {
    RootInOwn(f, ZERO);
    LiveOnce(f, ZERO, dead);
    if o > 0 {
      assert Live(f, ZERO, dead)[o - 1] in Live(f, ZERO, dead);
    }
  }

  /** xs can be hung as a chain in front below p, in sibling order. */
  ghost predicate ChainReady(places: Placements, f: Forest, xs: seq<Tag>, p: Tag, dead: set<Tag>, o: int) {
    && f.WF() && Arranged(places, f) && xs != [] && Singles(f, xs, dead) && ZERO !in f.par && ZERO !in xs
    && Hangs(f, dead, o, p)
    && AheadOfKids(places, f, xs) && forall k :: k in f.Kids(p) ==> Ahead(places, true, xs[0], k)
  }

  /** A chain of single roots, hung in front below the position before offset o, appears in order at offset o. */
  lemma {:induction false} ChainIn(places: Placements, f: Forest, xs: seq<Tag>, p: Tag, dead: set<Tag>, o: int)
    requires ChainReady(places, f, xs, p, dead, o)
    ensures var g := Attach(Link(f, xs), p, 0, xs[0]);
      && g.WF() && Arranged(places, g) && ZERO !in g.par && p !in xs
      && Live(g, ZERO, dead) == Live(f, ZERO, dead)[..o] + xs + Live(f, ZERO, dead)[o..]
      && forall y :: y !in f.par && y !in xs && y != ZERO ==> y !in g.par && Live(g, y, dead) == Live(f, y, dead)
  {
    hide Forest.WF, Live, Ahead, NoDup, Arranged, AheadOfKids;
    var l := Link(f, xs);
    assert xs[0] in xs;
    LinkLive(f, xs, dead);
    LinkArranged(places, f, xs);
    assert Hangs(l, dead, o, p);
    HangsIn(f, dead, o, p);
    HangsIn(l, dead, o, p);
    NotInChain(f, xs, dead, p);
    LinkKids(f, xs, p);
    RootsApart(l, ZERO, xs[0], p);
    LiveAttach(l, ZERO, p, xs[0], dead, o);
    AttachArranged(places, l, p, xs[0]);
    forall y | y !in f.par && y !in xs && y != ZERO
      ensures y !in Attach(l, p, 0, xs[0]).par && Live(Attach(l, p, 0, xs[0]), y, dead) == Live(f, y, dead) {
      RootsApart(l, ZERO, y, p);
      AttachApart(l, p, xs[0], y, dead);
    }
  }

  lemma {:induction false} NotInChain(f: Forest, xs: seq<Tag>, dead: set<Tag>, p: Tag)
    requires f.WF() && Singles(f, xs, dead) && ZERO !in f.par && ZERO !in xs && Enter(p) in Tour(f, ZERO)
    ensures p !in xs
  {
    hide Live, NoDup;
    if p in xs {
      RootsApart(f, ZERO, p, p);
      RootInOwn(f, p);
    }
  }

  // ----- intact states -----

  ghost function Anchors(places: Placements): (par: map<Tag, Tag>)
    ensures par.Keys == places.Keys
  {
    map id | id in places :: places[id].anchor
  }

  /** Every anchor is known and no attachment closes a cycle. */
  ghost predicate Sound(places: Placements) {
    ZERO !in places && Rooted(Anchors(places)) && forall id :: id in places ==>
      places[id].anchor == ZERO || places[id].anchor.Valid()
  }

  ghost predicate Intact(s: MoveState) {
    && s.moves.Keys <= s.nodes.Keys && s.tombstones <= s.nodes.Keys && Sound(Placed(s))
    && forall id :: id in s.nodes ==> id.Valid()
  }

  /** In an intact state no attachment is ever dropped. */
  lemma {:induction false} NothingDropped(places: Placements)
    requires Sound(places)
    ensures ParentsOf(places) == Anchors(places)
  {
    InDecisionOrder(places);
    var ids := SortSet(DecisionOrder(places), places.Keys);
    DecideSound(places, ids);
    assert Elems(ids) == places.Keys;
  }

  lemma {:induction false} DecideSound(places: Placements, ids: seq<Tag>)
    requires Sound(places) && forall id :: id in ids ==> id in places
    ensures Decide(places, ids).Keys == Elems(ids)
    ensures forall id :: id in ids ==> Decide(places, ids)[id] == places[id].anchor
    decreases |ids|
  {
    hide Acyclic, Tag.Valid;
    if ids != [] {
      var n := |ids| - 1;
      var id, before, par := ids[n], Decide(places, ids[..n]), Anchors(places);
      assert ids == ids[..n] + [id];
      assert id in ids;
      DecideSound(places, ids[..n]);
      var anchor := places[id].anchor;
      var after := before[id := anchor];
      assert forall x :: x in after ==> x in par && par[x] == after[x];
      AcyclicPart(par, after);
      ZeroInvalid();
      NoSelf(par, id);
    }
  }

  lemma {:induction false} NoSelf(par: map<Tag, Tag>, x: Tag)
    requires Acyclic(par) && x in par
    ensures par[x] != x
  {
    assert !Trap(par, {x});
  }
}
