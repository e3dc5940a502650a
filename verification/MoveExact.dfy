/** Insert is an exact list operation in every state. */
module MoveExacts {
  import opened Tags
  import opened Forests
  import opened RgaOrder
  import opened RgaStates
  import opened RgaEdits
  import opened RgaSplices
  import opened MoveOrders
  import opened MoveSplices
  import opened MoveProjections
  import opened MoveDecisions
  import opened MoveLocals

  /** The two placement maps rank the positions of par alike. */
  ghost predicate Alike(a: Placements, b: Placements, ids: set<Tag>) {
    forall x :: x in ids ==> TagOf(a, x) == TagOf(b, x) && RankOf(a, x) == RankOf(b, x)
  }

  lemma {:induction false} SortedAlike(a: Placements, b: Placements, ids: set<Tag>, s: seq<Tag>)
    requires Alike(a, b, ids) && Sorted(SiblingOrder(a), s) && forall x :: x in s ==> x in ids
    ensures Sorted(SiblingOrder(b), s)
  {
    forall i, j | 0 <= i < j < |s| ensures SiblingOrder(b)(s[i], s[j]) {
      assert SiblingOrder(a)(s[i], s[j]);
      assert s[i] in ids && s[j] in ids;
    }
  }

  /** Re-ranking other positions does not change a forest. */
  lemma {:induction false} GrownAlike(a: Placements, b: Placements, par: map<Tag, Tag>, x: Tag)
    requires Alike(a, b, par.Keys)
    ensures KidsBy(a, par, x) == KidsBy(b, par, x)
  {
    hide Sorted, KidsBy;
    KidsBySpec(a, par, x);
    SortedAlike(a, b, par.Keys, KidsBy(a, par, x));
    KidsByAre(b, par, x, KidsBy(a, par, x));
  }

  lemma {:induction false} GrownArranged(places: Placements, par: map<Tag, Tag>)
    ensures Arranged(places, Grown(places, par))
  {
    hide KidsBy, Sorted;
    forall x ensures Sorted(SiblingOrder(places), Grown(places, par).Kids(x)) {
      KidsBySpec(places, par, x);
    }
  }

  lemma {:induction false} SameWalk(f: Forest, g: Forest, ids: seq<Tag>)
    requires f.WF() && g.WF() && forall x :: f.Kids(x) == g.Kids(x)
    ensures Walk(f, ids) == Walk(g, ids)
  {
    ToursExtensional(f, g, ids);
    EnteredTours(f, ids);
    EnteredTours(g, ids);
  }

  /** A forest arranged by the new placements, with the new decisions as parents, shows the new list. */
  lemma {:induction false} Shows(t: MoveState, g: Forest, list: seq<Tag>)
    requires ZERO !in t.nodes && g.WF() && Arranged(Placed(t), g) && Decided(Placed(t), g.par)
    requires Live(g, ZERO, t.tombstones + {ZERO}) == list
    ensures VisibleMoves(t) == list && ParentsOf(Placed(t)) == g.par
  {
    hide Acyclic, Distinct, Live, Arranged, Decided, VisibleMoves, ParentsOf;
    DecidedUnique(Placed(t), g.par);
    VisibleIsLive(t);
    ShowsWalk(Placed(t), g, t.tombstones + {ZERO});
  }

  lemma {:induction false} ShowsWalk(places: Placements, g: Forest, dead: set<Tag>)
    requires g.WF() && Arranged(places, g)
    ensures Grown(places, g.par).WF() && Live(g, ZERO, dead) == Live(Grown(places, g.par), ZERO, dead)
  {
    ArrangedIsGrown(places, g, [ZERO]);
  }

  /** The position before an offset is the root or an element. */
  lemma {:induction false} AtKnown(s: MoveState, o: int, p: Tag)
    requires ValidState(s) && ZERO !in s.nodes && At(VisibleMoves(s), o, p)
    ensures p == ZERO || (p in s.nodes && p.Valid())
  {
    hide Tag.Valid, VisibleMoves;
    EveryLiveNodeOnce(s);
    if o > 0 {
      assert p in VisibleMoves(s);
    }
  }

  /** If every decision of a state is its anchor, none is dropped. */
  lemma {:induction false} IntactByDecisions(s: MoveState)
    requires ValidState(s) && s.tombstones <= s.nodes.Keys && ZERO !in s.nodes
    requires ParentsOf(Placed(s)) == Anchors(Placed(s)) && s.moves.Keys <= s.nodes.Keys
    ensures Intact(s)
  {
    hide Tag.Valid, Acyclic, ParentsOf;
    ParentsAreForest(Placed(s));
  }

  // ----- insertion -----

  /** n is newer than every element and every placement. */
  ghost predicate NewerThan(s: MoveState, n: Tag) {
    forall c :: c in s.nodes ==> Less(c, n) && Less(Placed(s)[c].tag, n)
  }

  /** n is new: no element, no anchor, and no placement of its own that would override the insertion. */
  ghost predicate Fresh(s: MoveState, n: Tag) {
    && n.Valid() && n !in s.nodes && n !in s.tombstones && NewerThan(s, n)
    && (forall c :: c in s.nodes ==> Placed(s)[c].anchor != n) && (n in s.moves ==> !Less(n, s.moves[n].tag))
  }

  ghost predicate FreshRun(s: MoveState, ids: seq<Tag>) {
    ids != [] && NoDup(ids) && forall n :: n in ids ==> Fresh(s, n)
  }

  lemma {:induction false} PlacedRun(s: MoveState, d: Nodes, ids: seq<Tag>, values: seq<Bytes>, p: Tag)
    requires FreshRun(s, ids) && IsRun(d, ids, values, p)
    ensures var places := Placed(MoveState(s.nodes + d, s.tombstones, s.moves));
      && places.Keys == s.nodes.Keys + Elems(ids)
      && (forall c :: c in s.nodes ==> places[c] == Placed(s)[c])
      && (forall i {:trigger ids[i]} :: 0 <= i < |ids| ==> places[ids[i]] == Placement(Prev(ids, i, p), ids[i], 0))
  {
    hide Prev, Tag.Valid, NewerThan, Less, NoDup;
    var t := MoveState(s.nodes + d, s.tombstones, s.moves);
    forall c | c in s.nodes ensures Placed(t)[c] == Placed(s)[c] {
    }
    forall i | 0 <= i < |ids| ensures Placed(t)[ids[i]] == Placement(Prev(ids, i, p), ids[i], 0) {
      assert ids[i] in ids && Fresh(s, ids[i]) && (s.nodes + d)[ids[i]] == d[ids[i]];
    }
  }

  /** New positions are roots that show only themselves. */
  lemma {:induction false} NewSingles(f: Forest, ids: seq<Tag>, dead: set<Tag>)
    requires f.WF() && NoDup(ids) && forall n :: n in ids ==> n !in f.par && n !in f.par.Values && n !in dead
    ensures Singles(f, ids, dead) && forall n :: n in ids ==> f.Kids(n) == []
  {
    hide NoDup, Acyclic, Distinct;
    forall n | n in ids ensures f.Kids(n) == [] && Live(f, n, dead) == [n] {
      assert forall i :: 0 <= i < |f.Kids(n)| ==> f.Kids(n)[i] in f.Kids(n);
      WalkUnfold(f, n);
      assert Walk(f, []) == [];
      WithoutOne(n, dead);
    }
  }

  /** The placements after an insertion: the run on top of what was there. */
  ghost predicate RunPlaced(s: MoveState, places: Placements, ids: seq<Tag>, p: Tag) {
    && places.Keys == s.nodes.Keys + Elems(ids)
    && (forall c :: c in s.nodes ==> places[c] == Placed(s)[c])
    && (forall i {:trigger ids[i]} :: 0 <= i < |ids| ==> places[ids[i]] == Placement(Prev(ids, i, p), ids[i], 0))
  }

  /** The forest after an insertion: the run hangs as a chain in front below p. */
  ghost function InsertForest(s: MoveState, places: Placements, ids: seq<Tag>, p: Tag): Forest
    requires ids != []
  {
    Attach(Link(Grown(places, ParentsOf(Placed(s))), ids), p, 0, ids[0])
  }

  lemma {:induction false} InsertedForest(s: MoveState, places: Placements, ids: seq<Tag>, p: Tag, o: int)
    requires ZERO !in s.nodes && FreshRun(s, ids) && At(VisibleMoves(s), o, p) && RunPlaced(s, places, ids, p)
    ensures var g := InsertForest(s, places, ids, p);
      && g.WF() && Arranged(places, g) && g.par == Chain(ParentsOf(Placed(s)), ids, p)
      && Live(g, ZERO, s.tombstones + {ZERO}) == VisibleMoves(s)[..o] + ids + VisibleMoves(s)[o..]
  {
    hide Forest.WF, Live, Arranged, VisibleMoves, Link, LinkPar, Grown, At, FreshRun, ParentsOf, RunPlaced;
    var f := Grown(places, ParentsOf(Placed(s)));
    InsertPlanted(s, places, ids, p, o);
    InsertReady(s, places, ids, p, o);
    ChainIn(places, f, ids, p, s.tombstones + {ZERO}, o);
    LinkParIs(f, ids);
  }

  lemma {:induction false} InsertPlanted(s: MoveState, places: Placements, ids: seq<Tag>, p: Tag, o: int)
    requires ZERO !in s.nodes && FreshRun(s, ids) && At(VisibleMoves(s), o, p) && RunPlaced(s, places, ids, p)
    ensures var f, dead := Grown(places, ParentsOf(Placed(s))), s.tombstones + {ZERO};
      && f.par == ParentsOf(Placed(s)) && ZERO !in f.par && f.WF() && Arranged(places, f)
      && Live(f, ZERO, dead) == VisibleMoves(s) && Hangs(f, dead, o, p)
  {
    hide Acyclic, Forest.WF, Live, Arranged, KidsBy, VisibleMoves, Placed, FreshRun, ParentsOf, Prev;
    var was, dead := Placed(s), s.tombstones + {ZERO};
    VisibleIsLive(s);
    assert Alike(was, places, ParentsOf(was).Keys);
    Regrown(was, places, ParentsOf(was), dead);
  }

  /** Everything that hanging the run in needs. */
  lemma {:induction false} InsertReady(s: MoveState, places: Placements, ids: seq<Tag>, p: Tag, o: int)
    requires ZERO !in s.nodes && FreshRun(s, ids) && At(VisibleMoves(s), o, p) && RunPlaced(s, places, ids, p)
    ensures ChainReady(places, Grown(places, ParentsOf(Placed(s))), ids, p, s.tombstones + {ZERO}, o)
  {
    hide Forest.WF, Live, Tag.Valid, Arranged, KidsBy, NoDup, Ahead, VisibleMoves, Fresh, Placed, AheadOfKids, Hangs,
      At, ParentsOf, Prev;
    var dead, par := s.tombstones + {ZERO}, ParentsOf(Placed(s));
    var f := Grown(places, par);
    InsertPlanted(s, places, ids, p, o);
    RunIsNew(s, ids);
    NewSingles(f, ids, dead);
    NoKidsAhead(places, f, ids);
    forall k | k in f.Kids(p) ensures Ahead(places, true, ids[0], k) {
      GrownKid(places, par, p, k);
      ParentsAreForest(Placed(s));
      NewestAhead(places, s, ids[0], k, true);
    }
  }

  lemma {:induction false} NoKidsAhead(places: Placements, f: Forest, xs: seq<Tag>)
    requires forall n :: n in xs ==> f.Kids(n) == []
    ensures AheadOfKids(places, f, xs)
  {
  }

  lemma {:induction false} GrownKid(places: Placements, par: map<Tag, Tag>, p: Tag, k: Tag)
    ensures k in Grown(places, par).Kids(p) <==> k in par && par[k] == p
  {
    KidsBySpec(places, par, p);
  }

  // ----- the decisions after an insertion -----

  /** Positions nobody points to, hung on without a cycle of their own, close no cycle elsewhere. */
  lemma {:induction false} AcyclicMore(small: map<Tag, Tag>, big: map<Tag, Tag>, extra: set<Tag>)
    requires big.Keys == small.Keys + extra && small.Keys !! extra
    requires forall x :: x in small ==> big[x] == small[x] && small[x] !in extra
    requires Acyclic(map x | x in extra :: big[x])
    ensures Acyclic(big) <==> Acyclic(small)
  {
    hide Acyclic;
    if Acyclic(big) {
      AcyclicPart(big, small);
    }
    if Acyclic(small) {
      AcyclicGrows(small, big, extra);
    }
  }

  lemma {:induction false} AcyclicGrows(small: map<Tag, Tag>, big: map<Tag, Tag>, extra: set<Tag>)
    requires big.Keys == small.Keys + extra && small.Keys !! extra
    requires forall x :: x in small ==> big[x] == small[x] && small[x] !in extra
    requires Acyclic(map x | x in extra :: big[x]) && Acyclic(small)
    ensures Acyclic(big)
  {
    var alone := map x | x in extra :: big[x];
    forall S: set<Tag> ensures !Trap(big, S) {
      if Trap(big, S) {
        var rest := S - extra;
        if rest == {} {
          forall x | x in S ensures x in extra {
            assert x !in rest;
          }
          TrapPart(alone, big, S);
        } else {
          forall x | x in rest ensures x in small && small[x] in rest {
            assert big[x] in S;
          }
          assert Trap(small, rest);
        }
      }
    }
  }

  /** Newest elements are decided first and no old anchor names them, so every old decision stays. */
  lemma {:induction false} OldDecision(s: MoveState, places: Placements, ids: seq<Tag>, p: Tag, c: Tag)
    requires ZERO !in s.nodes && FreshRun(s, ids) && RunPlaced(s, places, ids, p) && c in s.nodes
    requires Acyclic(Chain(ParentsOf(Placed(s)), ids, p))
    ensures var all := Chain(ParentsOf(Placed(s)), ids, p);
      c in all && Chosen(places, Earlier(places, all, c), c) == all[c]
  {
    hide Acyclic, Ahead, Placed, Prev, NoDup, Tag.Valid, Fresh, ParentsOf, Chain;
    var was, par, all := Placed(s), ParentsOf(Placed(s)), Chain(ParentsOf(Placed(s)), ids, p);
    ParentsAreForest(was);
    ChainIs(par, ids, p);
    DecidedHolds(was);
    RunIsNew(s, ids);
    var anchor := was[c].anchor;
    EarlierGrows(s, places, ids, p, c);
    assert anchor !in ids by {
      if anchor in ids {
        assert Fresh(s, anchor);
        NotAnchor(s, anchor, c);
      }
    }
    var small, big := Earlier(was, par, c), Earlier(places, all, c);
    assert (map x | x in Elems(ids) :: big[c := anchor][x]) == (map x | x in Elems(ids) :: big[x]);
    AcyclicMore(small[c := anchor], big[c := anchor], Elems(ids));
  }

  lemma {:induction false} NotAnchor(s: MoveState, n: Tag, c: Tag)
    requires Fresh(s, n) && c in s.nodes
    ensures Placed(s)[c].anchor != n && c != n
  {
  }

  lemma {:induction false} EarlierGrows(s: MoveState, places: Placements, ids: seq<Tag>, p: Tag, c: Tag)
    requires ZERO !in s.nodes && FreshRun(s, ids) && RunPlaced(s, places, ids, p) && c in s.nodes
    requires Acyclic(Chain(ParentsOf(Placed(s)), ids, p))
    ensures var was, par, all := Placed(s), ParentsOf(Placed(s)), Chain(ParentsOf(Placed(s)), ids, p);
      var small, big := Earlier(was, par, c), Earlier(places, all, c);
      && big.Keys == small.Keys + Elems(ids) && c !in small && c !in ids
      && (forall x :: x in small ==> x !in ids && big[x] == small[x] && small[x] !in ids)
      && Acyclic(map x | x in Elems(ids) :: big[x])
  {
    hide Acyclic, Placed, Prev, NoDup, Tag.Valid, Fresh, ParentsOf, Chain, Less;
    var was, par, all := Placed(s), ParentsOf(Placed(s)), Chain(ParentsOf(Placed(s)), ids, p);
    ParentsAreForest(was);
    ChainIs(par, ids, p);
    RunIsNew(s, ids);
    var small, big := Earlier(was, par, c), Earlier(places, all, c);
    AheadTotal(was, false, c, c);
    forall n | n in ids ensures n in big {
      var i :| 0 <= i < |ids| && ids[i] == n;
      NewestAhead(places, s, n, c, false);
    }
    assert big.Keys == small.Keys + Elems(ids);
    AcyclicPart(all, map x | x in Elems(ids) :: big[x]);
  }

  lemma {:induction false} NewDecision(s: MoveState, places: Placements, ids: seq<Tag>, p: Tag, i: nat)
    requires ZERO !in s.nodes && FreshRun(s, ids) && RunPlaced(s, places, ids, p) && i < |ids|
    requires p == ZERO || (p in s.nodes && p.Valid())
    requires Acyclic(Chain(ParentsOf(Placed(s)), ids, p))
    ensures var all := Chain(ParentsOf(Placed(s)), ids, p);
      ids[i] in all && Chosen(places, Earlier(places, all, ids[i]), ids[i]) == all[ids[i]]
  {
    hide Acyclic, Placed, Prev, NoDup, Tag.Valid, ParentsOf, Chain, Ahead, NewerThan;
    var par := ParentsOf(Placed(s));
    ChainIs(par, ids, p);
    PrevIs(ids, i, p);
    ZeroInvalid();
    assert ids[i] in ids && Fresh(s, ids[i]);
    if i > 0 {
      assert ids[i - 1] in ids && Fresh(s, ids[i - 1]);
      Different(ids, i);
    }
    if i > 0 || p != ZERO {
      ChosenAnchor(places, Chain(par, ids, p), ids[i]);
    }
  }

  lemma {:induction false} Different(ids: seq<Tag>, i: nat)
    requires NoDup(ids) && 0 < i < |ids|
    ensures ids[i - 1] != ids[i]
  {
  }

  lemma {:induction false} InsertDecided(s: MoveState, places: Placements, ids: seq<Tag>, p: Tag)
    requires ZERO !in s.nodes && FreshRun(s, ids) && RunPlaced(s, places, ids, p)
    requires p == ZERO || (p in s.nodes && p.Valid())
    requires Acyclic(Chain(ParentsOf(Placed(s)), ids, p))
    ensures Decided(places, Chain(ParentsOf(Placed(s)), ids, p))
  {
    hide Acyclic, Placed, Prev, NoDup, Tag.Valid, Fresh, ParentsOf, Chain, Chosen, Earlier;
    ParentsAreForest(Placed(s));
    ChainIs(ParentsOf(Placed(s)), ids, p);
    forall id | id in places
      ensures Chain(ParentsOf(Placed(s)), ids, p)[id]
           == Chosen(places, Earlier(places, Chain(ParentsOf(Placed(s)), ids, p), id), id) {
      if id in s.nodes {
        OldDecision(s, places, ids, p, id);
      } else {
        var i :| 0 <= i < |ids| && ids[i] == id;
        NewDecision(s, places, ids, p, i);
      }
    }
  }

  /**
    Inserting a run of fresh elements below the position before offset o puts them exactly at offset o, in every
    state.
   */
  lemma {:induction false} InsertIsExact(s: MoveState, d: Nodes, ids: seq<Tag>, values: seq<Bytes>, p: Tag, o: int)
    requires ValidState(s) && ZERO !in s.nodes && FreshRun(s, ids) && IsRun(d, ids, values, p)
    requires At(VisibleMoves(s), o, p)
    ensures var t := MoveState(s.nodes + d, s.tombstones, s.moves);
      && ZERO !in t.nodes && VisibleMoves(t) == VisibleMoves(s)[..o] + ids + VisibleMoves(s)[o..]
      && ParentsOf(Placed(t)) == Chain(ParentsOf(Placed(s)), ids, p)
  {
    hide Live, Tag.Valid, Arranged, NoDup, Prev, VisibleMoves, NewerThan, InsertForest, Placed, ParentsOf, Chain, Fresh,
      ValidState, Distinct;
    var t := MoveState(s.nodes + d, s.tombstones, s.moves);
    PlacedRun(s, d, ids, values, p);
    RunIsNew(s, ids);
    assert RunPlaced(s, Placed(t), ids, p);
    assert ZERO !in t.nodes by {
      assert t.nodes.Keys == Placed(t).Keys;
    }
    InsertedForest(s, Placed(t), ids, p, o);
    AtKnown(s, o, p);
    InsertDecided(s, Placed(t), ids, p);
    Shows(t, InsertForest(s, Placed(t), ids, p), VisibleMoves(s)[..o] + ids + VisibleMoves(s)[o..]);
  }

  /** An insertion drops nothing where nothing was dropped. */
  lemma {:induction false} InsertStaysIntact(s: MoveState, d: Nodes, ids: seq<Tag>, values: seq<Bytes>, p: Tag, o: int)
    requires ValidState(s) && Intact(s) && FreshRun(s, ids) && IsRun(d, ids, values, p) && At(VisibleMoves(s), o, p)
    requires ValidState(MoveState(s.nodes + d, s.tombstones, s.moves))
    ensures Intact(MoveState(s.nodes + d, s.tombstones, s.moves))
  {
    hide Tag.Valid, NoDup, Prev, VisibleMoves, NewerThan, ParentsOf, Chain, Fresh, ValidState, At, Placed, Acyclic;
    var t := MoveState(s.nodes + d, s.tombstones, s.moves);
    InsertIsExact(s, d, ids, values, p, o);
    PlacedRun(s, d, ids, values, p);
    NothingDropped(Placed(s));
    ChainIs(Anchors(Placed(s)), ids, p);
    forall id | id in Placed(t) ensures ParentsOf(Placed(t))[id] == Placed(t)[id].anchor {
      if id !in s.nodes {
        var i :| 0 <= i < |ids| && ids[i] == id;
      } else {
        RunIsNew(s, ids);
      }
    }
    assert ParentsOf(Placed(t)) == Anchors(Placed(t));
    IntactByDecisions(t);
  }

  /** Ranks of positions outside par do not matter to the forest of par. */
  lemma {:induction false} Regrown(a: Placements, b: Placements, par: map<Tag, Tag>, dead: set<Tag>)
    requires Alike(a, b, par.Keys) && Acyclic(par)
    ensures Grown(a, par).WF() && Grown(b, par).WF() && Arranged(b, Grown(b, par))
    ensures Live(Grown(b, par), ZERO, dead) == Live(Grown(a, par), ZERO, dead)
  {
    hide Acyclic, KidsBy, Live, Distinct;
    GrownWF(a, par);
    GrownWF(b, par);
    GrownArranged(b, par);
    forall x ensures Grown(a, par).Kids(x) == Grown(b, par).Kids(x) {
      GrownAlike(a, b, par, x);
    }
    SameLive(Grown(a, par), Grown(b, par), dead);
  }

  lemma {:induction false} SameLive(f: Forest, g: Forest, dead: set<Tag>)
    requires f.WF() && g.WF() && forall x :: f.Kids(x) == g.Kids(x)
    ensures Live(f, ZERO, dead) == Live(g, ZERO, dead)
  {
    SameWalk(f, g, [ZERO]);
  }

  lemma {:induction false} RunIsNew(s: MoveState, ids: seq<Tag>)
    requires ZERO !in s.nodes && FreshRun(s, ids)
    ensures ids[0] in ids
    ensures forall n :: n in ids ==>
      n != ZERO && n !in ParentsOf(Placed(s)) && n !in ParentsOf(Placed(s)).Values && n !in s.tombstones + {ZERO}
  {
    hide NoDup, Tag.Valid, ParentsOf, Less, Placed, Acyclic;
    ZeroInvalid();
    ParentsAreForest(Placed(s));
    forall n | n in ids ensures n != ZERO && n !in s.nodes && n !in s.tombstones {
      assert Fresh(s, n);
    }
  }

  lemma {:induction false} NewestAhead(places: Placements, s: MoveState, n: Tag, k: Tag, descending: bool)
    requires Fresh(s, n) && k in s.nodes && k in places && places[k] == Placed(s)[k] && n in places
    requires places[n].tag == n
    ensures Ahead(places, descending, n, k)
  {
    hide Tag.Valid;
    Trichotomy(places[k].tag, n);
  }
}
