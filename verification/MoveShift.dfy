/** When Move is an exact splice: exactly which attachments it leaves alone. */
module MoveShifts {
  import opened Tags
  import opened Forests
  import opened RgaOrder
  import opened RgaEdits
  import opened Cycles
  import opened RgaSplices
  import opened MoveOrders
  import opened MoveSplices
  import opened MoveProjections
  import opened MoveDecisions
  import opened MoveLocals
  import opened MoveExacts

  // ----- taking the moved suffix out -----

  lemma {:induction false} SortedKept(less: (Tag, Tag) -> bool, s: seq<Tag>, moved: set<Tag>)
    requires Sorted(less, s)
    ensures Sorted(less, Without(s, moved)) && forall x :: x in Without(s, moved) <==> x in s && x !in moved
  {
    if s != [] {
      var rest := s[1..];
      assert forall i :: 0 <= i < |rest| ==> rest[i] == s[i + 1];
      SortedKept(less, rest, moved);
      assert s == [s[0]] + rest;
      if s[0] !in moved {
        assert Without(s, moved) == [s[0]] + Without(rest, moved);
        forall x | x in Without(rest, moved) ensures less(s[0], x) {
          var j :| 0 <= j < |rest| && rest[j] == x;
        }
      } else {
        assert Without(s, moved) == Without(rest, moved);
      }
    }
  }

  /** Without the moved positions, every child list just loses them, whatever their new ranks. */
  lemma {:induction false} UprootedKids(a: Placements, b: Placements, par: map<Tag, Tag>, moved: set<Tag>, x: Tag)
    requires Alike(a, b, par.Keys - moved)
    ensures KidsBy(b, par - moved, x) == Without(KidsBy(a, par, x), moved)
  {
    hide KidsBy, Sorted, Without, Ahead;
    var kids := KidsBy(a, par, x);
    KidsBySpec(a, par, x);
    SortedKept(SiblingOrder(a), kids, moved);
    SortedAlike(a, b, par.Keys - moved, Without(kids, moved));
    KidsByAre(b, par - moved, x, Without(kids, moved));
  }

  /** The forest with the visible suffix taken out: the root shows the prefix, every taken position shows itself. */
  lemma {:induction false} Uprooted(a: Placements, b: Placements, par: map<Tag, Tag>, dead: set<Tag>, from: int)
    requires Rooted(par) && ZERO in dead && Grown(a, par).WF() && 0 <= from <= |Live(Grown(a, par), ZERO, dead)|
    requires Alike(a, b, par.Keys - Elems(Live(Grown(a, par), ZERO, dead)[from..]))
    ensures var f := Grown(a, par); var visible := Live(f, ZERO, dead); var moved := Elems(visible[from..]); var g :=
      Grown(b, par - moved);
      && g.WF() && Arranged(b, g) && Live(g, ZERO, dead) == visible[..from]
      && forall m :: m in moved ==> Live(g, m, dead) == [m]
  {
    hide Acyclic, Forest.WF, Live, KidsBy, Arranged, Walk;
    var f := Grown(a, par);
    var visible := Live(f, ZERO, dead);
    var moved := Elems(visible[from..]);
    var g := Grown(b, par - moved);
    AcyclicPart(par, par - moved);
    GrownWF(b, par - moved);
    GrownArranged(b, par - moved);
    forall x ensures g.Kids(x) == Without(f.Kids(x), moved) {
      UprootedKids(a, b, par, moved, x);
    }
    forall m, y | m in moved && y in Walk(f, [m]) && y !in dead ensures y in moved {
      SuffixClosed(f, ZERO, dead, from, m, y);
    }
    LiveOnce(f, ZERO, dead);
    forall m | m in moved ensures m !in dead {
      assert m in visible;
    }
    PrunedRoot(f, g, moved, dead, from);
    forall m | m in moved ensures Live(g, m, dead) == [m] {
      PrunedSingle(f, g, moved, dead, m);
    }
  }

  lemma {:induction false} PrunedRoot(f: Forest, g: Forest, moved: set<Tag>, dead: set<Tag>, from: int)
    requires f.WF() && g.WF() && forall x :: g.Kids(x) == Without(f.Kids(x), moved)
    requires forall m, y :: m in moved && y in Walk(f, [m]) && y !in dead ==> y in moved
    requires 0 <= from <= |Live(f, ZERO, dead)| && moved == Elems(Live(f, ZERO, dead)[from..]) && ZERO !in moved
    ensures Live(g, ZERO, dead) == Live(f, ZERO, dead)[..from]
  {
    hide Forest.WF, Walk, NoDup, Without;
    var visible := Live(f, ZERO, dead);
    PruneWalk(f, g, moved, dead, [ZERO]);
    WithoutOne(ZERO, moved);
    WithoutTwice(Walk(f, [ZERO]), dead, moved);
    LiveOnce(f, ZERO, dead);
    assert visible == visible[..from] + visible[from..] + [];
    RangeCut(visible[..from], visible[from..], []);
    assert visible[..from] + [] == visible[..from];
  }

  lemma {:induction false} PrunedSingle(f: Forest, g: Forest, moved: set<Tag>, dead: set<Tag>, m: Tag)
    requires f.WF() && g.WF() && forall x :: g.Kids(x) == Without(f.Kids(x), moved)
    requires forall m, y :: m in moved && y in Walk(f, [m]) && y !in dead ==> y in moved
    requires m in moved && m !in dead
    ensures Live(g, m, dead) == [m]
  {
    hide Forest.WF, Without;
    PruneWalk(f, g, moved, dead, f.Kids(m));
    WalkUnfold(g, m);
    WalkUnfold(f, m);
    WithoutConcat([m], Walk(g, g.Kids(m)), dead);
    WithoutOne(m, dead);
    WithoutAll(Walk(f, f.Kids(m)), dead + moved);
    assert [m] + [] == [m];
  }

  // ----- hanging the two chains back in -----

  /** The records of one move: the selection below a, the rest of the suffix below b, all under one tag. */
  ghost predicate IsShift(r: map<Tag, MoveRecord>, sel: seq<Tag>, rest: seq<Tag>, a: Tag, b: Tag, tag: Tag) {
    && r.Keys == Elems(sel) + Elems(rest)
    && (forall i {:trigger sel[i]} :: 0 <= i < |sel| ==>
      sel[i] in r && r[sel[i]] == MoveRecord(tag, Prev(sel, i, a), i))
    && (forall j {:trigger rest[j]} :: 0 <= j < |rest| ==>
      rest[j] in r && r[rest[j]] == MoveRecord(tag, Prev(rest, j, b), |sel| + j))
  }

  lemma {:induction false} PlacedShift(s: MoveState, r: map<Tag, MoveRecord>, tag: Tag)
    requires r.Keys <= s.nodes.Keys && NewerThan(s, tag) && forall x :: x in r ==> r[x].tag == tag
    ensures var places := Placed(MoveState(s.nodes, s.tombstones, s.moves + r));
      forall c :: c in s.nodes ==> places[c] == if c in r then Placement(r[c].anchor, tag, r[c].rank) else Placed(s)[c]
  {
  }

  /** A newly moved position sorts before everything that was not moved with it. */
  lemma {:induction false} MovedAhead(places: Placements, s: MoveState, tag: Tag, x: Tag, k: Tag)
    requires NewerThan(s, tag) && x in places && places[x].tag == tag && k in s.nodes && k in places
    requires places[k] == Placed(s)[k]
    ensures Ahead(places, true, x, k)
  {
    Trichotomy(places[k].tag, tag);
  }

  /** What a shift has to know about the state, the suffix and the new placements. */
  ghost predicate Shift(s: MoveState, places: Placements, from: int, sel: seq<Tag>, rest: seq<Tag>, tag: Tag)
    requires ZERO !in s.nodes
  {
    && NewerThan(s, tag) && 0 <= from <= |VisibleMoves(s)| && VisibleMoves(s)[from..] == sel + rest && sel != []
    && places.Keys == s.nodes.Keys
    && (forall c :: c in s.nodes && c !in sel && c !in rest ==> places[c] == Placed(s)[c])
    && (forall x :: x in sel || x in rest ==> x in places && places[x].tag == tag)
    && (forall y :: y in rest ==> y in places && places[sel[0]].rank < places[y].rank)
  }

  /** The forest after the suffix is taken out. */
  ghost function Stump(s: MoveState, places: Placements, sel: seq<Tag>, rest: seq<Tag>): Forest {
    Grown(places, ParentsOf(Placed(s)) - Elems(sel + rest))
  }

  lemma {:induction false} StumpReady(s: MoveState, places: Placements, from: int, sel: seq<Tag>, rest: seq<Tag>,
                                      tag: Tag)
    requires ZERO !in s.nodes && Shift(s, places, from, sel, rest, tag)
    ensures var f, dead := Stump(s, places, sel, rest), s.tombstones + {ZERO};
      && f.WF() && Arranged(places, f) && ZERO !in f.par && Live(f, ZERO, dead) == VisibleMoves(s)[..from]
      && (forall m :: m in sel || m in rest ==> m !in f.par && Live(f, m, dead) == [m] && m != ZERO && m in s.nodes)
      && NoDup(sel) && NoDup(rest) && (forall m :: m in sel ==> m !in rest)
  {
    hide Acyclic, Forest.WF, Live, KidsBy, Arranged, VisibleMoves, NoDup, Placed, Tag.Valid, NewerThan, ParentsOf;
    var was, dead := Placed(s), s.tombstones + {ZERO};
    var par := ParentsOf(was);
    VisibleIsLive(s);
    EveryLiveNodeOnce(s);
    SuffixParts(VisibleMoves(s), from, sel, rest);
    assert Elems(VisibleMoves(s)[from..]) == Elems(sel + rest);
    assert Alike(was, places, par.Keys - Elems(sel + rest));
    Uprooted(was, places, par, dead, from);
  }

  lemma {:induction false} SuffixParts(visible: seq<Tag>, from: int, sel: seq<Tag>, rest: seq<Tag>)
    requires NoDup(visible) && 0 <= from <= |visible| && visible[from..] == sel + rest
    ensures NoDup(sel) && NoDup(rest) && (forall m :: m in sel ==> m !in rest)
    ensures forall m :: m in sel || m in rest ==> m in visible
  {
    assert visible == visible[..from] + (sel + rest);
    NoDupSplit(visible[..from], sel + rest);
    NoDupSplit(sel, rest);
    assert forall m :: m in sel || m in rest ==> m in sel + rest;
  }

  /** Children of the stump were not moved. */
  lemma {:induction false} StumpKid(s: MoveState, places: Placements, sel: seq<Tag>, rest: seq<Tag>, p: Tag, k: Tag)
    requires k in Stump(s, places, sel, rest).Kids(p)
    ensures k in s.nodes && k !in sel && k !in rest
  {
    hide ParentsOf;
    DecidedHolds(Placed(s));
    GrownKid(places, ParentsOf(Placed(s)) - Elems(sel + rest), p, k);
    assert forall m :: m in sel || m in rest ==> m in sel + rest;
  }

  lemma {:induction false} RestReady(s: MoveState, places: Placements, from: int, sel: seq<Tag>, rest: seq<Tag>,
                                     tag: Tag, b: Tag)
    requires ZERO !in s.nodes && Shift(s, places, from, sel, rest, tag) && rest != []
    requires if from == 0 then b == ZERO else b == VisibleMoves(s)[from - 1]
    ensures ChainReady(places, Stump(s, places, sel, rest), rest, b, s.tombstones + {ZERO}, from)
  {
    hide Forest.WF, Live, Arranged, VisibleMoves, NoDup, Placed, NewerThan, Ahead, ParentsOf, Stump;
    var f, dead := Stump(s, places, sel, rest), s.tombstones + {ZERO};
    StumpReady(s, places, from, sel, rest, tag);
    assert rest[0] in rest;
    forall x, y, k | x in rest && y in rest && k in f.Kids(y) ensures Ahead(places, true, x, k) {
      StumpKid(s, places, sel, rest, y, k);
      MovedAhead(places, s, tag, x, k);
    }
    forall k | k in f.Kids(b) ensures Ahead(places, true, rest[0], k) {
      StumpKid(s, places, sel, rest, b, k);
      MovedAhead(places, s, tag, rest[0], k);
    }
  }

  /** The forest once the rest of the suffix hangs below its former predecessor. */
  ghost function Regrafted(s: MoveState, places: Placements, sel: seq<Tag>, rest: seq<Tag>, b: Tag): Forest {
    if rest == [] then Stump(s, places, sel, rest)
    else Attach(Link(Stump(s, places, sel, rest), rest), b, 0, rest[0])
  }

  lemma {:induction false} RegraftedKid(s: MoveState, places: Placements, sel: seq<Tag>, rest: seq<Tag>, b: Tag, p: Tag,
                                        k: Tag)
    requires k in Regrafted(s, places, sel, rest, b).Kids(p)
    ensures k in rest || (k in s.nodes && k !in sel && k !in rest)
    ensures p !in rest && p != b ==> k !in rest
  {
    hide Stump;
    var f := Stump(s, places, sel, rest);
    if rest != [] {
      LinkKids(f, rest, p);
      assert rest == [rest[0]] + rest[1..];
    }
    if k in f.Kids(p) {
      StumpKid(s, places, sel, rest, p, k);
    }
  }

  lemma {:induction false} RegraftedReady(s: MoveState, places: Placements, from: int, sel: seq<Tag>, rest: seq<Tag>,
                                          tag: Tag, b: Tag)
    requires ZERO !in s.nodes && Shift(s, places, from, sel, rest, tag)
    requires if from == 0 then b == ZERO else b == VisibleMoves(s)[from - 1]
    ensures var g, dead := Regrafted(s, places, sel, rest, b), s.tombstones + {ZERO};
      && g.WF() && Arranged(places, g) && ZERO !in g.par && Live(g, ZERO, dead) == VisibleMoves(s)[..from] + rest
      && (forall m :: m in sel ==> m !in g.par && Live(g, m, dead) == [m]) && NoDup(sel)
  {
    hide Forest.WF, Live, Arranged, VisibleMoves, NoDup, Placed, NewerThan, ParentsOf, Stump, Link, Shift;
    var f, dead := Stump(s, places, sel, rest), s.tombstones + {ZERO};
    StumpReady(s, places, from, sel, rest, tag);
    ShiftBounds(s, places, from, sel, rest, tag);
    var prefix := VisibleMoves(s)[..from];
    if rest == [] {
      assert prefix + rest == prefix;
    } else {
      RestReady(s, places, from, sel, rest, tag, b);
      ChainIn(places, f, rest, b, dead, from);
      assert prefix[..from] + rest + prefix[from..] == prefix + rest;
    }
  }

  lemma {:induction false} ShiftBounds(s: MoveState, places: Placements, from: int, sel: seq<Tag>, rest: seq<Tag>,
                                       tag: Tag)
    requires ZERO !in s.nodes && Shift(s, places, from, sel, rest, tag)
    ensures ZERO !in s.nodes && 0 <= from <= |VisibleMoves(s)| && sel != []
  {
  }

  /** The list without the selection. */
  ghost function Remaining(s: MoveState, from: int, rest: seq<Tag>): seq<Tag>
    requires ZERO !in s.nodes && 0 <= from <= |VisibleMoves(s)|
  {
    VisibleMoves(s)[..from] + rest
  }

  lemma {:induction false} SelReady(s: MoveState, places: Placements, from: int, sel: seq<Tag>, rest: seq<Tag>,
                                    tag: Tag, a: Tag, b: Tag, to: int)
    requires ZERO !in s.nodes && Shift(s, places, from, sel, rest, tag)
    requires if from == 0 then b == ZERO else b == VisibleMoves(s)[from - 1]
    requires At(Remaining(s, from, rest), to, a)
    ensures ChainReady(places, Regrafted(s, places, sel, rest, b), sel, a, s.tombstones + {ZERO}, to)
  {
    hide Forest.WF, Live, Arranged, VisibleMoves, NoDup, Placed, NewerThan, Ahead, ParentsOf, Regrafted;
    var g, dead := Regrafted(s, places, sel, rest, b), s.tombstones + {ZERO};
    StumpReady(s, places, from, sel, rest, tag);
    RegraftedReady(s, places, from, sel, rest, tag, b);
    assert sel[0] in sel;
    forall x, y, k | x in sel && y in sel && k in g.Kids(y) ensures Ahead(places, true, x, k) {
      BeforeSelection(s, places, from, sel, rest, tag, b, y);
      RegraftedKid(s, places, sel, rest, b, y, k);
      MovedAhead(places, s, tag, x, k);
    }
    forall k | k in g.Kids(a) ensures Ahead(places, true, sel[0], k) {
      RegraftedKid(s, places, sel, rest, b, a, k);
      if k in rest {
        RankAhead(places, sel[0], k);
      } else {
        MovedAhead(places, s, tag, sel[0], k);
      }
    }
  }

  lemma {:induction false} RankAhead(places: Placements, x: Tag, k: Tag)
    requires x in places && k in places && places[x].tag == places[k].tag && places[x].rank < places[k].rank
    ensures Ahead(places, true, x, k)
  {
  }

  lemma {:induction false} BeforeSelection(s: MoveState, places: Placements, from: int, sel: seq<Tag>, rest: seq<Tag>,
                                           tag: Tag, b: Tag, y: Tag)
    requires ZERO !in s.nodes && Shift(s, places, from, sel, rest, tag) && y in sel
    requires if from == 0 then b == ZERO else b == VisibleMoves(s)[from - 1]
    ensures y !in rest && y != b
  {
    hide VisibleMoves, Placed, NewerThan, Tag.Valid;
    EveryLiveNodeOnce(s);
    SuffixParts(VisibleMoves(s), from, sel, rest);
    assert y in VisibleMoves(s);
    if from > 0 {
      var j :| 0 <= j < |sel| && sel[j] == y;
      assert VisibleMoves(s)[from..][j] == y && VisibleMoves(s)[from + j] == y;
    }
  }

  // ----- the decisions after a move -----

  /** The parents if nothing but the moved positions is decided differently. */
  ghost function ShiftPar(par: map<Tag, Tag>, sel: seq<Tag>, rest: seq<Tag>, a: Tag, b: Tag): map<Tag, Tag>
    requires sel != []
  {
    var base := par - Elems(sel + rest);
    Chain(if rest == [] then base else Chain(base, rest, b), sel, a)
  }

  lemma {:induction false} ShiftParIs(par: map<Tag, Tag>, sel: seq<Tag>, rest: seq<Tag>, a: Tag, b: Tag)
    requires sel != [] && NoDup(sel) && NoDup(rest) && (forall m :: m in sel ==> m !in rest)
    requires forall m :: m in sel || m in rest ==> m in par
    ensures var all := ShiftPar(par, sel, rest, a, b);
      && all.Keys == par.Keys && (forall c :: c in par && c !in sel && c !in rest ==> all[c] == par[c])
      && (forall i {:trigger sel[i]} :: 0 <= i < |sel| ==> all[sel[i]] == Prev(sel, i, a))
      && (forall j {:trigger rest[j]} :: 0 <= j < |rest| ==> all[rest[j]] == Prev(rest, j, b))
  {
    hide Chain, Prev, NoDup;
    var base := par - Elems(sel + rest);
    assert forall m :: m in sel + rest <==> m in sel || m in rest;
    if rest == [] {
      ChainIs(base, sel, a);
    } else {
      ChainIs(base, rest, b);
      ChainIs(Chain(base, rest, b), sel, a);
      forall j | 0 <= j < |rest| ensures rest[j] !in sel {
        assert rest[j] in rest;
      }
    }
  }

  lemma {:induction false} ShiftForestPar(s: MoveState, places: Placements, sel: seq<Tag>, rest: seq<Tag>, a: Tag,
                                          b: Tag)
    requires sel != []
    ensures Attach(Link(Regrafted(s, places, sel, rest, b), sel), a, 0, sel[0]).par
         == ShiftPar(ParentsOf(Placed(s)), sel, rest, a, b)
  {
    hide Link, LinkPar, ParentsOf, Placed;
    LinkParIs(Regrafted(s, places, sel, rest, b), sel);
    LinkParIs(Stump(s, places, sel, rest), rest);
  }

  /** Everything a move and its new placements fix. */
  ghost predicate Shifted(s: MoveState, places: Placements, from: int, sel: seq<Tag>, rest: seq<Tag>, tag: Tag, a: Tag,
                          b: Tag, to: int)
    requires ZERO !in s.nodes
  {
    && Shift(s, places, from, sel, rest, tag)
    && (forall i {:trigger sel[i]} :: 0 <= i < |sel| ==> sel[i] in places && places[sel[i]].anchor == Prev(sel, i, a))
    && (forall j {:trigger rest[j]} :: 0 <= j < |rest| ==>
      rest[j] in places && places[rest[j]].anchor == Prev(rest, j, b))
    && (if from == 0 then b == ZERO else b == VisibleMoves(s)[from - 1])
    && At(Remaining(s, from, rest), to, a)
  }

  /** The forest of those parents shows the splice. */
  lemma {:induction false} ShiftedForest(s: MoveState, places: Placements, from: int, sel: seq<Tag>, rest: seq<Tag>,
                                         tag: Tag, a: Tag, b: Tag, to: int)
    requires ZERO !in s.nodes && Shifted(s, places, from, sel, rest, tag, a, b, to)
    ensures var g := Attach(Link(Regrafted(s, places, sel, rest, b), sel), a, 0, sel[0]); var remaining :=
      Remaining(s, from, rest);
      && g.WF() && Arranged(places, g) && g.par == ShiftPar(ParentsOf(Placed(s)), sel, rest, a, b)
      && Live(g, ZERO, s.tombstones + {ZERO}) == remaining[..to] + sel + remaining[to..]
  {
    hide Forest.WF, Live, Arranged, VisibleMoves, NewerThan, Placed, Regrafted, Link, ParentsOf, ShiftPar, Prev;
    var g, dead := Regrafted(s, places, sel, rest, b), s.tombstones + {ZERO};
    RegraftedReady(s, places, from, sel, rest, tag, b);
    SelReady(s, places, from, sel, rest, tag, a, b, to);
    ChainIn(places, g, sel, a, dead, to);
    ShiftForestPar(s, places, sel, rest, a, b);
  }

  lemma {:induction false} ShiftedParts(s: MoveState, places: Placements, from: int, sel: seq<Tag>, rest: seq<Tag>,
                                        tag: Tag)
    requires ZERO !in s.nodes && Shift(s, places, from, sel, rest, tag)
    ensures NoDup(sel) && NoDup(rest) && (forall m :: m in sel ==> m !in rest)
    ensures forall m :: m in sel || m in rest ==> m in s.nodes
  {
    hide VisibleMoves, NewerThan, Placed, NoDup;
    EveryLiveNodeOnce(s);
    SuffixParts(VisibleMoves(s), from, sel, rest);
  }

  /** An element whose known anchor was not taken, because of a cycle. */
  ghost predicate Dropped(places: Placements, c: Tag)
    requires c in places
  {
    DecidedHolds(places);
    HasAnchor(places, c) && ParentsOf(places)[c] != places[c].anchor
  }

  /** The parents decided before c once the moved positions are the newest. */
  ghost function DecidedBefore(places: Placements, all: map<Tag, Tag>, moved: set<Tag>, c: Tag): map<Tag, Tag> {
    map x | x in all && (x in moved || Ahead(places, false, x, c)) :: all[x]
  }

  /** The anchor of c still leads back to c. */
  ghost predicate StillBlocked(places: Placements, all: map<Tag, Tag>, moved: set<Tag>, c: Tag)
    requires c in places
  {
    !Acyclic(DecidedBefore(places, all, moved, c)[c := places[c].anchor])
  }

  /** Every dropped element outside the moved suffix stays dropped. */
  ghost predicate Undisturbed(s: MoveState, sel: seq<Tag>, rest: seq<Tag>, a: Tag, b: Tag)
    requires sel != []
  {
    forall c :: c in s.nodes && c !in sel && c !in rest && Dropped(Placed(s), c) ==>
      StillBlocked(Placed(s), ShiftPar(ParentsOf(Placed(s)), sel, rest, a, b), Elems(sel + rest), c)
  }

  lemma {:induction false} EarlierShift(s: MoveState, places: Placements, from: int, sel: seq<Tag>, rest: seq<Tag>,
                                        tag: Tag, all: map<Tag, Tag>, c: Tag)
    requires ZERO !in s.nodes && Shift(s, places, from, sel, rest, tag) && all.Keys == s.nodes.Keys
    requires c in s.nodes && c !in sel && c !in rest
    ensures Earlier(places, all, c) == DecidedBefore(Placed(s), all, Elems(sel + rest), c)
  {
    hide VisibleMoves, Placed, Less;
    assert forall m :: m in sel + rest <==> m in sel || m in rest;
    forall x | x in all ensures Ahead(places, false, x, c) <==> x in sel + rest || Ahead(Placed(s), false, x, c) {
      if x in sel + rest {
        TagNewest(s, tag, c);
      }
    }
  }

  lemma {:induction false} TagNewest(s: MoveState, tag: Tag, c: Tag)
    requires NewerThan(s, tag) && c in s.nodes
    ensures Less(Placed(s)[c].tag, tag) && Placed(s)[c].tag != tag
  {
    Trichotomy(tag, tag);
  }

  lemma {:induction false} MovedDecision(s: MoveState, places: Placements, from: int, sel: seq<Tag>, rest: seq<Tag>,
                                         tag: Tag, a: Tag, b: Tag, to: int, m: Tag)
    requires ValidState(s) && ZERO !in s.nodes && Shifted(s, places, from, sel, rest, tag, a, b, to)
    requires m in sel || m in rest
    requires Acyclic(ShiftPar(ParentsOf(Placed(s)), sel, rest, a, b))
    ensures var all := ShiftPar(ParentsOf(Placed(s)), sel, rest, a, b);
      m in all && all[m] == Chosen(places, Earlier(places, all, m), m)
  {
    hide VisibleMoves, Placed, Acyclic, Prev, NoDup, Tag.Valid, ParentsOf, ShiftPar, NewerThan, Earlier;
    var par := ParentsOf(Placed(s));
    DecidedHolds(Placed(s));
    ShiftedParts(s, places, from, sel, rest, tag);
    ShiftParIs(par, sel, rest, a, b);
    var all := ShiftPar(par, sel, rest, a, b);
    ChainAnchors(s, places, from, sel, rest, tag, a, b, to, m);
    ZeroInvalid();
    assert all[m] == places[m].anchor;
    if all[m] != ZERO {
      NoSelf(all, m);
      ChosenAnchor(places, all, m);
    }
  }

  /** The anchors of the moved positions are the root or elements. */
  lemma {:induction false} ChainAnchors(s: MoveState, places: Placements, from: int, sel: seq<Tag>, rest: seq<Tag>,
                                        tag: Tag, a: Tag, b: Tag, to: int, m: Tag)
    requires ValidState(s) && ZERO !in s.nodes && Shifted(s, places, from, sel, rest, tag, a, b, to)
    requires m in sel || m in rest
    ensures m in places && (places[m].anchor == ZERO || (places[m].anchor in places && places[m].anchor.Valid()))
  {
    hide VisibleMoves, Placed, Prev, NoDup, Tag.Valid, NewerThan;
    EveryLiveNodeOnce(s);
    SuffixParts(VisibleMoves(s), from, sel, rest);
    if m in sel {
      var i :| 0 <= i < |sel| && sel[i] == m;
      PrevIs(sel, i, a);
      if i > 0 {
        assert sel[i - 1] in sel;
      } else if to > 0 {
        assert a in Remaining(s, from, rest);
        assert a in VisibleMoves(s);
      }
    } else {
      var j :| 0 <= j < |rest| && rest[j] == m;
      PrevIs(rest, j, b);
      if j > 0 {
        assert rest[j - 1] in rest;
      } else if from > 0 {
        assert b in VisibleMoves(s);
      }
    }
  }

  /**
    An element outside the moved suffix keeps its parent exactly when it was attached, has no known anchor, or is
    still blocked.
   */
  lemma {:induction false} UnmovedDecision(s: MoveState, places: Placements, from: int, sel: seq<Tag>, rest: seq<Tag>,
                                           tag: Tag, a: Tag, b: Tag, to: int, c: Tag)
    requires ValidState(s) && ZERO !in s.nodes && Shifted(s, places, from, sel, rest, tag, a, b, to) && c in s.nodes
    requires c !in sel && c !in rest
    requires Acyclic(ShiftPar(ParentsOf(Placed(s)), sel, rest, a, b))
    ensures var all := ShiftPar(ParentsOf(Placed(s)), sel, rest, a, b);
      c in all && (all[c] == Chosen(places, Earlier(places, all, c), c) <==>
        (Dropped(Placed(s), c) ==> StillBlocked(Placed(s), all, Elems(sel + rest), c)))
  {
    hide VisibleMoves, Placed, Acyclic, Prev, NoDup, Tag.Valid, ParentsOf, ShiftPar, NewerThan, Ahead;
    var was, par := Placed(s), ParentsOf(Placed(s));
    DecidedHolds(was);
    ShiftedParts(s, places, from, sel, rest, tag);
    ShiftParIs(par, sel, rest, a, b);
    var all := ShiftPar(par, sel, rest, a, b);
    EarlierShift(s, places, from, sel, rest, tag, all, c);
    ZeroInvalid();
    if HasAnchor(was, c) && par[c] == was[c].anchor {
      ChosenAnchor(places, all, c);
    }
  }

  /** The decisions after the move are these parents exactly when nothing outside the suffix is revived. */
  lemma {:induction false} ShiftDecidedIff(s: MoveState, places: Placements, from: int, sel: seq<Tag>, rest: seq<Tag>,
                                           tag: Tag, a: Tag, b: Tag, to: int)
    requires ValidState(s) && ZERO !in s.nodes && Shifted(s, places, from, sel, rest, tag, a, b, to)
    requires Acyclic(ShiftPar(ParentsOf(Placed(s)), sel, rest, a, b))
    ensures Decided(places, ShiftPar(ParentsOf(Placed(s)), sel, rest, a, b)) <==> Undisturbed(s, sel, rest, a, b)
  {
    hide VisibleMoves, Placed, Acyclic, Prev, NoDup, ParentsOf, ShiftPar, NewerThan, Chosen, Earlier, Dropped,
      StillBlocked, ValidState;
    var par := ParentsOf(Placed(s));
    DecidedHolds(Placed(s));
    ShiftedParts(s, places, from, sel, rest, tag);
    ShiftParIs(par, sel, rest, a, b);
    var all := ShiftPar(par, sel, rest, a, b);
    forall id | id in places
      ensures id in sel || id in rest ==> all[id] == Chosen(places, Earlier(places, all, id), id)
      ensures id !in sel && id !in rest ==>
        (all[id] == Chosen(places, Earlier(places, all, id), id) <==>
          (Dropped(Placed(s), id) ==> StillBlocked(Placed(s), all, Elems(sel + rest), id)))
    {
      if id in sel || id in rest {
        MovedDecision(s, places, from, sel, rest, tag, a, b, to, id);
      } else {
        UnmovedDecision(s, places, from, sel, rest, tag, a, b, to, id);
      }
    }
  }

  /** The move changes no parent outside the suffix. */
  ghost predicate KeepsUnmoved(s: MoveState, places: Placements, sel: seq<Tag>, rest: seq<Tag>)
    requires places.Keys == s.nodes.Keys
  {
    forall c :: c in s.nodes && c !in sel && c !in rest ==>
      c in ParentsOf(places) && c in ParentsOf(Placed(s)) && ParentsOf(places)[c] == ParentsOf(Placed(s))[c]
  }

  lemma {:induction false} KeepsIsDecided(s: MoveState, places: Placements, from: int, sel: seq<Tag>, rest: seq<Tag>,
                                          tag: Tag, a: Tag, b: Tag, to: int)
    requires ValidState(s) && ZERO !in s.nodes && Shifted(s, places, from, sel, rest, tag, a, b, to)
    requires Acyclic(ShiftPar(ParentsOf(Placed(s)), sel, rest, a, b))
    ensures places.Keys == s.nodes.Keys
    ensures KeepsUnmoved(s, places, sel, rest) <==> Decided(places, ShiftPar(ParentsOf(Placed(s)), sel, rest, a, b))
  {
    hide VisibleMoves, Placed, Acyclic, Prev, NoDup, ParentsOf, ShiftPar, NewerThan, Chosen, Earlier, ValidState;
    var par, now := ParentsOf(Placed(s)), ParentsOf(places);
    DecidedHolds(Placed(s));
    DecidedHolds(places);
    ShiftedParts(s, places, from, sel, rest, tag);
    ShiftParIs(par, sel, rest, a, b);
    var all := ShiftPar(par, sel, rest, a, b);
    if Decided(places, all) {
      DecidedUnique(places, all);
    }
    if KeepsUnmoved(s, places, sel, rest) && now != all {
      var x := FirstDifference(places, now, all);
      if x in sel || x in rest {
        MovedDecision(s, places, from, sel, rest, tag, a, b, to, x);
      }
    }
  }

  /** Exactly when a move changes no parent outside the rewritten suffix. */
  lemma {:induction false} UnmovedKeptIff(s: MoveState, r: map<Tag, MoveRecord>, from: int, sel: seq<Tag>,
                                          rest: seq<Tag>, tag: Tag, a: Tag, b: Tag, to: int)
    requires ValidState(s) && ZERO !in s.nodes && NewerThan(s, tag) && IsShift(r, sel, rest, a, b, tag) && sel != []
    requires 0 <= from <= |VisibleMoves(s)| && VisibleMoves(s)[from..] == sel + rest
    requires if from == 0 then b == ZERO else b == VisibleMoves(s)[from - 1]
    requires At(Remaining(s, from, rest), to, a)
    ensures KeepsUnmoved(s, Placed(MoveState(s.nodes, s.tombstones, s.moves + r)), sel, rest) <==>
      Undisturbed(s, sel, rest, a, b)
  {
    hide Live, Arranged, VisibleMoves, NewerThan, Prev, Placed, ParentsOf, ShiftPar, Undisturbed, KeepsUnmoved, Decided,
      ValidState, Distinct, IsShift;
    var places := Placed(MoveState(s.nodes, s.tombstones, s.moves + r));
    ShiftIs(s, r, from, sel, rest, tag, a, b, to);
    ShiftedForest(s, places, from, sel, rest, tag, a, b, to);
    ShiftDecidedIff(s, places, from, sel, rest, tag, a, b, to);
    KeepsIsDecided(s, places, from, sel, rest, tag, a, b, to);
  }

  /**
    Where nothing outside the suffix is revived, a move is exactly the list splice: cut it out, then put it in at
    offset to.
   */
  lemma {:induction false} MoveIsExact(s: MoveState, r: map<Tag, MoveRecord>, from: int, sel: seq<Tag>, rest: seq<Tag>,
                                       tag: Tag, a: Tag, b: Tag, to: int)
    requires ValidState(s) && ZERO !in s.nodes && NewerThan(s, tag) && IsShift(r, sel, rest, a, b, tag) && sel != []
    requires 0 <= from <= |VisibleMoves(s)| && VisibleMoves(s)[from..] == sel + rest
    requires if from == 0 then b == ZERO else b == VisibleMoves(s)[from - 1]
    requires At(Remaining(s, from, rest), to, a) && Undisturbed(s, sel, rest, a, b)
    ensures var t := MoveState(s.nodes, s.tombstones, s.moves + r); var remaining := Remaining(s, from, rest);
      && VisibleMoves(t) == remaining[..to] + sel + remaining[to..]
      && ParentsOf(Placed(t)) == ShiftPar(ParentsOf(Placed(s)), sel, rest, a, b)
  {
    hide Live, Arranged, VisibleMoves, NewerThan, Prev, Placed, ParentsOf, ShiftPar, Undisturbed, Decided, ValidState,
      Distinct, IsShift, Link;
    var t := MoveState(s.nodes, s.tombstones, s.moves + r);
    var places, remaining := Placed(t), Remaining(s, from, rest);
    ShiftIs(s, r, from, sel, rest, tag, a, b, to);
    ShiftedForest(s, places, from, sel, rest, tag, a, b, to);
    ShiftDecidedIff(s, places, from, sel, rest, tag, a, b, to);
    Shows(t, Attach(Link(Regrafted(s, places, sel, rest, b), sel), a, 0, sel[0]),
      remaining[..to] + sel + remaining[to..]);
  }

  /** A move drops nothing where nothing was dropped. */
  lemma {:induction false} MoveStaysIntact(s: MoveState, r: map<Tag, MoveRecord>, from: int, sel: seq<Tag>,
                                           rest: seq<Tag>, tag: Tag, a: Tag, b: Tag, to: int)
    requires Intact(s) && ValidState(s) && NewerThan(s, tag) && IsShift(r, sel, rest, a, b, tag) && sel != []
    requires 0 <= from <= |VisibleMoves(s)| && VisibleMoves(s)[from..] == sel + rest
    requires if from == 0 then b == ZERO else b == VisibleMoves(s)[from - 1]
    requires At(Remaining(s, from, rest), to, a) && ValidState(MoveState(s.nodes, s.tombstones, s.moves + r))
    ensures Undisturbed(s, sel, rest, a, b) && Intact(MoveState(s.nodes, s.tombstones, s.moves + r))
  {
    hide VisibleMoves, NewerThan, Prev, Placed, ParentsOf, ShiftPar, ValidState, Tag.Valid, Acyclic, StillBlocked,
      NoDup;
    var t := MoveState(s.nodes, s.tombstones, s.moves + r);
    var places := Placed(t);
    NothingDropped(Placed(s));
    MoveIsExact(s, r, from, sel, rest, tag, a, b, to);
    ShiftIs(s, r, from, sel, rest, tag, a, b, to);
    ShiftedParts(s, places, from, sel, rest, tag);
    ShiftParIs(ParentsOf(Placed(s)), sel, rest, a, b);
    forall id | id in places ensures ParentsOf(places)[id] == places[id].anchor {
      if id in sel {
        var i :| 0 <= i < |sel| && sel[i] == id;
      } else if id in rest {
        var j :| 0 <= j < |rest| && rest[j] == id;
      }
    }
    assert ParentsOf(places) == Anchors(places);
    IntactByDecisions(t);
  }

  lemma {:induction false} ShiftIs(s: MoveState, r: map<Tag, MoveRecord>, from: int, sel: seq<Tag>, rest: seq<Tag>,
                                   tag: Tag, a: Tag, b: Tag, to: int)
    requires ZERO !in s.nodes && NewerThan(s, tag) && IsShift(r, sel, rest, a, b, tag) && sel != []
    requires 0 <= from <= |VisibleMoves(s)| && VisibleMoves(s)[from..] == sel + rest
    requires if from == 0 then b == ZERO else b == VisibleMoves(s)[from - 1]
    requires At(Remaining(s, from, rest), to, a)
    ensures var places := Placed(MoveState(s.nodes, s.tombstones, s.moves + r));
      r.Keys <= s.nodes.Keys && Shifted(s, places, from, sel, rest, tag, a, b, to)
  {
    hide VisibleMoves, NewerThan, Prev, Placed, Tag.Valid, Acyclic, NoDup, At;
    EveryLiveNodeOnce(s);
    SuffixParts(VisibleMoves(s), from, sel, rest);
    ShiftTags(r, sel, rest, a, b, tag);
    PlacedShift(s, r, tag);
    ShiftRanks(s, r, sel, rest, a, b, tag);
  }

  lemma {:induction false} ShiftTags(r: map<Tag, MoveRecord>, sel: seq<Tag>, rest: seq<Tag>, a: Tag, b: Tag, tag: Tag)
    requires IsShift(r, sel, rest, a, b, tag)
    ensures forall x :: x in r ==> (x in sel || x in rest) && r[x].tag == tag
  {
    hide Prev;
    forall x | x in r ensures r[x].tag == tag {
      if x in sel {
        var i :| 0 <= i < |sel| && sel[i] == x;
      } else {
        var j :| 0 <= j < |rest| && rest[j] == x;
      }
    }
  }

  lemma {:induction false} ShiftRanks(s: MoveState, r: map<Tag, MoveRecord>, sel: seq<Tag>, rest: seq<Tag>, a: Tag,
                                      b: Tag, tag: Tag)
    requires r.Keys <= s.nodes.Keys && NewerThan(s, tag) && IsShift(r, sel, rest, a, b, tag) && sel != []
    ensures var places := Placed(MoveState(s.nodes, s.tombstones, s.moves + r));
      forall y :: y in rest ==> y in places && places[sel[0]].rank < places[y].rank
  {
    hide Prev, NewerThan, Placed;
    ShiftTags(r, sel, rest, a, b, tag);
    PlacedShift(s, r, tag);
    var places := Placed(MoveState(s.nodes, s.tombstones, s.moves + r));
    forall y | y in rest ensures y in places && places[sel[0]].rank < places[y].rank {
      var j :| 0 <= j < |rest| && rest[j] == y;
    }
  }
}
