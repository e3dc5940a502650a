/** The sequence index and the child index together: the order of every integrated position. */
module RgaIndexes {
  import opened Tags
  import opened Forests
  import opened Markers
  import opened Sequence
  import opened RgaOrder
  import opened ChildIndexes

  ghost function RootTour(par: map<Tag, Tag>): (r: seq<Mark>)
    requires Rooted(par)
  {
    CanonicalWF(par);
    Tour(Canonical(par), ZERO)
  }

  lemma {:induction false} RootTourNoDup(par: map<Tag, Tag>)
    requires Rooted(par)
    ensures NoDup(RootTour(par))
  {
    CanonicalWF(par);
    ToursNoDup(Canonical(par), [ZERO]);
  }

  ghost predicate Shown(m: Mark, par: map<Tag, Tag>, hidden: set<Tag>) {
    m.Enter? && m.id in par && m.id !in hidden
  }

  /** The child index stores exactly the sorted children of every position. */
  ghost predicate KidsAgree(children: ChildIndex, pairs: map<Tag, Pair>, par: map<Tag, Tag>)
    reads children, pairs.Values
  {
    && children.branches.Keys <= pairs.Keys
    && forall p :: p in pairs ==> KidsAgreeAt(children, pairs, par, p)
  }

  ghost predicate KidsAgreeAt(children: ChildIndex, pairs: map<Tag, Pair>, par: map<Tag, Tag>, p: Tag)
    requires p in pairs
    reads children, pairs[p]
  {
    && pairs[p].position == p
    && children.Stored(pairs[p])
    && Ids(children.Kids(pairs[p])) == SortedKids(par, p)
    && forall c :: c in children.Kids(pairs[p]) ==> c.position in pairs && pairs[c.position] == c
  }

  class RgaIndex {
    const sequence: SequenceIndex
    const children: ChildIndex
    /** The parent of every integrated position. */
    ghost var par: map<Tag, Tag>
    /** Positions that must not be shown, integrated or not. */
    ghost var hidden: set<Tag>

    /** The objects the index is made of, and those it once was made of. */
    ghost var repr: set<object>

    ghost predicate Valid()
      reads this, repr
    {
      && {this, sequence, children} <= repr && Elems(sequence.list) <= repr && sequence.pairs.Values <= repr
      && Ordered(sequence, par, hidden) && KidsAgree(children, sequence.pairs, par)
    }

    constructor (entryPriority: Uint64, exitPriority: Uint64)
      ensures Valid() && par == map[] && hidden == {} && fresh(repr)
    {
      hide Ordered, KidsAgree, Agree, Paired, MarksOf;
      sequence := new SequenceIndex(entryPriority, exitPriority);
      children := new ChildIndex();
      par, hidden := map[], {};
      new;
      EmptyIndex(sequence, children);
      repr := {this, sequence, children} + Elems(sequence.list) + sequence.pairs.Values;
      assert sequence.pairs.Values == {sequence.pairs[ZERO]};
    }

    /** Add a position below an integrated parent. */
    method Integrate(id: Tag, parent: Tag, deleted: bool, entryPriority: Uint64, exitPriority: Uint64)
      requires Valid() && id != ZERO && id !in par && parent in sequence.pairs && (deleted <==> id in hidden)
      modifies repr
      ensures Valid() && par == old(par)[id := parent] && hidden == old(hidden)
      ensures fresh(repr - old(repr))
    {
      hide Ordered, KidsAgree, SortedKids, Sorted, PairIn;
      var pair, owner;
      pair, owner := NewPair(sequence, children, par, hidden, id, parent, deleted, entryPriority, exitPriority);
      var previous, hasPrevious;
      ghost var at;
      previous, hasPrevious, at := AddChildBeside(children, sequence, par, hidden, owner, pair);
      var anchor := if hasPrevious then previous.exit else owner.entry;
      AnchorMark(sequence, par, hidden, anchor, owner, previous, at);
      PlaceBeside(children, sequence, par, hidden, parent, at, anchor, pair);
      par, repr := par[id := parent], repr + {pair, pair.entry, pair.exit};
    }

    /** Hide a position, whether or not it is integrated yet. */
    method Hide(id: Tag)
      requires Valid() && id != ZERO
      modifies repr
      ensures Valid() && par == old(par) && hidden == old(hidden) + {id}
      ensures repr == old(repr)
    {
      hide Ordered, KidsAgree;
      HideBeside(sequence, children, par, hidden, id);
      hidden := hidden + {id};
    }

    /** Remove an integrated position that has no children; both indexes let go of it. */
    method RemoveLeaf(id: Tag, parent: Tag) returns (ok: bool)
      requires Valid() && id in par && par[id] == parent && id !in par.Values
      modifies repr
      ensures ok && Valid() && par == old(par) - {id} && hidden == old(hidden) - {id}
      ensures repr == old(repr)
    {
      hide Ordered, KidsAgree, SortedKids;
      KnownPairs(sequence, children, par, hidden, id, parent);
      var owner, child := sequence.pairs[parent], sequence.pairs[id];
      ghost var pairs := sequence.pairs;
      ok := CutLeaf(sequence, children, par, hidden, id, parent);
      var dropped := DropChild(children, sequence, pairs, par, hidden, owner, child);
      ok := ok && dropped;
      par, hidden := par - {id}, hidden - {id};
    }

    method VisiblePositions() returns (positions: seq<Tag>)
      requires Valid()
      ensures positions == VisibleWalk(par, hidden)
    {
      positions := sequence.VisiblePositions();
      VisibleIsWalk(sequence, par, hidden);
    }

    method ChildCount(id: Tag) returns (n: int)
      requires Valid() && id in par
      ensures n > 0 <==> id in par.Values
    {
      hide Ordered, Ids, SortedKids;
      KnownPairs(sequence, children, par, hidden, id, par[id]);
      assert KidsAgreeAt(children, sequence.pairs, par, id);
      n := children.Count(sequence.pairs[id]);
      HasKids(par, id);
    }

    method VisibleCount() returns (n: int)
      requires Valid()
      ensures n == |VisibleWalk(par, hidden)|
    {
      n := MarkerVisible(sequence.root);
      CountsExact(sequence.root, sequence.shape, null);
      VisibleIsWalk(sequence, par, hidden);
    }

    /** Selecting by offset agrees with listing everything. */
    method VisibleAt(offset: int) returns (id: Tag, ok: bool)
      requires Valid()
      ensures ok <==> 0 <= offset < |VisibleWalk(par, hidden)|
      ensures ok ==> id == VisibleWalk(par, hidden)[offset]
    {
      id, ok := sequence.VisibleAt(offset);
      VisibleIsWalk(sequence, par, hidden);
    }
  }

  lemma {:induction false} HasKids(par: map<Tag, Tag>, x: Tag)
    ensures SortedKids(par, x) != [] <==> x in par.Values
  {
    SortedKidsSpec(par, x);
    if SortedKids(par, x) != [] {
      assert SortedKids(par, x)[0] in SortedKids(par, x);
    }
  }

  /** Any two indexes over the same positions and tombstones show the same markers and the same list. */
  lemma {:induction false} IndexDetermined(a: RgaIndex, b: RgaIndex)
    requires a.Valid() && b.Valid() && a.par == b.par && a.hidden == b.hidden
    ensures a.sequence.Marks() == b.sequence.Marks() && VisibleOf(a.sequence.list) == VisibleOf(b.sequence.list)
  {
    hide KidsAgree, RootTour, VisibleWalk;
    VisibleIsWalk(a.sequence, a.par, a.hidden);
    VisibleIsWalk(b.sequence, b.par, b.hidden);
  }

  // ----- what is visible -----

  ghost function Filter(ms: seq<Mark>, par: map<Tag, Tag>, hidden: set<Tag>): (r: seq<Tag>) {
    if ms == [] then []
    else (if Shown(ms[0], par, hidden) then [ms[0].id] else []) + Filter(ms[1..], par, hidden)
  }

  lemma {:induction false} VisibleIsFilter(list: seq<Marker>, par: map<Tag, Tag>, hidden: set<Tag>)
    requires Flags(list, par, hidden)
    ensures VisibleOf(list) == Filter(MarksOf(list), par, hidden)
  {
    if list != [] {
      VisibleIsFilter(list[1..], par, hidden);
      assert MarksOf(list)[1..] == MarksOf(list[1..]);
    }
  }

  lemma {:induction false} FilterIsWithout(ms: seq<Mark>, par: map<Tag, Tag>, hidden: set<Tag>)
    requires forall m :: m in ms ==> m.id in par
    ensures Filter(ms, par, hidden) == Without(Entered(ms), hidden)
  {
    if ms != [] {
      FilterIsWithout(ms[1..], par, hidden);
      assert ms[0] in ms;
      if ms[0].Enter? {
        assert Entered(ms) == [ms[0].id] + Entered(ms[1..]);
        assert Entered(ms)[1..] == Entered(ms[1..]);
      } else {
        assert Entered(ms) == Entered(ms[1..]);
      }
    }
  }

  lemma {:induction false} FilterConcat(a: seq<Mark>, b: seq<Mark>, par: map<Tag, Tag>, hidden: set<Tag>)
    ensures Filter(a + b, par, hidden) == Filter(a, par, hidden) + Filter(b, par, hidden)
  {
    if a == [] {
      assert a + b == b;
    } else {
      FilterConcat(a[1..], b, par, hidden);
      assert (a + b)[0] == a[0] && (a + b)[1..] == a[1..] + b;
      Shift(if Shown(a[0], par, hidden) then [a[0].id] else [], Filter(a[1..], par, hidden), Filter(b, par, hidden));
    }
  }

  /** The shown marks of the whole tour are the visible walk. */
  lemma {:induction false} FilterRootTour(par: map<Tag, Tag>, hidden: set<Tag>)
    requires Rooted(par)
    ensures Filter(RootTour(par), par, hidden) == VisibleWalk(par, hidden)
  {
    CanonicalWF(par);
    var f := Canonical(par);
    var mid := Tours(f, f.Kids(ZERO));
    TourUnfold(f, ZERO);
    FilterConcat([Enter(ZERO)] + mid, [Exit(ZERO)], par, hidden);
    FilterConcat([Enter(ZERO)], mid, par, hidden);
    forall m | m in mid ensures m.id in par {
      MarksPaired(f, f.Kids(ZERO), m.id);
      TourUp(f, f.Kids(ZERO), m.id);
    }
    FilterIsWithout(mid, par, hidden);
    EnteredTours(f, f.Kids(ZERO));
  }

  lemma {:induction false} VisibleIsWalk(sequence: SequenceIndex, par: map<Tag, Tag>, hidden: set<Tag>)
    requires Ordered(sequence, par, hidden)
    ensures VisibleOf(sequence.list) == VisibleOf(sequence.list[1..]) == VisibleWalk(par, hidden)
  {
    hide Agree, Acyclic, RootTour;
    VisibleIsFilter(sequence.list, par, hidden);
    FilterRootTour(par, hidden);
    assert sequence.list[0].mark == Enter(ZERO);
  }

  // ----- hiding and removing -----

  method HideBeside(sequence: SequenceIndex, ghost children: ChildIndex, ghost par: map<Tag, Tag>,
                    ghost hidden: set<Tag>, id: Tag)
    requires Ordered(sequence, par, hidden) && KidsAgree(children, sequence.pairs, par) && id != ZERO
    modifies sequence.list`visible, sequence.list`markers, sequence.list`visibleN
    ensures Ordered(sequence, par, hidden + {id}) && KidsAgree(children, sequence.pairs, par)
  {
    hide KidsAgree, Agree, Rooted, RootTour;
    sequence.SetVisible(id, false);
    forall m | m in sequence.list ensures m.visible == Shown(m.mark, par, hidden + {id}) {
    }
  }

  lemma {:induction false} KnownPairs(sequence: SequenceIndex, children: ChildIndex, par: map<Tag, Tag>,
                                      hidden: set<Tag>, id: Tag, parent: Tag)
    requires Ordered(sequence, par, hidden) && KidsAgree(children, sequence.pairs, par) && id in par
    requires par[id] == parent
    ensures id in sequence.pairs && parent in sequence.pairs
    ensures sequence.pairs[id].position == id && sequence.pairs[parent].position == parent
  {
    hide Agree, RootTour, SortedKids, Acyclic;
    assert KidsAgreeAt(children, sequence.pairs, par, id) && KidsAgreeAt(children, sequence.pairs, par, parent);
  }

  /** Where the two markers of a leaf are, and what is left of the tour without them. */
  lemma {:induction false} LeafCut(list: seq<Marker>, par: map<Tag, Tag>, n: Tag) returns (k: int)
    requires Rooted(par) && MarksOf(list) == RootTour(par) && n in par && n !in par.Values
    ensures Rooted(par - {n}) && 0 < k && k + 1 < |list| && list[k].mark == Enter(n) && list[k + 1].mark == Exit(n)
    ensures MarksOf(Remove2(list, k)) == RootTour(par - {n})
  {
    hide SortedKids, Canonical, Tours, Tour;
    var before, p := par - {n}, par[n];
    assert before[n := p] == par;
    RootedWithout(par, n);
    var i := LeafWasInserted(par, n);
    var u, v := LeafInserted(before, n, p, i);
    k := |u| + 1;
    Respliced(list, u, if i == 0 then Enter(p) else Exit(SortedKids(before, p)[i - 1]), Enter(n), Exit(n), v);
  }

  lemma {:induction false} Respliced(list: seq<Marker>, u: seq<Mark>, a: Mark, e: Mark, x: Mark, v: seq<Mark>)
    requires MarksOf(list) == u + [a] + [e, x] + v
    ensures |u| + 2 < |list| && list[|u| + 1].mark == e && list[|u| + 2].mark == x
    ensures MarksOf(Remove2(list, |u| + 1)) == u + [a] + v
  {
    assert MarksOf(list)[|u| + 1] == e && MarksOf(list)[|u| + 2] == x;
  }

  lemma {:induction false} RootedWithout(par: map<Tag, Tag>, n: Tag)
    requires Rooted(par) && n in par && n !in par.Values
    ensures Rooted(par - {n}) && n !in (par - {n}).Values && n != par[n] && (par[n] == ZERO || par[n] in par - {n})
  {
    var before := par - {n};
    forall x | x in before
      ensures before[x] == par[x] && par[x] in par.Values && par[x] != n && (before[x] == ZERO || before[x] in before) {
    }
    assert par[n] in par.Values;
    AcyclicSub(par, n);
  }

  /** Any leaf could have been integrated last. */
  lemma {:induction false} LeafWasInserted(par: map<Tag, Tag>, n: Tag) returns (i: int)
    requires n in par
    ensures 0 <= i && SortedInsert(par - {n}, par[n], i, n)
    ensures SortedKids(par, par[n]) == SortedKids(par - {n}, par[n])[..i] + [n] + SortedKids(par - {n}, par[n])[i..]
  {
    hide Sorted, SortedKids;
    var kids := SortedKids(par, par[n]);
    SortedKidsSpec(par, par[n]);
    i :| 0 <= i < |kids| && kids[i] == n;
    var rest := kids[..i] + kids[i + 1..];
    SortedWithout(kids, i);
    KidsAre(par - {n}, par[n], rest);
    assert rest[..i] + [n] + rest[i..] == kids;
  }

  lemma {:induction false} SortedWithout(s: seq<Tag>, i: int)
    requires 0 <= i < |s| && Sorted(Greater, s)
    ensures Sorted(Greater, s[..i] + s[i + 1..])
    ensures forall c :: c in s[..i] + s[i + 1..] <==> c in s && c != s[i]
  {
    GreaterIsStrictTotalOrder();
    var rest := s[..i] + s[i + 1..];
    assert forall j :: 0 <= j < |rest| ==> rest[j] == s[if j < i then j else j + 1];
    forall c ensures c in rest <==> c in s && c != s[i] {
      if c in s && c != s[i] {
        var j :| 0 <= j < |s| && s[j] == c;
        assert rest[if j < i then j else j - 1] == c;
      }
    }
  }

  /** SequenceIndex.RemoveLeaf cannot fail on a leaf, and leaves the tour without it. */
  method CutLeaf(sequence: SequenceIndex, ghost children: ChildIndex, ghost par: map<Tag, Tag>, ghost hidden: set<Tag>,
                 id: Tag, ghost parent: Tag)
    returns (ok: bool)
    requires Ordered(sequence, par, hidden) && KidsAgree(children, sequence.pairs, par)
    requires id in par && par[id] == parent && id !in par.Values
    modifies sequence, sequence.list
    ensures ok && Ordered(sequence, par - {id}, hidden - {id})
    ensures sequence.pairs == old(sequence.pairs) - {id}
    ensures forall m :: m in sequence.list ==> m in old(sequence.list)
    ensures KidsAgree(children, old(sequence.pairs), par)
  {
    hide KidsAgree, Ordered;
    ok := CutMarkers(sequence, par, hidden, id);
  }

  method CutMarkers(sequence: SequenceIndex, ghost par: map<Tag, Tag>, ghost hidden: set<Tag>, id: Tag)
    returns (ok: bool)
    requires Ordered(sequence, par, hidden) && id in par && id !in par.Values
    modifies sequence, sequence.list
    ensures ok && Ordered(sequence, par - {id}, hidden - {id})
    ensures sequence.pairs == old(sequence.pairs) - {id}
    ensures forall m :: m in sequence.list ==> m in old(sequence.list)
  {
    hide Agree, Acyclic, RootTour, Remove2, NoDup, Paired, MarksOf;
    assert id in sequence.pairs;
    ghost var before, pairs := sequence.list, sequence.pairs;
    ListNoDup(sequence);
    ghost var k := LeafCut(before, par, id);
    CutHere(before, pairs, par, hidden, id, k);
    ok := sequence.RemoveLeaf(id);
    assert sequence.list == Remove2(before, k);
  }

  lemma {:induction false} ListNoDup(sequence: SequenceIndex)
    requires sequence.Valid()
    ensures NoDup(sequence.list)
  {
    SimpleNoDup(sequence.shape);
  }

  lemma {:induction false} CutHere(list: seq<Marker>, pairs: map<Tag, Pair>, par: map<Tag, Tag>, hidden: set<Tag>,
                                   id: Tag, k: int)
    requires Paired(pairs, list) && NoDup(list) && id in pairs && 0 < k && k + 1 < |list| && Flags(list, par, hidden)
    requires list[k].mark == Enter(id) && list[k + 1].mark == Exit(id)
    ensures list[k] == pairs[id].entry && list[k + 1] == pairs[id].exit
    ensures forall j :: 0 <= j < |list| && list[j] == pairs[id].entry ==> j == k
    ensures forall m :: m in Remove2(list, k) ==>
      m in list && m.mark.id != id && m.visible == Shown(m.mark, par - {id}, hidden - {id})
  {
    assert list[k] in list && list[k + 1] in list;
    forall m | m in Remove2(list, k) ensures m in list && m.mark.id != id {
      RemoveElems(list, k, m);
    }
  }
  /** The index state, spelled out over its parts. */
  ghost predicate Ordered(sequence: SequenceIndex, par: map<Tag, Tag>, hidden: set<Tag>)
    reads sequence, sequence.list
  {
    && sequence.Valid() && Rooted(par)
    && sequence.pairs.Keys == par.Keys + {ZERO}
    && sequence.Marks() == RootTour(par)
    && Flags(sequence.list, par, hidden)
  }

  ghost predicate Flags(list: seq<Marker>, par: map<Tag, Tag>, hidden: set<Tag>)
    reads list`visible
  {
    forall m :: m in list ==> m.visible == Shown(m.mark, par, hidden)
  }

  lemma {:induction false} FlagsInserted(list: seq<Marker>, k: int, pair: Pair, par: map<Tag, Tag>, n: Tag, p: Tag,
                                         hidden: set<Tag>)
    requires Flags(list, par, hidden) && 0 <= k <= |list| && forall m :: m in list ==> m.mark.id != n
    requires pair.entry.mark == Enter(n) && pair.exit.mark == Exit(n)
    requires pair.entry.visible == (n !in hidden) && !pair.exit.visible
    ensures Flags(Insert2(list, k, pair.entry, pair.exit), par[n := p], hidden)
  {
    InsertElems(list, k, pair.entry, pair.exit);
  }

  /** The marks right after a new pair is linked in are the tour of the extended tree. */
  lemma {:induction false} MarksInserted(list: seq<Marker>, k: int, entry: Marker, exit: Marker, par: map<Tag, Tag>,
                                         n: Tag, p: Tag, i: int)
    requires Rooted(par) && MarksOf(list) == RootTour(par) && 0 <= k < |list|
    requires n != ZERO && n !in par && (p == ZERO || p in par) && 0 <= i && SortedInsert(par, p, i, n)
    requires list[k].mark == if i == 0 then Enter(p) else Exit(SortedKids(par, p)[i - 1])
    requires entry.mark == Enter(n) && exit.mark == Exit(n)
    ensures Rooted(par[n := p])
    ensures MarksOf(Insert2(list, k + 1, entry, exit)) == RootTour(par[n := p])
  {
    hide SortedKids, Canonical, Tours, Tour;
    assert n !in par.Values && n != p;
    AcyclicLeaf(par, n, p);
    var u, v := LeafInserted(par, n, p, i);
    RootTourNoDup(par);
    MarksSpliced(list, k, entry, exit, u, v);
  }

  lemma {:induction false} MarksSpliced(list: seq<Marker>, k: int, entry: Marker, exit: Marker, u: seq<Mark>,
                                        v: seq<Mark>)
    requires 0 <= k < |list| && MarksOf(list) == u + [list[k].mark] + v && NoDup(MarksOf(list))
    ensures MarksOf(Insert2(list, k + 1, entry, exit)) == u + [list[k].mark] + [entry.mark, exit.mark] + v
  {
    assert MarksOf(list)[|u|] == MarksOf(list)[k];
    InsertAt(list, k + 1, entry, exit);
  }

  /** A fresh pair for a position, next to the index, which stays as it is. */
  method NewPair(sequence: SequenceIndex, ghost children: ChildIndex, ghost par: map<Tag, Tag>, ghost hidden: set<Tag>,
                 id: Tag, parent: Tag, deleted: bool, entryPriority: Uint64, exitPriority: Uint64)
    returns (pair: Pair, owner: Pair)
    requires Ordered(sequence, par, hidden) && KidsAgree(children, sequence.pairs, par) && parent in sequence.pairs
    requires id != ZERO && id !in par
    ensures fresh(pair) && fresh(pair.entry) && fresh(pair.exit) && pair.position == id && pair.Loose()
    ensures pair.singleChild == null
    ensures pair.entry.visible == !deleted && !pair.exit.visible
    ensures id !in sequence.pairs && pair.entry !in sequence.list && pair.exit !in sequence.list
    ensures owner == sequence.pairs[parent] && owner.position == parent && (parent == ZERO || parent in par)
    ensures Ordered(sequence, par, hidden) && KidsAgree(children, sequence.pairs, par)
  {
    hide Agree, Rooted, RootTour, Flags, SortedKids, Ids, Descending;
    owner := sequence.pairs[parent];
    assert KidsAgreeAt(children, sequence.pairs, par, parent);
    pair := new Pair(id, !deleted, entryPriority, exitPriority);
  }

  lemma {:induction false} AnchorMark(sequence: SequenceIndex, par: map<Tag, Tag>, hidden: set<Tag>, anchor: Marker,
                                      owner: Pair, previous: Pair?, at: int)
    requires Ordered(sequence, par, hidden) && owner.position in sequence.pairs
    requires sequence.pairs[owner.position] == owner
    requires 0 <= at <= |SortedKids(par, owner.position)|
    requires at > 0 ==> previous != null && previous.position == SortedKids(par, owner.position)[at - 1]
                          && previous.position in sequence.pairs && sequence.pairs[previous.position] == previous
    requires anchor == if at > 0 then previous.exit else owner.entry
    ensures anchor in sequence.list
    ensures anchor.mark == if at == 0 then Enter(owner.position) else Exit(SortedKids(par, owner.position)[at - 1])
  {
    assert PairIn(sequence.pairs[owner.position], owner.position, sequence.list);
    if at > 0 {
      assert PairIn(sequence.pairs[previous.position], previous.position, sequence.list);
    }
  }

  method AddChildBeside(children: ChildIndex, ghost sequence: SequenceIndex, ghost par: map<Tag, Tag>,
                        ghost hidden: set<Tag>, owner: Pair, pair: Pair)
    returns (previous: Pair?, hasPrevious: bool, ghost at: int)
    requires Ordered(sequence, par, hidden) && KidsAgree(children, sequence.pairs, par)
    requires owner.position in sequence.pairs && sequence.pairs[owner.position] == owner
    requires pair.position !in sequence.pairs && pair.singleChild == null
    modifies children, owner`singleChild
    ensures Ordered(sequence, par, hidden)
    ensures KidsAgree(children, sequence.pairs[pair.position := pair], par[pair.position := owner.position])
    ensures 0 <= at && SortedInsert(par, owner.position, at, pair.position)
    ensures hasPrevious <==> at > 0
    ensures hasPrevious ==>
      previous != null && previous.position == SortedKids(par, owner.position)[at - 1]
        && previous.position in sequence.pairs && sequence.pairs[previous.position] == previous
  {
    hide Agree, SortedKids, Acyclic, RootTour, SortedInsert;
    assert pair.position !in par.Values;
    previous, hasPrevious, at := AddChild(children, sequence.pairs, par, owner, pair);
  }

  method PlaceBeside(ghost children: ChildIndex, sequence: SequenceIndex, ghost par: map<Tag, Tag>,
                     ghost hidden: set<Tag>, ghost parent: Tag, ghost at: int, anchor: Marker, pair: Pair)
    requires Ordered(sequence, par, hidden)
    requires KidsAgree(children, sequence.pairs[pair.position := pair], par[pair.position := parent])
    requires pair.Loose() && pair.entry !in sequence.list && pair.exit !in sequence.list
    requires pair.position !in sequence.pairs
    requires (parent == ZERO || parent in par) && 0 <= at && SortedInsert(par, parent, at, pair.position)
    requires anchor in sequence.list
    requires anchor.mark == if at == 0 then Enter(parent) else Exit(SortedKids(par, parent)[at - 1])
    requires pair.entry.visible == (pair.position !in hidden) && !pair.exit.visible
    modifies sequence, sequence.list, pair.entry, pair.exit
    ensures Ordered(sequence, par[pair.position := parent], hidden)
    ensures KidsAgree(children, sequence.pairs, par[pair.position := parent])
    ensures sequence.pairs == old(sequence.pairs)[pair.position := pair]
    ensures forall m :: m in sequence.list ==> m in old(sequence.list) || m == pair.entry || m == pair.exit
  {
    hide Ordered, Rooted, SortedKids, SortedInsert, Ids;
    Place(sequence, par, hidden, parent, at, anchor, pair);
  }

  method Place(sequence: SequenceIndex, ghost par: map<Tag, Tag>, ghost hidden: set<Tag>, ghost parent: Tag,
               ghost at: int, anchor: Marker, pair: Pair)
    requires Ordered(sequence, par, hidden)
    requires pair.Loose() && pair.entry !in sequence.list && pair.exit !in sequence.list
    requires pair.position !in sequence.pairs
    requires (parent == ZERO || parent in par) && 0 <= at && SortedInsert(par, parent, at, pair.position)
    requires anchor in sequence.list
    requires anchor.mark == if at == 0 then Enter(parent) else Exit(SortedKids(par, parent)[at - 1])
    requires pair.entry.visible == (pair.position !in hidden) && !pair.exit.visible
    modifies sequence, sequence.list, pair.entry, pair.exit
    ensures Ordered(sequence, par[pair.position := parent], hidden)
    ensures sequence.pairs == old(sequence.pairs)[pair.position := pair]
    ensures forall m :: m in sequence.list ==> m in old(sequence.list) || m == pair.entry || m == pair.exit
  {
    hide Agree, Paired, Acyclic, Canonical, SortedKids, MarksOf, Insert2;
    ghost var before := sequence.list;
    ghost var k := LinkPair(sequence, par, hidden, anchor, pair);
    MarksInserted(before, k, pair.entry, pair.exit, par, pair.position, parent, at);
    FlagsInserted(before, k + 1, pair, par, pair.position, parent, hidden);
    assert forall m :: m in sequence.list ==> m in before || m == pair.entry || m == pair.exit by {
      InsertElems(before, k + 1, pair.entry, pair.exit);
    }
  }

  method LinkPair(sequence: SequenceIndex, ghost par: map<Tag, Tag>, ghost hidden: set<Tag>, anchor: Marker, pair: Pair)
    returns (ghost k: int)
    requires sequence.Valid() && Flags(sequence.list, par, hidden) && anchor in sequence.list
    requires pair.Loose() && pair.entry !in sequence.list && pair.exit !in sequence.list
    requires pair.position !in sequence.pairs
    modifies sequence, sequence.list, pair.entry, pair.exit
    ensures sequence.Valid() && Flags(old(sequence.list), par, hidden)
    ensures pair.entry.visible == old(pair.entry.visible) && pair.exit.visible == old(pair.exit.visible)
    ensures forall m :: m in old(sequence.list) ==> m.mark.id != pair.position
    ensures 0 <= k < |old(sequence.list)| && old(sequence.list)[k] == anchor
    ensures sequence.list == Insert2(old(sequence.list), k + 1, pair.entry, pair.exit)
    ensures sequence.pairs == old(sequence.pairs)[pair.position := pair]
  {
    hide Agree, PairIn, Insert2;
    ghost var before := sequence.list;
    assert forall m :: m in before ==> m.mark.id != pair.position;
    sequence.InsertPairAfter(anchor, pair);
    k :| 0 <= k < |before| && before[k] == anchor && sequence.list == Insert2(before, k + 1, pair.entry, pair.exit);
  }

  method DropChild(children: ChildIndex, ghost sequence: SequenceIndex, ghost pairs: map<Tag, Pair>,
                   ghost par: map<Tag, Tag>, ghost hidden: set<Tag>,
                   owner: Pair, child: Pair)
    returns (ok: bool)
    requires KidsAgree(children, pairs, par) && child.position in par && par[child.position] == owner.position
    requires child.position in pairs && owner.position in pairs && pairs[owner.position] == owner
    requires child.position !in par.Values
    requires Ordered(sequence, par - {child.position}, hidden - {child.position})
    modifies children, owner`singleChild
    ensures ok && KidsAgree(children, pairs - {child.position}, par - {child.position})
    ensures Ordered(sequence, par - {child.position}, hidden - {child.position})
  {
    hide Ordered, SortedKids;
    ok := TakeOut(children, pairs, par, owner, child);
  }

  method TakeOut(children: ChildIndex, ghost pairs: map<Tag, Pair>, ghost par: map<Tag, Tag>, owner: Pair, child: Pair)
    returns (ok: bool)
    requires KidsAgree(children, pairs, par) && child.position in par && par[child.position] == owner.position
    requires child.position in pairs && owner.position in pairs && pairs[owner.position] == owner
    requires child.position !in par.Values
    modifies children, owner`singleChild
    ensures ok && KidsAgree(children, pairs - {child.position}, par - {child.position})
  {
    SortedKidsSpec(par, owner.position);
    ghost var at;
    ok, at := RemoveChildBeside(children, pairs, par, owner, child);
    KidsWithout(par, child.position, at);
    KidsRemoved(children, pairs, par, owner, child);
  }

  /** ChildIndex.Remove, next to the other child lists, which stay as they are. */
  method RemoveChildBeside(children: ChildIndex, ghost pairs: map<Tag, Pair>, ghost par: map<Tag, Tag>, owner: Pair,
                           child: Pair)
    returns (ok: bool, ghost at: int)
    requires KidsAgree(children, pairs, par) && owner.position in pairs && pairs[owner.position] == owner
    requires child.position in SortedKids(par, owner.position)
    modifies children, owner`singleChild
    ensures ok && children.Stored(owner)
    ensures 0 <= at < |SortedKids(par, owner.position)| && SortedKids(par, owner.position)[at] == child.position
    ensures Ids(children.Kids(owner))
         == SortedKids(par, owner.position)[..at] + SortedKids(par, owner.position)[at + 1..]
    ensures forall c :: c in children.Kids(owner) ==> c.position in pairs && pairs[c.position] == c
    ensures children.branches.Keys <= pairs.Keys
    ensures forall p :: p in pairs && p != owner.position ==> KidsAgreeAt(children, pairs, par, p)
  {
    hide SortedKids, Descending;
    assert KidsAgreeAt(children, pairs, par, owner.position);
    ghost var kids := children.Kids(owner);
    ok := children.Remove(owner, child);
    at :| 0 <= at < |kids| && kids[at].position == child.position
      && children.Kids(owner) == kids[..at] + kids[at + 1..];
    IdsWithout(kids, at);
    forall p | p in pairs && p != owner.position ensures KidsAgreeAt(children, pairs, par, p) {
      assert old(KidsAgreeAt(children, pairs, par, p));
      assert children.Kids(pairs[p]) == old(children.Kids(pairs[p]));
    }
  }

  lemma {:induction false} IdsWithout(kids: seq<Pair>, at: int)
    requires 0 <= at < |kids|
    ensures Ids(kids[..at] + kids[at + 1..]) == Ids(kids)[..at] + Ids(kids)[at + 1..]
    ensures forall c :: c in kids[..at] + kids[at + 1..] ==> c in kids
  {
  }

  lemma {:induction false} KidsWithout(par: map<Tag, Tag>, n: Tag, at: int)
    requires n in par && 0 <= at < |SortedKids(par, par[n])| && SortedKids(par, par[n])[at] == n
    ensures SortedKids(par - {n}, par[n]) == SortedKids(par, par[n])[..at] + SortedKids(par, par[n])[at + 1..]
    ensures forall x :: x != par[n] ==> SortedKids(par - {n}, x) == SortedKids(par, x)
  {
    hide Sorted, SortedKids;
    var kids := SortedKids(par, par[n]);
    SortedKidsSpec(par, par[n]);
    SortedWithout(kids, at);
    KidsAre(par - {n}, par[n], kids[..at] + kids[at + 1..]);
    forall x | x != par[n] ensures SortedKids(par - {n}, x) == SortedKids(par, x) {
      SortedKidsSpec(par, x);
      KidsAre(par - {n}, x, SortedKids(par, x));
    }
  }

  lemma {:induction false} KidsRemoved(children: ChildIndex, pairs: map<Tag, Pair>, par: map<Tag, Tag>, owner: Pair,
                                       child: Pair)
    requires owner.position in pairs && pairs[owner.position] == owner
    requires child.position in par && par[child.position] == owner.position && child.position !in par.Values
    requires child.position in pairs && children.branches.Keys <= pairs.Keys && children.Stored(owner)
    requires forall p :: p in pairs && p != owner.position ==> KidsAgreeAt(children, pairs, par, p)
    requires forall c :: c in children.Kids(owner) ==> c.position in pairs && pairs[c.position] == c
    requires Ids(children.Kids(owner)) == SortedKids(par - {child.position}, owner.position)
    requires forall x :: x != owner.position ==> SortedKids(par - {child.position}, x) == SortedKids(par, x)
    ensures KidsAgree(children, pairs - {child.position}, par - {child.position})
  {
    hide SortedKids;
    var known, after := pairs - {child.position}, par - {child.position};
    forall p | p in known ensures KidsAgreeAt(children, known, after, p) {
      var kids := children.Kids(pairs[p]);
      if p != owner.position {
        assert KidsAgreeAt(children, pairs, par, p);
      }
      SortedKidsSpec(after, p);
      forall c | c in kids ensures c.position in known && known[c.position] == c {
        assert c.position in Ids(kids) by {
          var j :| 0 <= j < |kids| && kids[j] == c;
          assert Ids(kids)[j] == c.position;
        }
      }
    }
    KidsAre(par, child.position, []);
    assert KidsAgreeAt(children, pairs, par, child.position);
    assert children.Kids(pairs[child.position]) == [];
  }

  /** Record a new pair as a child of parent; its place follows the descending order. */
  method AddChild(children: ChildIndex, ghost pairs: map<Tag, Pair>, ghost par: map<Tag, Tag>, owner: Pair, pair: Pair)
    returns (previous: Pair?, hasPrevious: bool, ghost at: int)
    requires KidsAgree(children, pairs, par) && owner.position in pairs && pairs[owner.position] == owner
    requires pair.position !in pairs && pair.position !in par && pair.position !in par.Values
    requires pair.singleChild == null
    modifies children, owner`singleChild
    ensures KidsAgree(children, pairs[pair.position := pair], par[pair.position := owner.position])
    ensures 0 <= at && SortedInsert(par, owner.position, at, pair.position)
    ensures hasPrevious <==> at > 0
    ensures hasPrevious ==>
      previous != null && previous.position == SortedKids(par, owner.position)[at - 1] && previous.position in pairs
        && pairs[previous.position] == previous
  {
    assert KidsAgreeAt(children, pairs, par, owner.position);
    NotAKid(par, owner.position, pair.position);
    previous, hasPrevious, at := InsertBeside(children, pairs, par, owner, pair);
    LeafKids(par, pair.position, owner.position, at);
    KidsAdded(children, pairs, par, owner, pair);
  }

  /** ChildIndex.Insert, next to the other child lists, which stay as they are. */
  method InsertBeside(children: ChildIndex, ghost pairs: map<Tag, Pair>, ghost par: map<Tag, Tag>, owner: Pair,
                      pair: Pair)
    returns (previous: Pair?, hasPrevious: bool, ghost at: int)
    requires KidsAgree(children, pairs, par) && owner.position in pairs && pairs[owner.position] == owner
    requires pair.position !in SortedKids(par, owner.position) && pair.position !in pairs && pair.singleChild == null
    modifies children, owner`singleChild
    ensures 0 <= at && SortedInsert(par, owner.position, at, pair.position)
    ensures children.Stored(owner) && children.Kids(pair) == []
    ensures Ids(children.Kids(owner))
         == SortedKids(par, owner.position)[..at] + [pair.position] + SortedKids(par, owner.position)[at..]
    ensures forall c :: c in children.Kids(owner) ==> c == pair || (c.position in pairs && pairs[c.position] == c)
    ensures hasPrevious <==> at > 0
    ensures hasPrevious ==>
      previous != null && previous.position == SortedKids(par, owner.position)[at - 1] && previous.position in pairs
        && pairs[previous.position] == previous
    ensures children.branches.Keys <= pairs.Keys
    ensures forall p :: p in pairs && p != owner.position ==> KidsAgreeAt(children, pairs, par, p)
  {
    assert KidsAgreeAt(children, pairs, par, owner.position);
    ghost var kids := children.Kids(owner);
    previous, hasPrevious, at := children.Insert(owner, pair);
    assert hasPrevious ==> kids[at - 1] in kids && Ids(kids)[at - 1] == previous.position;
    InsertIn(kids, at, pair);
    forall p | p in pairs && p != owner.position ensures KidsAgreeAt(children, pairs, par, p) {
      assert old(KidsAgreeAt(children, pairs, par, p));
      assert children.Kids(pairs[p]) == old(children.Kids(pairs[p]));
    }
  }

  lemma {:induction false} KidsAdded(children: ChildIndex, pairs: map<Tag, Pair>, par: map<Tag, Tag>, owner: Pair,
                                     pair: Pair)
    requires owner.position in pairs && pairs[owner.position] == owner && pair.position !in pairs
    requires children.branches.Keys <= pairs.Keys && children.Stored(owner) && children.Kids(pair) == []
    requires forall p :: p in pairs && p != owner.position ==> KidsAgreeAt(children, pairs, par, p)
    requires forall c :: c in children.Kids(owner) ==> c == pair || (c.position in pairs && pairs[c.position] == c)
    requires Ids(children.Kids(owner)) == SortedKids(par[pair.position := owner.position], owner.position)
    requires SortedKids(par[pair.position := owner.position], pair.position) == []
    requires forall x :: x != owner.position && x != pair.position ==>
      SortedKids(par[pair.position := owner.position], x) == SortedKids(par, x)
    ensures KidsAgree(children, pairs[pair.position := pair], par[pair.position := owner.position])
  {
    var known, after := pairs[pair.position := pair], par[pair.position := owner.position];
    forall p | p in known ensures KidsAgreeAt(children, known, after, p) {
      if p == pair.position {
        assert Ids(children.Kids(pair)) == [];
      } else if p != owner.position {
        assert KidsAgreeAt(children, pairs, par, p);
      }
    }
  }

  /** The child lists after adding a leaf. */
  lemma {:induction false} LeafKids(par: map<Tag, Tag>, n: Tag, p: Tag, i: int)
    requires n !in par && n !in par.Values && n != p && 0 <= i && SortedInsert(par, p, i, n)
    ensures SortedKids(par[n := p], p) == SortedKids(par, p)[..i] + [n] + SortedKids(par, p)[i..]
    ensures forall x :: x != p && x != n ==> SortedKids(par[n := p], x) == SortedKids(par, x)
    ensures SortedKids(par[n := p], n) == []
  {
    SortedKidsSpec(par, p);
    InsertIn(SortedKids(par, p), i, n);
    KidsAre(par[n := p], p, SortedKids(par, p)[..i] + [n] + SortedKids(par, p)[i..]);
    KidsAre(par[n := p], n, []);
    forall x | x != p && x != n ensures SortedKids(par[n := p], x) == SortedKids(par, x) {
      SortedKidsSpec(par, x);
      KidsAre(par[n := p], x, SortedKids(par, x));
    }
  }

  lemma {:induction false} NotAKid(par: map<Tag, Tag>, p: Tag, id: Tag)
    requires id !in par
    ensures id !in SortedKids(par, p)
  {
    SortedKidsSpec(par, p);
  }

  lemma {:induction false} EmptyIndex(sequence: SequenceIndex, children: ChildIndex)
    requires sequence.Valid() && sequence.Marks() == [Enter(ZERO), Exit(ZERO)] && sequence.pairs.Keys == {ZERO}
    requires sequence.pairs[ZERO].singleChild == null && children.branches == map[]
    requires !sequence.pairs[ZERO].entry.visible && !sequence.pairs[ZERO].exit.visible
    ensures Ordered(sequence, map[], {}) && KidsAgree(children, sequence.pairs, map[])
  {
    hide Agree, Rooted, RootTour, SortedKids;
    EmptyOrder();
    assert KidsAgreeAt(children, sequence.pairs, map[], ZERO);
  }

  lemma {:induction false} EmptyOrder()
    ensures Rooted(map[]) && RootTour(map[]) == [Enter(ZERO), Exit(ZERO)]
    ensures SortedKids(map[], ZERO) == []
  {
    var par: map<Tag, Tag> := map[];
    assert Acyclic(par) by {
      forall S: set<Tag> ensures !Trap(par, S) {
      }
    }
    CanonicalWF(par);
    KidsAre(par, ZERO, []);
    LeafTour(Canonical(par), ZERO);
  }
}
