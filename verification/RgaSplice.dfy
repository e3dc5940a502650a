/** What local edits do to the visible list: exact insertion, exact deletion, silent compaction. */
module RgaSplices {
  import opened Tags
  import opened Forests
  import opened RgaOrder
  import opened RgaIndexes
  import opened Cycles

  // ----- the visible list -----

  lemma {:induction false} FilterIn(ms: seq<Mark>, par: map<Tag, Tag>, hidden: set<Tag>, x: Tag)
    ensures x in Filter(ms, par, hidden) <==> Enter(x) in ms && x in par && x !in hidden
  {
    if ms != [] {
      FilterIn(ms[1..], par, hidden, x);
      assert ms == [ms[0]] + ms[1..];
    }
  }

  lemma {:induction false} FilterNoDup(ms: seq<Mark>, par: map<Tag, Tag>, hidden: set<Tag>)
    requires NoDup(ms)
    ensures NoDup(Filter(ms, par, hidden))
  {
    if ms != [] {
      assert ms == [ms[0]] + ms[1..];
      NoDupSplit([ms[0]], ms[1..]);
      FilterNoDup(ms[1..], par, hidden);
      if Shown(ms[0], par, hidden) {
        FilterIn(ms[1..], par, hidden, ms[0].id);
        NoDupConcat([ms[0].id], Filter(ms[1..], par, hidden));
      } else {
        assert Filter(ms, par, hidden) == Filter(ms[1..], par, hidden);
      }
    }
  }

  /** Every visible position is integrated, not deleted, and listed once. */
  lemma {:induction false} VisibleOnce(par: map<Tag, Tag>, hidden: set<Tag>)
    requires Rooted(par)
    ensures NoDup(VisibleWalk(par, hidden))
    ensures forall x :: x in VisibleWalk(par, hidden) <==> x in par && x !in hidden
  {
    hide RootTour, VisibleWalk, Filter, NoDup;
    FilterRootTour(par, hidden);
    RootTourNoDup(par);
    FilterNoDup(RootTour(par), par, hidden);
    forall x ensures x in VisibleWalk(par, hidden) <==> x in par && x !in hidden {
      FilterIn(RootTour(par), par, hidden, x);
      if x in par {
        TourHas(par, x);
      }
    }
  }

  lemma {:induction false} TourHas(par: map<Tag, Tag>, x: Tag)
    requires Rooted(par) && (x == ZERO || x in par)
    ensures Enter(x) in RootTour(par)
  {
    CanonicalWF(par);
    RootReaches(par, x);
  }

  /** Which positions are hidden matters only for positions that are listed. */
  lemma {:induction false} FilterSame(ms: seq<Mark>, par: map<Tag, Tag>, par2: map<Tag, Tag>, hidden: set<Tag>,
                                      hidden2: set<Tag>)
    requires forall m :: m in ms ==> Shown(m, par, hidden) == Shown(m, par2, hidden2)
    ensures Filter(ms, par, hidden) == Filter(ms, par2, hidden2)
  {
    if ms != [] {
      assert ms[0] in ms;
      FilterSame(ms[1..], par, par2, hidden, hidden2);
    }
  }

  // ----- insertion -----

  /** n is newer than every integrated position. */
  ghost predicate NewerThanAll(par: map<Tag, Tag>, n: Tag) {
    forall c :: c in par ==> Less(c, n)
  }

  lemma {:induction false} NewestGoesFirst(par: map<Tag, Tag>, n: Tag, p: Tag)
    requires NewerThanAll(par, n)
    ensures SortedInsert(par, p, 0, n)
  {
    var kids := SortedKids(par, p);
    SortedKidsSpec(par, p);
    assert kids[..0] + [n] + kids[0..] == [n] + kids;
    forall i, j | 0 <= i < j < |[n] + kids| ensures Greater(([n] + kids)[i], ([n] + kids)[j]) {
      assert ([n] + kids)[j] == kids[j - 1] && kids[j - 1] in kids;
      if i > 0 {
        assert ([n] + kids)[i] == kids[i - 1];
      }
    }
  }

  lemma {:induction false} LeafRooted(par: map<Tag, Tag>, n: Tag, p: Tag)
    requires Rooted(par) && n != ZERO && n !in par && (p == ZERO || p in par)
    ensures Rooted(par[n := p]) && n !in par.Values && n != p
  {
    assert n !in par.Values;
    AcyclicLeaf(par, n, p);
    var after := par[n := p];
    forall x | x in after ensures after[x] == ZERO || after[x] in after {
      assert x != n ==> after[x] == par[x];
    }
  }

  /** The anchor p of an insertion at offset o: the visible position before it, or the root. */
  ghost predicate At(visible: seq<Tag>, o: int, p: Tag) {
    0 <= o <= |visible| && (if o == 0 then p == ZERO else visible[o - 1] == p)
  }

  /** A new newest leaf below the position before offset o appears exactly at offset o. */
  lemma {:induction false} InsertOne(par: map<Tag, Tag>, hidden: set<Tag>, n: Tag, p: Tag, o: int)
    requires Rooted(par) && n != ZERO && n !in par && n !in hidden && NewerThanAll(par, n)
    requires At(VisibleWalk(par, hidden), o, p)
    ensures Rooted(par[n := p])
    ensures VisibleWalk(par[n := p], hidden) == VisibleWalk(par, hidden)[..o] + [n] + VisibleWalk(par, hidden)[o..]
    ensures At(VisibleWalk(par[n := p], hidden), o + 1, n)
  {
    hide VisibleWalk, Filter, NoDup, SortedKids, Rooted, RootTour;
    VisibleOnce(par, hidden);
    assert p == ZERO || p in par;
    LeafRooted(par, n, p);
    NewestGoesFirst(par, n, p);
    var u, v := NewLeafTour(par, n, p);
    FilterRootTour(par, hidden);
    FilterRootTour(par[n := p], hidden);
    InsertedFilter(par, hidden, n, p, u, v);
    var before, after := Filter(u + [Enter(p)], par, hidden), Filter(v, par, hidden);
    OffsetOf(par, hidden, p, u, v, o);
    Cut(before, after, o, [n]);
  }

  lemma {:induction false} Cut<T>(a: seq<T>, b: seq<T>, o: int, w: seq<T>)
    requires |a| == o
    ensures (a + b)[..o] + w + (a + b)[o..] == a + w + b
  {
  }

  lemma {:induction false} NewLeafTour(par: map<Tag, Tag>, n: Tag, p: Tag) returns (u: seq<Mark>, v: seq<Mark>)
    requires Rooted(par) && Rooted(par[n := p]) && n !in par && n !in par.Values && n != p && (p == ZERO || p in par)
    requires SortedInsert(par, p, 0, n)
    ensures RootTour(par) == u + [Enter(p)] + v && RootTour(par[n := p]) == u + [Enter(p)] + [Enter(n), Exit(n)] + v
  {
    u, v := LeafInserted(par, n, p, 0);
  }

  /** Only n itself is new in the filtered tour. */
  lemma {:induction false} InsertedFilter(par: map<Tag, Tag>, hidden: set<Tag>, n: Tag, p: Tag, u: seq<Mark>,
                                          v: seq<Mark>)
    requires Rooted(par) && n !in par && n !in hidden && n != ZERO && RootTour(par) == u + [Enter(p)] + v
    ensures Filter(u + [Enter(p)] + v, par, hidden) == Filter(u + [Enter(p)], par, hidden) + Filter(v, par, hidden)
    ensures Filter(u + [Enter(p)] + [Enter(n), Exit(n)] + v, par[n := p], hidden)
         == Filter(u + [Enter(p)], par, hidden) + [n] + Filter(v, par, hidden)
  {
    hide Rooted, RootTour;
    var a, w, after := u + [Enter(p)], [Enter(n), Exit(n)], par[n := p];
    FilterConcat(a, v, par, hidden);
    FilterConcat(a + w, v, after, hidden);
    FilterConcat(a, w, after, hidden);
    forall m | m in a || m in v ensures m.id != n {
      OldMark(par, m);
    }
    FilterSame(a, par, after, hidden, hidden);
    FilterSame(v, par, after, hidden, hidden);
    PairShown(n, after, hidden);
  }

  lemma {:induction false} OldMark(par: map<Tag, Tag>, m: Mark)
    requires Rooted(par) && m in RootTour(par)
    ensures m.id == ZERO || m.id in par
  {
    CanonicalWF(par);
    MarksPaired(Canonical(par), [ZERO], m.id);
    OnlyNodes(Canonical(par), ZERO, m.id);
  }

  /** Exactly o visible positions come up to and including the anchor. */
  lemma {:induction false} OffsetOf(par: map<Tag, Tag>, hidden: set<Tag>, p: Tag, u: seq<Mark>, v: seq<Mark>, o: int)
    requires Rooted(par) && RootTour(par) == u + [Enter(p)] + v
    requires VisibleWalk(par, hidden) == Filter(u + [Enter(p)], par, hidden) + Filter(v, par, hidden)
    requires NoDup(VisibleWalk(par, hidden)) && At(VisibleWalk(par, hidden), o, p)
    requires forall x :: x in VisibleWalk(par, hidden) ==> x in par && x !in hidden
    ensures |Filter(u + [Enter(p)], par, hidden)| == o
  {
    hide Acyclic, RootTour, VisibleWalk, Filter;
    var visible, before := VisibleWalk(par, hidden), Filter(u + [Enter(p)], par, hidden);
    if o == 0 {
      RootFirst(par, u, v);
      NothingBeforeRoot(par, hidden, u);
    } else {
      assert p in visible;
      FilterConcat(u, [Enter(p)], par, hidden);
      OneShown(p, par, hidden);
      var k := |before| - 1;
      assert before[k] == p && visible[k] == p;
    }
  }

  lemma {:induction false} PairShown(n: Tag, par: map<Tag, Tag>, hidden: set<Tag>)
    ensures Filter([Enter(n), Exit(n)], par, hidden) == if n in par && n !in hidden then [n] else []
  {
    FilterConcat([Enter(n)], [Exit(n)], par, hidden);
    assert [Enter(n)] + [Exit(n)] == [Enter(n), Exit(n)];
  }

  lemma {:induction false} OneShown(p: Tag, par: map<Tag, Tag>, hidden: set<Tag>)
    requires p in par && p !in hidden
    ensures Filter([Enter(p)], par, hidden) == [p]
  {
  }

  lemma {:induction false} RootFirst(par: map<Tag, Tag>, u: seq<Mark>, v: seq<Mark>)
    requires Rooted(par) && RootTour(par) == u + [Enter(ZERO)] + v
    ensures u == []
  {
    RootTourNoDup(par);
    CanonicalWF(par);
    TourUnfold(Canonical(par), ZERO);
    assert RootTour(par)[|u|] == Enter(ZERO) && RootTour(par)[0] == Enter(ZERO);
  }

  lemma {:induction false} NothingBeforeRoot(par: map<Tag, Tag>, hidden: set<Tag>, u: seq<Mark>)
    requires Rooted(par) && u == []
    ensures Filter(u + [Enter(ZERO)], par, hidden) == []
  {
    assert u + [Enter(ZERO)] == [Enter(ZERO)];
  }

  // ----- insertion of a run -----

  /** Each new position hangs below the one before it, the first below p. */
  ghost function Chained(par: map<Tag, Tag>, ids: seq<Tag>, p: Tag): map<Tag, Tag>
    decreases |ids|
  {
    if ids == [] then par else Chained(par[ids[0] := p], ids[1..], ids[0])
  }

  ghost predicate Increasing(ids: seq<Tag>) {
    forall i, j :: 0 <= i < j < |ids| ==> Less(ids[i], ids[j])
  }

  /** A run of ever newer positions appears, in order, exactly at offset o. */
  lemma {:induction false} InsertRun(par: map<Tag, Tag>, hidden: set<Tag>, ids: seq<Tag>, p: Tag, o: int)
    requires Rooted(par) && Increasing(ids) && At(VisibleWalk(par, hidden), o, p)
    requires forall n :: n in ids ==> n != ZERO && n !in par && n !in hidden && NewerThanAll(par, n)
    ensures Rooted(Chained(par, ids, p))
    ensures VisibleWalk(Chained(par, ids, p), hidden)
         == VisibleWalk(par, hidden)[..o] + ids + VisibleWalk(par, hidden)[o..]
    decreases |ids|
  {
    hide VisibleWalk, Acyclic;
    var visible := VisibleWalk(par, hidden);
    if ids == [] {
      assert visible == visible[..o] + ids + visible[o..];
    } else {
      var n, rest := ids[0], ids[1..];
      assert n in ids;
      InsertOne(par, hidden, n, p, o);
      forall x | x in rest ensures x in ids && Less(n, x) && x !in par[n := p] && NewerThanAll(par[n := p], x) {
        Later(ids, x);
      }
      assert Increasing(rest);
      InsertRun(par[n := p], hidden, rest, n, o + 1);
      Spliced(visible, o, n, rest);
      assert ids == [n] + rest;
    }
  }

  lemma {:induction false} Later(ids: seq<Tag>, x: Tag)
    requires Increasing(ids) && ids != [] && x in ids[1..]
    ensures x in ids && Less(ids[0], x) && x != ids[0]
  {
    var j :| 0 <= j < |ids[1..]| && ids[1..][j] == x;
    assert ids[j + 1] == x;
    Trichotomy(x, x);
  }

  lemma {:induction false} Spliced<T>(s: seq<T>, o: int, n: T, rest: seq<T>)
    requires 0 <= o <= |s|
    ensures var t := s[..o] + [n] + s[o..]; t[..o + 1] + rest + t[o + 1..] == s[..o] + ([n] + rest) + s[o..]
  {
  }

  // ----- deletion -----

  lemma {:induction false} WithoutTwice(s: seq<Tag>, hidden: set<Tag>, more: set<Tag>)
    ensures Without(s, hidden + more) == Without(Without(s, hidden), more)
  {
    if s != [] {
      WithoutTwice(s[1..], hidden, more);
      if s[0] !in hidden {
        var rest := Without(s[1..], hidden);
        assert Without(s, hidden) == [s[0]] + rest;
        assert ([s[0]] + rest)[1..] == rest;
      } else {
        assert Without(s, hidden) == Without(s[1..], hidden);
      }
    }
  }

  lemma {:induction false} WithoutNone(s: seq<Tag>, hidden: set<Tag>)
    requires forall x :: x in s ==> x !in hidden
    ensures Without(s, hidden) == s
  {
    if s != [] {
      assert s[0] in s;
      WithoutNone(s[1..], hidden);
    }
  }

  lemma {:induction false} WithoutAll(s: seq<Tag>, hidden: set<Tag>)
    requires forall x :: x in s ==> x in hidden
    ensures Without(s, hidden) == []
  {
    if s != [] {
      assert s[0] in s;
      WithoutAll(s[1..], hidden);
    }
  }

  /** Hiding a range of visible positions removes exactly that range. */
  lemma {:induction false} DeleteRange(par: map<Tag, Tag>, hidden: set<Tag>, o: int, count: int)
    requires Rooted(par) && 0 <= o && 0 <= count && o + count <= |VisibleWalk(par, hidden)|
    ensures VisibleWalk(par, hidden + Elems(VisibleWalk(par, hidden)[o..o + count]))
         == VisibleWalk(par, hidden)[..o] + VisibleWalk(par, hidden)[o + count..]
  {
    var visible := VisibleWalk(par, hidden);
    var a, b, c := visible[..o], visible[o..o + count], visible[o + count..];
    VisibleOnce(par, hidden);
    CanonicalWF(par);
    WithoutTwice(Walk(Canonical(par), SortedKids(par, ZERO)), hidden, Elems(b));
    assert visible == a + b + c;
    RangeCut(a, b, c);
  }

  lemma {:induction false} RangeApart(a: seq<Tag>, b: seq<Tag>, c: seq<Tag>)
    requires NoDup(a + b + c)
    ensures forall x :: x in a ==> x !in Elems(b)
    ensures forall x :: x in c ==> x !in Elems(b)
  {
    NoDupSplit(a + b, c);
    NoDupSplit(a, b);
    forall x | x in c ensures x !in b {
      assert x in b ==> x in a + b;
    }
  }

  lemma {:induction false} RangeCut(a: seq<Tag>, b: seq<Tag>, c: seq<Tag>)
    requires NoDup(a + b + c)
    ensures Without(a + b + c, Elems(b)) == a + c
  {
    hide NoDup, Without;
    RangeApart(a, b, c);
    WithoutConcat(a + b, c, Elems(b));
    WithoutConcat(a, b, Elems(b));
    WithoutNone(a, Elems(b));
    WithoutAll(b, Elems(b));
    WithoutNone(c, Elems(b));
    assert a + [] + c == a + c;
  }

  // ----- compaction -----

  /** Dropping a hidden leaf leaves the visible list as it was. */
  lemma {:induction false} CompactOne(par: map<Tag, Tag>, hidden: set<Tag>, n: Tag)
    requires Rooted(par) && n in par && n !in par.Values && n in hidden
    ensures Rooted(par - {n}) && VisibleWalk(par - {n}, hidden - {n}) == VisibleWalk(par, hidden)
  {
    hide VisibleWalk, Filter, SortedKids, Rooted, RootTour;
    var before, p := par - {n}, par[n];
    assert before[n := p] == par;
    RootedWithout(par, n);
    var u, v := OldLeafTour(par, n);
    FilterRootTour(par, hidden);
    FilterRootTour(before, hidden - {n});
    var w := [Enter(n), Exit(n)];
    forall m | m in u || m in v ensures m.id != n {
      RootedNotZero(par, n);
      OldMark(before, m);
    }
    FilterSame(u, before, par, hidden - {n}, hidden);
    FilterSame(v, before, par, hidden - {n}, hidden);
    FilterConcat(u, v, before, hidden - {n});
    FilterConcat(u + w, v, par, hidden);
    FilterConcat(u, w, par, hidden);
    PairShown(n, par, hidden);
  }

  lemma {:induction false} RootedNotZero(par: map<Tag, Tag>, n: Tag)
    requires Rooted(par) && n in par
    ensures n != ZERO
  {
  }

  lemma {:induction false} OldLeafTour(par: map<Tag, Tag>, n: Tag) returns (u: seq<Mark>, v: seq<Mark>)
    requires Rooted(par) && Rooted(par - {n}) && n in par && n !in (par - {n}).Values && n != par[n]
    requires par[n] == ZERO || par[n] in par - {n}
    ensures RootTour(par - {n}) == u + v && RootTour(par) == u + [Enter(n), Exit(n)] + v
  {
    var before, p := par - {n}, par[n];
    assert before[n := p] == par;
    var i := LeafWasInserted(par, n);
    var a, b := LeafInserted(before, n, p, i);
    u, v := a + [if i == 0 then Enter(p) else Exit(SortedKids(before, p)[i - 1])], b;
  }
}
