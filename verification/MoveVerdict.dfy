/** The verdict on a move delta, when a local edit succeeds, and what it leaves behind. */
module MoveVerdicts {
  import opened Tags
  import opened Forests
  import opened Clocks
  import opened RgaOrder
  import opened RgaStates
  import opened RgaSplices
  import opened RgaEdits
  import opened RgaVerdicts
  import opened EditOutcomes
  import opened MoveOrders
  import opened MoveProjections
  import opened MoveJoins
  import opened MoveLocals
  import opened MoveExacts
  import opened MoveShifts

  datatype MoveDelta = MoveDelta(codecID: Bytes, part: MoveState)

  /** Every tag that the clock has to stay ahead of. */
  ghost function MoveTags(s: MoveState): set<Tag> {
    TagsOf(Delta([], s.nodes, s.tombstones))
      + (set id | id in s.moves :: s.moves[id].tag) +
        (set id | id in s.moves && s.moves[id].anchor.Valid() :: s.moves[id].anchor)
  }

  ghost predicate SeenAll(s: MoveState, now: Time) {
    forall x :: x in MoveTags(s) ==> NotAfter(TimeOf(x), now)
  }

  lemma {:induction false} SeenAllLater(s: MoveState, now: Time, later: Time)
    requires SeenAll(s, now) && NotAfter(now, later)
    ensures SeenAll(s, later)
  {
    hide MoveTags;
  }

  ghost function PendingMoves(s: MoveState): set<Tag> {
    s.moves.Keys - s.nodes.Keys
  }

  ghost predicate FitsAll(s: MoveState, o: Options) {
    |s.nodes| <= o.maxNodes && |s.tombstones| <= o.maxTombstones && |PendingMoves(s)| <= o.maxPendingNodes
  }

  /** The checks that do not involve the clock, in order. */
  ghost function MoveScreen(s: MoveState, d: MoveDelta, codecID: Bytes, o: Options): Option<Error> {
    if d.codecID != codecID || Blank(d.codecID) || !ValidState(d.part) then Some(InvalidDelta)
    else if exists id :: id in d.part.nodes && |d.part.nodes[id].value| > o.maxValueBytes then Some(ResourceLimit)
    else if !Compatible(s, d.part) then Some(TagConflict)
    else if !FitsAll(Join(s, d.part), o) then Some(ResourceLimit)
    else None
  }

  /** Exactly which deltas are refused, and why. */
  ghost function MoveVerdict(s: MoveState, d: MoveDelta, codecID: Bytes, o: Options, now: Time,
                             physical: Millis): Option<Error> {
    if MoveScreen(s, d, codecID, o).Some? then MoveScreen(s, d, codecID, o)
    else if MoveTags(d.part) != {} && Advance(now, Observe(Newest(MoveTags(d.part)), physical)).None?
      then Some(ClockError)
    else None
  }

  /** The verdict together with the clock that the delivery leaves behind. */
  ghost function MoveEnds(s: MoveState, d: MoveDelta, codecID: Bytes, o: Options, now: Time,
                          physical: Millis): Outcome {
    if MoveScreen(s, d, codecID, o).Some? then Outcome(MoveScreen(s, d, codecID, o), now)
    else if MoveTags(d.part) == {} then Outcome(None, now)
    else Finish(now, Newest(MoveTags(d.part)), physical)
  }

  method MergeMoves(a: map<Tag, MoveRecord>, b: map<Tag, MoveRecord>) returns (m: map<Tag, MoveRecord>)
    ensures m == JoinMoves(a, b)
  {
    m := a;
    var rest := b.Keys;
    while rest != {}
      invariant rest <= b.Keys && m.Keys == a.Keys + (b.Keys - rest)
      invariant forall id :: id in m ==> m[id] == if id in b && id !in rest then JoinMoves(a, b)[id] else a[id]
    {
      var id :| id in rest;
      rest := rest - {id};
      if id !in m || Less(m[id].tag, b[id].tag) {
        m := m[id := b[id]];
      }
    }
  }

  /** The newest tag mentioned by a partial state. */
  method GreatestMoveTag(s: MoveState) returns (greatest: Tag, found: bool)
    ensures found <==> MoveTags(s) != {}
    ensures found ==> greatest == Newest(MoveTags(s))
  {
    hide IsLeast, Less, Newest, Tag.Valid;
    greatest, found := GreatestTag(Delta([], s.nodes, s.tombstones));
    ghost var met := TagsOf(Delta([], s.nodes, s.tombstones));
    var rest := s.moves.Keys;
    while rest != {}
      invariant rest <= s.moves.Keys && met <= MoveTags(s) && (found <==> met != {})
      invariant TagsOf(Delta([], s.nodes, s.tombstones)) <= met
      invariant found ==> IsLeast(Greater, met, greatest)
      invariant forall id :: id in s.moves && id !in rest ==>
        s.moves[id].tag in met && (s.moves[id].anchor.Valid() ==> s.moves[id].anchor in met)
    {
      var id :| id in rest;
      var tag, anchor := s.moves[id].tag, s.moves[id].anchor;
      rest := rest - {id};
      NewestMore(met, greatest, tag);
      met := met + {tag};
      if !found || Less(greatest, tag) {
        greatest, found := tag, true;
      }
      NewestMore(met, greatest, anchor);
      if anchor.Valid() {
        met := met + {anchor};
        if Less(greatest, anchor) {
          greatest := anchor;
        }
      }
    }
    assert met == MoveTags(s);
    if found {
      NewestIs(met, greatest);
    }
  }

  /** The records of one move, with increasing ranks. */
  method BuildShift(selected: seq<Tag>, rest: seq<Tag>, anchor: Tag, formerAnchor: Tag, tag: Tag)
    returns (records: map<Tag, MoveRecord>)
    requires NoDup(selected) && NoDup(rest) && forall x :: x in selected ==> x !in rest
    ensures IsShift(records, selected, rest, anchor, formerAnchor, tag)
  {
    hide Prev, IsShift;
    records := map[];
    var at := anchor;
    var i := 0;
    PrevStart(selected, anchor);
    PrevStart(rest, formerAnchor);
    NoShift(anchor, formerAnchor, tag, selected);
    while i < |selected|
      invariant 0 <= i <= |selected| && at == Prev(selected, i, anchor)
      invariant ShiftTo(records, selected, i, rest, 0, anchor, formerAnchor, tag)
    {
      ShiftSel(records, selected, i, rest, anchor, formerAnchor, tag);
      records := records[selected[i] := MoveRecord(tag, at, i)];
      at := selected[i];
      i := i + 1;
    }
    at := formerAnchor;
    var j := 0;
    while j < |rest|
      invariant 0 <= j <= |rest| && at == Prev(rest, j, formerAnchor)
      invariant ShiftTo(records, selected, |selected|, rest, j, anchor, formerAnchor, tag)
    {
      ShiftRest(records, selected, rest, j, anchor, formerAnchor, tag);
      records := records[rest[j] := MoveRecord(tag, at, |selected| + j)];
      at := rest[j];
      j := j + 1;
    }
    ShiftDone(records, selected, rest, anchor, formerAnchor, tag);
  }

  /** The first i selected and the first j following positions have their records. */
  ghost predicate ShiftTo(r: map<Tag, MoveRecord>, sel: seq<Tag>, i: int, rest: seq<Tag>, j: int, a: Tag, b: Tag,
                          tag: Tag)
    requires 0 <= i <= |sel| && 0 <= j <= |rest|
  {
    && r.Keys == Elems(sel[..i]) + Elems(rest[..j])
    && (forall k {:trigger sel[k]} :: 0 <= k < i ==> sel[k] in r && r[sel[k]] == MoveRecord(tag, Prev(sel, k, a), k))
    && (forall k {:trigger rest[k]} :: 0 <= k < j ==>
      rest[k] in r && r[rest[k]] == MoveRecord(tag, Prev(rest, k, b), |sel| + k))
  }

  lemma {:induction false} PrevStart(xs: seq<Tag>, p: Tag)
    ensures Prev(xs, 0, p) == p && forall i :: 0 < i <= |xs| ==> Prev(xs, i, p) == xs[i - 1]
  {
  }

  lemma {:induction false} NoShift(a: Tag, b: Tag, tag: Tag, sel: seq<Tag>)
    ensures forall rest {:trigger ShiftTo(map[], sel, 0, rest, 0, a, b, tag)} ::
      ShiftTo(map[], sel, 0, rest, 0, a, b, tag)
  {
  }

  lemma {:induction false} ShiftSel(r: map<Tag, MoveRecord>, sel: seq<Tag>, i: int, rest: seq<Tag>, a: Tag, b: Tag,
                                    tag: Tag)
    requires 0 <= i < |sel| && NoDup(sel) && ShiftTo(r, sel, i, rest, 0, a, b, tag)
    ensures ShiftTo(r[sel[i] := MoveRecord(tag, Prev(sel, i, a), i)], sel, i + 1, rest, 0, a, b, tag)
  {
    hide Prev;
    assert sel[..i + 1] == sel[..i] + [sel[i]];
  }

  lemma {:induction false} ShiftRest(r: map<Tag, MoveRecord>, sel: seq<Tag>, rest: seq<Tag>, j: int, a: Tag, b: Tag,
                                     tag: Tag)
    requires 0 <= j < |rest| && NoDup(rest) && (forall x :: x in sel ==> x !in rest)
    requires ShiftTo(r, sel, |sel|, rest, j, a, b, tag)
    ensures ShiftTo(r[rest[j] := MoveRecord(tag, Prev(rest, j, b), |sel| + j)], sel, |sel|, rest, j + 1, a, b, tag)
  {
    hide Prev;
    assert rest[..j + 1] == rest[..j] + [rest[j]];
    forall k | 0 <= k < |sel| ensures sel[k] != rest[j] {
      assert sel[k] in sel && rest[j] in rest;
    }
  }

  lemma {:induction false} ShiftDone(r: map<Tag, MoveRecord>, sel: seq<Tag>, rest: seq<Tag>, a: Tag, b: Tag, tag: Tag)
    requires ShiftTo(r, sel, |sel|, rest, |rest|, a, b, tag)
    ensures IsShift(r, sel, rest, a, b, tag)
  {
    hide Prev;
    assert sel[..|sel|] == sel && rest[..|rest|] == rest;
  }

  // ----- what the edits leave behind -----

  /** Cut count elements out at from and put them in at to. */
  ghost function Spliced<T>(s: seq<T>, from: int, count: int, to: int): seq<T>
    requires InRange(|s|, from, count, to)
  {
    var remaining := s[..from] + s[from + count..];
    remaining[..to] + s[from..from + count] + remaining[to..]
  }

  ghost predicate DeletedFrom(s: MoveState, t: MoveState, o: int, count: int) {
    && ZERO !in s.nodes && t.nodes == s.nodes && t.moves == s.moves && 0 <= o && 0 <= count
    && o + count <= |VisibleMoves(s)|
    && VisibleMoves(t) == VisibleMoves(s)[..o] + VisibleMoves(s)[o + count..]
    && t.tombstones == s.tombstones + Elems(VisibleMoves(s)[o..o + count])
    && (Intact(s) ==> Intact(t))
  }

  ghost predicate MovedIn(s: MoveState, t: MoveState, from: int, count: int, to: int) {
    && ZERO !in s.nodes && t.nodes == s.nodes && t.tombstones == s.tombstones
    && InRange(|VisibleMoves(s)|, from, count, to)
    && VisibleMoves(t) == Spliced(VisibleMoves(s), from, count, to)
    && (Intact(s) ==> Intact(t))
  }

  /** The element before an offset, or the root. */
  ghost function Former(visible: seq<Tag>, o: int): Tag
    requires 0 <= o <= |visible|
  {
    if o > 0 then visible[o - 1] else ZERO
  }

  /** What the move takes out, what follows it, and where each is hung. */
  ghost function Selection(s: MoveState, from: int, count: int, to: int): (seq<Tag>, seq<Tag>, Tag, Tag)
    requires ZERO !in s.nodes && InRange(|VisibleMoves(s)|, from, count, to)
  {
    var visible := VisibleMoves(s);
    var rest := visible[from + count..];
    (visible[from..from + count], rest, Former(visible[..from] + rest, to), Former(visible, from))
  }

  /** No dropped element outside the moved suffix comes back: all that a move needs to be exact. */
  ghost predicate LeavesAlone(s: MoveState, from: int, count: int, to: int)
    requires ZERO !in s.nodes && InRange(|VisibleMoves(s)|, from, count, to) && count > 0
  {
    var (sel, rest, a, b) := Selection(s, from, count, to);
    Undisturbed(s, sel, rest, a, b)
  }

  /** The parents outside the moved suffix are the same before and after. */
  ghost predicate SameOutside(s: MoveState, t: MoveState, from: int)
    requires ZERO !in s.nodes && t.nodes.Keys == s.nodes.Keys && 0 <= from <= |VisibleMoves(s)|
  {
    KeepsUnmoved(s, Placed(t), VisibleMoves(s)[from..], [])
  }

  /** Every element that the move does not rewrite and whose anchor is known is attached to it. */
  ghost predicate AttachedOutside(s: MoveState, from: int)
    requires ZERO !in s.nodes && 0 <= from <= |VisibleMoves(s)|
  {
    forall c :: c in s.nodes && c !in VisibleMoves(s)[from..] ==> !Dropped(Placed(s), c)
  }

  /**
    What an effective move does: the splice unless it revives an element outside, and exactly then the same parents.
   */
  ghost predicate Relocated(s: MoveState, t: MoveState, from: int, count: int, to: int)
    requires ZERO !in s.nodes && InRange(|VisibleMoves(s)|, from, count, to) && count > 0
  {
    && t.nodes == s.nodes && (SameOutside(s, t, from) <==> LeavesAlone(s, from, count, to))
    && (LeavesAlone(s, from, count, to) ==> MovedIn(s, t, from, count, to))
    && (AttachedOutside(s, from) ==> LeavesAlone(s, from, count, to)) && (Intact(s) ==> LeavesAlone(s, from, count, to))
  }

  lemma {:induction false} AttachedIsEnough(s: MoveState, from: int, count: int, to: int)
    requires ZERO !in s.nodes && InRange(|VisibleMoves(s)|, from, count, to) && count > 0 && AttachedOutside(s, from)
    ensures LeavesAlone(s, from, count, to)
  {
    hide VisibleMoves, Dropped, StillBlocked, ShiftPar, Placed, ParentsOf, Former, At;
    PartsAre(s, from, count, to);
  }

  lemma {:induction false} NothingMoved(s: MoveState, from: int, count: int, to: int)
    requires ZERO !in s.nodes && InRange(|VisibleMoves(s)|, from, count, to) && (count == 0 || to == from)
    ensures MovedIn(s, s, from, count, to)
  {
    hide VisibleMoves, Intact;
    SplicedNone(VisibleMoves(s), from, count, to);
  }

  lemma {:induction false} SplicedNone<T>(s: seq<T>, from: int, count: int, to: int)
    requires InRange(|s|, from, count, to) && (count == 0 || to == from)
    ensures Spliced(s, from, count, to) == s
  {
  }

  lemma {:induction false} PartsDistinct(s: MoveState, from: int, count: int)
    requires ZERO !in s.nodes && 0 <= from && 0 <= count && from + count <= |VisibleMoves(s)|
    ensures var sel, rest := VisibleMoves(s)[from..from + count], VisibleMoves(s)[from + count..];
      && NoDup(sel) && NoDup(rest) && (forall x :: x in sel ==> x !in rest) && VisibleMoves(s)[from..] == sel + rest
  {
    hide VisibleMoves;
    var visible := VisibleMoves(s);
    EveryLiveNodeOnce(s);
    assert visible[from..] == visible[from..from + count] + visible[from + count..];
    SuffixParts(visible, from, visible[from..from + count], visible[from + count..]);
  }

  lemma {:induction false} DeleteLands(s: MoveState, t: MoveState, o: int, count: int)
    requires ZERO !in s.nodes && 0 <= o && 0 <= count && o + count <= |VisibleMoves(s)|
    requires Delivers(s, MoveState(map[], Elems(VisibleMoves(s)[o..o + count]), map[]), t)
    ensures DeletedFrom(s, t, o, count)
  {
    hide Walk, Acyclic, KidsBy, Without, NoDup, Less, Tag.Valid;
    var visible := VisibleMoves(s);
    var a, b, c := visible[..o], visible[o..o + count], visible[o + count..];
    assert s.nodes + map[] == s.nodes;
    JoinRun(s, map[]);
    assert t == MoveState(s.nodes, s.tombstones + Elems(b), s.moves);
    assert Placed(t) == Placed(s);
    EveryLiveNodeOnce(s);
    assert visible == a + b + c;
    VisibleLess(s, t, b);
    RangeCut(a, b, c);
    assert forall x :: x in Elems(b) ==> x in visible;
  }

  lemma {:induction false} VisibleLess(s: MoveState, t: MoveState, gone: seq<Tag>)
    requires ZERO !in s.nodes && t.nodes == s.nodes && t.moves == s.moves && t.tombstones == s.tombstones + Elems(gone)
    ensures VisibleMoves(t) == Without(VisibleMoves(s), Elems(gone))
  {
    hide Walk, Acyclic, KidsBy, Without;
    assert Placed(t) == Placed(s);
    var places := Placed(s);
    ParentsAreForest(places);
    GrownWF(places, ParentsOf(places));
    WithoutTwice(Walk(Grown(places, ParentsOf(places)), KidsBy(places, ParentsOf(places), ZERO)), s.tombstones,
      Elems(gone));
  }

  lemma {:induction false} PartsAre(s: MoveState, from: int, count: int, to: int)
    requires ZERO !in s.nodes && InRange(|VisibleMoves(s)|, from, count, to) && count > 0
    ensures var (sel, rest, a, b) := Selection(s, from, count, to);
      && sel != [] && VisibleMoves(s)[from..] == sel + rest && At(Remaining(s, from, rest), to, a)
      && b == (if from == 0 then ZERO else VisibleMoves(s)[from - 1])
  {
    hide VisibleMoves;
  }

  ghost predicate Rewritten(s: MoveState, r: map<Tag, MoveRecord>, t: MoveState, from: int, count: int, to: int,
                            tag: Tag)
  {
    && ValidState(s) && ValidState(t) && ZERO !in s.nodes && InRange(|VisibleMoves(s)|, from, count, to) && count > 0
    && NewerThan(s, tag) && t == MoveState(s.nodes, s.tombstones, s.moves + r)
    && (var (sel, rest, a, b) := Selection(s, from, count, to); IsShift(r, sel, rest, a, b, tag))
  }

  lemma {:induction false} MoveLands(s: MoveState, r: map<Tag, MoveRecord>, t: MoveState, from: int, count: int,
                                     to: int, tag: Tag, was: Time)
    requires ValidState(s) && ValidState(t) && ZERO !in s.nodes && SeenAll(s, was) && Before(was, TimeOf(tag))
    requires Delivers(s, MoveState(map[], {}, r), t) && InRange(|VisibleMoves(s)|, from, count, to) && count > 0
    requires var (sel, rest, a, b) := Selection(s, from, count, to); IsShift(r, sel, rest, a, b, tag)
    ensures Relocated(s, t, from, count, to)
  {
    hide VisibleMoves, Intact, SeenAll, NewerThan, Compatible, Join, IsShift, LeavesAlone, SameOutside, MovedIn,
      ValidState,
      AttachedOutside, Former;
    var (sel, rest, a, b) := Selection(s, from, count, to);
    NewerByTime(s, was, tag);
    JoinShift(s, r, sel, rest, a, b, tag, was);
    assert Rewritten(s, r, t, from, count, to, tag);
    KeptOutside(s, r, t, from, count, to, tag);
    if Intact(s) {
      IntactMoves(s, r, t, from, count, to, tag);
    }
    if AttachedOutside(s, from) {
      AttachedIsEnough(s, from, count, to);
    }
    if LeavesAlone(s, from, count, to) {
      SpliceLands(s, r, t, from, count, to, tag);
    }
  }

  lemma {:induction false} KeptOutside(s: MoveState, r: map<Tag, MoveRecord>, t: MoveState, from: int, count: int,
                                       to: int, tag: Tag)
    requires Rewritten(s, r, t, from, count, to, tag)
    ensures SameOutside(s, t, from) <==> LeavesAlone(s, from, count, to)
  {
    hide VisibleMoves, NewerThan, IsShift, NoDup, Undisturbed, KeepsUnmoved, ValidState, At, Former, Placed;
    var (sel, rest, a, b) := Selection(s, from, count, to);
    PartsAre(s, from, count, to);
    UnmovedKeptIff(s, r, from, sel, rest, tag, a, b, to);
    KeptAlike(s, Placed(t), sel, rest);
  }

  lemma {:induction false} IntactMoves(s: MoveState, r: map<Tag, MoveRecord>, t: MoveState, from: int, count: int,
                                       to: int, tag: Tag)
    requires Rewritten(s, r, t, from, count, to, tag) && Intact(s)
    ensures LeavesAlone(s, from, count, to) && Intact(t)
  {
    hide VisibleMoves, NewerThan, IsShift, NoDup, Undisturbed, ValidState, At, Former, Intact;
    var (sel, rest, a, b) := Selection(s, from, count, to);
    PartsAre(s, from, count, to);
    MoveStaysIntact(s, r, from, sel, rest, tag, a, b, to);
  }

  lemma {:induction false} SpliceLands(s: MoveState, r: map<Tag, MoveRecord>, t: MoveState, from: int, count: int,
                                       to: int, tag: Tag)
    requires Rewritten(s, r, t, from, count, to, tag) && LeavesAlone(s, from, count, to)
    ensures MovedIn(s, t, from, count, to)
  {
    hide VisibleMoves, NewerThan, IsShift, NoDup, Undisturbed, ValidState, At, Former, Intact, ParentsOf, Placed;
    var (sel, rest, a, b) := Selection(s, from, count, to);
    PartsAre(s, from, count, to);
    MoveIsExact(s, r, from, sel, rest, tag, a, b, to);
    if Intact(s) {
      IntactMoves(s, r, t, from, count, to, tag);
    }
  }

  lemma {:induction false} KeptAlike(s: MoveState, places: Placements, sel: seq<Tag>, rest: seq<Tag>)
    requires places.Keys == s.nodes.Keys
    ensures KeepsUnmoved(s, places, sel, rest) <==> KeepsUnmoved(s, places, sel + rest, [])
  {
    hide ParentsOf, Placed;
  }

  lemma {:induction false} JoinShift(s: MoveState, r: map<Tag, MoveRecord>, sel: seq<Tag>, rest: seq<Tag>, a: Tag,
                                     b: Tag, tag: Tag, was: Time)
    requires IsShift(r, sel, rest, a, b, tag) && SeenAll(s, was) && Before(was, TimeOf(tag))
    ensures Join(s, MoveState(map[], {}, r)) == MoveState(s.nodes, s.tombstones, s.moves + r)
  {
    hide Prev, Tag.Valid;
    forall id | id in r ensures r[id].tag == tag {
      if id in sel {
        var i :| 0 <= i < |sel| && sel[i] == id;
      } else {
        var j :| 0 <= j < |rest| && rest[j] == id;
      }
    }
    forall id | id in r && id in s.moves ensures Less(s.moves[id].tag, tag) {
      assert s.moves[id].tag in MoveTags(s);
    }
    assert JoinMoves(s.moves, r) == s.moves + r;
    assert s.nodes + map[] == s.nodes;
  }

  /** What a successful insertion leaves behind. */
  ghost predicate InsertedInto(s: MoveState, t: MoveState, o: int, ids: seq<Tag>, values: seq<Bytes>) {
    && ZERO !in s.nodes && ZERO !in t.nodes && 0 <= o <= |VisibleMoves(s)| && |ids| == |values|
    && VisibleMoves(t) == VisibleMoves(s)[..o] + ids + VisibleMoves(s)[o..]
    && (forall i :: 0 <= i < |ids| ==> ids[i] in t.nodes && t.nodes[ids[i]].value == values[i])
    && (forall id :: id in s.nodes ==> id in t.nodes && t.nodes[id] == s.nodes[id])
    && t.nodes.Keys == s.nodes.Keys + Elems(ids) && Elems(ids) !! s.nodes.Keys && NoDup(ids)
    && t.tombstones == s.tombstones && t.moves == s.moves
    && (Intact(s) ==> Intact(t))
  }

  lemma {:induction false} NoZero(s: MoveState)
    requires ValidState(s)
    ensures ZERO !in s.nodes
  {
    hide Tag.Valid;
    ZeroInvalid();
  }

  lemma {:induction false} NothingNew(s: MoveState, o: int)
    requires ZERO !in s.nodes && 0 <= o <= |VisibleMoves(s)|
    ensures InsertedInto(s, s, o, [], [])
  {
    hide VisibleMoves, Intact;
    var visible := VisibleMoves(s);
    assert visible == visible[..o] + [] + visible[o..];
  }

  lemma {:induction false} InsertLands(s: MoveState, run: Nodes, t: MoveState, ids: seq<Tag>, values: seq<Bytes>,
                                       p: Tag, o: int, was: Time, now: Time)
    requires ValidState(s) && ValidState(t) && ZERO !in s.nodes && SeenAll(s, was) && Issued(ids, was, now)
    requires IsRun(run, ids, values, p) && |run| > 0
    requires Delivers(s, MoveState(run, {}, map[]), t) && At(VisibleMoves(s), o, p)
    ensures InsertedInto(s, t, o, ids, values)
  {
    hide VisibleMoves, Intact, Tag.Valid, SeenAll, FreshRun, Issued, IsRun, Compatible, Join, ValidState, ParentsOf,
      Placed, Chain, At,
      NoDup, Increasing, Elems;
    JoinRun(s, run);
    assert t == MoveState(s.nodes + run, s.tombstones, s.moves);
    RunFresh(s, run, ids, values, p, was, now);
    InsertIsExact(s, run, ids, values, p, o);
    RunContents(s, run, ids, values, p);
    RunKeys(run, ids, values, p, was, now);
    AtRange(VisibleMoves(s), o, p);
    if Intact(s) {
      InsertStaysIntact(s, run, ids, values, p, o);
    }
  }

  lemma {:induction false} AtRange(visible: seq<Tag>, o: int, p: Tag)
    requires At(visible, o, p)
    ensures 0 <= o <= |visible|
  {
  }

  lemma {:induction false} RunFresh(s: MoveState, run: Nodes, ids: seq<Tag>, values: seq<Bytes>, p: Tag, was: Time,
                                    now: Time)
    requires ValidState(s) && SeenAll(s, was) && Issued(ids, was, now) && IsRun(run, ids, values, p) && |run| > 0
    ensures FreshRun(s, ids) && forall n :: n in ids ==> n !in s.nodes
  {
    hide Tag.Valid, SeenAll, NewerThan, Issued, IsRun, NoDup, ValidState, Placed, Less;
    RunKeys(run, ids, values, p, was, now);
    RunNonempty(run, ids, values, p);
    forall n | n in ids ensures Fresh(s, n) {
      IssuedFresh(s, ids, was, now, n);
    }
  }

  lemma {:induction false} JoinRun(s: MoveState, run: Nodes)
    ensures Join(s, MoveState(run, {}, map[])) == MoveState(s.nodes + run, s.tombstones, s.moves)
  {
    assert JoinMoves(s.moves, map[]) == s.moves;
  }

  lemma {:induction false} RunNonempty(run: Nodes, ids: seq<Tag>, values: seq<Bytes>, p: Tag)
    requires IsRun(run, ids, values, p) && |run| > 0
    ensures ids != []
  {
    hide Prev;
  }

  lemma {:induction false} RunContents(s: MoveState, run: Nodes, ids: seq<Tag>, values: seq<Bytes>, p: Tag)
    requires IsRun(run, ids, values, p) && forall n :: n in ids ==> n !in s.nodes
    ensures |ids| == |values|
    ensures forall i :: 0 <= i < |ids| ==> ids[i] in s.nodes + run && (s.nodes + run)[ids[i]].value == values[i]
    ensures forall id :: id in s.nodes ==> id in s.nodes + run && (s.nodes + run)[id] == s.nodes[id]
    ensures (s.nodes + run).Keys == s.nodes.Keys + Elems(ids) && Elems(ids) !! s.nodes.Keys
  {
    hide Prev;
  }

  lemma {:induction false} IssuedFresh(s: MoveState, ids: seq<Tag>, was: Time, now: Time, n: Tag)
    requires ValidState(s) && SeenAll(s, was) && Issued(ids, was, now) && n in ids
    ensures Fresh(s, n)
  {
    hide Tag.Valid, MoveTags, NewerThan, Placed;
    NewerByTime(s, was, n);
    NoAnchorByTime(s, was, n);
  }

  /** Anything issued after everything was seen is newer than every element and every placement. */
  lemma {:induction false} NewerByTime(s: MoveState, was: Time, n: Tag)
    requires SeenAll(s, was) && Before(was, TimeOf(n))
    ensures n !in s.nodes && n !in s.tombstones && NewerThan(s, n)
  {
    hide Tag.Valid;
    forall c | c in s.nodes ensures Less(c, n) && Less(Placed(s)[c].tag, n) {
      assert c in MoveTags(s);
      if c in s.moves {
        assert s.moves[c].tag in MoveTags(s);
      }
    }
    assert forall x :: x in s.tombstones ==> x in MoveTags(s);
  }

  lemma {:induction false} AnchorSeen(s: MoveState, c: Tag)
    requires ValidState(s) && c in s.nodes
    ensures Placed(s)[c].anchor == ZERO || Placed(s)[c].anchor in MoveTags(s)
  {
    hide Tag.Valid, Less;
  }

  /** Nor does any anchor or any waiting record name it. */
  lemma {:induction false} NoAnchorByTime(s: MoveState, was: Time, n: Tag)
    requires ValidState(s) && SeenAll(s, was) && Before(was, TimeOf(n)) && n.Valid()
    ensures forall c :: c in s.nodes ==> Placed(s)[c].anchor != n
    ensures n in s.moves ==> !Less(n, s.moves[n].tag)
  {
    hide Tag.Valid, MoveTags, ValidState, Placed;
    ZeroInvalid();
    forall c | c in s.nodes ensures Placed(s)[c].anchor != n {
      AnchorSeen(s, c);
    }
    if n in s.moves {
      RecordSeen(s, n);
      Trichotomy(n, s.moves[n].tag);
    }
  }

  lemma {:induction false} RecordSeen(s: MoveState, n: Tag)
    requires n in s.moves
    ensures s.moves[n].tag in MoveTags(s)
  {
  }

  lemma {:induction false} BlankIntact()
    ensures Intact(BLANK) && ValidState(BLANK) && MoveTags(BLANK) == {} && VisibleMoves(BLANK) == []
  {
    hide ParentsOf;
    EmptyAcyclic();
    assert Anchors(Placed(BLANK)) == map[];
    EveryLiveNodeOnce(BLANK);
    NoneIn(VisibleMoves(BLANK));
  }

  lemma {:induction false} NoneIn(s: seq<Tag>)
    requires forall x :: x !in s
    ensures s == []
  {
    if s != [] {
      FirstIn(s);
    }
  }

  lemma {:induction false} Counted(s: MoveState, part: MoveState, newMoves: map<Tag, MoveRecord>, waiting: set<Tag>)
    requires newMoves == JoinMoves(s.moves, part.moves)
    requires waiting == set id | id in newMoves && id !in s.nodes && id !in part.nodes
    ensures |Join(s, part).nodes| == |s.nodes.Keys + part.nodes.Keys| && waiting == PendingMoves(Join(s, part))
  {
    hide JoinMoves;
    assert (s.nodes + part.nodes).Keys == s.nodes.Keys + part.nodes.Keys;
  }

  /** The joined state is valid, and seen once the newest tag of the part has been witnessed. */
  lemma {:induction false} JoinSeen(s: MoveState, part: MoveState, was: Time, now: Time, physical: Millis)
    requires ValidState(s) && ValidState(part) && SeenAll(s, was)
    requires if MoveTags(part)
          == {} then now == was else Advance(was, Observe(Newest(MoveTags(part)), physical)) == Some(now)
    ensures ValidState(Join(s, part)) && SeenAll(Join(s, part), now)
  {
    hide Advance, Newest, Tag.Valid, Less, MoveTags;
    JoinValid(s, part);
    if MoveTags(part) != {} {
      AdvanceMoves(was, Observe(Newest(MoveTags(part)), physical));
    }
    forall x | x in MoveTags(Join(s, part)) ensures NotAfter(TimeOf(x), now) {
      JoinTags(s, part, x);
      if x !in MoveTags(s) {
        NewestCovers(MoveTags(part), x, now);
      }
    }
  }

  lemma {:induction false} JoinValid(s: MoveState, part: MoveState)
    requires ValidState(s) && ValidState(part)
    ensures ValidState(Join(s, part))
  {
    hide Tag.Valid, Less;
  }

  lemma {:induction false} NewestCovers(tags: set<Tag>, x: Tag, now: Time)
    requires x in tags && Before(TimeOf(Newest(tags)), now)
    ensures NotAfter(TimeOf(x), now)
  {
    var g := Newest(tags);
    assert x == g || Greater(g, x);
  }

  lemma {:induction false} JoinTags(s: MoveState, part: MoveState, x: Tag)
    requires x in MoveTags(Join(s, part))
    ensures x in MoveTags(s) || x in MoveTags(part)
  {
    hide Tag.Valid, Less, JoinMoves;
    var all := Join(s, part);
    if id :| id in all.nodes && (id == x || (all.nodes[id].parent == x && x.Valid())) {
      assert all.nodes[id] == if id in part.nodes then part.nodes[id] else s.nodes[id];
    } else if x !in all.tombstones {
      var id :| id in all.moves && (all.moves[id].tag == x || (all.moves[id].anchor == x && x.Valid()));
      JoinedRecord(s.moves, part.moves, id);
    }
  }

  lemma {:induction false} JoinedRecord(a: map<Tag, MoveRecord>, b: map<Tag, MoveRecord>, id: Tag)
    requires id in JoinMoves(a, b)
    ensures (id in a && JoinMoves(a, b)[id] == a[id]) || (id in b && JoinMoves(a, b)[id] == b[id])
  {
  }
}
