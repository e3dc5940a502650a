/** Exactly when a local edit of a move-capable list succeeds. */
module MoveOutcomes {
  import opened Tags
  import opened Clocks
  import opened RgaStates
  import opened RgaEdits
  import opened RgaBuilds
  import opened RgaVerdicts
  import opened EditOutcomes
  import opened MoveProjections
  import opened MoveJoins
  import opened MoveExacts
  import opened MoveShifts
  import opened MoveVerdicts

  /** What every edit may rely on. */
  ghost predicate Sane(s: MoveState, codecID: Bytes, o: Options, now: Time) {
    ValidState(s) && ZERO !in s.nodes && SeenAll(s, now) && FitsAll(s, o) && !Blank(codecID)
  }

  // ----- what an edit hands out -----

  /** Nothing to hand out. */
  const NO_DELTA := MoveDelta([], BLANK)

  /** The delta of an insertion: exactly the new elements, as a chain below the position before the offset. */
  ghost predicate InsertDelta(s: MoveState, t: MoveState, d: MoveDelta, codecID: Bytes, o: int, ids: seq<Tag>,
                              values: seq<Bytes>)
  {
    && d.codecID == codecID && Delivers(s, d.part, t) && ZERO !in s.nodes && 0 <= o <= |VisibleMoves(s)|
    && IsRun(d.part.nodes, ids, values, Former(VisibleMoves(s), o)) && d.part.tombstones == {} && d.part.moves == map[]
  }

  /** The delta of a deletion: exactly the tombstones of the range. */
  ghost predicate DeleteDelta(s: MoveState, t: MoveState, d: MoveDelta, codecID: Bytes, o: int, count: int) {
    && d.codecID == codecID && Delivers(s, d.part, t) && ZERO !in s.nodes && 0 <= o && 0 <= count
    && o + count <= |VisibleMoves(s)|
    && d.part == MoveState(map[], Elems(VisibleMoves(s)[o..o + count]), map[])
  }

  /** The delta of a move: exactly the records of the selection and of everything after it, all with one tag. */
  ghost predicate ShiftDelta(s: MoveState, t: MoveState, d: MoveDelta, codecID: Bytes, from: int, count: int, to: int,
                             tag: Tag)
  {
    && d.codecID == codecID && Delivers(s, d.part, t) && ZERO !in s.nodes && InRange(|VisibleMoves(s)|, from, count, to)
    && d.part.nodes == map[] && d.part.tombstones == {}
    && var (sel, rest, a, b) := Selection(s, from, count, to); IsShift(d.part.moves, sel, rest, a, b, tag)
  }

  lemma {:induction false} NothingDelivered(s: MoveState)
    ensures Delivers(s, BLANK, s)
  {
    JoinDead(s, {});
    assert s.tombstones + {} == s.tombstones;
  }

  /** An accepted delta has passed every check that does not involve the clock. */
  lemma {:induction false} VerdictScreened(s: MoveState, d: MoveDelta, codecID: Bytes, o: Options, now: Time,
                                           physical: Millis)
    requires MoveVerdict(s, d, codecID, o, now, physical).None?
    ensures MoveScreen(s, d, codecID, o).None?
  {
    hide MoveScreen, MoveTags, Newest, Advance;
  }

  lemma {:induction false} BlankScreened(s: MoveState, codecID: Bytes, o: Options)
    requires FitsAll(s, o) && !Blank(codecID)
    ensures MoveScreen(s, MoveDelta(codecID, BLANK), codecID, o).None?
  {
    hide FitsAll, Blank, Join;
    NothingDelivered(s);
  }

  /** Elements with a move record that neither side knows. */
  ghost function Homeless(s: MoveState, part: MoveState): set<Tag> {
    set id | id in s.moves.Keys + part.moves.Keys && id !in s.nodes && id !in part.nodes
  }

  /** What a list takes: a valid delta of its codec that contradicts nothing and leaves it within every limit. */
  ghost predicate MoveWelcome(s: MoveState, d: MoveDelta, codecID: Bytes, o: Options, now: Time, physical: Millis) {
    && d.codecID == codecID && !Blank(codecID) && ValidState(d.part) && Consistent(s.nodes, d.part.nodes)
    && (forall id :: id in s.moves && id in d.part.moves && s.moves[id].tag == d.part.moves[id].tag ==>
          s.moves[id] == d.part.moves[id])
    && (forall id :: id in d.part.nodes ==> |d.part.nodes[id].value| <= o.maxValueBytes)
    && |s.nodes.Keys + d.part.nodes.Keys| <= o.maxNodes && |s.tombstones + d.part.tombstones| <= o.maxTombstones
    && |Homeless(s, d.part)| <= o.maxPendingNodes
    && (MoveTags(d.part) == {} || exists u :: Later(now, Observe(Newest(MoveTags(d.part)), physical), u))
  }

  lemma {:induction false} JoinCounts(s: MoveState, part: MoveState)
    ensures |Join(s, part).nodes| == |s.nodes.Keys + part.nodes.Keys|
    ensures PendingMoves(Join(s, part)) == Homeless(s, part)
  {
    hide Less;
    var nodes, moves := s.nodes + part.nodes, JoinMoves(s.moves, part.moves);
    assert nodes.Keys == s.nodes.Keys + part.nodes.Keys;
    assert moves.Keys == s.moves.Keys + part.moves.Keys;
    assert |nodes| == |nodes.Keys|;
  }

  lemma {:induction false} JoinFits(s: MoveState, part: MoveState, o: Options)
    ensures FitsAll(Join(s, part), o) <==>
      && |s.nodes.Keys + part.nodes.Keys| <= o.maxNodes && |s.tombstones + part.tombstones| <= o.maxTombstones
      && |Homeless(s, part)| <= o.maxPendingNodes
  {
    hide Homeless, PendingMoves, JoinMoves;
    JoinCounts(s, part);
  }

  /** The verdict accepts exactly what is welcome. */
  lemma {:induction false} MoveWelcomeIff(s: MoveState, d: MoveDelta, codecID: Bytes, o: Options, now: Time,
                                          physical: Millis)
    ensures MoveVerdict(s, d, codecID, o, now, physical).None? <==> MoveWelcome(s, d, codecID, o, now, physical)
  {
    hide Blank, ValidState, FitsAll, Join, Homeless, MoveTags, Newest, Advance, Later;
    JoinFits(s, d.part, o);
    if MoveTags(d.part) != {} {
      AdvanceEarliest(now, Observe(Newest(MoveTags(d.part)), physical));
    }
  }

  /** A peer in the same state takes it too whenever its own clock can pass it, and ends in the same state. */
  lemma {:induction false} PeerFollows(s: MoveState, t: MoveState, d: MoveDelta, codecID: Bytes, o: Options, now: Time,
                                       physical: Millis)
    requires MoveScreen(s, d, codecID, o).None? && Delivers(s, d.part, t)
    ensures MoveVerdict(s, d, codecID, o, now, physical) ==
      if MoveTags(d.part) == {} || exists u :: Later(now, Observe(Newest(MoveTags(d.part)), physical), u) then None
      else Some(ClockError)
    ensures forall u :: Delivers(s, d.part, u) ==> u == t
  {
    hide MoveScreen, MoveTags, Newest, Advance, Later, Join, Compatible;
    if MoveTags(d.part) != {} {
      AdvanceEarliest(now, Observe(Newest(MoveTags(d.part)), physical));
    }
  }

  // ----- insertion -----

  lemma {:induction false} RunTags(s: MoveState, run: Nodes, ids: seq<Tag>, values: seq<Bytes>, p: Tag, was: Time,
                                   now: Time)
    requires AnchorKnownBy(s, p, was) && Issued(ids, was, now) && IsRun(run, ids, values, p) && ids != []
    ensures MoveTags(MoveState(run, {}, map[])) != {} && Newest(MoveTags(MoveState(run, {}, map[]))) == ids[|ids| - 1]
  {
    hide Tag.Valid, IsRun, Less, TagsOf, Newest;
    RunNewest([], run, ids, values, p, was, now);
    assert MoveTags(MoveState(run, {}, map[])) == TagsOf(Delta([], run, {}));
  }

  ghost predicate AnchorKnownBy(s: MoveState, p: Tag, was: Time) {
    p == ZERO || (p in s.nodes && p.Valid() && NotAfter(TimeOf(p), was))
  }

  lemma {:induction false} AnchorOk(s: MoveState, p: Tag, was: Time)
    requires ValidState(s) && SeenAll(s, was) && (p == ZERO || p in s.nodes)
    ensures AnchorKnownBy(s, p, was)
  {
    if p in s.nodes {
      assert p in MoveTags(s);
    }
  }

  lemma {:induction false} RunValid(s: MoveState, run: Nodes, ids: seq<Tag>, values: seq<Bytes>, p: Tag, was: Time,
                                    now: Time)
    requires ValidState(s) && SeenAll(s, was) && AnchorKnownBy(s, p, was) && Issued(ids, was, now)
    requires IsRun(run, ids, values, p)
    ensures ValidState(MoveState(run, {}, map[])) && Compatible(s, MoveState(run, {}, map[]))
    ensures run.Keys !! s.nodes.Keys
  {
    hide ValidNode, Issued, SeenAll, Prev, NewerThan, Tag.Valid;
    RunNodesValid(run, ids, values, p, was, now);
    forall id | id in run ensures id !in s.nodes {
      NotThere(s, ids, was, now, id);
    }
  }

  lemma {:induction false} NotThere(s: MoveState, ids: seq<Tag>, was: Time, now: Time, id: Tag)
    requires ValidState(s) && SeenAll(s, was) && Issued(ids, was, now) && id in ids
    ensures id !in s.nodes
  {
    hide Tag.Valid, Less, SeenAll, ValidState, NewerThan;
    NewerByTime(s, was, id);
  }

  lemma {:induction false} RunFits(s: MoveState, run: Nodes, ids: seq<Tag>, o: Options)
    requires FitsAll(s, o) && run.Keys == Elems(ids) && NoDup(ids) && run.Keys !! s.nodes.Keys
    ensures FitsAll(Join(s, MoveState(run, {}, map[])), o) <==> |s.nodes| + |ids| <= o.maxNodes
  {
    JoinRun(s, run);
    NoDupCount(ids);
    assert (s.nodes + run).Keys == s.nodes.Keys + run.Keys;
    assert |s.nodes.Keys + run.Keys| == |s.nodes.Keys| + |run.Keys|;
    Fewer(s.moves.Keys - (s.nodes + run).Keys, s.moves.Keys - s.nodes.Keys);
  }

  /** The verdict on a freshly issued run depends on the element count and one clock step only. */
  lemma {:induction false} RunVerdict(s: MoveState, run: Nodes, ids: seq<Tag>, values: seq<Bytes>, p: Tag,
                                      codecID: Bytes, o: Options, was: Time, now: Time, physical: Millis)
    requires Sane(s, codecID, o, was) && Issued(ids, was, now) && IsRun(run, ids, values, p) && ids != []
    requires p == ZERO || p in s.nodes
    requires forall i :: 0 <= i < |values| ==> |values[i]| <= o.maxValueBytes
    ensures MoveEnds(s, MoveDelta(codecID, MoveState(run, {}, map[])), codecID, o, now, physical) ==
      if |s.nodes| + |ids| > o.maxNodes then Outcome(Some(ResourceLimit), now)
        else Finish(now, ids[|ids| - 1], physical)
  {
    hide ValidState, Compatible, FitsAll, Join, MoveTags, Newest, Advance, IsRun, Issued, SeenAll, Blank, Elems, NoDup,
      AnchorKnownBy;
    AnchorOk(s, p, was);
    RunValid(s, run, ids, values, p, was, now);
    RunKeys(run, ids, values, p, was, now);
    RunFits(s, run, ids, o);
    SizesFit(run, ids, values, p, o.maxValueBytes);
    RunTags(s, run, ids, values, p, was, now);
  }

  lemma {:induction false} AnchorKnown(s: MoveState, o: int)
    requires ZERO !in s.nodes && 0 <= o <= |VisibleMoves(s)|
    ensures Former(VisibleMoves(s), o) == ZERO || Former(VisibleMoves(s), o) in s.nodes
  {
    hide VisibleMoves, NoDup;
    EveryLiveNodeOnce(s);
    if o > 0 {
      assert VisibleMoves(s)[o - 1] in VisibleMoves(s);
    }
  }

  // ----- deletion -----

  lemma {:induction false} DeadVerdict(s: MoveState, offset: int, count: int, codecID: Bytes, o: Options, now: Time,
                                       physical: Millis)
    requires Sane(s, codecID, o, now) && 0 <= offset && 0 <= count && offset + count <= |VisibleMoves(s)|
    ensures MoveEnds(s, MoveDelta(codecID, MoveState(map[], Elems(VisibleMoves(s)[offset..offset + count]), map[])),
      codecID, o, now, physical)
      == DeleteOutcome(VisibleMoves(s), |s.tombstones|, offset, count, o, now, physical)
  {
    hide VisibleMoves, Newest, Advance, Blank, Compatible, FitsAll, Join, ValidState, MoveTags, SeenAll;
    var range := VisibleMoves(s)[offset..offset + count];
    DeadPart(s, offset, count, o);
    assert count > 0 ==> range[0] in Elems(range);
  }

  lemma {:induction false} DeadPart(s: MoveState, offset: int, count: int, o: Options)
    requires ValidState(s) && ZERO !in s.nodes && FitsAll(s, o) && 0 <= offset && 0 <= count
    requires offset + count <= |VisibleMoves(s)|
    ensures var part := MoveState(map[], Elems(VisibleMoves(s)[offset..offset + count]), map[]);
      && ValidState(part) && Compatible(s, part) && MoveTags(part) == part.tombstones
      && (FitsAll(Join(s, part), o) <==> |s.tombstones| + count <= o.maxTombstones)
  {
    hide VisibleMoves, Tag.Valid, NoDup, Less, MoveTags, FitsAll, Join;
    var visible := VisibleMoves(s);
    var range := visible[offset..offset + count];
    EveryLiveNodeOnce(s);
    RangeOf(visible, offset, count);
    NoDupCount(range);
    assert forall id :: id in range ==> id in visible;
    DeadTags(Elems(range));
    DeadFits(s, Elems(range), o);
  }

  lemma {:induction false} DeadTags(dead: set<Tag>)
    ensures MoveTags(MoveState(map[], dead, map[])) == dead
  {
    hide Tag.Valid;
  }

  lemma {:induction false} FitsSame(s: MoveState, t: MoveState, o: Options)
    requires FitsAll(s, o) && t.nodes == s.nodes && PendingMoves(t) == PendingMoves(s)
    ensures FitsAll(t, o) <==> |t.tombstones| <= o.maxTombstones
  {
  }

  lemma {:induction false} JoinDead(s: MoveState, dead: set<Tag>)
    ensures Join(s, MoveState(map[], dead, map[])) == MoveState(s.nodes, s.tombstones + dead, s.moves)
  {
    hide Less;
    assert JoinMoves(s.moves, map[]) == s.moves;
    assert s.nodes + map[] == s.nodes;
  }

  lemma {:induction false} DeadFits(s: MoveState, dead: set<Tag>, o: Options)
    requires FitsAll(s, o) && dead !! s.tombstones
    ensures FitsAll(Join(s, MoveState(map[], dead, map[])), o) <==> |s.tombstones| + |dead| <= o.maxTombstones
  {
    hide Join, FitsAll;
    JoinDead(s, dead);
    FitsSame(s, MoveState(s.nodes, s.tombstones + dead, s.moves), o);
    Cards(s.tombstones, dead);
  }

  // ----- moving -----

  lemma {:induction false} ShiftVerdict(s: MoveState, r: map<Tag, MoveRecord>, from: int, count: int, to: int, tag: Tag,
                                        codecID: Bytes, o: Options, was: Time, physical: Millis)
    requires Sane(s, codecID, o, was) && Before(was, TimeOf(tag)) && tag.Valid()
    requires InRange(|VisibleMoves(s)|, from, count, to) && count > 0 && to != from
    requires var (sel, rest, a, b) := Selection(s, from, count, to); IsShift(r, sel, rest, a, b, tag)
    ensures MoveEnds(s, MoveDelta(codecID, MoveState(map[], {}, r)), codecID, o, TimeOf(tag), physical)
         == Finish(TimeOf(tag), tag, physical)
  {
    hide ValidState, Compatible, FitsAll, Join, MoveTags, Newest, Advance, SeenAll, Blank, VisibleMoves, IsShift;
    ShiftValid(s, r, from, count, to, tag, was);
    ShiftFits(s, r, from, count, to, tag, o);
    ShiftTagsAre(s, r, from, count, to, tag, was);
  }

  lemma {:induction false} TagIssued(replica: Bytes, was: Time, tick: Millis)
    requires Tag(replica, 0, 0).Valid()
    ensures NotAfter(was, After(was, Issue(tick)))
    ensures var met := Met(replica, was, Issue(tick)); met.Some? ==> Before(was, TimeOf(met.value)) && met.value.Valid()
  {
  }

  /** Anchors of the new records are the root or other elements. */
  lemma {:induction false} RecordsOk(s: MoveState, r: map<Tag, MoveRecord>, from: int, count: int, to: int, tag: Tag)
    requires ValidState(s) && ZERO !in s.nodes && InRange(|VisibleMoves(s)|, from, count, to) && count > 0
    requires var (sel, rest, a, b) := Selection(s, from, count, to); IsShift(r, sel, rest, a, b, tag)
    ensures r != map[] && forall x :: x in r ==>
      x in s.nodes && r[x].tag == tag && r[x].anchor != x && (r[x].anchor == ZERO || r[x].anchor in s.nodes)
  {
    hide VisibleMoves, NoDup, Prev, Tag.Valid;
    var visible := VisibleMoves(s);
    var (sel, rest, a, b) := Selection(s, from, count, to);
    EveryLiveNodeOnce(s);
    ShiftTags(r, sel, rest, a, b, tag);
    PartsDistinct(s, from, count);
    assert sel[0] in r;
    forall x | x in r ensures x in s.nodes && r[x].anchor != x && (r[x].anchor == ZERO || r[x].anchor in s.nodes) {
      RecordOk(visible, r, from, count, to, tag, x);
      assert x in visible;
      assert r[x].anchor == ZERO || r[x].anchor in visible;
      assert ZERO !in visible;
    }
  }

  lemma {:induction false} RecordOk(visible: seq<Tag>, r: map<Tag, MoveRecord>, from: int, count: int, to: int,
                                    tag: Tag, x: Tag)
    requires NoDup(visible) && InRange(|visible|, from, count, to) && count > 0 && ZERO !in visible
    requires IsShift(r, visible[from..from + count], visible[from + count..],
                     Former(visible[..from] + visible[from + count..], to), Former(visible, from), tag) && x in r
    ensures x in visible && r[x].anchor != x && (r[x].anchor == ZERO || r[x].anchor in visible)
  {
    hide NoDup, Prev;
    var sel, rest := visible[from..from + count], visible[from + count..];
    var a, b := Former(visible[..from] + rest, to), Former(visible, from);
    if x in sel {
      var i :| 0 <= i < |sel| && sel[i] == x;
      assert r[sel[i]].anchor == Prev(sel, i, a);
      if to > 0 {
        NotSelected(visible, from, count, to);
      }
      ChainedAnchor(visible, from, sel, i, a);
    } else {
      var j :| 0 <= j < |rest| && rest[j] == x;
      assert r[rest[j]].anchor == Prev(rest, j, b);
      if from > 0 {
        NotAfterItself(visible, from, count);
      }
      ChainedAnchor(visible, from + count, rest, j, b);
    }
  }

  lemma {:induction false} ChainedAnchor(visible: seq<Tag>, from: int, xs: seq<Tag>, i: nat, a: Tag)
    requires NoDup(visible) && ZERO !in visible && 0 <= from <= from + |xs| <= |visible|
    requires xs == visible[from..from + |xs|] && i < |xs|
    requires a == ZERO || (a in visible && a != xs[0])
    ensures xs[i] in visible && Prev(xs, i, a) != xs[i] && (Prev(xs, i, a) == ZERO || Prev(xs, i, a) in visible)
  {
    assert xs[i] == visible[from + i];
    if i > 0 {
      assert xs[i - 1] == visible[from + i - 1];
    }
  }

  lemma {:induction false} NotAfterItself(visible: seq<Tag>, from: int, count: int)
    requires NoDup(visible) && 0 < from && 0 <= count && from + count <= |visible|
    ensures visible[from - 1] in visible
    ensures from + count < |visible| ==> visible[from - 1] != visible[from + count..][0]
  {
  }

  lemma {:induction false} NotSelected(visible: seq<Tag>, from: int, count: int, to: int)
    requires NoDup(visible) && InRange(|visible|, from, count, to) && count > 0 && to > 0
    ensures var remaining := visible[..from] + visible[from + count..];
      remaining[to - 1] in visible && remaining[to - 1] != visible[from]
  {
    var remaining := visible[..from] + visible[from + count..];
    var k := if to - 1 < from then to - 1 else to - 1 + count;
    assert remaining[to - 1] == visible[k];
  }

  lemma {:induction false} ShiftValid(s: MoveState, r: map<Tag, MoveRecord>, from: int, count: int, to: int, tag: Tag,
                                      was: Time)
    requires ValidState(s) && ZERO !in s.nodes && SeenAll(s, was) && Before(was, TimeOf(tag)) && tag.Valid()
    requires InRange(|VisibleMoves(s)|, from, count, to) && count > 0
    requires var (sel, rest, a, b) := Selection(s, from, count, to); IsShift(r, sel, rest, a, b, tag)
    ensures ValidState(MoveState(map[], {}, r)) && Compatible(s, MoveState(map[], {}, r))
  {
    hide VisibleMoves, IsShift, Tag.Valid, Less, MoveTags;
    RecordsOk(s, r, from, count, to, tag);
    forall id | id in r && id in s.moves ensures s.moves[id].tag != tag {
      RecordSeen(s, id);
    }
  }

  lemma {:induction false} ShiftFits(s: MoveState, r: map<Tag, MoveRecord>, from: int, count: int, to: int, tag: Tag,
                                     o: Options)
    requires ValidState(s) && ZERO !in s.nodes && FitsAll(s, o) && InRange(|VisibleMoves(s)|, from, count, to)
    requires count > 0
    requires var (sel, rest, a, b) := Selection(s, from, count, to); IsShift(r, sel, rest, a, b, tag)
    ensures FitsAll(Join(s, MoveState(map[], {}, r)), o)
  {
    hide VisibleMoves, IsShift, FitsAll, Less, ValidState, Join;
    RecordsOk(s, r, from, count, to, tag);
    JoinRecords(s, r);
    FitsSame(s, Join(s, MoveState(map[], {}, r)), o);
    assert |s.tombstones| <= o.maxTombstones by {
      FitsSame(s, s, o);
    }
  }

  lemma {:induction false} JoinRecords(s: MoveState, r: map<Tag, MoveRecord>)
    requires r.Keys <= s.nodes.Keys
    ensures var t := Join(s, MoveState(map[], {}, r));
      t.nodes == s.nodes && t.tombstones == s.tombstones && PendingMoves(t) == PendingMoves(s)
  {
    hide Less;
    JoinMovesKeys(s.moves, r);
    assert s.nodes + map[] == s.nodes && s.tombstones + {} == s.tombstones;
  }

  lemma {:induction false} ShiftTagsAre(s: MoveState, r: map<Tag, MoveRecord>, from: int, count: int, to: int, tag: Tag,
                                        was: Time)
    requires ValidState(s) && ZERO !in s.nodes && SeenAll(s, was) && Before(was, TimeOf(tag))
    requires InRange(|VisibleMoves(s)|, from, count, to) && count > 0
    requires var (sel, rest, a, b) := Selection(s, from, count, to); IsShift(r, sel, rest, a, b, tag)
    ensures MoveTags(MoveState(map[], {}, r)) != {} && Newest(MoveTags(MoveState(map[], {}, r))) == tag
  {
    hide VisibleMoves, IsShift, Tag.Valid, Less, ValidState, Newest;
    RecordsOk(s, r, from, count, to, tag);
    var tags := MoveTags(MoveState(map[], {}, r));
    var x :| x in r;
    assert r[x].tag in tags;
    ZeroInvalid();
    forall y | y in tags && y != tag ensures Less(y, tag) {
      assert y in MoveTags(s);
      EarlierIsLess(y, tag, was);
    }
    LastNewest(tags, tag);
  }

  // ----- a delivery that the projection cannot size its result for -----

  /**
    One tombstone for an unknown element is accepted by an empty list, which then has more tombstones than elements.
   */
  lemma {:induction false} TombstoneWithoutElement(id: Tag, codecID: Bytes, o: Options, now: Time, physical: Millis)
    requires id.Valid() && !Blank(codecID) && o.Valid()
    ensures var part := MoveState(map[], {id}, map[]);
      && MoveEnds(BLANK, MoveDelta(codecID, part), codecID, o, now, physical) == Finish(now, id, physical)
      && |Join(BLANK, part).tombstones| > |Join(BLANK, part).nodes|
  {
    hide Tag.Valid, Blank, Newest, Advance;
    JoinDead(BLANK, {id});
    DeadTags({id});
    LastNewest({id}, id);
  }
}
