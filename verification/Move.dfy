/** The move-capable list as an object: delivery and local edits. */
module MoveLists {
  import opened Tags
  import opened Clocks
  import opened RgaStates
  import opened RgaEdits
  import opened RgaVerdicts
  import opened EditOutcomes
  import opened MoveProjections
  import opened MoveJoins
  import opened MoveLocals
  import opened MoveShifts
  import opened MoveVerdicts
  import opened MoveOutcomes

  class MoveRga {
    const clock: HLC
    const codecID: Bytes
    const options: Options
    var nodes: Nodes
    var tombstones: set<Tag>
    var moves: map<Tag, MoveRecord>
    var version: Uint64

    ghost function Now(): MoveState
      reads this`nodes, this`tombstones, this`moves
    {
      MoveState(nodes, tombstones, moves)
    }

    ghost predicate Valid()
      reads this`nodes, this`tombstones, this`moves, clock
    {
      && ValidState(Now()) && SeenAll(Now(), clock.Reading()) && FitsAll(Now(), options)
      && options.Valid() && Tag(clock.replica, 0, 0).Valid() && !Blank(codecID)
    }

    constructor (clock: HLC, codecID: Bytes, options: Options)
      requires options.Valid() && Tag(clock.replica, 0, 0).Valid() && !Blank(codecID)
      ensures Valid() && Now() == BLANK && Intact(Now())
      ensures this.clock == clock && this.codecID == codecID && this.options == options
    {
      this.clock, this.codecID, this.options := clock, codecID, options;
      nodes, tombstones, moves, version := map[], {}, map[], 0;
      new;
      BlankIntact();
    }

    /** A node or a placement is already there with other contents. */
    method Conflicts(part: MoveState) returns (conflict: bool)
      ensures conflict <==> !Compatible(Now(), part)
    {
      conflict := exists id :: id in part.nodes && id in nodes && nodes[id] != part.nodes[id];
      conflict := conflict || exists id ::
        id in part.moves && id in moves && moves[id].tag == part.moves[id].tag && moves[id] != part.moves[id];
    }

    /** Retained state after the join, against the limits. */
    method Oversized(part: MoveState, newMoves: map<Tag, MoveRecord>) returns (over: bool)
      requires newMoves == JoinMoves(moves, part.moves)
      ensures over <==> !FitsAll(Join(Now(), part), options)
    {
      hide JoinMoves;
      var waiting := set id | id in newMoves && id !in nodes && id !in part.nodes;
      Counted(Now(), part, newMoves, waiting);
      return |nodes.Keys + part.nodes.Keys| > options.maxNodes || |tombstones + part.tombstones| > options.maxTombstones
        || |waiting| > options.maxPendingNodes;
    }

    /** Every check on a delta that does not involve the clock. */
    method Screen(delta: MoveDelta) returns (error: Option<Error>, newMoves: map<Tag, MoveRecord>)
      ensures error == MoveScreen(Now(), delta, codecID, options)
      ensures newMoves == JoinMoves(moves, delta.part.moves)
    {
      hide Blank, JoinMoves, ValidState, Compatible, FitsAll, Join;
      var part := delta.part;
      newMoves := MergeMoves(moves, part.moves);
      if delta.codecID != codecID || Blank(delta.codecID) || !ValidState(part) {
        return Some(InvalidDelta), newMoves;
      }
      if exists id :: id in part.nodes && |part.nodes[id].value| > options.maxValueBytes {
        return Some(ResourceLimit), newMoves;
      }
      var conflict := Conflicts(part);
      if conflict {
        return Some(TagConflict), newMoves;
      }
      var over := Oversized(part, newMoves);
      if over {
        return Some(ResourceLimit), newMoves;
      }
      return None, newMoves;
    }

    /** Join a delta, atomically: refused exactly as MoveVerdict says and then nothing changes. */
    method ApplyDelta(delta: MoveDelta, physical: Millis) returns (error: Option<Error>)
      requires Valid()
      modifies this, clock
      ensures Valid()
      ensures error.None? <==> MoveWelcome(old(Now()), delta, codecID, options, old(clock.Reading()), physical)
      ensures error == MoveVerdict(old(Now()), delta, codecID, options, old(clock.Reading()), physical)
      ensures Outcome(error, clock.Reading())
           == MoveEnds(old(Now()), delta, codecID, options, old(clock.Reading()), physical)
      ensures error.None? ==> version == Bump(old(version))
      ensures error.None? ==> Delivers(old(Now()), delta.part, Now())
      ensures error.Some? ==> Now() == old(Now()) && version == old(version) && clock.Reading() == old(clock.Reading())
    {
      hide MoveTags, Newest, Advance, Tag.Valid, JoinMoves, Less, ValidState, FitsAll, Compatible, SeenAll, MoveWelcome;
      ghost var before, was := Now(), clock.Reading();
      MoveWelcomeIff(before, delta, codecID, options, was, physical);
      var newMoves;
      error, newMoves := Screen(delta);
      if error.Some? {
        return;
      }
      var greatest, found := GreatestMoveTag(delta.part);
      if found {
        var fine := clock.Witness(greatest, physical);
        if !fine {
          return Some(ClockError);
        }
      }
      JoinSeen(before, delta.part, was, clock.Reading(), physical);
      nodes := nodes + delta.part.nodes;
      tombstones := tombstones + delta.part.tombstones;
      moves := newMoves;
      version := Bump(version);
    }

    method Positions() returns (positions: seq<Tag>)
      requires Valid() && |tombstones| <= |nodes|
      ensures positions == VisibleMoves(Now())
    {
      positions := VisiblePositions(MoveState(nodes, tombstones, moves));
    }

    /** Insert values before a visible offset; exact in every state, merged concurrent moves included. */
    method Insert(offset: int, values: seq<Bytes>, ticks: seq<Millis>)
      returns (delta: MoveDelta, error: Option<Error>, ids: seq<Tag>)
      requires Valid() && |tombstones| <= |nodes| && |ticks| == |values| + 1
      modifies this, clock
      ensures Valid()
      ensures Outcome(error, clock.Reading())
           == InsertOutcome(|VisibleMoves(old(Now()))|, old(|nodes|), offset, values, ticks, options,
                                                               clock.replica, old(clock.Reading()))
      ensures error.Some? ==> Now() == old(Now())
      ensures error.None? ==> InsertedInto(old(Now()), Now(), offset, ids, values)
      ensures error.None? ==> InsertDelta(old(Now()), Now(), delta, codecID, offset, ids, values)
      ensures error.Some? ==> delta == NO_DELTA
      ensures error.None? ==> MoveScreen(old(Now()), delta, codecID, options).None?
      ensures error.None? ==> ids == IssueAll(clock.replica, old(clock.Reading()), ticks[..|values|]).0
    {
      hide Tag.Valid, Less, ValidState, FitsAll, SeenAll, VisibleMoves, Intact, InsertedInto, Advance, IssueAll, Blank,
        InsertDelta, MoveScreen;
      delta, ids := NO_DELTA, [];
      NoZero(Now());
      if offset < 0 {
        return delta, Some(RangeError), ids;
      }
      var positions := Positions();
      if offset > |positions| {
        return delta, Some(RangeError), ids;
      }
      if exists i :: 0 <= i < |values| && |values[i]| > options.maxValueBytes {
        return delta, Some(InvalidCodec), ids;
      }
      delta, error, ids := InsertBelow(offset, if offset > 0 then positions[offset - 1] else ZERO, values, ticks);
    }

    /** Issue a tag per value and apply the run below its anchor. */
    method InsertBelow(offset: int, anchor: Tag, values: seq<Bytes>, ticks: seq<Millis>)
      returns (delta: MoveDelta, error: Option<Error>, ids: seq<Tag>)
      requires Valid() && ZERO !in nodes && |ticks| == |values| + 1 && 0 <= offset <= |VisibleMoves(Now())|
      requires anchor == Former(VisibleMoves(Now()), offset)
      requires forall i :: 0 <= i < |values| ==> |values[i]| <= options.maxValueBytes
      modifies this, clock
      ensures Valid()
      ensures Outcome(error, clock.Reading())
           == InsertOutcome(|VisibleMoves(old(Now()))|, old(|nodes|), offset, values, ticks, options,
                                                               clock.replica, old(clock.Reading()))
      ensures error.Some? ==> Now() == old(Now())
      ensures error.None? ==> InsertedInto(old(Now()), Now(), offset, ids, values)
      ensures error.None? ==> InsertDelta(old(Now()), Now(), delta, codecID, offset, ids, values)
      ensures error.Some? ==> delta == NO_DELTA
      ensures error.None? ==> MoveScreen(old(Now()), delta, codecID, options).None?
      ensures error.None? ==> ids == IssueAll(clock.replica, old(clock.Reading()), ticks[..|values|]).0
    {
      hide MoveTags, Tag.Valid, JoinMoves, Less, ValidState, FitsAll, Compatible, SeenAll, VisibleMoves, Intact,
        MoveVerdict, InsertedInto, Issued, IsRun, Advance, IssueAll, Blank, Finish, MoveEnds, Delivers, MoveScreen,
        MoveWelcome;
      delta := NO_DELTA;
      ghost var before, was := Now(), clock.Reading();
      var ok, run;
      ok, run, ids := IssueRun(clock, values, ticks, anchor);
      SeenAllLater(before, was, clock.Reading());
      if !ok {
        return delta, Some(ClockError), ids;
      }
      delta := MoveDelta(codecID, MoveState(run, {}, map[]));
      RunSize(run, ids, values, anchor);
      if |run| == 0 {
        EmptyRun(run, ids, values, anchor);
        NothingNew(before, offset);
        NothingDelivered(before);
        BlankScreened(before, codecID, options);
        return delta, None, ids;
      }
      ghost var issued := clock.Reading();
      AnchorKnown(before, offset);
      RunVerdict(before, run, ids, values, anchor, codecID, options, was, issued, ticks[|values|]);
      error := ApplyDelta(delta, ticks[|values|]);
      if error.Some? {
        return NO_DELTA, error, ids;
      }
      VerdictScreened(before, delta, codecID, options, issued, ticks[|values|]);
      InsertLands(before, run, Now(), ids, values, anchor, offset, was, issued);
    }

    /** Hide count visible positions from offset on; exact in every state. */
    method Delete(offset: int, count: int, physical: Millis) returns (delta: MoveDelta, error: Option<Error>)
      requires Valid() && |tombstones| <= |nodes|
      modifies this, clock
      ensures Valid()
      ensures Outcome(error, clock.Reading())
           == DeleteOutcome(VisibleMoves(old(Now())), old(|tombstones|), offset, count, options, old(clock.Reading()),
             physical)
      ensures error.Some? ==> Now() == old(Now())
      ensures error.None? ==> DeletedFrom(old(Now()), Now(), offset, count)
      ensures error.None? ==> DeleteDelta(old(Now()), Now(), delta, codecID, offset, count)
      ensures error.Some? ==> delta == NO_DELTA
      ensures error.None? ==> MoveScreen(old(Now()), delta, codecID, options).None?
    {
      hide MoveTags, Tag.Valid, JoinMoves, Less, ValidState, FitsAll, Compatible, SeenAll, VisibleMoves, Intact,
        MoveVerdict, DeletedFrom, Blank, Finish, MoveEnds, Delivers, MoveScreen, MoveWelcome;
      delta := NO_DELTA;
      ghost var before, was := Now(), clock.Reading();
      NoZero(before);
      if offset < 0 || count < 0 {
        return delta, Some(RangeError);
      }
      var positions := Positions();
      if offset > |positions| || count > |positions| - offset {
        return delta, Some(RangeError);
      }
      var range := positions[offset..offset + count];
      delta := MoveDelta(codecID, MoveState(map[], set id | id in range, map[]));
      assert delta.part.tombstones == Elems(range);
      DeadVerdict(before, offset, count, codecID, options, was, physical);
      error := ApplyDelta(delta, physical);
      if error.Some? {
        return NO_DELTA, error;
      }
      VerdictScreened(before, delta, codecID, options, was, physical);
      DeleteLands(before, Now(), offset, count);
    }

    /** Move count visible positions from one offset to another, measured after their removal. */
    method Move(from: int, count: int, to: int, tick: Millis, physical: Millis)
      returns (delta: MoveDelta, error: Option<Error>)
      requires Valid() && |tombstones| <= |nodes|
      modifies this, clock
      ensures Valid()
      ensures Outcome(error, clock.Reading())
           == MoveOutcome(|VisibleMoves(old(Now()))|, from, count, to, clock.replica, old(clock.Reading()), tick,
             physical)
      ensures error.Some? ==> Now() == old(Now())
      ensures error.None? && (count == 0 || to == from) ==> MovedIn(old(Now()), Now(), from, count, to)
      ensures error.None? && count > 0 && to != from ==> Relocated(old(Now()), Now(), from, count, to)
      ensures error.None? && (count == 0 || to == from) ==> delta == MoveDelta(codecID, BLANK) && Now() == old(Now())
      ensures error.None? && count > 0 && to != from ==> Met(clock.replica, old(clock.Reading()), Issue(tick)).Some?
      ensures error.None? && count > 0 && to != from ==>
        var tag := Met(clock.replica, old(clock.Reading()), Issue(tick)).value;
        ShiftDelta(old(Now()), Now(), delta, codecID, from, count, to, tag)
      ensures error.Some? ==> delta == NO_DELTA
      ensures error.None? ==> MoveScreen(old(Now()), delta, codecID, options).None?
    {
      hide Tag.Valid, Less, ValidState, FitsAll, SeenAll, VisibleMoves, Intact, MovedIn, Relocated, Advance, Blank,
        ShiftDelta, MoveScreen;
      delta := NO_DELTA;
      NoZero(Now());
      if from < 0 || count < 0 || to < 0 {
        return delta, Some(RangeError);
      }
      var positions := Positions();
      if from > |positions| || count > |positions| - from || to > |positions| - count {
        return delta, Some(RangeError);
      }
      if count == 0 || to == from {
        NothingMoved(Now(), from, count, to);
        BlankScreened(Now(), codecID, options);
        return MoveDelta(codecID, BLANK), None;
      }
      delta, error := Relocate(positions, from, count, to, tick, physical);
    }

    /** Issue one tag and apply the records of the selection and of everything after it. */
    method Relocate(positions: seq<Tag>, from: int, count: int, to: int, tick: Millis, physical: Millis)
      returns (delta: MoveDelta, error: Option<Error>)
      requires Valid() && ZERO !in nodes && positions == VisibleMoves(Now())
      requires InRange(|positions|, from, count, to) && count > 0 && to != from
      modifies this, clock
      ensures Valid()
      ensures Outcome(error, clock.Reading())
           == MoveOutcome(|VisibleMoves(old(Now()))|, from, count, to, clock.replica, old(clock.Reading()), tick,
             physical)
      ensures error.Some? ==> Now() == old(Now())
      ensures error.None? ==> Relocated(old(Now()), Now(), from, count, to)
      ensures error.None? ==> Met(clock.replica, old(clock.Reading()), Issue(tick)).Some?
      ensures error.None? ==>
        var tag := Met(clock.replica, old(clock.Reading()), Issue(tick)).value;
        ShiftDelta(old(Now()), Now(), delta, codecID, from, count, to, tag)
      ensures error.Some? ==> delta == NO_DELTA
      ensures error.None? ==> MoveScreen(old(Now()), delta, codecID, options).None?
    {
      hide MoveTags, Tag.Valid, JoinMoves, Less, ValidState, FitsAll, Compatible, SeenAll, VisibleMoves, Intact,
        MoveVerdict, IsShift, Relocated, Advance, Blank, Finish, MoveEnds, Delivers, MoveScreen, MoveWelcome;
      delta := NO_DELTA;
      ghost var before, was := Now(), clock.Reading();
      var selected, rest := positions[from..from + count], positions[from + count..];
      var remaining := positions[..from] + rest;
      var formerAnchor := if from > 0 then positions[from - 1] else ZERO;
      var anchor := if to > 0 then remaining[to - 1] else ZERO;
      var tag := clock.Now(tick);
      TagIssued(clock.replica, was, tick);
      SeenAllLater(before, was, clock.Reading());
      if tag.None? {
        return delta, Some(ClockError);
      }
      PartsDistinct(before, from, count);
      var records := BuildShift(selected, rest, anchor, formerAnchor, tag.value);
      delta := MoveDelta(codecID, MoveState(map[], {}, records));
      ShiftVerdict(before, records, from, count, to, tag.value, codecID, options, was, physical);
      error := ApplyDelta(delta, physical);
      if error.Some? {
        return NO_DELTA, error;
      }
      VerdictScreened(before, delta, codecID, options, TimeOf(tag.value), physical);
      MoveLands(before, records, Now(), from, count, to, tag.value, was);
    }
  }
}
