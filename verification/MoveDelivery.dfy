/** Families of move deltas that belong together are delivered in every order and batching. */
module MoveDeliveries {
  import opened Tags
  import opened Clocks
  import opened RgaOrder
  import opened RgaStates
  import opened RgaVerdicts
  import opened EditOutcomes
  import opened RgaDeliveries
  import opened MoveProjections
  import opened MoveJoins
  import opened MoveVerdicts
  import opened MoveOutcomes
  import opened MoveLists
  import opened MoveSessions

  /**
    Everything there is to deliver: elements, deletions, and placements of known or unknown elements, of which an
    element may have any number with different tags.
   */
  datatype Whole = Whole(nodes: Nodes, dead: set<Tag>, records: map<(Tag, Tag), MoveRecord>)

  /** The records of an element are told apart by their tags. */
  ghost predicate Known(w: Whole, id: Tag, r: MoveRecord) {
    (id, r.tag) in w.records && w.records[(id, r.tag)] == r
  }

  ghost predicate Within(part: MoveState, w: Whole) {
    && Part(part.nodes, w.nodes) && part.tombstones <= w.dead
    && forall id :: id in part.moves ==> Known(w, id, part.moves[id])
  }

  ghost function Placed(w: Whole): set<Tag> {
    set k | k in w.records :: k.0
  }

  /** Valid, and within every limit. */
  ghost predicate MoveFamily(w: Whole, o: Options) {
    && ValidNodes(w.nodes) && (forall id :: id in w.dead ==> id.Valid())
    && (forall k :: k in w.records ==> ValidRecord(k.0, w.records[k]))
    && (forall id :: id in w.nodes ==> |w.nodes[id].value| <= o.maxValueBytes)
    && |w.nodes| <= o.maxNodes && |w.dead| <= o.maxTombstones && |Placed(w)| <= o.maxPendingNodes
  }

  lemma {:induction false} JoinWithin(s: MoveState, part: MoveState, w: Whole)
    requires Within(s, w) && Within(part, w)
    ensures Within(Join(s, part), w)
  {
    hide Less, JoinMoves;
    UnionPart(s.nodes, part.nodes, w.nodes);
    forall id | id in JoinMoves(s.moves, part.moves) ensures Known(w, id, JoinMoves(s.moves, part.moves)[id]) {
      JoinedRecord(s.moves, part.moves, id);
    }
  }

  lemma {:induction false} WithinPlaced(s: MoveState, w: Whole, o: Options)
    requires Within(s, w) && MoveFamily(w, o)
    ensures PendingMoves(s) <= Placed(w) && forall id :: id in s.moves ==> ValidRecord(id, s.moves[id])
  {
    hide Tag.Valid, ValidRecord, Part;
    forall id | id in s.moves ensures id in Placed(w) && ValidRecord(id, s.moves[id]) {
      assert Known(w, id, s.moves[id]);
    }
  }

  lemma {:induction false} WithinFits(s: MoveState, w: Whole, o: Options)
    requires Within(s, w) && MoveFamily(w, o)
    ensures FitsAll(s, o) && ValidState(s)
  {
    hide Tag.Valid, ValidRecord, Part, Placed, PendingMoves;
    WithinPlaced(s, w, o);
    PartSmaller(s.nodes, w.nodes);
    Fewer(s.tombstones, w.dead);
    Fewer(PendingMoves(s), Placed(w));
    PartValid(s.nodes, w.nodes);
  }

  lemma {:induction false} WithinCompatible(s: MoveState, part: MoveState, w: Whole, o: Options)
    requires Within(s, w) && Within(part, w) && MoveFamily(w, o)
    ensures Compatible(s, part)
  {
    hide Tag.Valid, ValidRecord;
    UnionPart(s.nodes, part.nodes, w.nodes);
    forall id | id in s.moves && id in part.moves && s.moves[id].tag == part.moves[id].tag
      ensures s.moves[id] == part.moves[id] {
      assert Known(w, id, s.moves[id]) && Known(w, id, part.moves[id]);
    }
  }

  /** A part of the family on top of a part of it passes every check. */
  lemma {:induction false} MemberScreened(s: MoveState, part: MoveState, codecID: Bytes, w: Whole, o: Options)
    requires Within(s, w) && Within(part, w) && MoveFamily(w, o) && !Blank(codecID)
    ensures MoveScreen(s, MoveDelta(codecID, part), codecID, o).None? && ValidState(part)
  {
    hide Tag.Valid, ValidRecord, FitsAll, ValidState, Compatible, Join, Blank;
    WithinCompatible(s, part, w, o);
    JoinWithin(s, part, w);
    WithinFits(part, w, o);
    WithinFits(Join(s, part), w, o);
  }

  ghost predicate Early(part: MoveState, wall: nat) {
    forall t :: t in MoveTags(part) ==> t.wall <= wall
  }

  lemma {:induction false} NewestMoveValid(part: MoveState)
    requires ValidState(part) && MoveTags(part) != {}
    ensures Newest(MoveTags(part)) in MoveTags(part) && Newest(MoveTags(part)).Valid()
  {
    hide Tag.Valid, Less, Newest;
    assert IsLeast(Greater, MoveTags(part), Newest(MoveTags(part)));
  }

  /** With room on the clock it is accepted and the clock moves by one at most. */
  lemma {:induction false} MemberPasses(s: MoveState, part: MoveState, codecID: Bytes, w: Whole, o: Options, now: Time,
                                        physical: Millis, wall: nat)
    requires Within(s, w) && Within(part, w) && MoveFamily(w, o) && !Blank(codecID)
    requires Early(part, wall) && now.wall <= wall < MAX_UINT64 && 0 <= physical <= wall
    ensures var e := MoveEnds(s, MoveDelta(codecID, part), codecID, o, now, physical);
      e.error.None? && e.clock.wall <= wall + 1
  {
    hide MoveScreen, MoveTags, Newest, Advance, Within, MoveFamily, ValidState, Tag.Valid, Blank;
    MemberScreened(s, part, codecID, w, o);
    if MoveTags(part) != {} {
      NewestMoveValid(part);
      StepRoom(now, Observe(Newest(MoveTags(part)), physical), wall);
    }
  }

  /**
    Whatever the order and the batching, placements before their elements included, a list takes every part of the
    family, as long as the wall clock is not about to run out.
   */
  method DeliverMoves(list: MoveRga, parts: seq<MoveState>, physicals: seq<Millis>, ghost w: Whole, ghost wall: nat)
    returns (errors: seq<Option<Error>>, ghost deltas: seq<MoveDelta>, ghost states: seq<MoveState>)
    requires list.Valid() && MoveFamily(w, list.options) && Within(list.Now(), w) && |physicals| == |parts|
    requires forall k :: 0 <= k < |parts| ==> Within(parts[k], w) && Early(parts[k], wall) && 0 <= physicals[k] <= wall
    requires list.clock.Reading().wall <= wall && wall + |parts| < MAX_UINT64
    modifies list, list.clock
    ensures list.Valid() && Within(list.Now(), w)
    ensures |errors| == |parts| && forall k :: 0 <= k < |parts| ==> errors[k].None?
    ensures Handed(deltas, states) && PartsOf(deltas) == parts && states[0] == old(list.Now())
    ensures states[|parts|] == list.Now()
  {
    hide MoveRga.Valid, MoveFamily, Within, Early, MoveEnds, MoveVerdict, Delivers, Handed, MoveWelcome;
    errors, deltas, states := [], [], [list.Now()];
    NothingHanded(list.Now());
    var k := 0;
    while k < |parts|
      invariant 0 <= k <= |parts| && list.Valid() && Within(list.Now(), w) && list.clock.Reading().wall <= wall + k
      invariant |errors| == k && forall j :: 0 <= j < k ==> errors[j].None?
      invariant |deltas| == k && |states| == k + 1 && Handed(deltas, states) && PartsOf(deltas) == parts[..k]
      invariant states[0] == old(list.Now()) && states[k] == list.Now()
    {
      Nonblank(list);
      EarlyLater(parts[k], wall, wall + k);
      MemberPasses(list.Now(), parts[k], list.codecID, w, list.options, list.clock.Reading(), physicals[k], wall + k);
      JoinWithin(list.Now(), parts[k], w);
      ghost var before := list.Now();
      var delta := MoveDelta(list.codecID, parts[k]);
      var error := list.ApplyDelta(delta, physicals[k]);
      DeliveredJoin(before, parts[k], list.Now());
      HandedNext(deltas, states, delta, list.Now());
      errors, deltas, states := errors + [error], deltas + [delta], states + [list.Now()];
      k := k + 1;
    }
    assert parts[..k] == parts;
  }

  lemma {:induction false} DeliveredJoin(s: MoveState, part: MoveState, t: MoveState)
    requires Delivers(s, part, t)
    ensures t == Join(s, part)
  {
  }

  lemma {:induction false} Nonblank(list: MoveRga)
    requires list.Valid()
    ensures !Blank(list.codecID)
  {
    hide Blank, ValidState, SeenAll, FitsAll;
  }

  lemma {:induction false} EarlyLater(part: MoveState, wall: nat, later: nat)
    requires Early(part, wall) && wall <= later
    ensures Early(part, later)
  {
    hide MoveTags;
  }
}
