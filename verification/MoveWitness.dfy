/**
  A move that is not the splice it was asked for. Two replicas move elements of [A, B, C] at the same time;
  together the moves are a cycle, so the merge drops one attachment. A later move of another element
  breaks the cycle and the dropped attachment comes back.
 */
module MoveWitnesses {
  import opened Tags
  import opened Forests
  import opened Clocks
  import opened RgaOrder
  import opened RgaStates
  import opened RgaSplices
  import opened RgaEdits
  import opened EditOutcomes
  import opened MoveOrders
  import opened MoveProjections
  import opened MoveDecisions
  import opened MoveJoins
  import opened MoveLocals
  import opened MoveShifts
  import opened MoveVerdicts

  const A := Tag([65], 1, 0)
  const B := Tag([65], 2, 0)
  const C := Tag([65], 3, 0)
  const P := Tag([65], 6, 0)

  /** The tags of the three moves; the second one comes from another replica. */
  const FIRST := Tag([65], 4, 0)
  const SECOND := Tag([66], 5, 0)
  const THIRD := Tag([65], 7, 0)

  const START := MoveState(map[A := Node(ZERO, []), B := Node(A, []), C := Node(B, [])], {}, map[])
  /** Move(0, 1, 1) and Move(1, 1, 2), both on [A, B, C]. */
  const LEFT: map<Tag, MoveRecord> :=
    map[A := MoveRecord(FIRST, B, 0), B := MoveRecord(FIRST, ZERO, 1), C := MoveRecord(FIRST, B, 2)]
  const RIGHT: map<Tag, MoveRecord> := map[B := MoveRecord(SECOND, C, 0), C := MoveRecord(SECOND, A, 1)]
  const MERGED: map<Tag, MoveRecord> :=
    map[A := MoveRecord(FIRST, B, 0), B := MoveRecord(SECOND, C, 0), C := MoveRecord(SECOND, A, 1)]
  /** P inserted in front of the merged list. */
  const LATER := MoveState(START.nodes[P := Node(ZERO, [])], {}, MERGED)
  /** Move(3, 1, 0): B to the front. */
  const LAST: map<Tag, MoveRecord> := map[B := MoveRecord(THIRD, ZERO, 0)]
  const RESULT := MoveState(LATER.nodes, {}, MERGED[B := MoveRecord(THIRD, ZERO, 0)])

  lemma {:induction false} Different()
    ensures A != B && A != C && A != P && B != C && B != P && C != P
    ensures A != ZERO && B != ZERO && C != ZERO && P != ZERO && FIRST != ZERO && SECOND != ZERO && THIRD != ZERO
    ensures A.Valid() && B.Valid() && C.Valid() && P.Valid() && FIRST.Valid() && SECOND.Valid() && THIRD.Valid()
    ensures Less(A, FIRST) && Less(B, FIRST) && Less(C, FIRST) && Less(FIRST, SECOND) && Less(SECOND, P)
    ensures Less(P, THIRD)
    ensures Less(FIRST, P) && Less(A, SECOND) && Less(B, SECOND) && Less(C, SECOND) && Less(B, THIRD)
    ensures Less(SECOND, THIRD)
    ensures Less(FIRST, THIRD) && !Less(SECOND, FIRST) && !ZERO.Valid()
  {
    ZeroInvalid();
    BlankOne(65);
    BlankOne(66);
  }

  lemma {:induction false} BlankOne(b: Byte)
    requires b == 65 || b == 66
    ensures !Blank([b])
  {
  }

  // ----- lists made of at most two lines below the root -----

  /** Each element of the line hangs on the one before it, the first on the root. */
  ghost predicate Line(par: map<Tag, Tag>, line: seq<Tag>) {
    forall i {:trigger line[i]} :: 0 <= i < |line| ==> line[i] in par && par[line[i]] == Prev(line, i, ZERO)
  }

  ghost predicate Lines(par: map<Tag, Tag>, one: seq<Tag>, two: seq<Tag>) {
    && ZERO !in par && Line(par, one) && Line(par, two) && NoDup(one + two) && par.Keys == Elems(one + two)
  }

  lemma {:induction false} LinesAcyclic(par: map<Tag, Tag>, one: seq<Tag>, two: seq<Tag>)
    requires Lines(par, one, two)
    ensures Acyclic(par)
  {
    forall S: set<Tag> ensures !Trap(par, S) {
      if Trap(par, S) {
        var x :| x in S;
        if x in one {
          var i :| 0 <= i < |one| && one[i] == x;
          LineLeaves(par, one, S, i);
        } else {
          var i :| 0 <= i < |two| && two[i] == x;
          LineLeaves(par, two, S, i);
        }
      }
    }
  }

  /** Upwards along a line one arrives at the root. */
  lemma {:induction false} LineLeaves(par: map<Tag, Tag>, line: seq<Tag>, S: set<Tag>, i: nat)
    requires Line(par, line) && ZERO !in par && i < |line|
    ensures line[i] in S ==> !Trap(par, S)
  {
    if i > 0 {
      LineLeaves(par, line, S, i - 1);
    }
  }

  /** On a line every element has the next one as its only child. */
  lemma {:induction false} LineKids(places: Placements, par: map<Tag, Tag>, one: seq<Tag>, two: seq<Tag>,
                                    line: seq<Tag>, i: nat)
    requires Lines(par, one, two) && (line == one || line == two) && i < |line|
    ensures KidsBy(places, par, line[i]) == if i + 1 < |line| then [line[i + 1]] else []
  {
    hide Lines;
    var next := if i + 1 < |line| then [line[i + 1]] else [];
    forall c ensures c in next <==> c in par && par[c] == line[i] {
      if c in next {
        NextOnLine(par, one, two, line, i);
      }
      if c in par && par[c] == line[i] {
        ChildOnLine(par, one, two, line, i, c);
      }
    }
    KidsByAre(places, par, line[i], next);
  }

  lemma {:induction false} NextOnLine(par: map<Tag, Tag>, one: seq<Tag>, two: seq<Tag>, line: seq<Tag>, i: nat)
    requires Lines(par, one, two) && (line == one || line == two) && i + 1 < |line|
    ensures line[i + 1] in par && par[line[i + 1]] == line[i]
  {
  }

  lemma {:induction false} ParentAt(par: map<Tag, Tag>, one: seq<Tag>, two: seq<Tag>, k: nat)
    requires Line(par, one) && Line(par, two) && k < |one + two|
    ensures (one + two)[k] in par && par[(one + two)[k]] == if k == 0 || k == |one| then ZERO else (one + two)[k - 1]
  {
    if k < |one| {
      assert (one + two)[k] == one[k];
    } else {
      assert (one + two)[k] == two[k - |one|];
    }
  }

  lemma {:induction false} ChildOnLine(par: map<Tag, Tag>, one: seq<Tag>, two: seq<Tag>, line: seq<Tag>, i: nat, c: Tag)
    requires Lines(par, one, two) && (line == one || line == two) && i < |line| && c in par && par[c] == line[i]
    ensures i + 1 < |line| && line[i + 1] == c
  {
    hide Line;
    var all := one + two;
    var k :| 0 <= k < |all| && all[k] == c;
    var at := if line == one then i else |one| + i;
    assert all[at] == line[i];
    ParentAt(par, one, two, k);
    ParentAt(par, one, two, at);
    assert k - 1 == at;
  }

  lemma {:induction false} LineWalk(f: Forest, places: Placements, one: seq<Tag>, two: seq<Tag>, line: seq<Tag>, i: nat)
    requires f.WF() && Lines(f.par, one, two) && (line == one || line == two) && i < |line| && f == Grown(places, f.par)
    ensures Walk(f, [line[i]]) == line[i..]
    decreases |line| - i
  {
    hide KidsBy, Walk, Forest.WF, Lines;
    LineKids(places, f.par, one, two, line, i);
    WalkUnfold(f, line[i]);
    if i + 1 < |line| {
      LineWalk(f, places, one, two, line, i + 1);
      assert line[i..] == [line[i]] + line[i + 1..];
    } else {
      NoWalk(f);
      assert line[i..] == [line[i]];
    }
  }

  lemma {:induction false} NoWalk(f: Forest)
    requires f.WF()
    ensures Walk(f, []) == []
  {
  }

  lemma {:induction false} RootKids(places: Placements, par: map<Tag, Tag>, one: seq<Tag>, two: seq<Tag>)
    requires Lines(par, one, two) && one != [] && (two != [] ==> Ahead(places, true, one[0], two[0]))
    ensures KidsBy(places, par, ZERO) == if two == [] then [one[0]] else [one[0], two[0]]
  {
    hide Ahead, Lines;
    var kids := if two == [] then [one[0]] else [one[0], two[0]];
    forall c ensures c in kids <==> c in par && par[c] == ZERO {
      RootKid(par, one, two, c);
    }
    KidsByAre(places, par, ZERO, kids);
  }

  lemma {:induction false} RootKid(par: map<Tag, Tag>, one: seq<Tag>, two: seq<Tag>, c: Tag)
    requires Lines(par, one, two) && one != []
    ensures c == one[0] || (two != [] && c == two[0]) <==> c in par && par[c] == ZERO
  {
    hide Line, NoDup;
    var all := one + two;
    assert all[0] == one[0] && (two != [] ==> all[|one|] == two[0]);
    ParentAt(par, one, two, 0);
    if two != [] {
      ParentAt(par, one, two, |one|);
    }
    if c in par && par[c] == ZERO {
      var k :| 0 <= k < |all| && all[k] == c;
      ParentAt(par, one, two, k);
    }
  }

  /** Two lines below the root are listed one after the other. */
  lemma {:induction false} LinesShown(s: MoveState, par: map<Tag, Tag>, one: seq<Tag>, two: seq<Tag>)
    requires s.tombstones == {} && ZERO !in s.nodes && Decided(Placed(s), par) && Lines(par, one, two) && one != []
    requires two != [] ==> Ahead(Placed(s), true, one[0], two[0])
    ensures VisibleMoves(s) == one + two
  {
    hide KidsBy, Walk, Lines, Ahead, Placed, ParentsOf, Acyclic, Decided;
    var places := Placed(s);
    DecidedUnique(places, par);
    ParentsAreForest(places);
    GrownWF(places, par);
    var f := Grown(places, par);
    RootKids(places, par, one, two);
    LineWalk(f, places, one, two, one, 0);
    assert one[0..] == one && two[0..] == two;
    if two != [] {
      LineWalk(f, places, one, two, two, 0);
      WalkConcat(f, [one[0]], [two[0]]);
      assert [one[0]] + [two[0]] == [one[0], two[0]];
    } else {
      assert one + two == one;
    }
    WithoutNone(one + two, {});
  }

  /** Where no attachment is dropped, the lines of the anchors are what is shown. */
  lemma {:induction false} AnchorsDecide(places: Placements, par: map<Tag, Tag>)
    requires par == Anchors(places) && Acyclic(par) && ZERO !in places
    requires forall id :: id in places ==>
      places[id].anchor == ZERO || (places[id].anchor.Valid() && places[id].anchor in places)
    ensures Decided(places, par)
  {
    hide ParentsOf, Tag.Valid, Acyclic;
    NothingDropped(places);
    DecidedHolds(places);
  }

  // ----- the run -----

  const START_PARENTS: map<Tag, Tag> := map[A := ZERO, B := A, C := B]
  /** A is dropped to the root: its anchor B hangs on C and C on A. */
  const LATER_PARENTS: map<Tag, Tag> := map[A := ZERO, C := A, B := C, P := ZERO]
  /** A is back below B. */
  const RESULT_PARENTS: map<Tag, Tag> := map[B := ZERO, A := B, C := A, P := ZERO]

  ghost function StartPlaces(): Placements {
    map[A := Placement(ZERO, A, 0), B := Placement(A, B, 0), C := Placement(B, C, 0)]
  }

  lemma {:induction false} StartPlaced()
    ensures Placed(START) == StartPlaces()
  {
    hide Tag.Valid;
    Different();
  }

  lemma {:induction false} StartAnchors()
    ensures Anchors(StartPlaces()) == START_PARENTS
  {
    hide Tag.Valid, Less;
    Different();
  }

  lemma {:induction false} StartDecided()
    ensures Decided(StartPlaces(), START_PARENTS) && Sound(StartPlaces())
  {
    hide Less, Tag.Valid, Acyclic, Ahead, Lines, Decided;
    Different();
    StartAnchors();
    StartLines();
    LinesAcyclic(START_PARENTS, [A, B, C], []);
    AnchorsDecide(StartPlaces(), START_PARENTS);
  }

  lemma {:induction false} StartShown()
    ensures VisibleMoves(START) == [A, B, C] && Intact(START)
  {
    hide VisibleMoves, Less, Tag.Valid, Ahead, Decided, Acyclic, Lines, Sound, Placed;
    Different();
    StartPlaced();
    StartDecided();
    StartLines();
    LinesShown(START, START_PARENTS, [A, B, C], []);
    assert [A, B, C] + [] == [A, B, C];
  }

  lemma {:induction false} StartLines()
    ensures Lines(START_PARENTS, [A, B, C], [])
  {
    hide Tag.Valid, Less;
    Different();
  }

  lemma {:induction false} LaterLines()
    ensures Lines(LATER_PARENTS, [P], [A, C, B])
  {
    hide Tag.Valid, Less;
    Different();
    assert [P] + [A, C, B] == [P, A, C, B];
  }

  lemma {:induction false} ResultLines()
    ensures Lines(RESULT_PARENTS, [B, A, C], [P])
  {
    hide Tag.Valid, Less;
    Different();
    assert [B, A, C] + [P] == [B, A, C, P];
  }

  ghost function LaterPlaces(): Placements {
    map[A := Placement(B, FIRST, 0), B := Placement(C, SECOND, 0), C := Placement(A, SECOND, 1),
      P := Placement(ZERO, P, 0)]
  }

  lemma {:induction false} LaterPlaced()
    ensures Placed(LATER) == LaterPlaces()
  {
    hide Tag.Valid;
    Different();
  }

  lemma {:induction false} LaterDecided()
    ensures Decided(LaterPlaces(), LATER_PARENTS)
  {
    hide Less, Tag.Valid, Acyclic, Ahead;
    Different();
    var places, par := LaterPlaces(), LATER_PARENTS;
    LaterLines();
    LinesAcyclic(par, [P], [A, C, B]);
    ChosenAnchor(places, par, B);
    ChosenAnchor(places, par, C);
    DroppedA();
  }

  /** B and C, which are decided before A, lead from its anchor back to it. */
  lemma {:induction false} DroppedA()
    ensures Chosen(LaterPlaces(), Earlier(LaterPlaces(), LATER_PARENTS, A), A) == ZERO
  {
    hide Less, Tag.Valid;
    Different();
    var places := LaterPlaces();
    var earlier := Earlier(places, LATER_PARENTS, A);
    assert B in earlier && C in earlier;
    assert Trap(earlier[A := B], {A, B, C});
  }

  lemma {:induction false} LaterShown()
    ensures VisibleMoves(LATER) == [P, A, C, B]
  {
    hide VisibleMoves, Less, Tag.Valid, Decided, Acyclic, Placed;
    Different();
    LaterPlaced();
    LaterDecided();
    LaterLines();
    LinesShown(LATER, LATER_PARENTS, [P], [A, C, B]);
    assert [P] + [A, C, B] == [P, A, C, B];
  }

  ghost function ResultPlaces(): Placements {
    map[A := Placement(B, FIRST, 0), B := Placement(ZERO, THIRD, 0), C := Placement(A, SECOND, 1),
      P := Placement(ZERO, P, 0)]
  }

  lemma {:induction false} ResultPlaced()
    ensures Placed(RESULT) == ResultPlaces()
  {
    hide Tag.Valid;
    Different();
  }

  lemma {:induction false} ResultAnchors()
    ensures Anchors(ResultPlaces()) == RESULT_PARENTS
  {
    hide Tag.Valid, Less;
    Different();
  }

  lemma {:induction false} ResultDecided()
    ensures Decided(ResultPlaces(), RESULT_PARENTS)
  {
    hide Less, Tag.Valid, Acyclic, Ahead, Lines, Decided;
    Different();
    ResultAnchors();
    ResultLines();
    LinesAcyclic(RESULT_PARENTS, [B, A, C], [P]);
    AnchorsDecide(ResultPlaces(), RESULT_PARENTS);
  }

  lemma {:induction false} ResultShown()
    ensures VisibleMoves(RESULT) == [B, A, C, P]
  {
    hide VisibleMoves, Less, Tag.Valid, Decided, Acyclic, Lines, Placed;
    Different();
    ResultPlaced();
    ResultDecided();
    ResultLines();
    LinesShown(RESULT, RESULT_PARENTS, [B, A, C], [P]);
    assert [B, A, C] + [P] == [B, A, C, P];
  }

  lemma {:induction false} RecordsOnly(s: MoveState, r: map<Tag, MoveRecord>)
    ensures Join(s, MoveState(map[], {}, r)) == MoveState(s.nodes, s.tombstones, JoinMoves(s.moves, r))
    ensures s.moves == map[] ==> JoinMoves(s.moves, r) == r
  {
    assert s.nodes + map[] == s.nodes && s.tombstones + {} == s.tombstones;
  }

  lemma {:induction false} RecordsJoined()
    ensures JoinMoves(LEFT, RIGHT) == MERGED
  {
    hide Less, Tag.Valid;
    Different();
  }

  lemma {:induction false} RecordsReplaced()
    ensures JoinMoves(MERGED, LAST) == RESULT.moves
  {
    hide Less, Tag.Valid;
    Different();
    assert !Less(THIRD, SECOND) || Less(SECOND, THIRD);
  }

  lemma {:induction false} MergedRecords()
    ensures Join(Join(START, MoveState(map[], {}, LEFT)), Join(START, MoveState(map[], {}, RIGHT)))
         == MoveState(START.nodes, {}, MERGED)
    ensures Join(LATER, MoveState(map[], {}, LAST)) == RESULT
  {
    hide Less, Tag.Valid, JoinMoves;
    RecordsOnly(START, LEFT);
    RecordsOnly(START, RIGHT);
    RecordsOnly(LATER, LAST);
    RecordsJoined();
    RecordsReplaced();
    assert START.nodes + START.nodes == START.nodes;
  }

  /** The records of the three moves are those the code writes for these calls. */
  lemma {:induction false} RecordsAre()
    ensures IsShift(LEFT, [A], [B, C], B, ZERO, FIRST) && IsShift(RIGHT, [B], [C], C, A, SECOND)
    ensures IsShift(LAST, [B], [], ZERO, C, THIRD)
  {
    hide Tag.Valid, Less;
    Different();
  }

  lemma {:induction false} SelectionsAre()
    ensures ZERO !in START.nodes && ZERO !in LATER.nodes
    ensures VisibleMoves(START) == [A, B, C] && VisibleMoves(LATER) == [P, A, C, B]
    ensures Selection(START, 0, 1, 1) == ([A], [B, C], B, ZERO)
    ensures Selection(START, 1, 1, 2) == ([B], [C], C, A)
    ensures Selection(LATER, 3, 1, 0) == ([B], [], ZERO, C)
  {
    hide VisibleMoves, Less, Tag.Valid, Intact;
    Different();
    StartShown();
    LaterShown();
    var abc, pacb := [A, B, C], [P, A, C, B];
    assert abc[0..1] == [A] && abc[1..] == [B, C] && abc[..0] + abc[1..] == [B, C];
    assert abc[1..2] == [B] && abc[2..] == [C] && abc[..1] + abc[2..] == [A, C];
    assert pacb[3..4] == [B] && pacb[4..] == [] && pacb[..3] + pacb[4..] == [P, A, C];
  }

  /**
    The move that fails: two concurrent moves of an intact list, their merge, an insertion in front of it, and then
    Move(3, 1, 0) shows [B, A, C, P] where the splice is [B, P, A, C]. LeavesAlone is false there, as it must be.
   */
  lemma {:induction false} MoveNotSplice()
    ensures Intact(START) && ZERO !in START.nodes && ZERO !in LATER.nodes && VisibleMoves(START) == [A, B, C]
    ensures var (sel, rest, a, b) := Selection(START, 0, 1, 1); IsShift(LEFT, sel, rest, a, b, FIRST)
    ensures var (sel, rest, a, b) := Selection(START, 1, 1, 2); IsShift(RIGHT, sel, rest, a, b, SECOND)
    ensures Join(Join(START, MoveState(map[], {}, LEFT)), Join(START, MoveState(map[], {}, RIGHT)))
         == MoveState(START.nodes, {}, MERGED)
    ensures LATER == MoveState(START.nodes[P := Node(ZERO, [])], {}, MERGED) && VisibleMoves(LATER) == [P, A, C, B]
    ensures var (sel, rest, a, b) := Selection(LATER, 3, 1, 0); IsShift(LAST, sel, rest, a, b, THIRD)
    ensures RESULT == Join(LATER, MoveState(map[], {}, LAST)) && ZERO !in RESULT.nodes
    ensures VisibleMoves(RESULT) == [B, A, C, P]
    ensures MoveVerdicts.Spliced(VisibleMoves(LATER), 3, 1, 0) == [B, P, A, C] && VisibleMoves(RESULT) != [B, P, A, C]
    ensures !MovedIn(LATER, RESULT, 3, 1, 0) && !LeavesAlone(LATER, 3, 1, 0)
  {
    hide VisibleMoves, Less, Tag.Valid, Intact, IsShift, LeavesAlone, SameOutside, JoinMoves;
    Different();
    StartShown();
    SelectionsAre();
    RecordsAre();
    MergedRecords();
    ResultShown();
    var pacb := [P, A, C, B];
    assert pacb[..3] + pacb[4..] == [P, A, C];
    assert MoveVerdicts.Spliced(pacb, 3, 1, 0) == [B, P, A, C];
    Revived();
  }

  /** Where the move left the rest alone, it would be the splice. */
  lemma {:induction false} Revived()
    requires ZERO !in LATER.nodes && InRange(|VisibleMoves(LATER)|, 3, 1, 0)
    requires RESULT == Join(LATER, MoveState(map[], {}, LAST))
    requires var (sel, rest, a, b) := Selection(LATER, 3, 1, 0); IsShift(LAST, sel, rest, a, b, THIRD)
    ensures LeavesAlone(LATER, 3, 1, 0) ==> MovedIn(LATER, RESULT, 3, 1, 0)
  {
    hide VisibleMoves, Less, Tag.Valid, IsShift, LeavesAlone, SameOutside, AttachedOutside, MovedIn, Intact, ValidState,
      SeenAll, Join, Compatible;
    AllSeen();
    MoveLands(LATER, LAST, RESULT, 3, 1, 0, THIRD, Time(6, 0));
  }

  lemma {:induction false} AllSeen()
    ensures ValidState(LATER) && ValidState(RESULT) && Compatible(LATER, MoveState(map[], {}, LAST))
    ensures SeenAll(LATER, Time(6, 0)) && Before(Time(6, 0), TimeOf(THIRD))
  {
    hide Tag.Valid, Less, ValidState, MoveTags;
    Different();
    StatesValid();
    forall x | x in MoveTags(LATER) ensures NotAfter(TimeOf(x), Time(6, 0)) {
      TagsAre(x);
    }
  }

  lemma {:induction false} StatesValid()
    ensures ValidState(LATER) && ValidState(RESULT)
  {
    hide Tag.Valid, Less;
    Different();
  }

  lemma {:induction false} TagsAre(x: Tag)
    requires x in MoveTags(LATER)
    ensures x in [A, B, C, P, FIRST, SECOND]
  {
    hide Less, Tag.Valid;
    Different();
    if x in LATER.nodes {
    } else if id :| id in LATER.nodes && LATER.nodes[id].parent == x && x.Valid() {
    } else {
      var id :| id in LATER.moves && (LATER.moves[id].tag == x || (LATER.moves[id].anchor == x && x.Valid()));
    }
  }
}
