/** Exactly how a local edit ends: its error, if any, and the clock afterwards. */
module EditOutcomes {
  import opened Tags
  import opened Clocks
  import opened RgaOrder
  import opened RgaStates
  import opened RgaEdits
  import opened RgaVerdicts

  datatype Outcome = Outcome(error: Option<Error>, clock: Time)

  ghost function Finish(now: Time, remote: Tag, physical: Millis): Outcome {
    match Advance(now, Observe(remote, physical))
    case None => Outcome(Some(ClockError), now)
    case Some(after) => Outcome(None, after)
  }

  /** Insert fails on a bad offset, an oversized value, a clock that cannot issue all tags, or too many elements. */
  ghost function InsertOutcome(length: int, elements: int, offset: int, values: seq<Bytes>, ticks: seq<Millis>,
                               o: Options, replica: Bytes, now: Time): Outcome
    requires |ticks| == |values| + 1
  {
    var n := |values|;
    var (ids, after, ok) := IssueAll(replica, now, ticks[..n]);
    if !(0 <= offset <= length) then Outcome(Some(RangeError), now)
    else if exists i :: 0 <= i < n && |values[i]| > o.maxValueBytes then Outcome(Some(InvalidCodec), now)
    else if !ok then Outcome(Some(ClockError), after)
    else if n == 0 then Outcome(None, after)
    else if elements + n > o.maxNodes then Outcome(Some(ResourceLimit), after)
    else Finish(after, ids[n - 1], ticks[n])
  }

  /** Delete fails on a bad range, too many tombstones, or a clock that cannot pass the newest deleted element. */
  ghost function DeleteOutcome(visible: seq<Tag>, buried: int, offset: int, count: int, o: Options, now: Time,
                               physical: Millis): Outcome
  {
    if !(0 <= offset && 0 <= count && offset + count <= |visible|) then Outcome(Some(RangeError), now)
    else if buried + count > o.maxTombstones then Outcome(Some(ResourceLimit), now)
    else if count == 0 then Outcome(None, now)
    else
      var range := visible[offset..offset + count];
      assert range[0] in Elems(range);
      Finish(now, Newest(Elems(range)), physical)
  }

  ghost predicate InRange(n: int, from: int, count: int, to: int) {
    0 <= from && 0 <= count && 0 <= to && from + count <= n && to <= n - count
  }

  /** Move fails on a bad range or a clock that cannot issue and pass one more tag. */
  ghost function MoveOutcome(length: int, from: int, count: int, to: int, replica: Bytes, now: Time, tick: Millis,
                             physical: Millis): Outcome
  {
    if !InRange(length, from, count, to) then Outcome(Some(RangeError), now)
    else if count == 0 || to == from then Outcome(None, now)
    else
      match Met(replica, now, Issue(tick))
      case None => Outcome(Some(ClockError), now)
      case Some(tag) => Finish(TimeOf(tag), tag, physical)
  }

  lemma {:induction false} LastNewest(tags: set<Tag>, g: Tag)
    requires g in tags && forall x :: x in tags && x != g ==> Less(x, g)
    ensures Newest(tags) == g
  {
    hide Less;
    assert IsLeast(Greater, tags, g);
    NewestIs(tags, g);
  }

  lemma {:induction false} EarlierIsLess(x: Tag, g: Tag, was: Time)
    requires NotAfter(TimeOf(x), was) && Before(was, TimeOf(g))
    ensures Less(x, g)
  {
  }

  // ----- when edits succeed -----

  /** A range error is exactly an offset outside the list. */
  lemma {:induction false} RangeErrors(length: int, elements: int, visible: seq<Tag>, buried: int, offset: int,
                                       count: int, to: int, values: seq<Bytes>, ticks: seq<Millis>, o: Options,
                                       replica: Bytes, now: Time, physical: Millis)
    requires |ticks| == |values| + 1
    ensures InsertOutcome(length, elements, offset, values, ticks, o, replica, now).error == Some(RangeError) <==>
      !(0 <= offset <= length)
    ensures DeleteOutcome(visible, buried, offset, count, o, now, physical).error == Some(RangeError) <==>
      !(0 <= offset && 0 <= count && offset + count <= |visible|)
    ensures MoveOutcome(length, offset, count, to, replica, now, ticks[0], physical).error == Some(RangeError) <==>
      !(0 <= offset && 0 <= count && 0 <= to && offset + count <= length && to + count <= length)
  {
    hide IssueAll, Advance, Newest, Elems;
    if 0 <= offset && 0 < count && offset + count <= |visible| {
      assert visible[offset..offset + count][0] in visible[offset..offset + count];
    }
  }

  /** With room on the wall clock every tag can be issued. */
  lemma {:induction false} IssueRoom(replica: Bytes, now: Time, ticks: seq<Millis>, wall: nat)
    requires now.wall <= wall && wall + |ticks| < MAX_UINT64 && forall k :: 0 <= k < |ticks| ==> 0 <= ticks[k] <= wall
    ensures var (ids, after, ok) := IssueAll(replica, now, ticks);
      && ok && after.wall <= wall + |ticks|
      && forall k :: 0 <= k < |ids| ==> ids[k].replica == replica && ids[k].wall <= wall + |ticks|
    decreases |ticks|
  {
    if ticks != [] {
      var n := |ticks| - 1;
      IssueRoom(replica, now, ticks[..n], wall);
      var before := IssueAll(replica, now, ticks[..n]).1;
      StepRoom(before, Issue(ticks[n]), wall + n);
    }
  }

  lemma {:induction false} StepRoom(now: Time, e: ClockEvent, wall: nat)
    requires now.wall <= wall < MAX_UINT64 && 0 <= e.physical <= wall
    requires e.Observe? ==> e.remote.Valid() && e.remote.wall <= wall
    ensures Advance(now, e).Some? && Advance(now, e).value.wall <= wall + 1
  {
    hide Tag.Valid;
  }

  /**
    With room on the wall clock, inserting succeeds exactly for offsets inside, small values and enough elements
    left.
   */
  lemma {:induction false} InsertSucceeds(length: int, elements: int, offset: int, values: seq<Bytes>,
                                          ticks: seq<Millis>, o: Options, replica: Bytes, now: Time, wall: nat)
    requires |ticks| == |values| + 1 && Tag(replica, 0, 0).Valid()
    requires now.wall <= wall && wall + |ticks| < MAX_UINT64 && forall k :: 0 <= k < |ticks| ==> 0 <= ticks[k] <= wall
    ensures InsertOutcome(length, elements, offset, values, ticks, o, replica, now).error.None? <==>
      && 0 <= offset <= length && (forall i :: 0 <= i < |values| ==> |values[i]| <= o.maxValueBytes)
      && (values == [] || elements + |values| <= o.maxNodes)
  {
    hide IssueAll, Advance;
    var n := |values|;
    IssueRoom(replica, now, ticks[..n], wall);
    var (ids, after, ok) := IssueAll(replica, now, ticks[..n]);
    if n > 0 {
      StepRoom(after, Observe(ids[n - 1], ticks[n]), wall + n);
    }
  }

  /** Deleting succeeds exactly for ranges inside and enough tombstones left. */
  lemma {:induction false} DeleteSucceeds(visible: seq<Tag>, buried: int, offset: int, count: int, o: Options,
                                          now: Time, physical: Millis, wall: nat)
    requires (forall t :: t in visible ==> t.Valid() && t.wall <= wall) && now.wall <= wall < MAX_UINT64
    requires 0 <= physical <= wall
    ensures DeleteOutcome(visible, buried, offset, count, o, now, physical).error.None? <==>
      0 <= offset && 0 <= count && offset + count <= |visible| && buried + count <= o.maxTombstones
  {
    hide Advance, Tag.Valid;
    if 0 <= offset && 0 < count && offset + count <= |visible| {
      var range := visible[offset..offset + count];
      assert range[0] in Elems(range);
      var newest := Newest(Elems(range));
      assert newest in range && newest in visible;
      StepRoom(now, Observe(newest, physical), wall);
    }
  }

  /** Moving succeeds exactly for ranges and targets inside. */
  lemma {:induction false} MoveSucceeds(length: int, from: int, count: int, to: int, replica: Bytes, now: Time,
                                        tick: Millis, physical: Millis, wall: nat)
    requires Tag(replica, 0, 0).Valid() && now.wall <= wall && wall + 1 < MAX_UINT64 && 0 <= tick <= wall
    requires 0 <= physical <= wall
    ensures MoveOutcome(length, from, count, to, replica, now, tick, physical).error.None? <==>
      0 <= from && 0 <= count && 0 <= to && from + count <= length && to + count <= length
  {
    hide Advance;
    StepRoom(now, Issue(tick), wall);
    var after := Advance(now, Issue(tick)).value;
    StepRoom(after, Observe(Tag(replica, after.wall, after.logical), physical), wall + 1);
  }

  // ----- a freshly issued run -----

  ghost predicate Hangs(p: Tag, was: Time) {
    p == ZERO || (p.Valid() && NotAfter(TimeOf(p), was))
  }

  lemma {:induction false} RunNodesValid(run: Nodes, ids: seq<Tag>, values: seq<Bytes>, p: Tag, was: Time, now: Time)
    requires Hangs(p, was) && Issued(ids, was, now) && IsRun(run, ids, values, p)
    ensures ValidNodes(run)
  {
    hide ValidNode, Issued, Prev, Hangs;
    forall id | id in run ensures ValidNode(id, run[id]) {
      var i :| 0 <= i < |ids| && ids[i] == id;
      RunNode(run, ids, values, p, was, now, i);
    }
  }

  lemma {:induction false} RunNode(run: Nodes, ids: seq<Tag>, values: seq<Bytes>, p: Tag, was: Time, now: Time, i: nat)
    requires Hangs(p, was) && Issued(ids, was, now) && IsRun(run, ids, values, p) && i < |ids|
    ensures ids[i] in run && ValidNode(ids[i], run[ids[i]])
  {
    hide Tag.Valid, Less;
    var id := ids[i];
    assert id in ids;
    LessIsStrictTotalOrder();
    assert !Less(id, id);
    if i > 0 {
      assert ids[i - 1] in ids && Less(ids[i - 1], ids[i]);
    } else {
      ZeroInvalid();
    }
  }

  lemma {:induction false} RunNewest(codecID: Bytes, run: Nodes, ids: seq<Tag>, values: seq<Bytes>, p: Tag, was: Time,
                                     now: Time)
    requires Hangs(p, was) && Issued(ids, was, now) && IsRun(run, ids, values, p) && ids != []
    ensures TagsOf(Delta(codecID, run, {})) != {} && Newest(TagsOf(Delta(codecID, run, {}))) == ids[|ids| - 1]
  {
    hide Tag.Valid, IsRun, Less, TagsOf;
    var tags, g := TagsOf(Delta(codecID, run, {})), ids[|ids| - 1];
    RunTagsAre(codecID, run, ids, values, p);
    ZeroInvalid();
    assert g in ids;
    forall x | x in tags && x != g ensures Less(x, g) {
      if x in ids {
        var i :| 0 <= i < |ids| && ids[i] == x;
      } else {
        EarlierIsLess(x, g, was);
      }
    }
    LastNewest(tags, g);
  }

  lemma {:induction false} RunTagsAre(codecID: Bytes, run: Nodes, ids: seq<Tag>, values: seq<Bytes>, p: Tag)
    requires IsRun(run, ids, values, p)
    ensures forall x :: x in TagsOf(Delta(codecID, run, {})) ==> x in ids || (x == p && x.Valid())
    ensures forall x :: x in ids ==> x in TagsOf(Delta(codecID, run, {}))
  {
    hide Tag.Valid;
    forall x | x in TagsOf(Delta(codecID, run, {})) ensures x in ids || (x == p && x.Valid()) {
      if x !in run {
        var id :| id in run && run[id].parent == x && x.Valid();
        var i :| 0 <= i < |ids| && ids[i] == id;
      }
    }
  }

  lemma {:induction false} SizesFit(run: Nodes, ids: seq<Tag>, values: seq<Bytes>, p: Tag, max: int)
    requires IsRun(run, ids, values, p) && forall i :: 0 <= i < |values| ==> |values[i]| <= max
    ensures forall id :: id in run ==> |run[id].value| <= max
  {
    hide Prev;
    forall id | id in run ensures |run[id].value| <= max {
      var i :| 0 <= i < |ids| && ids[i] == id;
    }
  }

  lemma {:induction false} RunSize(run: Nodes, ids: seq<Tag>, values: seq<Bytes>, p: Tag)
    requires IsRun(run, ids, values, p)
    ensures |ids| == |values| && (|run| == 0 <==> |values| == 0)
  {
    hide Prev;
    if |ids| > 0 {
      assert ids[0] in run;
    } else {
      assert run.Keys == {};
    }
  }

  lemma {:induction false} RangeOf(visible: seq<Tag>, offset: int, count: int)
    requires NoDup(visible) && 0 <= offset && 0 <= count && offset + count <= |visible|
    ensures NoDup(visible[offset..offset + count])
  {
  }
}
