/** Every run of local edits on one move-capable list behaves like edits of a plain sequence of values. */
module MoveSessions {
  import opened Tags
  import opened Clocks
  import opened RgaStates
  import opened RgaBuilds
  import opened RgaVerdicts
  import opened EditOutcomes
  import opened MoveProjections
  import opened MoveJoins
  import opened MoveLocals
  import opened MoveVerdicts
  import opened MoveOutcomes
  import opened MoveLists

  datatype Edit =
    | InsertEdit(offset: int, values: seq<Bytes>, ticks: seq<Millis>)
    | DeleteEdit(offset: int, count: int, physical: Millis)
    | MoveEdit(from: int, count: int, to: int, tick: Millis, physical: Millis)

  ghost function ValuesAt(nodes: Nodes, ids: seq<Tag>): (r: seq<Bytes>)
    ensures |r| == |ids|
  {
    seq(|ids|, i requires 0 <= i < |ids| => if ids[i] in nodes then nodes[ids[i]].value else [])
  }

  /** The values a reader of the list sees, in order. */
  ghost function Contents(s: MoveState): seq<Bytes>
    requires ZERO !in s.nodes
  {
    ValuesAt(s.nodes, VisibleMoves(s))
  }

  predicate Ticked(e: Edit) {
    e.InsertEdit? ==> |e.ticks| == |e.values| + 1
  }

  /** A plain sequence of tagged values, two counters and a clock: all that a local edit depends on. */
  datatype Plain = Plain(ids: seq<Tag>, values: seq<Bytes>, elements: int, buried: int, clock: Time)

  ghost function View(s: MoveState, now: Time): Plain
    requires ZERO !in s.nodes
  {
    Plain(VisibleMoves(s), Contents(s), |s.nodes|, |s.tombstones|, now)
  }

  ghost function Put<T>(s: seq<T>, o: int, more: seq<T>): seq<T> {
    if 0 <= o <= |s| then s[..o] + more + s[o..] else s
  }

  ghost function Cut<T>(s: seq<T>, o: int, count: int): seq<T> {
    if 0 <= o && 0 <= count && o + count <= |s| then s[..o] + s[o + count..] else s
  }

  ghost function Shift<T>(s: seq<T>, from: int, count: int, to: int): seq<T> {
    if InRange(|s|, from, count, to) then Spliced(s, from, count, to) else s
  }

  ghost function EditOutcome(p: Plain, e: Edit, o: Options, replica: Bytes): Outcome
    requires Ticked(e)
  {
    match e
    case InsertEdit(at, values, ticks) => InsertOutcome(|p.ids|, p.elements, at, values, ticks, o, replica, p.clock)
    case DeleteEdit(at, count, physical) => DeleteOutcome(p.ids, p.buried, at, count, o, p.clock, physical)
    case MoveEdit(from, count, to, tick, physical) => MoveOutcome(|p.ids|, from, count, to, replica, p.clock, tick,
      physical)
  }

  /** The same edit on the plain sequence, when it succeeds. */
  ghost function PlainEdit(p: Plain, e: Edit, replica: Bytes, after: Time): Plain
    requires Ticked(e)
  {
    match e
    case InsertEdit(at, values, ticks) =>
      var ids := IssueAll(replica, p.clock, ticks[..|values|]).0;
      Plain(Put(p.ids, at, ids), Put(p.values, at, values), p.elements + |values|, p.buried, after)
    case DeleteEdit(at, count, _) => Plain(Cut(p.ids, at, count), Cut(p.values, at, count), p.elements,
      p.buried + count, after)
    case MoveEdit(from, count, to, _, _) =>
      Plain(Shift(p.ids, from, count, to), Shift(p.values, from, count, to), p.elements, p.buried, after)
  }

  /** One edit and whether it succeeds; a failed one moves at most the clock. */
  ghost function PlainStep(p: Plain, e: Edit, o: Options, replica: Bytes): (Plain, bool)
    requires Ticked(e)
  {
    var out := EditOutcome(p, e, o, replica);
    if out.error.Some? then (p.(clock := out.clock), false) else (PlainEdit(p, e, replica, out.clock), true)
  }

  ghost predicate AllTicked(edits: seq<Edit>) {
    forall e :: e in edits ==> Ticked(e)
  }

  ghost function PlainRun(p: Plain, edits: seq<Edit>, o: Options, replica: Bytes): (Plain, seq<bool>)
    requires AllTicked(edits)
    decreases |edits|
  {
    if edits == [] then (p, [])
    else
      var n := |edits| - 1;
      var (before, done) := PlainRun(p, edits[..n], o, replica);
      assert edits[n] in edits;
      var (after, ok) := PlainStep(before, edits[n], o, replica);
      (after, done + [ok])
  }

  lemma {:induction false} InsertPlain(s: MoveState, t: MoveState, o: int, ids: seq<Tag>, values: seq<Bytes>)
    requires InsertedInto(s, t, o, ids, values)
    ensures ZERO !in s.nodes && ZERO !in t.nodes && 0 <= o <= |Contents(s)|
    ensures Contents(t) == Contents(s)[..o] + values + Contents(s)[o..]
  {
    hide VisibleMoves, Intact, NoDup;
    EveryLiveNodeOnce(s);
    var visible := VisibleMoves(s);
    ValuesKept(s.nodes, t.nodes, visible[..o]);
    ValuesKept(s.nodes, t.nodes, visible[o..]);
    ValuesConcat(t.nodes, visible[..o] + ids, visible[o..]);
    ValuesConcat(t.nodes, visible[..o], ids);
    assert ValuesAt(t.nodes, ids) == values;
    ValuesSlice(s.nodes, visible, 0, o);
    ValuesSlice(s.nodes, visible, o, |visible|);
    assert visible[0..o] == visible[..o] && visible[o..|visible|] == visible[o..];
  }

  lemma {:induction false} ValuesSlice(nodes: Nodes, ids: seq<Tag>, a: nat, b: nat)
    requires a <= b <= |ids|
    ensures ValuesAt(nodes, ids[a..b]) == ValuesAt(nodes, ids)[a..b]
  {
  }

  lemma {:induction false} ValuesKept(before: Nodes, after: Nodes, ids: seq<Tag>)
    requires forall id :: id in ids ==> id in before
    requires forall id :: id in before ==> id in after && after[id] == before[id]
    ensures ValuesAt(after, ids) == ValuesAt(before, ids)
  {
    assert forall i :: 0 <= i < |ids| ==> ids[i] in ids;
  }

  lemma {:induction false} DeletePlain(s: MoveState, t: MoveState, o: int, count: int)
    requires DeletedFrom(s, t, o, count)
    ensures ZERO !in s.nodes && ZERO !in t.nodes && 0 <= o && 0 <= count && o + count <= |Contents(s)|
    ensures Contents(t) == Contents(s)[..o] + Contents(s)[o + count..]
  {
    hide VisibleMoves, Intact;
  }

  lemma {:induction false} MovePlain(s: MoveState, t: MoveState, from: int, count: int, to: int)
    requires MovedIn(s, t, from, count, to)
    ensures ZERO !in s.nodes && ZERO !in t.nodes && InRange(|Contents(s)|, from, count, to)
    ensures Contents(t) == Spliced(Contents(s), from, count, to)
  {
    hide VisibleMoves, Intact;
    ValuesSpliced(s.nodes, VisibleMoves(s), from, count, to);
  }

  lemma {:induction false} ValuesSpliced(nodes: Nodes, ids: seq<Tag>, from: int, count: int, to: int)
    requires InRange(|ids|, from, count, to)
    ensures ValuesAt(nodes, Spliced(ids, from, count, to)) == Spliced(ValuesAt(nodes, ids), from, count, to)
  {
    var values := ValuesAt(nodes, ids);
    var left, right := ids[..from] + ids[from + count..], values[..from] + values[from + count..];
    ValuesConcat(nodes, ids[..from], ids[from + count..]);
    assert ValuesAt(nodes, left) == right;
    ValuesConcat(nodes, left[..to] + ids[from..from + count], left[to..]);
    ValuesConcat(nodes, left[..to], ids[from..from + count]);
    assert ValuesAt(nodes, left[..to]) == right[..to] && ValuesAt(nodes, left[to..]) == right[to..];
    assert ValuesAt(nodes, ids[from..from + count]) == values[from..from + count];
  }

  lemma {:induction false} ValuesConcat(nodes: Nodes, a: seq<Tag>, b: seq<Tag>)
    ensures ValuesAt(nodes, a + b) == ValuesAt(nodes, a) + ValuesAt(nodes, b)
  {
  }

  lemma {:induction false} IntactCounts(s: MoveState)
    requires Intact(s)
    ensures ZERO !in s.nodes && |s.tombstones| <= |s.nodes|
  {
    Fewer(s.tombstones, s.nodes.Keys);
  }

  lemma {:induction false} InsertView(s: MoveState, t: MoveState, o: int, ids: seq<Tag>, values: seq<Bytes>, now: Time)
    requires InsertedInto(s, t, o, ids, values)
    ensures ZERO !in s.nodes && ZERO !in t.nodes
    ensures View(t, now)
         == Plain(Put(VisibleMoves(s), o, ids), Put(Contents(s), o, values), |s.nodes| + |values|, |s.tombstones|, now)
  {
    hide VisibleMoves, Intact, NoDup, Contents, Elems;
    InsertPlain(s, t, o, ids, values);
    NoDupCount(ids);
    Cards(s.nodes.Keys, Elems(ids));
    assert |t.nodes.Keys| == |s.nodes.Keys| + |ids|;
  }

  lemma {:induction false} DeleteView(s: MoveState, t: MoveState, o: int, count: int, now: Time)
    requires DeletedFrom(s, t, o, count)
    ensures ZERO !in s.nodes && ZERO !in t.nodes
    ensures View(t, now)
         == Plain(Cut(VisibleMoves(s), o, count), Cut(Contents(s), o, count), |s.nodes|, |s.tombstones| + count, now)
  {
    hide VisibleMoves, Intact, NoDup, Contents;
    DeletePlain(s, t, o, count);
    EveryLiveNodeOnce(s);
    var range := VisibleMoves(s)[o..o + count];
    RangeOf(VisibleMoves(s), o, count);
    NoDupCount(range);
    assert forall id :: id in range ==> id in VisibleMoves(s);
    Cards(s.tombstones, Elems(range));
  }

  lemma {:induction false} MoveView(s: MoveState, t: MoveState, from: int, count: int, to: int, now: Time)
    requires MovedIn(s, t, from, count, to)
    ensures ZERO !in s.nodes && ZERO !in t.nodes
    ensures View(t, now)
         == Plain(Shift(VisibleMoves(s), from, count, to), Shift(Contents(s), from, count, to), |s.nodes|,
           |s.tombstones|, now)
  {
    hide VisibleMoves, Intact, Contents, Spliced;
    MovePlain(s, t, from, count, to);
  }

  /** One edit does to the list exactly what it does to the plain sequence, success, tags and clock included. */
  method Perform(list: MoveRga, e: Edit) returns (ok: bool, delta: MoveDelta)
    requires list.Valid() && Intact(list.Now()) && Ticked(e)
    modifies list, list.clock
    ensures list.Valid() && Intact(list.Now())
    ensures ZERO !in old(list.Now()).nodes && ZERO !in list.Now().nodes
    ensures (View(list.Now(), list.clock.Reading()), ok)
         == PlainStep(View(old(list.Now()), old(list.clock.Reading())), e, list.options, list.clock.replica)
    ensures Delivers(old(list.Now()), delta.part, list.Now())
    ensures ok ==> MoveScreen(old(list.Now()), delta, list.codecID, list.options).None?
    ensures !ok ==> delta == NO_DELTA && list.Now() == old(list.Now())
  {
    hide VisibleMoves, Intact, Contents, MoveRga.Valid, Put, Cut, Shift, InsertOutcome, DeleteOutcome, MoveOutcome,
      Relocated,
      InsertedInto, DeletedFrom, MovedIn, IssueAll, Delivers, MoveScreen;
    ghost var before := list.Now();
    IntactCounts(before);
    NothingDelivered(before);
    var error, ids;
    match e {
      case InsertEdit(o, values, ticks) =>
        delta, error, ids := list.Insert(o, values, ticks);
        if error.None? {
          InsertView(before, list.Now(), o, ids, values, list.clock.Reading());
          InsertIntact(before, list.Now(), o, ids, values);
        }
      case DeleteEdit(o, count, physical) =>
        delta, error := list.Delete(o, count, physical);
        if error.None? {
          DeleteView(before, list.Now(), o, count, list.clock.Reading());
          DeleteIntact(before, list.Now(), o, count);
        }
      case MoveEdit(from, count, to, tick, physical) =>
        delta, error := list.Move(from, count, to, tick, physical);
        if error.None? {
          MoveIntact(before, list.Now(), from, count, to, list.clock.replica, tick, physical,
            old(list.clock.Reading()));
          MoveView(before, list.Now(), from, count, to, list.clock.Reading());
        }
    }
    ok := error.None?;
  }

  lemma {:induction false} InsertIntact(s: MoveState, t: MoveState, o: int, ids: seq<Tag>, values: seq<Bytes>)
    requires InsertedInto(s, t, o, ids, values) && Intact(s)
    ensures Intact(t)
  {
    hide VisibleMoves, Intact, NoDup;
  }

  lemma {:induction false} DeleteIntact(s: MoveState, t: MoveState, o: int, count: int)
    requires DeletedFrom(s, t, o, count) && Intact(s)
    ensures Intact(t)
  {
    hide VisibleMoves, Intact;
  }

  /** In an intact state every move is exact. */
  lemma {:induction false} MoveIntact(s: MoveState, t: MoveState, from: int, count: int, to: int, replica: Bytes,
                                      tick: Millis, physical: Millis, now: Time)
    requires Intact(s) && ZERO !in s.nodes
    requires MoveOutcome(|VisibleMoves(s)|, from, count, to, replica, now, tick, physical).error.None?
    requires count == 0 || to == from ==> MovedIn(s, t, from, count, to)
    requires count > 0 && to != from ==> Relocated(s, t, from, count, to)
    ensures MovedIn(s, t, from, count, to) && Intact(t) && count >= 0
  {
    hide VisibleMoves, Intact, Spliced, LeavesAlone, SameOutside, AttachedOutside;
  }

  /** The deltas take each state to the next. */
  ghost predicate Handed(deltas: seq<MoveDelta>, states: seq<MoveState>) {
    |states| == |deltas| + 1 && forall i :: 0 <= i < |deltas| ==> Delivers(states[i], deltas[i].part, states[i + 1])
  }

  lemma {:induction false} HandedNext(deltas: seq<MoveDelta>, states: seq<MoveState>, d: MoveDelta, t: MoveState)
    requires Handed(deltas, states) && Delivers(states[|deltas|], d.part, t)
    ensures Handed(deltas + [d], states + [t])
  {
    hide Delivers;
  }

  ghost function PartsOf(deltas: seq<MoveDelta>): seq<MoveState> {
    seq(|deltas|, i requires 0 <= i < |deltas| => deltas[i].part)
  }

  /** A peer that accepts the deltas of a session in any order, repetition or batching ends in the same state. */
  lemma {:induction false} PeersAgree(deltas: seq<MoveDelta>, states: seq<MoveState>, es: seq<MoveState>,
                                      ts: seq<MoveState>)
    requires Handed(deltas, states) && states[0] == BLANK && MoveRun(es, ts) && SameContent(PartsOf(deltas), es)
    ensures ts[|es|] == states[|deltas|]
  {
    hide Delivers, SameContent;
    assert MoveRun(PartsOf(deltas), states);
    MoveDeliveryConverges(PartsOf(deltas), es, states, ts);
  }

  /**
    A whole run of edits is the run of the plain sequence, no attachment is ever dropped, and the deltas handed out are
    what takes the list from each state to the next.
   */
  method Session(list: MoveRga, edits: seq<Edit>)
    returns (done: seq<bool>, deltas: seq<MoveDelta>, ghost states: seq<MoveState>)
    requires list.Valid() && Intact(list.Now()) && AllTicked(edits)
    modifies list, list.clock
    ensures list.Valid() && Intact(list.Now())
    ensures ZERO !in old(list.Now()).nodes && ZERO !in list.Now().nodes
    ensures (View(list.Now(), list.clock.Reading()), done)
         == PlainRun(View(old(list.Now()), old(list.clock.Reading())), edits, list.options, list.clock.replica)
    ensures |deltas| == |edits| && Handed(deltas, states) && states[0] == old(list.Now())
    ensures states[|edits|] == list.Now()
  {
    hide VisibleMoves, Intact, View, MoveRga.Valid, PlainStep, Delivers, Handed;
    IntactCounts(list.Now());
    done, deltas, states := [], [], [list.Now()];
    assert Handed(deltas, states) by {
      NothingHanded(list.Now());
    }
    var i := 0;
    while i < |edits|
      invariant 0 <= i <= |edits| && list.Valid() && Intact(list.Now())
      invariant ZERO !in old(list.Now()).nodes && ZERO !in list.Now().nodes
      invariant (View(list.Now(), list.clock.Reading()), done)
             == PlainRun(View(old(list.Now()), old(list.clock.Reading())), edits[..i], list.options, list.clock.replica)
      invariant |deltas| == i && |states| == i + 1 && Handed(deltas, states) && states[0] == old(list.Now())
      invariant states[i] == list.Now()
    {
      assert edits[i] in edits;
      var ok, delta := Perform(list, edits[i]);
      assert edits[..i + 1][..i] == edits[..i];
      HandedNext(deltas, states, delta, list.Now());
      done, deltas, states := done + [ok], deltas + [delta], states + [list.Now()];
      i := i + 1;
    }
    assert edits[..i] == edits;
  }

  lemma {:induction false} NothingHanded(s: MoveState)
    ensures Handed([], [s])
  {
  }

  /**
    One replica edits, another in the same state takes its delta: it shows the same list, unless its clock cannot
    pass the delta.
   */
  method Mirror(a: MoveRga, b: MoveRga, e: Edit, physical: Millis) returns (ok: bool, error: Option<Error>)
    requires a != b && a.clock != b.clock && a.Valid() && b.Valid() && Intact(a.Now()) && Ticked(e)
    requires b.Now() == a.Now() && b.codecID == a.codecID && b.options == a.options
    modifies a, a.clock, b, b.clock
    ensures a.Valid() && b.Valid() && Intact(a.Now())
    ensures !ok ==> error.None?
    ensures error.None? ==> b.Now() == a.Now()
    ensures error.Some? ==> error == Some(ClockError) && b.Now() == old(b.Now())
  {
    hide VisibleMoves, Intact, View, MoveRga.Valid, PlainStep, MoveVerdict, MoveScreen, MoveTags, Delivers, MoveWelcome;
    var delta;
    ok, delta := Perform(a, e);
    error := None;
    if ok {
      PeerFollows(old(a.Now()), a.Now(), delta, b.codecID, b.options, b.clock.Reading(), physical);
      error := b.ApplyDelta(delta, physical);
    }
  }
}
