/** The hybrid logical clock that issues mutation tags. */
module Clocks {
  import opened Tags

  /** A reading of the clock, ordered by wall time and then by the logical counter. */
  datatype Time = Time(wall: Uint64, logical: Uint64)

  predicate Before(a: Time, b: Time) {
    a.wall < b.wall || (a.wall == b.wall && a.logical < b.logical)
  }

  predicate NotAfter(a: Time, b: Time) {
    a == b || Before(a, b)
  }

  function TimeOf(t: Tag): Time {
    Time(t.wall, t.logical)
  }

  /** The least reading after t; there is none after the last one. */
  function NextTimestamp(t: Time): (r: Option<Time>)
    ensures r.None? <==> t == Time(MAX_UINT64, MAX_UINT64)
    ensures r.Some? ==> Before(t, r.value) && forall u: Time :: Before(t, u) ==> NotAfter(r.value, u)
  {
    if t.logical != MAX_UINT64 then Some(Time(t.wall, t.logical + 1))
    else if t.wall == MAX_UINT64 then None
    else Some(Time(t.wall + 1, 0))
  }

  /** Milliseconds since the epoch, as read from the operating system. */
  type Millis = x: int | -0x8000_0000_0000_0000 <= x <= 0x7FFF_FFFF_FFFF_FFFF

  datatype ClockEvent = Issue(physical: Millis) | Observe(remote: Tag, physical: Millis)

  /** The reading after an event, or None when the event fails and the clock stays as it is. */
  function Advance(now: Time, e: ClockEvent): Option<Time> {
    if e.physical < 0 then None
    else
      match e
      case Issue(physical) =>
        if physical > now.wall then Some(Time(physical, 0)) else NextTimestamp(now)
      case Observe(remote, physical) =>
        if !remote.Valid() then None
        else
          var wall := if now.wall >= remote.wall then now.wall else remote.wall;
          if physical > wall then Some(Time(physical, 0))
          else if now.wall == remote.wall
            then NextTimestamp(Time(wall, if now.logical >= remote.logical then now.logical else remote.logical))
          else if wall == now.wall then NextTimestamp(now)
          else NextTimestamp(TimeOf(remote))
  }

  /** Whatever the physical clock says, a successful event moves past the clock and past the observed tag. */
  lemma {:induction false} AdvanceMoves(now: Time, e: ClockEvent)
    requires Advance(now, e).Some?
    ensures Before(now, Advance(now, e).value)
    ensures e.Observe? ==> Before(TimeOf(e.remote), Advance(now, e).value)
  {
  }

  /** A reading that an event may lead to: after the clock and the observed tag, and not behind the physical clock. */
  ghost predicate Later(now: Time, e: ClockEvent, u: Time) {
    && e.physical >= 0 && Before(now, u) && NotAfter(Time(e.physical, 0), u)
    && (e.Observe? ==> e.remote.Valid() && Before(TimeOf(e.remote), u))
  }

  /** The least such reading. */
  ghost predicate Earliest(now: Time, e: ClockEvent, t: Time) {
    Later(now, e, t) && forall u :: Later(now, e, u) ==> NotAfter(t, u)
  }

  /** A step goes to the earliest reading allowed, and fails exactly when there is none. */
  lemma {:induction false} AdvanceEarliest(now: Time, e: ClockEvent)
    ensures Advance(now, e).Some? ==> Earliest(now, e, Advance(now, e).value)
    ensures Advance(now, e).None? <==> forall u :: !Later(now, e, u)
  {
    hide Tag.Valid;
    var last := Time(MAX_UINT64, MAX_UINT64);
    forall u ensures NotAfter(u, last) {
    }
    if Advance(now, e).Some? {
      assert Later(now, e, Advance(now, e).value);
    }
  }

  /** What is left when a step fails: a clock before the epoch, an invalid tag, or the last reading reached. */
  lemma {:induction false} AdvanceFails(now: Time, e: ClockEvent)
    ensures Advance(now, e).None? <==>
      || e.physical < 0 || now == Time(MAX_UINT64, MAX_UINT64)
      || (e.Observe? && (!e.remote.Valid() || TimeOf(e.remote) == Time(MAX_UINT64, MAX_UINT64)))
  {
    hide Tag.Valid;
  }

  // ----- runs -----

  function After(now: Time, e: ClockEvent): Time {
    if Advance(now, e).Some? then Advance(now, e).value else now
  }

  /** The clock after a run of events. */
  function RunClock(now: Time, events: seq<ClockEvent>): Time
    decreases |events|
  {
    if events == [] then now else RunClock(After(now, events[0]), events[1..])
  }

  /** The tag that a successful event issues or observes. */
  function Met(replica: Bytes, now: Time, e: ClockEvent): Option<Tag> {
    if Advance(now, e).None? then None
    else if e.Observe? then Some(e.remote)
    else Some(Tag(replica, Advance(now, e).value.wall, Advance(now, e).value.logical))
  }

  /**
    Tags issued one after the other at these physical readings, up to the first failure; the clock then, and whether
    none failed.
   */
  function IssueAll(replica: Bytes, now: Time, ticks: seq<Millis>): (r: (seq<Tag>, Time, bool))
    ensures r.2 ==> |r.0| == |ticks|
    decreases |ticks|
  {
    if ticks == [] then ([], now, true)
    else
      var n := |ticks| - 1;
      var (ids, before, ok) := IssueAll(replica, now, ticks[..n]);
      if !ok then (ids, before, false)
      else
        match Advance(before, Issue(ticks[n]))
        case None => (ids, before, false)
        case Some(after) => (ids + [Tag(replica, after.wall, after.logical)], after, true)
  }

  lemma {:induction false} IssuePrefix(replica: Bytes, now: Time, ticks: seq<Millis>, n: nat)
    requires n <= |ticks| && !IssueAll(replica, now, ticks[..n]).2
    ensures IssueAll(replica, now, ticks) == IssueAll(replica, now, ticks[..n])
  {
    if n < |ticks| {
      assert ticks[..|ticks| - 1][..n] == ticks[..n];
      IssuePrefix(replica, now, ticks[..|ticks| - 1], n);
    } else {
      assert ticks[..n] == ticks;
    }
  }

  lemma {:induction false} RunForward(now: Time, events: seq<ClockEvent>)
    ensures NotAfter(now, RunClock(now, events))
    decreases |events|
  {
    if events != [] {
      if Advance(now, events[0]).Some? {
        AdvanceMoves(now, events[0]);
      }
      RunForward(After(now, events[0]), events[1..]);
    }
  }

  /** In every run, an issued tag exceeds every tag that was issued or observed before it. */
  lemma {:induction false} IssuedTagsIncrease(replica: Bytes, start: Time, events: seq<ClockEvent>, i: int, j: int)
    requires 0 <= i < j < |events| && events[j].Issue?
    requires Met(replica, RunClock(start, events[..i]), events[i]).Some?
    requires Met(replica, RunClock(start, events[..j]), events[j]).Some?
    ensures Less(Met(replica, RunClock(start, events[..i]), events[i]).value,
                 Met(replica, RunClock(start, events[..j]), events[j]).value)
  {
    var early, late := RunClock(start, events[..i]), RunClock(start, events[..j]);
    AdvanceMoves(early, events[i]);
    AdvanceMoves(late, events[j]);
    RunConcat(start, events[..i], events[i..j]);
    assert events[..j] == events[..i] + events[i..j];
    assert events[i..j][0] == events[i];
    RunForward(After(early, events[i]), events[i..j][1..]);
  }

  lemma {:induction false} RunConcat(now: Time, a: seq<ClockEvent>, b: seq<ClockEvent>)
    ensures RunClock(now, a + b) == RunClock(RunClock(now, a), b)
    decreases |a|
  {
    if a == [] {
      assert a + b == b;
    } else {
      RunConcat(After(now, a[0]), a[1..], b);
      assert (a + b)[1..] == a[1..] + b;
    }
  }

  // ----- the clock object -----

  class HLC {
    const replica: Bytes
    var wallTime: Uint64
    var logical: Uint64

    constructor (replica: Bytes, state: Time)
      requires Tag(replica, 0, 0).Valid()
      ensures this.replica == replica && Reading() == state
    {
      this.replica, wallTime, logical := replica, state.wall, state.logical;
    }

    ghost function Reading(): Time
      reads this
    {
      Time(wallTime, logical)
    }

    method Now(physical: Millis) returns (tag: Option<Tag>)
      modifies this
      ensures Reading() == After(old(Reading()), Issue(physical))
      ensures tag.Some? <==> exists u :: Later(old(Reading()), Issue(physical), u)
      ensures tag.Some? ==> Earliest(old(Reading()), Issue(physical), Reading())
      ensures tag.Some? ==> tag.value == Tag(replica, wallTime, logical)
      ensures tag.None? ==> Reading() == old(Reading())
      ensures tag == Met(replica, old(Reading()), Issue(physical))
    {
      AdvanceEarliest(Reading(), Issue(physical));
      hide Later, Earliest;
      if physical < 0 {
        return None;
      }
      if physical > wallTime {
        wallTime := physical;
        logical := 0;
      } else {
        var next := NextTimestamp(Time(wallTime, logical));
        if next.None? {
          return None;
        }
        wallTime := next.value.wall;
        logical := next.value.logical;
      }
      return Some(Tag(replica, wallTime, logical));
    }

    method Witness(remote: Tag, physical: Millis) returns (ok: bool)
      modifies this
      ensures Reading() == After(old(Reading()), Observe(remote, physical))
      ensures ok <==> Advance(old(Reading()), Observe(remote, physical)).Some?
      ensures ok <==> exists u :: Later(old(Reading()), Observe(remote, physical), u)
      ensures ok ==> Earliest(old(Reading()), Observe(remote, physical), Reading())
      ensures !ok ==> Reading() == old(Reading())
    {
      AdvanceEarliest(Reading(), Observe(remote, physical));
      hide Later, Earliest;
      if !remote.Valid() || physical < 0 {
        return false;
      }
      var maxWall: Uint64 := if wallTime >= remote.wall then wallTime else remote.wall;
      maxWall := if maxWall >= physical then maxWall else physical;
      var next := Some(Time(maxWall, 0));
      if maxWall == wallTime && maxWall == remote.wall {
        next := NextTimestamp(Time(maxWall, if logical >= remote.logical then logical else remote.logical));
      } else if maxWall == wallTime {
        next := NextTimestamp(Time(wallTime, logical));
      } else if maxWall == remote.wall {
        next := NextTimestamp(Time(remote.wall, remote.logical));
      }
      if next.None? {
        return false;
      }
      wallTime := next.value.wall;
      logical := next.value.logical;
      return true;
    }
  }
}
