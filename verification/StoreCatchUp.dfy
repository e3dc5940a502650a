/** Catch-up against a frontier: exactly the events whose counter exceeds the frontier's, in log order. */
module StoreCatchUps {
  import opened Tags
  import opened Merkles
  import opened Changes
  import opened Logs
  import opened Stores
  import opened StoreReads

  /** A reader's installed prefix of every actor. */
  type Frontier = map<Bytes, Uint64>

  predicate FrontierValid(v: Frontier) {
    forall actor :: actor in v ==> !Blank(actor) && v[actor] != 0
  }

  function Counter(v: Frontier, actor: Bytes): Uint64 {
    if actor in v then v[actor] else 0
  }

  ghost predicate IsMissing(log: seq<Entry>, v: Frontier, i: int) {
    0 <= i < |log| && log[i].change.dot.counter > Counter(v, log[i].change.dot.actor)
  }

  /** The entries the reader lacks. */
  ghost function Missing(log: seq<Entry>, v: Frontier): set<nat> {
    set i: nat | i < |log| && IsMissing(log, v, i)
  }

  /** The entries of one actor beyond a counter. */
  ghost function ActorMissing(log: seq<Entry>, actor: Bytes, current: Uint64): set<nat> {
    set i: nat | i < |log| && log[i].change.dot.actor == actor && log[i].change.dot.counter > current
  }

  /** The reader does not claim more than the log has. */
  ghost predicate Covered(log: seq<Entry>, v: Frontier) {
    forall actor :: actor in v ==> exists i ::
      0 <= i < |log| && log[i].change.dot.actor == actor && log[i].change.dot.counter >= v[actor]
  }

  // ----- choosing entries -----

  /** The envelope bytes of the chosen entries. */
  ghost function Weight(log: seq<Entry>, chosen: set<nat>): nat {
    if log == [] then 0
    else Weight(log[..|log| - 1], chosen) + if |log| - 1 in chosen then |Envelope(log[|log| - 1].change)| else 0
  }

  /** The chosen entries, in log order. */
  ghost function Pick(log: seq<Entry>, chosen: set<nat>): seq<Event> {
    if log == [] then []
    else Pick(log[..|log| - 1], chosen) + if |log| - 1 in chosen then [Event(|log|, log[|log| - 1].change, None)]
      else []
  }

  lemma {:induction false} WeightAdd(log: seq<Entry>, chosen: set<nat>, i: nat)
    requires i !in chosen
    ensures Weight(log, chosen + {i}) == Weight(log, chosen) + if i < |log| then |Envelope(log[i].change)| else 0
  {
    hide Envelope;
    if log != [] {
      WeightAdd(log[..|log| - 1], chosen, i);
    }
  }

  lemma {:induction false} WeightMonotone(log: seq<Entry>, a: set<nat>, b: set<nat>)
    requires a <= b
    ensures Weight(log, a) <= Weight(log, b)
  {
    hide Envelope;
    if log != [] {
      WeightMonotone(log[..|log| - 1], a, b);
    }
  }

  ghost predicate Ascending(events: seq<Event>) {
    forall i, j :: 0 <= i < j < |events| ==> events[i].sequence < events[j].sequence
  }

  ghost predicate NumberedOnce(events: seq<Event>) {
    forall i, j :: 0 <= i < j < |events| ==> events[i].sequence != events[j].sequence
  }

  /** The events are those of the chosen entries, each once. */
  ghost predicate Gathered(log: seq<Entry>, chosen: set<nat>, events: seq<Event>) {
    && |events| == |chosen| && NumberedOnce(events)
    && (forall i :: i in chosen ==> i < |log| && Event(i + 1, log[i].change, None) in events)
    && (forall e :: e in events ==>
      1 <= e.sequence && e.sequence - 1 in chosen && e == Event(e.sequence, log[e.sequence - 1].change, None))
  }

  lemma {:induction false} PickIs(log: seq<Entry>, chosen: set<nat>)
    ensures Ascending(Pick(log, chosen))
    ensures forall e :: e in Pick(log, chosen) <==>
      1 <= e.sequence <= |log| && e.sequence - 1 in chosen && e == Event(e.sequence, log[e.sequence - 1].change, None)
  {
    if log != [] {
      var front, n := log[..|log| - 1], |log|;
      PickIs(front, chosen);
      var p, all := Pick(front, chosen), Pick(log, chosen);
      if n - 1 in chosen {
        assert all == p + [Event(n, log[n - 1].change, None)];
        forall i, j | 0 <= i < j < |all| ensures all[i].sequence < all[j].sequence {
          assert p[i] in p;
        }
      } else {
        assert all == p;
      }
    }
  }

  lemma {:induction false} SomeElement(s: seq<Event>)
    ensures s == [] || exists e :: e in s
  {
    if s != [] {
      assert s[0] in s;
    }
  }

  lemma {:induction false} TailIn(a: seq<Event>, b: seq<Event>, e: Event)
    requires Ascending(a) && a != [] && b != [] && a[0] == b[0] && e in a[1..] && (e in a ==> e in b)
    ensures e in b[1..]
  {
    var x :| 0 <= x < |a[1..]| && a[1..][x] == e;
    assert a[x + 1] == e;
    var y :| 0 <= y < |b| && b[y] == e;
    assert b[1..][y - 1] == e;
  }

  lemma {:induction false} SameFirst(a: seq<Event>, b: seq<Event>)
    requires Ascending(a) && Ascending(b) && a != [] && b != [] && forall e :: e in a <==> e in b
    ensures a[0] == b[0]
  {
    assert a[0] in b && b[0] in a;
    var j :| 0 <= j < |b| && b[j] == a[0];
    var k :| 0 <= k < |a| && a[k] == b[0];
  }

  /** Events in ascending order are determined by which they are. */
  lemma {:induction false} AscendingUnique(a: seq<Event>, b: seq<Event>)
    requires Ascending(a) && Ascending(b) && forall e :: e in a <==> e in b
    ensures a == b
  {
    SomeElement(a);
    SomeElement(b);
    if a != [] && b != [] {
      SameFirst(a, b);
      forall e ensures e in a[1..] <==> e in b[1..] {
        if e in a[1..] {
          TailIn(a, b, e);
        }
        if e in b[1..] {
          TailIn(b, a, e);
        }
      }
      AscendingUnique(a[1..], b[1..]);
      assert a == [a[0]] + a[1..] && b == [b[0]] + b[1..];
    }
  }

  /** Sort events by sequence number. */
  method SortBySequence(events: seq<Event>) returns (sorted: seq<Event>)
    requires NumberedOnce(events)
    ensures Ascending(sorted) && forall e :: e in sorted <==> e in events
  {
    sorted := [];
    var n := 0;
    while n < |events|
      invariant 0 <= n <= |events| && Ascending(sorted)
      invariant forall e :: e in sorted <==> e in events[..n]
    {
      var e := events[n];
      assert forall x :: x in sorted ==> x.sequence != e.sequence;
      assert events[..n + 1] == events[..n] + [e];
      sorted := InsertBySequence(sorted, e);
      n := n + 1;
    }
    assert events[..n] == events;
  }

  method InsertBySequence(sorted: seq<Event>, e: Event) returns (r: seq<Event>)
    requires Ascending(sorted) && forall x :: x in sorted ==> x.sequence != e.sequence
    ensures Ascending(r) && forall x :: x in r <==> x in sorted || x == e
  {
    var at := 0;
    while at < |sorted| && sorted[at].sequence < e.sequence
      invariant 0 <= at <= |sorted| && forall j :: 0 <= j < at ==> sorted[j].sequence < e.sequence
    {
      at := at + 1;
    }
    assert at < |sorted| ==> sorted[at] in sorted;
    r := sorted[..at] + [e] + sorted[at..];
    InsertedAscending(sorted, e, at);
    hide Ascending;
    assert sorted == sorted[..at] + sorted[at..];
  }

  lemma {:induction false} InsertedAscending(sorted: seq<Event>, e: Event, at: nat)
    requires Ascending(sorted) && at <= |sorted| && (at < |sorted| ==> e.sequence < sorted[at].sequence)
    requires forall j :: 0 <= j < at ==> sorted[j].sequence < e.sequence
    ensures Ascending(sorted[..at] + [e] + sorted[at..])
  {
    var r := sorted[..at] + [e] + sorted[at..];
    forall i, j | 0 <= i < j < |r| ensures r[i].sequence < r[j].sequence {
      var a, b := if i < at then i else i - 1, if j < at then j else j - 1;
      if i != at && j != at {
        assert sorted[a].sequence < sorted[b].sequence;
      } else if i == at && j > at + 1 {
        assert sorted[at].sequence < sorted[b].sequence;
      }
    }
  }

  // ----- collecting one actor's events -----

  /** The whole set is within the reader's budget. */
  ghost predicate CanSend(log: seq<Entry>, chosen: set<nat>, limits: ReadLimits, admits: Change -> bool) {
    && |chosen| <= limits.maxEvents && Weight(log, chosen) <= limits.maxBytes
    && forall i :: i in chosen ==> i < |log| && Sendable(log[i].change, limits, admits)
  }

  predicate Sendable(c: Change, limits: ReadLimits, admits: Change -> bool) {
    Fits(c, limits, admits) && |c.dot.actor| <= MAX_STRING_BYTES
  }

  /** What has been gathered so far, out of all that has to be sent. */
  ghost predicate Progress(log: seq<Entry>, got: set<nat>, all: set<nat>, events: seq<Event>, used: Uint64,
                           limits: ReadLimits)
  {
    got <= all && Gathered(log, got, events) && used == Weight(log, got) && used <= limits.maxBytes
      && |got| <= limits.maxEvents
  }

  lemma {:induction false} SubsetSize(a: set<nat>, b: set<nat>)
    requires a <= b
    ensures |a| <= |b|
  {
    if a != {} {
      var x :| x in a;
      SubsetSize(a - {x}, b - {x});
    }
  }

  lemma {:induction false} NumberedOneMore(events: seq<Event>, e: Event)
    requires NumberedOnce(events) && forall x :: x in events ==> x.sequence != e.sequence
    ensures NumberedOnce(events + [e])
  {
    assert forall k :: 0 <= k < |events| ==> events[k] in events;
  }

  lemma {:induction false} GatheredOne(log: seq<Entry>, got: set<nat>, events: seq<Event>, i: nat)
    requires Gathered(log, got, events) && i < |log| && i !in got
    ensures Gathered(log, got + {i}, events + [Event(i + 1, log[i].change, None)])
  {
    hide NumberedOnce;
    forall e | e in events ensures e.sequence != i + 1 {
    }
    NumberedOneMore(events, Event(i + 1, log[i].change, None));
  }

  /** One more event over the budget means the whole set is over it. */
  lemma {:induction false} OverBudget(log: seq<Entry>, got: set<nat>, all: set<nat>, i: nat, limits: ReadLimits,
                                      admits: Change -> bool)
    requires got <= all && i in all - got && i < |log|
    requires !Sendable(log[i].change, limits, admits) || |got| >= limits.maxEvents
      || Weight(log, got) + |Envelope(log[i].change)| > limits.maxBytes
    ensures !CanSend(log, all, limits, admits)
  {
    hide Sendable, Envelope;
    WeightAdd(log, got, i);
    WeightMonotone(log, got + {i}, all);
    SubsetSize(got + {i}, all);
  }

  /** One key of the dot bucket: look up its event and add it, within the budget. */
  method CollectOne(b: Buckets, ghost log: Sized, key: Bytes, actor: Bytes, maximum: Uint64, limits: ReadLimits,
                    admits: Change -> bool, events: seq<Event>, used: Uint64, ghost got: set<nat>, ghost all: set<nat>)
    returns (error: Option<StoreError>, after: seq<Event>, usedAfter: Uint64)
    requires InStep(b, log) && WellFormed(log) && limits.Valid() && Progress(log, got, all, events, used, limits)
    requires key in b.dots && KeyIndex(log, key) in all - got
    requires var dot := log[KeyIndex(log, key)].change.dot; dot.actor == actor && dot.counter <= maximum
    ensures error.None? ==> Progress(log, got + {KeyIndex(log, key)}, all, after, usedAfter, limits)
    ensures error.None? ==> Sendable(log[KeyIndex(log, key)].change, limits, admits)
    ensures error.Some? ==>
      !CanSend(log, all, limits, admits) && (error.value.ReplayUnavailable? || error.value.CorruptStore?)
  {
    hide EventsOf, DotsOf, HlcsOf, HlcIndexOf, TotalBytes, LastTag, ActorMaxima, Envelope, SequenceKey, UnmarshalChange,
      DotsDistinct, TagsGrow, EntryOk;
    hide Weight, DotKey, DotFromKey, Find, Gathered, Encodable, Digest, CanSend;
    after, usedAfter := events, used;
    ghost var i := KeyIndex(log, key);
    ghost var c := log[i].change;
    assert EntryOk(log[i]);
    EntryNamed(log[i]);
    DotFromOwnKey(c.dot);
    GatheredSize(log, got, events);
    var dot := DotFromKey(key);
    if dot.None? || dot.value.actor != actor || dot.value.counter > maximum {
      OverBudget(log, got, all, i, limits, admits);
      return Some(CorruptStore), after, usedAfter;
    }
    assert Holds(log, c.dot, i);
    DotAt(log, c.dot);
    var sequence := b.dots[key].sequence;
    EventAt(log, sequence);
    if SequenceKey(sequence) !in b.events || |b.events[SequenceKey(sequence)]| > limits.maxBytes - used
       || |b.events[SequenceKey(sequence)]| > limits.maxMessage || |events| >= limits.maxEvents {
      OverBudget(log, got, all, i, limits, admits);
      return Some(ReplayUnavailable), after, usedAfter;
    }
    var encoded := b.events[SequenceKey(sequence)];
    Decodes(log[i], limits);
    var decoded := UnmarshalChange(encoded, limits.maxMessage, limits.maxActor);
    if decoded.None? || decoded.value.dot != dot.value || !admits(decoded.value) {
      OverBudget(log, got, all, i, limits, admits);
      return Some(CorruptStore), after, usedAfter;
    }
    after := events + [Event(sequence, decoded.value, None)];
    usedAfter := used + |encoded|;
    GatheredOne(log, got, events, i);
    WeightAdd(log, got, i);
    return None, after, usedAfter;
  }

  lemma {:induction false} EntryNamed(e: Entry)
    requires EntryOk(e)
    ensures !Blank(e.change.dot.actor) && e.change.dot.counter != 0
  {
  }

  lemma {:induction false} GatheredSize(log: seq<Entry>, got: set<nat>, events: seq<Event>)
    requires Gathered(log, got, events)
    ensures |events| == |got|
  {
  }

  // ----- one actor's range of keys -----

  /** The keys of the dot bucket in cursor order. */
  ghost predicate CursorKeys(log: Sized, keys: seq<Bytes>) {
    Sorted(ByKey, keys) && forall k :: k in keys <==> k in DotsOf(log)
  }

  ghost function IndexAt(log: Sized, keys: seq<Bytes>, j: int): (i: nat)
    requires CursorKeys(log, keys) && 0 <= j < |keys|
    ensures i < |log| && keys[j] == DotKey(log[i].change.dot)
  {
    assert keys[j] in keys;
    KeyIndex(log, keys[j])
  }

  /** The entries whose keys lie in a range of the cursor. */
  ghost function Visited(log: Sized, keys: seq<Bytes>, start: nat, at: nat): set<nat>
    requires CursorKeys(log, keys) && start <= at <= |keys|
  {
    set j | start <= j < at :: IndexAt(log, keys, j)
  }

  lemma {:induction false} VisitStep(log: Sized, keys: seq<Bytes>, start: nat, at: nat)
    requires CursorKeys(log, keys) && start <= at < |keys|
    ensures Visited(log, keys, start, at + 1) == Visited(log, keys, start, at) + {IndexAt(log, keys, at)}
    ensures IndexAt(log, keys, at) !in Visited(log, keys, start, at)
  {
    hide DotKey, ByKey, DotsOf, IndexAt;
    KeysOrdered();
    forall j | start <= j < at ensures IndexAt(log, keys, j) != IndexAt(log, keys, at) {
      assert ByKey(keys[j], keys[at]);
    }
  }

  /** A key from the seek position on, with the actor's prefix, is one the reader lacks. */
  lemma {:induction false} KeyMissing(actor: Bytes, current: Uint64, dot: Dot)
    requires current < MAX_UINT64 && DotPrefix(actor) <= DotKey(dot)
    requires !ByKey(DotKey(dot), DotKey(Dot(actor, current + 1)))
    ensures dot.actor == actor && dot.counter > current
  {
    hide DotKey, ByKey, DotPrefix;
    DotKeyPrefix(actor, dot);
    DotKeyOrder(actor, dot.counter, current + 1);
  }

  /** A key the reader lacks comes before the end of the actor's range. */
  lemma {:induction false} MissingInRange(log: Sized, keys: seq<Bytes>, actor: Bytes, current: Uint64, start: nat,
                                          at: nat, i: nat)
    requires CursorKeys(log, keys) && DotsDistinct(log) && current < MAX_UINT64 && start <= at <= |keys|
    requires forall j :: 0 <= j < start ==> ByKey(keys[j], DotKey(Dot(actor, current + 1)))
    requires forall j :: start <= j < |keys| ==> !ByKey(keys[j], DotKey(Dot(actor, current + 1)))
    requires at < |keys| ==> !(DotPrefix(actor) <= keys[at])
    requires i in ActorMissing(log, actor, current)
    ensures i in Visited(log, keys, start, at)
  {
    hide DotKey, ByKey, DotPrefix, DotsOf, KeyIndex, Find;
    KeysOrdered();
    var dot := log[i].change.dot;
    assert Holds(log, dot, i);
    DotAt(log, dot);
    var j :| 0 <= j < |keys| && keys[j] == DotKey(dot);
    DotKeyOrder(actor, dot.counter, current + 1);
    DotKeyPrefix(actor, dot);
    DotKeyPrefix(actor, Dot(actor, current + 1));
    if at <= j {
      assert at < j ==> ByKey(keys[at], keys[j]);
      PrefixContiguous(DotPrefix(actor), DotKey(Dot(actor, current + 1)), keys[at], keys[j]);
    }
    DotKeyInjective(log[IndexAt(log, keys, j)].change.dot, dot);
  }

  /** Everything gathered so far can be sent. */
  ghost predicate Sent(log: seq<Entry>, got: set<nat>, limits: ReadLimits, admits: Change -> bool) {
    forall i :: i in got ==> i < |log| && Sendable(log[i].change, limits, admits)
  }

  /** Seek to the actor's first missing dot and gather until the prefix ends. */
  method CollectActor(b: Buckets, ghost log: Sized, keys: seq<Bytes>, actor: Bytes, maximum: Uint64, current: Uint64,
                      limits: ReadLimits, admits: Change -> bool, events: seq<Event>, used: Uint64, ghost got: set<nat>,
                      ghost all: set<nat>)
    returns (error: Option<StoreError>, after: seq<Event>, usedAfter: Uint64)
    requires InStep(b, log) && WellFormed(log) && limits.Valid() && Progress(log, got, all, events, used, limits)
    requires Sent(log, got, limits, admits)
    requires CursorKeys(log, keys) && current < maximum
    requires forall i :: i in ActorMissing(log, actor, current) ==>
      i in all - got && log[i].change.dot.counter <= maximum
    ensures error.None? ==> Progress(log, got + ActorMissing(log, actor, current), all, after, usedAfter, limits)
    ensures error.None? ==> Sent(log, got + ActorMissing(log, actor, current), limits, admits)
    ensures error.Some? ==>
      !CanSend(log, all, limits, admits) && (error.value.ReplayUnavailable? || error.value.CorruptStore?)
  {
    hide InStep, WellFormed, Weight, Gathered, Envelope, CanSend, Sendable, DotKey, DotPrefix, ByKey, Visited, KeyIndex;
    hide Progress, Sent, CursorKeys, StrictTotalOrder;
    KeysOrdered();
    CursorSorted(log, keys);
    var first := DotKey(Dot(actor, current + 1));
    var at := Seek(keys, first);
    ghost var start := at;
    after, usedAfter := events, used;
    ghost var seen := got;
    NothingVisited(log, keys, start);
    while at < |keys| && DotPrefix(actor) <= keys[at]
      invariant start <= at <= |keys|
      invariant seen == got + Visited(log, keys, start, at)
      invariant Visited(log, keys, start, at) <= ActorMissing(log, actor, current)
      invariant Progress(log, seen, all, after, usedAfter, limits) && Sent(log, seen, limits, admits)
    {
      ghost var i := IndexAt(log, keys, at);
      KeyMissing(actor, current, log[i].change.dot);
      VisitStep(log, keys, start, at);
      KeyBound(b, log, keys, at);
      error, after,
        usedAfter := CollectOne(b, log, keys[at], actor, maximum, limits, admits, after, usedAfter, seen, all);
      if error.Some? {
        return;
      }
      SentOne(log, seen, i, limits, admits);
      seen := seen + {i};
      at := at + 1;
    }
    forall i | i in ActorMissing(log, actor, current) ensures i in Visited(log, keys, start, at) {
      WellFormedParts(log);
      MissingInRange(log, keys, actor, current, start, at, i);
    }
    assert Visited(log, keys, start, at) == ActorMissing(log, actor, current);
    error := None;
  }

  lemma {:induction false} CursorSorted(log: Sized, keys: seq<Bytes>)
    requires CursorKeys(log, keys)
    ensures Sorted(ByKey, keys)
  {
  }

  lemma {:induction false} SentOne(log: seq<Entry>, got: set<nat>, i: nat, limits: ReadLimits, admits: Change -> bool)
    requires Sent(log, got, limits, admits) && i < |log| && Sendable(log[i].change, limits, admits)
    ensures Sent(log, got + {i}, limits, admits)
  {
    hide Sendable;
  }

  lemma {:induction false} NothingVisited(log: Sized, keys: seq<Bytes>, start: nat)
    requires CursorKeys(log, keys) && start <= |keys|
    ensures Visited(log, keys, start, start) == {}
  {
  }

  lemma {:induction false} KeyBound(b: Buckets, log: Sized, keys: seq<Bytes>, j: nat)
    requires InStep(b, log) && CursorKeys(log, keys) && j < |keys|
    ensures keys[j] in b.dots && KeyIndex(log, keys[j]) == IndexAt(log, keys, j)
  {
    hide KeyIndex, EventsOf, HlcsOf, HlcIndexOf, TotalBytes, LastTag, ActorMaxima, DotsOf;
    assert keys[j] in keys;
  }

  // ----- catch-up -----

  /** The entries the reader lacks, of the actors already visited. */
  ghost function MissingOf(log: seq<Entry>, v: Frontier, actors: seq<Bytes>): set<nat> {
    set i: nat | i < |log| && IsMissing(log, v, i) && log[i].change.dot.actor in actors
  }

  lemma {:induction false} MissingOfStep(log: seq<Entry>, v: Frontier, actors: seq<Bytes>, n: nat)
    requires n < |actors|
    ensures MissingOf(log, v, actors[..n + 1])
         == MissingOf(log, v, actors[..n]) + ActorMissing(log, actors[n], Counter(v, actors[n]))
    ensures MissingOf(log, v, actors[..n + 1]) <= Missing(log, v)
  {
    assert actors[..n + 1] == actors[..n] + [actors[n]];
  }

  /** The reader's claims, checked against the actor index. */
  method CheckCovered(actors: map<Bytes, Uint64>, v: Frontier) returns (ok: bool)
    ensures ok <==> forall actor :: actor in v ==> actor in actors && v[actor] <= actors[actor]
    requires FrontierValid(v)
  {
    var rest := v.Keys;
    while rest != {}
      invariant rest <= v.Keys
      invariant forall actor :: actor in v && actor !in rest ==> actor in actors && v[actor] <= actors[actor]
      decreases |rest|
    {
      var actor :| actor in rest;
      if (if actor in actors then actors[actor] else 0) < v[actor] {
        return false;
      }
      rest := rest - {actor};
    }
    return true;
  }

  lemma {:induction false} CoveredIs(log: seq<Entry>, v: Frontier)
    requires forall i :: 0 <= i < |log| ==> log[i].change.dot.counter > 0
    ensures Covered(log, v) <==>
      forall actor :: actor in v ==> actor in ActorMaxima(log) && v[actor] <= ActorMaxima(log)[actor]
  {
    hide ActorMaxima;
    forall actor | actor in v
      ensures (actor in ActorMaxima(log) && v[actor] <= ActorMaxima(log)[actor]) <==>
        exists i :: 0 <= i < |log| && log[i].change.dot.actor == actor && log[i].change.dot.counter >= v[actor]
    {
      MaximaAreMaxima(log, actor);
    }
  }

  lemma {:induction false} DotsCursor(log: Sized, keys: seq<Bytes>)
    requires StrictTotalOrder(ByKey) && keys == SortSet(ByKey, DotsOf(log).Keys)
    ensures CursorKeys(log, keys)
  {
    hide ByKey, DotsOf;
    SortSetSorts(ByKey, DotsOf(log).Keys);
  }

  ghost predicate CountersPositive(log: seq<Entry>) {
    forall i :: 0 <= i < |log| ==> log[i].change.dot.counter > 0
  }

  lemma {:induction false} WellFormedCounters(log: seq<Entry>)
    requires WellFormed(log)
    ensures CountersPositive(log)
  {
    hide DotsDistinct, TagsGrow, Envelope, ValidUtf8, Blank;
    forall i | 0 <= i < |log| ensures log[i].change.dot.counter > 0 {
      assert EntryOk(log[i]);
    }
  }

  /** What the actor index says about one actor's missing entries. */
  lemma {:induction false} ActorMissingBelow(log: seq<Entry>, actor: Bytes, current: Uint64)
    requires CountersPositive(log) && actor in ActorMaxima(log)
    ensures forall i :: i in ActorMissing(log, actor, current) ==> log[i].change.dot.counter <= ActorMaxima(log)[actor]
    ensures ActorMaxima(log)[actor] <= current ==> ActorMissing(log, actor, current) == {}
  {
    hide ActorMaxima;
    MaximaAreMaxima(log, actor);
  }

  lemma {:induction false} NotYet(log: seq<Entry>, v: Frontier, actors: seq<Bytes>, n: nat)
    requires n < |actors| && NoDup(actors)
    ensures MissingOf(log, v, actors[..n]) !! ActorMissing(log, actors[n], Counter(v, actors[n]))
  {
  }

  lemma {:induction false} AllActors(log: seq<Entry>, v: Frontier, actors: seq<Bytes>)
    requires CountersPositive(log) && forall a :: a in ActorMaxima(log) ==> a in actors
    ensures MissingOf(log, v, actors) == Missing(log, v)
  {
    hide ActorMaxima;
    forall i | IsMissing(log, v, i) ensures log[i].change.dot.actor in actors {
      MaximaAreMaxima(log, log[i].change.dot.actor);
    }
  }

  /** Visit every actor of the index in key order. */
  method CollectAll(b: Buckets, ghost log: Sized, v: Frontier, limits: ReadLimits, admits: Change -> bool)
    returns (error: Option<StoreError>, events: seq<Event>)
    requires InStep(b, log) && WellFormed(log) && limits.Valid() && b.actors == ActorMaxima(log)
    ensures error.None? <==> CanSend(log, Missing(log, v), limits, admits)
    ensures error.None? ==> Gathered(log, Missing(log, v), events)
    ensures error.Some? ==> error.value.ReplayUnavailable? || error.value.CorruptStore?
  {
    hide WellFormed, Weight, Gathered, Envelope, CanSend, Sendable, ByKey, ActorMaxima, EventsOf, DotsOf, HlcsOf,
      HlcIndexOf, TotalBytes, LastTag;
    hide Progress, Sent, CursorKeys, MissingOf, ActorMissing, Missing, SortSet, StrictTotalOrder;
    KeysOrdered();
    var keys := SortKeys(ByKey, b.dots.Keys);
    DotsCursor(log, keys);
    var actors := SortKeys(ByKey, b.actors.Keys);
    ActorsListed(b.actors.Keys, actors);
    WellFormedCounters(log);
    events := [];
    var used: Uint64 := 0;
    var n := 0;
    NothingGathered(log, v, limits, admits);
    while n < |actors|
      invariant 0 <= n <= |actors|
      invariant Progress(log, MissingOf(log, v, actors[..n]), Missing(log, v), events, used, limits)
      invariant Sent(log, MissingOf(log, v, actors[..n]), limits, admits)
    {
      var actor := actors[n];
      assert actor in actors;
      var maximum, current := b.actors[actor], Counter(v, actor);
      if maximum == 0 {
        ActorPositive(log, actor);
        return Some(CorruptStore), events;
      }
      ActorMissingBelow(log, actor, current);
      MissingOfStep(log, v, actors, n);
      if maximum > current {
        NotYet(log, v, actors, n);
        ToGather(log, v, actors, n);
        error, events, used :=
          CollectActor(b, log, keys, actor, maximum, current, limits, admits, events, used,
            MissingOf(log, v, actors[..n]), Missing(log, v));
        if error.Some? {
          return;
        }
      } else {
        assert MissingOf(log, v, actors[..n + 1]) == MissingOf(log, v, actors[..n]);
      }
      n := n + 1;
    }
    assert actors[..n] == actors;
    AllActors(log, v, actors);
    AllSent(log, Missing(log, v), events, used, limits, admits);
    return None, events;
  }

  lemma {:induction false} ToGather(log: seq<Entry>, v: Frontier, actors: seq<Bytes>, n: nat)
    requires n < |actors| && MissingOf(log, v, actors[..n]) !! ActorMissing(log, actors[n], Counter(v, actors[n]))
    ensures forall i :: i in ActorMissing(log, actors[n], Counter(v, actors[n])) ==>
      i in Missing(log, v) - MissingOf(log, v, actors[..n])
  {
  }

  lemma {:induction false} ActorsListed(s: set<Bytes>, actors: seq<Bytes>)
    requires StrictTotalOrder(ByKey) && actors == SortSet(ByKey, s)
    ensures NoDup(actors) && forall a :: a in actors <==> a in s
  {
    hide ByKey;
    SortSetSorts(ByKey, s);
  }

  lemma {:induction false} ActorPositive(log: seq<Entry>, actor: Bytes)
    requires CountersPositive(log) && actor in ActorMaxima(log)
    ensures ActorMaxima(log)[actor] > 0
  {
    hide ActorMaxima;
    MaximaAreMaxima(log, actor);
  }

  lemma {:induction false} NothingGathered(log: seq<Entry>, v: Frontier, limits: ReadLimits, admits: Change -> bool)
    ensures Progress(log, MissingOf(log, v, []), Missing(log, v), [], 0, limits)
    ensures Sent(log, MissingOf(log, v, []), limits, admits)
  {
    hide Envelope, Sendable;
    assert MissingOf(log, v, []) == {};
    WeightNothing(log);
  }

  lemma {:induction false} WeightNothing(log: seq<Entry>)
    ensures Weight(log, {}) == 0
  {
    hide Envelope;
    if log != [] {
      WeightNothing(log[..|log| - 1]);
    }
  }

  lemma {:induction false} AllSent(log: seq<Entry>, all: set<nat>, events: seq<Event>, used: Uint64, limits: ReadLimits,
                                   admits: Change -> bool)
    requires Progress(log, all, all, events, used, limits) && Sent(log, all, limits, admits)
    ensures CanSend(log, all, limits, admits) && Gathered(log, all, events)
  {
    hide Weight, Sendable, Gathered;
  }

  lemma {:induction false} GatheredDistinct(log: seq<Entry>, all: set<nat>, events: seq<Event>)
    requires Gathered(log, all, events)
    ensures NumberedOnce(events)
  {
  }

  /** The result in sequence order is the missing part of the log. */
  lemma {:induction false} SortedIsPick(log: seq<Entry>, all: set<nat>, events: seq<Event>, sorted: seq<Event>)
    requires Gathered(log, all, events) && Ascending(sorted) && forall e :: e in sorted <==> e in events
    ensures sorted == Pick(log, all)
  {
    hide Pick;
    PickIs(log, all);
    forall e ensures e in sorted <==> e in Pick(log, all) {
    }
    AscendingUnique(sorted, Pick(log, all));
  }

  /** The complete set of events the frontier lacks, or nothing. */
  method CatchUp(store: GroupLog, v: Frontier, limits: ReadLimits, admits: Change -> bool)
    returns (r: Result<(seq<Event>, nat)>)
    requires store.Valid()
    modifies store`group
    ensures store.Valid()
    ensures r.Ok? <==>
      && limits.Valid() && FrontierValid(v) && old(store.Indexable())
      && Covered(store.log, v) && CanSend(store.log, Missing(store.log, v), limits, admits)
    ensures r.Ok? ==> r.value == (Pick(store.log, Missing(store.log, v)), |store.log|)
    ensures r == Err(InvalidConfig) <==> !limits.Valid() || !FrontierValid(v)
    ensures limits.Valid() && FrontierValid(v) && !old(store.Indexable()) ==> r == Err(CorruptStore)
    ensures limits.Valid() && FrontierValid(v) && old(store.Indexable()) && !Covered(store.log, v) ==>
      r == Err(ReplayUnavailable)
  {
    hide WellFormed, InStep, CanSend, Missing, Covered, Pick, FrontierValid, NamesShort, Gathered;
    if !limits.Valid() || !FrontierValid(v) {
      return Err(InvalidConfig);
    }
    var indexed := store.EnsureActorIndex();
    if !indexed {
      return Err(CorruptStore);
    }
    if store.group.None? {
      EmptyCaughtUp(v, limits, admits);
      if v.Keys != {} {
        return Err(ReplayUnavailable);
      }
      return Ok(([], 0));
    }
    var b := store.group.value;
    WellFormedCounters(store.log);
    Built(b, store.log);
    CoveredIs(store.log, v);
    var covered := CheckCovered(b.actors, v);
    if !covered {
      return Err(ReplayUnavailable);
    }
    var error, events := CollectAll(b, store.log, v, limits, admits);
    if error.Some? {
      return Err(error.value);
    }
    GatheredDistinct(store.log, Missing(store.log, v), events);
    var sorted := SortBySequence(events);
    SortedIsPick(store.log, Missing(store.log, v), events, sorted);
    return Ok((sorted, b.highWater));
  }

  lemma {:induction false} Built(b: Buckets, log: Sized)
    requires InStep(b, log) && b.actorIndex
    ensures b.actors == ActorMaxima(log) && b.highWater == |log|
  {
  }

  lemma {:induction false} EmptyCaughtUp(v: Frontier, limits: ReadLimits, admits: Change -> bool)
    requires limits.Valid()
    ensures Covered([], v) <==> v.Keys == {}
    ensures CanSend([], Missing([], v), limits, admits) && Pick([], Missing([], v)) == []
  {
    assert Missing([], v) == {};
    if v.Keys != {} {
      var a :| a in v.Keys;
      assert a in v;
    }
  }
}
