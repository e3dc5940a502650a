/** The durable store of one group: the buckets of a transactional key-value file, kept in step with the log. */
module Stores {
  import opened Tags
  import opened Wires
  import opened Clocks
  import opened Merkles
  import opened Changes
  import opened Logs
  import opened LogAnswers

  /** What a dot's key is bound to. */
  datatype Binding = Binding(sequence: Uint64, digest: Hash)

  function Digest(encoded: Bytes): Hash {
    Sha(Plain(encoded))
  }

  lemma {:induction false} DigestInjective(a: Bytes, b: Bytes)
    ensures Digest(a) == Digest(b) <==> a == b
  {
    if Plain(a) == Plain(b) {
      forall i | 0 <= i < |a| ensures a[i] == b[i] {
        assert Plain(a)[i] == Plain(b)[i];
      }
    }
  }

  /** The buckets of one group; a transaction replaces them all or not at all. */
  datatype Buckets = Buckets(
    events: map<Bytes, Bytes>, dots: map<Bytes, Binding>, actors: map<Bytes, Uint64>, hlcs: map<Bytes, Bytes>,
      hlcIndex: map<Bytes, Uint64>,
    highWater: Uint64, count: Uint64, usedBytes: Uint64, actorIndex: bool, hlcState: Bytes)

  const EMPTY := Buckets(map[], map[], map[], map[], map[], 0, 0, 0, false, [])

  // ----- the buckets a log stands for -----

  type Sized = log: seq<Entry> | |log| <= MAX_UINT64

  ghost function EventsOf(log: Sized): map<Bytes, Bytes> {
    if log == [] then map[]
    else EventsOf(log[..|log| - 1])[SequenceKey(|log|) := Envelope(log[|log| - 1].change)]
  }

  ghost function DotsOf(log: Sized): map<Bytes, Binding> {
    if log == [] then map[]
    else
      var c := log[|log| - 1].change;
      DotsOf(log[..|log| - 1])[DotKey(c.dot) := Binding(|log|, Digest(Envelope(c)))]
  }

  ghost function HlcsOf(log: Sized): map<Bytes, Bytes> {
    if log == [] then map[]
    else
      var rest, hlc := HlcsOf(log[..|log| - 1]), log[|log| - 1].hlc;
      if hlc.Some? then rest[SequenceKey(|log|) := TagBytes(hlc.value)] else rest
  }

  ghost function HlcIndexOf(log: Sized): map<Bytes, Uint64> {
    if log == [] then map[]
    else
      var rest, hlc := HlcIndexOf(log[..|log| - 1]), log[|log| - 1].hlc;
      if hlc.Some? then rest[TagBytes(hlc.value) := |log|] else rest
  }

  /** Event keys are exactly 1 to the length of the log. */
  lemma {:induction false} EventAt(log: Sized, n: Uint64)
    ensures SequenceKey(n) in EventsOf(log) <==> 1 <= n <= |log|
    ensures 1 <= n <= |log| ==> EventsOf(log)[SequenceKey(n)] == Envelope(log[n - 1].change)
  {
    hide SequenceKey, Envelope;
    if log != [] {
      EventAt(log[..|log| - 1], n);
      SequenceKeyOrder(n, |log|);
    }
  }

  lemma {:induction false} EventKey(log: Sized, key: Bytes) returns (n: Uint64)
    requires key in EventsOf(log)
    ensures 1 <= n <= |log| && key == SequenceKey(n)
  {
    hide SequenceKey, Envelope;
    if key == SequenceKey(|log|) {
      n := |log|;
    } else {
      n := EventKey(log[..|log| - 1], key);
    }
  }

  /** The dot bucket binds exactly the dots of the log, each to its one entry. */
  lemma {:induction false} DotAt(log: Sized, dot: Dot)
    requires DotsDistinct(log)
    ensures DotKey(dot) in DotsOf(log) <==> Find(log, dot).Some?
    ensures forall i :: Holds(log, dot, i) ==> Find(log, dot) == Some(i)
    ensures Find(log, dot).Some? ==>
      var i := Find(log, dot).value; DotsOf(log)[DotKey(dot)] == Binding(i + 1, Digest(Envelope(log[i].change)))
  {
    hide DotKey, Envelope, Digest;
    if log != [] {
      var rest := log[..|log| - 1];
      DotAt(rest, dot);
      assert forall i :: Holds(log, dot, i) && i < |rest| ==> Holds(rest, dot, i);
      if DotKey(log[|log| - 1].change.dot) == DotKey(dot) {
        DotKeyInjective(log[|log| - 1].change.dot, dot);
      }
    }
  }

  /** The entry a key of the dot bucket belongs to. */
  ghost function KeyIndex(log: Sized, key: Bytes): (i: nat)
    requires key in DotsOf(log)
    ensures i < |log| && key == DotKey(log[i].change.dot)
  {
    if key == DotKey(log[|log| - 1].change.dot) then |log| - 1 else KeyIndex(log[..|log| - 1], key)
  }

  lemma {:induction false} HlcAt(log: Sized, n: Uint64)
    ensures SequenceKey(n) in HlcsOf(log) <==> 1 <= n <= |log| && log[n - 1].hlc.Some?
    ensures 1 <= n <= |log| && log[n - 1].hlc.Some? ==> HlcsOf(log)[SequenceKey(n)] == TagBytes(log[n - 1].hlc.value)
  {
    hide SequenceKey, TagBytes;
    if log != [] {
      HlcAt(log[..|log| - 1], n);
      SequenceKeyOrder(n, |log|);
    }
  }

  ghost predicate Tagged(log: seq<Entry>, t: Tag, i: int) {
    0 <= i < |log| && log[i].hlc == Some(t)
  }

  /** The tag index knows exactly the tags of the log, each by its one entry. */
  lemma {:induction false} HlcIndexAt(log: Sized, t: Tag)
    requires TagsGrow(log)
    ensures TagBytes(t) in HlcIndexOf(log) <==> exists i :: Tagged(log, t, i)
    ensures forall i :: Tagged(log, t, i) ==> HlcIndexOf(log)[TagBytes(t)] == i + 1
  {
    hide Compare, TagBytes;
    if log != [] {
      var n := |log| - 1;
      HlcIndexAt(log[..n], t);
      assert forall i :: Tagged(log, t, i) ==> i == n || Tagged(log[..n], t, i);
      assert forall i :: Tagged(log[..n], t, i) ==> Tagged(log, t, i);
      assert log[n].hlc == Some(t) ==> Tagged(log, t, n);
      if log[n].hlc.Some? {
        if TagBytes(log[n].hlc.value) == TagBytes(t) {
          TagBytesInjective(log[n].hlc.value, t);
        }
        Trichotomy(t, t);
      }
      forall i | Tagged(log, t, i) ensures HlcIndexOf(log)[TagBytes(t)] == i + 1 {
        if i < n {
          assert Tagged(log[..n], t, i);
          assert log[n].hlc != Some(t);
        }
      }
    }
  }

  /** No actor's name is longer than the decoder admits. */
  ghost predicate NamesShort(log: seq<Entry>) {
    forall i :: 0 <= i < |log| ==> |log[i].change.dot.actor| <= MAX_STRING_BYTES
  }

  lemma {:induction false} WellFormedParts(log: seq<Entry>)
    requires WellFormed(log)
    ensures DotsDistinct(log) && TagsGrow(log)
  {
  }

  lemma {:induction false} BucketsAppended(log: Sized, e: Entry)
    requires |log| < MAX_UINT64
    ensures EventsOf(log + [e]) == EventsOf(log)[SequenceKey(|log| + 1) := Envelope(e.change)]
    ensures DotsOf(log + [e]) == DotsOf(log)[DotKey(e.change.dot) := Binding(|log| + 1, Digest(Envelope(e.change)))]
    ensures HlcsOf(log + [e])
         == if e.hlc.Some? then HlcsOf(log)[SequenceKey(|log| + 1) := TagBytes(e.hlc.value)] else HlcsOf(log)
    ensures HlcIndexOf(log + [e])
         == if e.hlc.Some? then HlcIndexOf(log)[TagBytes(e.hlc.value) := |log| + 1] else HlcIndexOf(log)
    ensures TotalBytes(log + [e]) == TotalBytes(log) + |Envelope(e.change)|
    ensures LastTag(log + [e]) == if e.hlc.Some? then e.hlc else LastTag(log)
    ensures ActorMaxima(log + [e]) == Raise(ActorMaxima(log), e.change.dot)
  {
    hide SequenceKey, Envelope, TagBytes, Digest, DotKey, Raise;
    assert (log + [e])[..|log|] == log;
  }

  /** Whatever decodes from an envelope is the change it was made from. */
  lemma {:induction false} EnvelopeOf(data: Bytes, maxActor: int, c: Change, d: Change)
    requires |data| <= MAX_UINT64 && UnmarshalChange(data, |data|, maxActor) == Some(c) && data == Envelope(d)
    ensures c == d
  {
    hide Envelope, UnmarshalChange, Encodable;
    UnmarshalIff(data, |data|, maxActor, c);
    EnvelopeInjective(c, d);
  }

  ghost function SequenceKeys(log: Sized): seq<Bytes> {
    seq(|log|, i requires 0 <= i < |log| => SequenceKey(i + 1))
  }

  /** A cursor over the event bucket meets the events in sequence order. */
  lemma {:induction false} SequenceKeysSorted(log: Sized)
    ensures StrictTotalOrder(ByKey) && SortSet(ByKey, EventsOf(log).Keys) == SequenceKeys(log)
  {
    hide SequenceKey, ByKey, EventsOf;
    KeysOrdered();
    var keys, all := SequenceKeys(log), EventsOf(log).Keys;
    forall i, j | 0 <= i < j < |keys| ensures ByKey(keys[i], keys[j]) {
      SequenceKeyOrder(i + 1, j + 1);
    }
    forall k | k in all ensures k in keys {
      var n := EventKey(log, k);
      assert keys[n - 1] == k;
    }
    forall k | k in keys ensures k in all {
      var i :| 0 <= i < |keys| && keys[i] == k;
      EventAt(log, i + 1);
    }
    SortSetSorts(ByKey, all);
    SortedUnique(ByKey, SortSet(ByKey, all), keys);
  }

  /** The buckets say exactly what the log says; the actor index only once it is marked as built. */
  ghost predicate InStep(b: Buckets, log: Sized) {
    && b.events == EventsOf(log) && b.dots == DotsOf(log) && b.hlcs == HlcsOf(log) && b.hlcIndex == HlcIndexOf(log)
    && b.highWater == |log| && b.count == |log| && b.usedBytes == TotalBytes(log)
    && b.hlcState == StateBytes(LastTag(log))
    && (b.actorIndex ==> b.actors == ActorMaxima(log))
  }

  lemma {:induction false} EmptyInStep()
    ensures InStep(EMPTY, []) && WellFormed([]) && ActorMaxima([]) == map[]
  {
  }

  // ----- the steps of a transaction -----

  lemma {:induction false} MaximaStep(log: seq<Entry>, n: nat)
    requires n < |log|
    ensures ActorMaxima(log[..n + 1]) == Raise(ActorMaxima(log[..n]), log[n].change.dot)
    ensures NamesShort(log[..n + 1]) <==> NamesShort(log[..n]) && |log[n].change.dot.actor| <= MAX_STRING_BYTES
    ensures NamesShort(log) ==> |log[n].change.dot.actor| <= MAX_STRING_BYTES
  {
    assert log[..n + 1][..n] == log[..n];
    assert log[..n + 1] == log[..n] + [log[n]];
  }

  /** The dot of one stored event, read back from its bucket. */
  method RebuildOne(b: Buckets, ghost log: Sized, keys: seq<Bytes>, expected: Uint64) returns (dot: Option<Dot>)
    requires InStep(b, log) && WellFormed(log) && keys == SequenceKeys(log) && 1 <= expected <= |log|
    ensures var d := log[expected - 1].change.dot; dot == if |d.actor| <= MAX_STRING_BYTES then Some(d) else None
  {
    hide DotsOf, HlcsOf, HlcIndexOf, TotalBytes, LastTag, SequenceKey, Envelope, Encodable, UnmarshalChange, EventsOf,
      DotsDistinct, TagsGrow,
      ActorMaxima;
    var at := expected - 1;
    EventAt(log, expected);
    SequenceKeyInverse(expected);
    if at >= |keys| || FromBigEndian(keys[at]) != expected {
      return None;
    }
    var value := b.events[keys[at]];
    var decoded := UnmarshalChange(value, |value|, MAX_STRING_BYTES);
    assert EntryOk(log[at]);
    UnmarshalIff(value, |value|, MAX_STRING_BYTES, log[at].change);
    if decoded.None? {
      return None;
    }
    EnvelopeOf(value, MAX_STRING_BYTES, decoded.value, log[at].change);
    return Some(decoded.value.dot);
  }

  /** Rebuild the actor index from the events. */
  method RebuildActors(b: Buckets, ghost log: Sized) returns (index: Option<map<Bytes, Uint64>>)
    requires InStep(b, log) && WellFormed(log)
    ensures index == if NamesShort(log) then Some(ActorMaxima(log)) else None
  {
    hide DotsOf, HlcsOf, HlcIndexOf, TotalBytes, LastTag, SequenceKey, Envelope, Encodable, UnmarshalChange, EventsOf,
      WellFormed, SequenceKeys, Raise;
    var actors: map<Bytes, Uint64> := map[];
    KeysOrdered();
    var keys := SortKeys(ByKey, b.events.Keys);
    SequenceKeysSorted(log);
    var expected := 1;
    while expected <= b.highWater
      invariant 1 <= expected <= |log| + 1
      invariant actors == ActorMaxima(log[..expected - 1]) && NamesShort(log[..expected - 1])
    {
      var dot := RebuildOne(b, log, keys, expected);
      if dot.None? {
        return None;
      }
      MaximaStep(log, expected - 1);
      actors := Raise(actors, dot.value);
      expected := expected + 1;
    }
    assert log[..expected - 1] == log;
    return Some(actors);
  }

  lemma {:induction false} OneHolder(log: seq<Entry>, dot: Dot, i: nat)
    requires DotsDistinct(log) && Holds(log, dot, i)
    ensures forall j :: Holds(log, dot, j) ==> j == i
  {
  }

  /** A dot that is already bound: a duplicate of the same envelope, or a conflict. */
  method Repeat(b: Buckets, ghost log: Sized, config: Config, c: Change, encoded: Bytes)
    returns (r: Result<AppendResult>)
    requires InStep(b, log) && WellFormed(log) && MarshalChange(c) == Some(encoded) && |encoded| <= config.maxBytes
    requires DotKey(c.dot) in b.dots
    ensures forall physical :: r == Decide(log, config, c, physical)
    ensures Retried(log, config, c, r) && (r == Err(ConflictingDot) <==> Clashing(log, c))
  {
    hide EventsOf, DotsOf, HlcsOf, HlcIndexOf, TotalBytes, LastTag, SequenceKey, Envelope, TagBytes, RelayHLCState,
      Digest, ValidHLC;
    hide DotsDistinct, TagsGrow, ActorMaxima;
    DotAt(log, c.dot);
    ghost var i := Find(log, c.dot).value;
    OneHolder(log, c.dot, i);
    var binding := b.dots[DotKey(c.dot)];
    DigestInjective(encoded, Envelope(log[i].change));
    if binding.digest != Digest(encoded) {
      return Err(ConflictingDot);
    }
    EnvelopeInjective(c, log[i].change);
    if config.relay == [] {
      return Ok(AppendResult(binding.sequence, None, true));
    }
    HlcAt(log, binding.sequence);
    if SequenceKey(binding.sequence) !in b.hlcs {
      return Err(AntiEntropyUnavailable);
    }
    assert EntryOk(log[i]);
    TagBytesFit(log[i].hlc.value);
    RelayStateRoundTrip(log[i].hlc.value, config.relay, MAX_STRING_BYTES);
    var tag := RelayHLCState(b.hlcs[SequenceKey(binding.sequence)], config.relay, MAX_STRING_BYTES);
    if tag.None? {
      return Err(AntiEntropyUnavailable);
    }
    return Ok(AppendResult(binding.sequence, tag, true));
  }

  /** Restore the relay clock, advance it, and refuse a tag that is already indexed: there is none. */
  method IssueTag(b: Buckets, ghost log: Sized, relay: Bytes, physical: Millis) returns (hlc: Option<Tag>)
    requires InStep(b, log) && WellFormed(log)
    ensures hlc == NextTag(LastTag(log), relay, physical)
  {
    hide EventsOf, DotsOf, HlcsOf, HlcIndexOf, TotalBytes, LastTag, RelayHLCState, TagBytes, Blank, EntryOk, Compare,
      ActorMaxima;
    var state := RelayHLCState(b.hlcState, relay, MAX_STRING_BYTES);
    if state.None? {
      return None;
    }
    RelayNamed(b.hlcState, relay, MAX_STRING_BYTES);
    var clock := new HLC(state.value.replica, Time(state.value.wall, state.value.logical));
    hlc := clock.Now(physical);
    if hlc.Some? {
      NextTagBeyond(log, relay, physical);
      HlcIndexAt(log, hlc.value);
      Trichotomy(hlc.value, hlc.value);
      if TagBytes(hlc.value) in b.hlcIndex {
        return None;
      }
    }
  }

  /** All the puts of one commit. */
  function Put(b: Buckets, c: Change, encoded: Bytes, hlc: Option<Tag>): Buckets
    requires b.highWater < MAX_UINT64 && b.count < MAX_UINT64 && b.usedBytes + |encoded| <= MAX_UINT64
  {
    var sequence := b.highWater + 1;
    var tagged := if hlc.None? then b else
      b.(hlcs := b.hlcs[SequenceKey(sequence) := TagBytes(hlc.value)],
        hlcIndex := b.hlcIndex[TagBytes(hlc.value) := sequence],
         hlcState := TagBytes(hlc.value));
    tagged.(events := b.events[SequenceKey(sequence) := encoded],
      dots := b.dots[DotKey(c.dot) := Binding(sequence, Digest(encoded))],
            actors := Raise(b.actors, c.dot), actorIndex := true, highWater := sequence, count := b.count + 1,
            usedBytes := b.usedBytes + |encoded|)
  }

  /** Committing keeps every bucket in step with the longer log. */
  lemma {:induction false} PutInStep(b: Buckets, log: Sized, e: Entry)
    requires InStep(b, log) && |log| < MAX_UINT64 && TotalBytes(log) + |Envelope(e.change)| <= MAX_UINT64
    requires b.actors == ActorMaxima(log)
    ensures InStep(Put(b, e.change, Envelope(e.change), e.hlc), log + [e])
    ensures Put(b, e.change, Envelope(e.change), e.hlc).actorIndex
  {
    hide LastTag, SequenceKey, Envelope, TagBytes, Digest, DotKey, Raise, EventsOf, DotsOf, HlcsOf, HlcIndexOf,
      TotalBytes, ActorMaxima;
    BucketsAppended(log, e);
  }

  // ----- the object -----

  class GroupLog {
    var config: Config
    /** The group's buckets, once it has any. */
    var group: Option<Buckets>
    ghost var log: Sized

    ghost predicate Valid()
      reads this
    {
      && config.Valid() && WellFormed(log)
      && (if group.Some? then InStep(group.value, log) else log == [])
    }

    constructor (config: Config)
      requires config.Valid()
      ensures Valid() && Indexed() && log == [] && this.config == config
    {
      this.config, group, log := config, None, [];
    }

    /** The same file opened with other limits or another relay name. */
    method Reopen(config: Config)
      requires Valid() && config.Valid()
      modifies this`config
      ensures Valid() && this.config == config && (old(Indexed()) ==> Indexed())
    {
      hide WellFormed, InStep;
      this.config := config;
    }

    /** The actor index is there, or every actor's name is short enough to rebuild it. */
    ghost predicate Indexable()
      reads this
    {
      group.None? || group.value.actorIndex || NamesShort(log)
    }

    ghost predicate Indexed()
      reads this
    {
      group.Some? ==> group.value.actorIndex
    }

    /** Rebuild the actor index of an older file from its events, all or nothing. */
    method EnsureActorIndex() returns (ok: bool)
      requires Valid()
      modifies this`group
      ensures Valid() && (ok <==> old(Indexable()))
      ensures ok ==> Indexed()
      ensures !ok ==> group == old(group)
    {
      hide WellFormed, EventsOf, DotsOf, HlcsOf, HlcIndexOf, TotalBytes, LastTag, ActorMaxima;
      if group.None? || group.value.actorIndex {
        return true;
      }
      var index := RebuildActors(group.value, log);
      if index.None? {
        return false;
      }
      group := Some(group.value.(actors := index.value, actorIndex := true));
      return true;
    }

    /** Bind a change's dot to its envelope and the next sequence number, or say why not. */
    method Append(c: Change, physical: Millis) returns (r: Result<AppendResult>)
      requires Valid()
      modifies this`group, this`log
      ensures Valid()
      ensures r == if old(Indexable()) then Decide(old(log), config, c, physical) else Err(CorruptStore)
      ensures log == if old(Indexable()) then Appended(old(log), config, c, physical) else old(log)
      ensures old(Indexable()) ==> Indexed() && Fair(old(log), config, c, physical, r)
      ensures log == if r.Ok? && !r.value.duplicate then old(log) + [Entry(c, r.value.hlc)] else old(log)
    {
      hide Fair, Decide, WellFormed, InStep, Indexable, Indexed;
      DecideFair(log, config, c, physical);
      r := Bind(c, physical);
    }

    /** The transaction. */
    method Bind(c: Change, physical: Millis) returns (r: Result<AppendResult>)
      requires Valid()
      modifies this`group, this`log
      ensures Valid()
      ensures r == if old(Indexable()) then Decide(old(log), config, c, physical) else Err(CorruptStore)
      ensures log == if old(Indexable()) then Appended(old(log), config, c, physical) else old(log)
      ensures old(Indexable()) ==> Indexed()
    {
      hide WellFormed, EventsOf, DotsOf, HlcsOf, HlcIndexOf, TotalBytes, LastTag, ActorMaxima, NextTag, Envelope,
        Encodable, Put, DotKey;
      var indexed := EnsureActorIndex();
      if !indexed {
        return Err(CorruptStore);
      }
      var marshalled := MarshalChange(c);
      if marshalled.None? {
        return Err(InvalidWire);
      }
      var encoded := marshalled.value;
      if |encoded| > config.maxBytes {
        return Err(StoreFull);
      }
      EmptyInStep();
      var b := if group.Some? then group.value else EMPTY;
      WellFormedParts(log);
      DotAt(log, c.dot);
      if DotKey(c.dot) in b.dots {
        r := Repeat(b, log, config, c, encoded);
        return;
      }
      if b.count >= config.maxEvents || b.usedBytes > config.maxBytes - |encoded| || b.highWater == MAX_UINT64 {
        return Err(StoreFull);
      }
      var hlc: Option<Tag> := None;
      if config.relay != [] {
        hlc := IssueTag(b, log, config.relay, physical);
        if hlc.None? {
          return Err(CorruptStore);
        }
      }
      AppendKeeps(log, config, c, physical);
      PutInStep(b, log, Entry(c, hlc));
      group, log := Some(Put(b, c, encoded, hlc)), log + [Entry(c, hlc)];
      return Ok(AppendResult(b.highWater + 1, hlc, false));
    }
  }

  /** The answers so far are those the log decides. */
  ghost predicate AllDecided(config: Config, requests: seq<(Change, Millis)>, answers: seq<Result<AppendResult>>) {
    |answers| <= |requests| && forall k :: 0 <= k < |answers| ==>
      answers[k] == Decide(Logged(config, requests[..k]), config, requests[k].0, requests[k].1)
  }

  /** Every answer is fair for the log before it. */
  ghost predicate AllFair(config: Config, requests: seq<(Change, Millis)>, answers: seq<Result<AppendResult>>) {
    |answers| == |requests| && forall k :: 0 <= k < |answers| ==>
      Fair(Logged(config, requests[..k]), config, requests[k].0, requests[k].1, answers[k])
  }

  lemma {:induction false} DecidedNext(config: Config, requests: seq<(Change, Millis)>,
                                       answers: seq<Result<AppendResult>>, r: Result<AppendResult>)
    requires AllDecided(config, requests, answers) && |answers| < |requests|
    requires var k := |answers|; r == Decide(Logged(config, requests[..k]), config, requests[k].0, requests[k].1)
    ensures AllDecided(config, requests, answers + [r])
  {
    hide Decide, Logged;
  }

  lemma {:induction false} DecidedFair(config: Config, requests: seq<(Change, Millis)>,
                                       answers: seq<Result<AppendResult>>)
    requires AllDecided(config, requests, answers) && |answers| == |requests|
    ensures AllFair(config, requests, answers)
  {
    hide Decide, Logged, Fair, WellFormed;
    forall k | 0 <= k < |answers|
      ensures Fair(Logged(config, requests[..k]), config, requests[k].0, requests[k].1, answers[k])
    {
      RunKeeps(config, requests[..k]);
      DecideFair(Logged(config, requests[..k]), config, requests[k].0, requests[k].1);
    }
  }

  /** Any run of appends on an initially empty store builds exactly the log of that run. */
  method AppendAll(config: Config, requests: seq<(Change, Millis)>)
    returns (store: GroupLog, answers: seq<Result<AppendResult>>)
    requires config.Valid()
    ensures fresh(store) && store.Valid() && store.config == config && store.log == Logged(config, requests)
    ensures |store.log| <= config.maxEvents && TotalBytes(store.log) <= config.maxBytes
    ensures |answers| == |requests| && AllDecided(config, requests, answers) && AllFair(config, requests, answers)
  {
    hide Decide, Appended, WellFormed, InStep, TotalBytes, Fair, AllDecided, AllFair;
    store := new GroupLog(config);
    answers := [];
    assert AllDecided(config, requests, []) by {
      NoAnswers(config, requests);
    }
    var k := 0;
    while k < |requests|
      invariant 0 <= k <= |requests| && store.Valid() && store.Indexed() && store.config == config
      invariant store.log == Logged(config, requests[..k])
      invariant |answers| == k && AllDecided(config, requests, answers)
    {
      assert requests[..k + 1][..k] == requests[..k];
      var r := store.Append(requests[k].0, requests[k].1);
      DecidedNext(config, requests, answers, r);
      answers := answers + [r];
      k := k + 1;
    }
    assert requests[..k] == requests;
    RunKeeps(config, requests);
    DecidedFair(config, requests, answers);
  }

  lemma {:induction false} NoAnswers(config: Config, requests: seq<(Change, Millis)>)
    ensures AllDecided(config, requests, [])
  {
  }

  // ----- runs with reopening -----

  /** The log and the configuration after the requests; a bad configuration is refused. */
  ghost function Served(config: Config, requests: seq<Request>): (seq<Entry>, Config)
    decreases |requests|
  {
    if requests == [] then ([], config)
    else
      var n := |requests| - 1;
      var (log, now) := Served(config, requests[..n]);
      match requests[n]
      case Submit(c, physical) => (Appended(log, now, c, physical), now)
      case Configure(other) => (log, if other.Valid() then other else now)
  }

  /** The answer to request k. */
  ghost function Answered(config: Config, requests: seq<Request>, k: nat): Option<Result<AppendResult>>
    requires k < |requests|
  {
    var (log, now) := Served(config, requests[..k]);
    match requests[k]
    case Submit(c, physical) => Some(Decide(log, now, c, physical))
    case Configure(other) => if other.Valid() then None else Some(Err(InvalidConfig))
  }

  /** Under changing limits and relay names the log still only grows at its end. */
  lemma {:induction false} ServedGrows(config: Config, requests: seq<Request>, k: nat)
    requires k <= |requests|
    ensures Served(config, requests[..k]).0 <= Served(config, requests).0
  {
    hide Decide;
    if k < |requests| {
      var n := |requests| - 1;
      ServedGrows(config, requests[..n], k);
      assert requests[..n][..k] == requests[..k];
    } else {
      assert requests[..k] == requests;
    }
  }

  /** Whatever the store is reopened with, an answered sequence number names that change for good. */
  lemma {:induction false} AnsweredStays(config: Config, requests: seq<Request>, k: nat)
    requires k < |requests| && requests[k].Submit?
    ensures var r := Answered(config, requests, k).value; var log := Served(config, requests).0;
      r.Ok? ==> 1 <= r.value.sequence <= |log| && log[r.value.sequence - 1].change == requests[k].change
  {
    hide NextTag, Envelope, Encodable;
    ServedGrows(config, requests, k + 1);
    assert requests[..k + 1][..k] == requests[..k];
    var r := Answered(config, requests, k).value;
    if r.Ok? {
      assert Served(config, requests[..k + 1]).0[r.value.sequence - 1].change == requests[k].change;
    }
  }

  /** Any run of appends and reopenings from an empty file keeps the buckets in step with the log of that run. */
  method Serve(config: Config, requests: seq<Request>)
    returns (store: GroupLog, answers: seq<Option<Result<AppendResult>>>, ghost ledger: seq<Page>)
    requires config.Valid()
    ensures fresh(store) && store.Valid() && (store.log, store.config) == Served(config, requests)
    ensures Ledger(config, requests, answers, ledger) && ledger[|requests|] == Page(store.log, store.config)
    ensures |answers| == |requests| && forall k :: 0 <= k < |requests| ==> answers[k] == Answered(config, requests, k)
    ensures forall k :: 0 <= k < |requests| && requests[k].Submit? && answers[k].Some? && answers[k].value.Ok? ==>
      var n := answers[k].value.value.sequence; 1 <= n <= |store.log| && store.log[n - 1].change == requests[k].change
  {
    hide Decide, Appended, WellFormed, InStep, TotalBytes, Fair, Ledger;
    store := new GroupLog(config);
    answers := [];
    FirstPage(config);
    assert requests[..0] == [];
    ledger := [Page([], config)];
    var k := 0;
    while k < |requests|
      invariant 0 <= k <= |requests| && fresh(store) && store.Valid() && store.Indexed() && store.config.Valid()
      invariant |ledger| == k + 1 && Ledger(config, requests[..k], answers, ledger)
      invariant ledger[k] == Page(store.log, store.config)
      invariant (store.log, store.config) == Served(config, requests[..k]) && |answers| == k
      invariant forall j :: 0 <= j < k ==> answers[j] == Answered(config, requests, j)
    {
      assert requests[..k + 1][..k] == requests[..k];
      var answer: Option<Result<AppendResult>> := None;
      match requests[k] {
        case Submit(c, physical) =>
          var r := store.Append(c, physical);
          answer := Some(r);
        case Configure(other) =>
          if other.Valid() {
            store.Reopen(other);
          } else {
            answer := Some(Err(InvalidConfig));
          }
      }
      ghost var page := Page(store.log, store.config);
      LedgerNext(config, requests, answers, ledger, k, answer, page);
      answers, ledger := answers + [answer], ledger + [page];
      k := k + 1;
    }
    assert requests[..k] == requests;
    forall j | 0 <= j < |requests| && requests[j].Submit? && answers[j].Some? && answers[j].value.Ok?
      ensures var n := answers[j].value.value.sequence;
        1 <= n <= |store.log| && store.log[n - 1].change == requests[j].change
    {
      AnsweredStays(config, requests, j);
    }
  }

  /** Other publishers append while somebody else is not holding the group lock. */
  method Interrupt(store: GroupLog, requests: seq<(Change, Millis)>)
    requires store.Valid()
    modifies store`group, store`log
    ensures store.Valid() && old(store.log) <= store.log
  {
    hide Decide, WellFormed, InStep, GroupLog.Indexable;
    var k := 0;
    while k < |requests|
      invariant 0 <= k <= |requests| && store.Valid() && old(store.log) <= store.log
    {
      var _ := store.Append(requests[k].0, requests[k].1);
      k := k + 1;
    }
  }
}
