/** Reading the durable log back: replay after a cursor, and catch-up against a frontier. */
module StoreReads {
  import opened Tags
  import opened Wires
  import opened Merkles
  import opened Changes
  import opened Logs
  import opened Stores

  datatype ReadLimits = ReadLimits(maxEvents: Uint64, maxBytes: Uint64, maxMessage: int, maxActor: int) {
    predicate Valid() {
      maxEvents > 0 && maxBytes > 0 && maxMessage > 0 && maxActor > 0
    }
  }

  /** The reader can take this change: within its message and name bounds, and admitted by its policy. */
  predicate Fits(c: Change, limits: ReadLimits, admits: Change -> bool) {
    |Envelope(c)| <= limits.maxMessage && |c.dot.actor| <= limits.maxActor && admits(c)
  }

  /** The first key that is not before `first`; |keys| when there is none. */
  method Seek(keys: seq<Bytes>, first: Bytes) returns (at: nat)
    requires StrictTotalOrder(ByKey) && Sorted(ByKey, keys)
    ensures at <= |keys|
    ensures forall j :: 0 <= j < at ==> ByKey(keys[j], first)
    ensures forall j :: at <= j < |keys| ==> !ByKey(keys[j], first)
  {
    hide ByKey;
    at := 0;
    while at < |keys| && ByKey(keys[at], first)
      invariant at <= |keys| && forall j :: 0 <= j < at ==> ByKey(keys[j], first)
    {
      at := at + 1;
    }
    forall j | at < j < |keys| ensures !ByKey(keys[j], first) {
      assert ByKey(keys[at], keys[j]);
    }
  }

  // ----- replay -----

  ghost function EventsAfter(log: seq<Entry>, after: nat): (r: seq<Event>)
    requires after <= |log|
    ensures |r| == |log| - after
    ensures forall k :: 0 <= k < |r| ==> r[k] == Event(after + k + 1, log[after + k].change, None)
  {
    seq(|log| - after, k requires 0 <= k < |log| - after => Event(after + k + 1, log[after + k].change, None))
  }

  /** The whole suffix is within the reader's budget. */
  ghost predicate Replayable(log: seq<Entry>, after: nat, limits: ReadLimits, admits: Change -> bool) {
    && after <= |log| && |log| - after <= limits.maxEvents
    && TotalBytes(log) - TotalBytes(log[..after]) <= limits.maxBytes
    && forall i :: after <= i < |log| ==> Fits(log[i].change, limits, admits)
  }

  lemma {:induction false} TotalStep(log: seq<Entry>, i: nat)
    requires i < |log|
    ensures TotalBytes(log[..i + 1]) == TotalBytes(log[..i]) + |Envelope(log[i].change)|
  {
    hide Envelope;
    assert log[..i + 1][..i] == log[..i];
  }

  lemma {:induction false} TotalGrows(log: seq<Entry>, i: nat)
    requires i <= |log|
    ensures TotalBytes(log[..i]) <= TotalBytes(log)
  {
    hide Envelope;
    if i < |log| {
      TotalGrows(log[..|log| - 1], i);
      assert log[..|log| - 1][..i] == log[..i];
    } else {
      assert log[..i] == log;
    }
  }

  /** A stored envelope decodes exactly when it fits, and then to its change. */
  lemma {:induction false} Decodes(e: Entry, limits: ReadLimits)
    requires EntryOk(e) && limits.Valid() && |Envelope(e.change)| <= limits.maxMessage
    ensures UnmarshalChange(Envelope(e.change), limits.maxMessage, limits.maxActor) ==
      if |e.change.dot.actor| <= limits.maxActor then Some(e.change) else None
  {
    hide UnmarshalChange, Envelope, Encodable;
    var data := Envelope(e.change);
    UnmarshalIff(data, limits.maxMessage, limits.maxActor, e.change);
    var r := UnmarshalChange(data, limits.maxMessage, limits.maxActor);
    if r.Some? {
      UnmarshalIff(data, limits.maxMessage, limits.maxActor, r.value);
      EnvelopeInjective(r.value, e.change);
    }
  }

  /** Every event after the cursor, in order; or nothing when the whole suffix does not fit. */
  method Replay(store: GroupLog, after: Uint64, limits: ReadLimits, admits: Change -> bool)
    returns (r: Result<(seq<Event>, nat)>)
    requires store.Valid()
    ensures r.Ok? <==> limits.Valid() && Replayable(store.log, after, limits, admits)
    ensures r.Ok? ==> r.value == (EventsAfter(store.log, after), |store.log|)
    ensures limits.Valid() && after > |store.log| ==> r == Err(ReplayUnavailable)
    ensures r == Err(InvalidConfig) <==> !limits.Valid()
    ensures r.Err? && limits.Valid() ==> r.error.ReplayUnavailable? || r.error.CorruptStore?
  {
    hide EventsOf, DotsOf, HlcsOf, HlcIndexOf, TotalBytes, LastTag, ActorMaxima, Envelope, SequenceKey, UnmarshalChange,
      DotsDistinct, TagsGrow, EntryOk;
    ghost var log := store.log;
    if !limits.Valid() {
      return Err(InvalidConfig);
    }
    if store.group.None? {
      if after != 0 {
        return Err(ReplayUnavailable);
      }
      assert log[..0] == log;
      return Ok(([], 0));
    }
    var b := store.group.value;
    if after > b.highWater {
      return Err(ReplayUnavailable);
    }
    if after == b.highWater {
      assert log[..after] == log;
      return Ok(([], b.highWater));
    }
    if b.highWater - after > limits.maxEvents {
      return Err(ReplayUnavailable);
    }
    r := ReplaySuffix(b, log, after, limits, admits);
  }

  ghost predicate AllFit(log: seq<Entry>, after: nat, limits: ReadLimits, admits: Change -> bool) {
    forall i :: after <= i < |log| ==> Fits(log[i].change, limits, admits)
  }

  /** The value under one event key, decoded within the budget. */
  method ReplayOne(b: Buckets, ghost log: Sized, key: Bytes, at: Uint64, used: Uint64, limits: ReadLimits,
                   admits: Change -> bool) returns (r: Result<Change>)
    requires InStep(b, log) && WellFormed(log) && limits.Valid() && at < |log| && key == SequenceKey(at + 1)
    requires used <= limits.maxBytes
    ensures r.Ok? <==> used + |Envelope(log[at].change)| <= limits.maxBytes && Fits(log[at].change, limits, admits)
    ensures r.Ok? ==> r.value == log[at].change
    ensures r.Err? ==> r.error.ReplayUnavailable? || r.error.CorruptStore?
  {
    hide EventsOf, DotsOf, HlcsOf, HlcIndexOf, TotalBytes, LastTag, ActorMaxima, Envelope, SequenceKey, UnmarshalChange,
      DotsDistinct, TagsGrow, EntryOk;
    EventAt(log, at + 1);
    SequenceKeyInverse(at + 1);
    if key !in b.events || FromBigEndian(key) != at + 1 {
      return Err(CorruptStore);
    }
    var value := b.events[key];
    if |value| > limits.maxBytes - used || |value| > limits.maxMessage {
      return Err(ReplayUnavailable);
    }
    assert EntryOk(log[at]);
    Decodes(log[at], limits);
    var decoded := UnmarshalChange(value, limits.maxMessage, limits.maxActor);
    if decoded.None? || !admits(decoded.value) {
      return Err(CorruptStore);
    }
    return Ok(decoded.value);
  }

  lemma {:induction false} ReplayStep(log: seq<Entry>, after: nat, at: nat, limits: ReadLimits, admits: Change -> bool)
    requires after <= at < |log| && AllFit(log[..at], after, limits, admits) && Fits(log[at].change, limits, admits)
    ensures AllFit(log[..at + 1], after, limits, admits)
    ensures EventsAfter(log[..at + 1], after) == EventsAfter(log[..at], after) + [Event(at + 1, log[at].change, None)]
  {
    hide Fits;
    assert forall i :: 0 <= i < at ==> log[..at + 1][i] == log[..at][i];
  }

  /** One event beyond the budget refuses the whole suffix. */
  lemma {:induction false} NotReplayable(log: seq<Entry>, after: nat, at: nat, limits: ReadLimits,
                                         admits: Change -> bool)
    requires after <= at < |log|
    requires !Fits(log[at].change, limits, admits)
      || TotalBytes(log[..at + 1]) - TotalBytes(log[..after]) > limits.maxBytes
    ensures !Replayable(log, after, limits, admits)
  {
    hide Fits, TotalBytes;
    TotalGrows(log, at + 1);
  }

  /** A cursor on the event bucket, moved to the first key after the given sequence number. */
  method EventCursor(b: Buckets, ghost log: Sized, after: Uint64) returns (keys: seq<Bytes>, at: nat)
    requires InStep(b, log) && after < |log|
    ensures keys == SequenceKeys(log) && at == after
  {
    hide EventsOf, DotsOf, HlcsOf, HlcIndexOf, TotalBytes, LastTag, ActorMaxima, SequenceKey, ByKey, SequenceKeys,
      StrictTotalOrder;
    KeysOrdered();
    keys := SortKeys(ByKey, b.events.Keys);
    SequenceKeysSorted(log);
    SortSetSorts(ByKey, b.events.Keys);
    at := Seek(keys, SequenceKey(after + 1));
    SeekSequence(log, keys, after, at);
  }

  method ReplaySuffix(b: Buckets, ghost log: Sized, after: Uint64, limits: ReadLimits, admits: Change -> bool)
    returns (r: Result<(seq<Event>, nat)>)
    requires InStep(b, log) && WellFormed(log) && limits.Valid() && after < |log| && |log| - after <= limits.maxEvents
    ensures r.Ok? <==> Replayable(log, after, limits, admits)
    ensures r.Ok? ==> r.value == (EventsAfter(log, after), |log|)
    ensures r.Err? ==> r.error.ReplayUnavailable? || r.error.CorruptStore?
  {
    hide EventsOf, DotsOf, HlcsOf, HlcIndexOf, TotalBytes, LastTag, ActorMaxima, Envelope, SequenceKey, WellFormed,
      Fits, AllFit, ByKey;
    var keys, at := EventCursor(b, log, after);
    var events: seq<Event> := [];
    var used: Uint64 := 0;
    TotalGrows(log, after);
    NoneYet(log, after, limits, admits);
    while at < b.highWater
      invariant after <= at <= |log|
      invariant used == TotalBytes(log[..at]) - TotalBytes(log[..after]) && used <= limits.maxBytes
      invariant events == EventsAfter(log[..at], after) && AllFit(log[..at], after, limits, admits)
    {
      TotalStep(log, at);
      var one := ReplayOne(b, log, keys[at], at, used, limits, admits);
      if one.Err? {
        NotReplayable(log, after, at, limits, admits);
        return Err(one.error);
      }
      ReplayStep(log, after, at, limits, admits);
      events := events + [Event(at + 1, one.value, None)];
      used := used + |Envelope(one.value)|;
      at := at + 1;
    }
    assert log[..at] == log;
    AllReplayable(log, after, limits, admits);
    return Ok((events, b.highWater));
  }

  lemma {:induction false} NoneYet(log: seq<Entry>, after: nat, limits: ReadLimits, admits: Change -> bool)
    requires after <= |log|
    ensures AllFit(log[..after], after, limits, admits) && EventsAfter(log[..after], after) == []
  {
  }

  lemma {:induction false} AllReplayable(log: seq<Entry>, after: nat, limits: ReadLimits, admits: Change -> bool)
    requires after <= |log| && |log| - after <= limits.maxEvents && AllFit(log, after, limits, admits)
    requires TotalBytes(log) - TotalBytes(log[..after]) <= limits.maxBytes
    ensures Replayable(log, after, limits, admits)
  {
    hide Fits, TotalBytes;
  }

  lemma {:induction false} SeekSequence(log: Sized, keys: seq<Bytes>, after: Uint64, at: nat)
    requires keys == SequenceKeys(log) && after < |log| && at <= |keys|
    requires forall j :: 0 <= j < at ==> ByKey(keys[j], SequenceKey(after + 1))
    requires forall j :: at <= j < |keys| ==> !ByKey(keys[j], SequenceKey(after + 1))
    ensures at == after
  {
    hide ByKey, SequenceKey;
    assert keys[after] == SequenceKey(after + 1);
    assert at < |keys| ==> keys[at] == SequenceKey(at + 1);
    var n := |log|;
    forall j | 0 <= j < n ensures ByKey(keys[j], SequenceKey(after + 1)) <==> j < after {
      SequenceKeyOrder(j + 1, after + 1);
    }
  }
}
