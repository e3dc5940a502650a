/** The durable operation log of one group as a plain sequence of entries. */
module Logs {
  import opened Tags
  import opened Wires
  import opened Clocks
  import opened Changes

  /** A committed change, with the relay's tag when the relay was configured to issue one. */
  datatype Entry = Entry(change: Change, hlc: Option<Tag>)

  /** Retention limits and the relay's clock name; the empty name switches relay tags off. */
  datatype Config = Config(maxEvents: Uint64, maxBytes: Uint64, relay: Bytes) {
    predicate Valid() {
      maxEvents > 0 && maxBytes > 0 && (relay == [] || Tag(relay, 0, 0).Valid())
    }
  }

  datatype StoreError =
    InvalidConfig | InvalidWire | StoreFull | ConflictingDot | CorruptStore | ReplayUnavailable | AntiEntropyUnavailable

  datatype Result<+T> = Ok(value: T) | Err(error: StoreError)

  datatype AppendResult = AppendResult(sequence: nat, hlc: Option<Tag>, duplicate: bool)

  /** What readers of the log receive. */
  datatype Event = Event(sequence: nat, change: Change, hlc: Option<Tag>)

  // ----- relay tags -----

  predicate ValidHLC(t: Tag, max: int) {
    max > 0 && t.Valid() && ValidUtf8(t.replica) && |t.replica| <= max
  }

  /** The relay's stored clock, or a clock at zero when nothing is stored. */
  function RelayHLCState(data: Bytes, relay: Bytes, max: int): Option<Tag> {
    if Blank(relay) || |relay| > max then None
    else if data == [] then Some(Tag(relay, 0, 0))
    else
      match ReadTag(data, 0, max)
      case None => None
      case Some((t, position)) =>
        if position != |data| || t.replica != relay || !ValidHLC(t, max) then None else Some(t)
  }

  /** Reading a stored tag back succeeds exactly for this relay's own valid tags. */
  lemma {:induction false} RelayStateRoundTrip(t: Tag, relay: Bytes, max: int)
    requires |TagBytes(t)| <= MAX_UINT64
    ensures RelayHLCState(TagBytes(t), relay, max) == (if t.replica == relay && ValidHLC(t, max) then Some(t) else None)
  {
    hide TagBytes, Blank, ReadTag, ValidUtf8;
    var data := TagBytes(t);
    TagBytesNonempty(t);
    assert data[0..|data|] == data;
    ReadTagIff(data, 0, max, t, |data|);
    var r := ReadTag(data, 0, max);
    if r.Some? {
      ReadTagIff(data, 0, max, r.value.0, r.value.1);
      assert TagBytes(r.value.0) + data[r.value.1..] == TagBytes(t) + [];
      TagPrefixFree(r.value.0, t, data[r.value.1..], []);
    }
  }

  lemma {:induction false} TagBytesNonempty(t: Tag)
    ensures TagBytes(t) != []
  {
  }

  /** The tag of the latest entry that has one. */
  ghost function LastTag(log: seq<Entry>): Option<Tag> {
    if log == [] then None
    else if log[|log| - 1].hlc.Some? then log[|log| - 1].hlc
    else LastTag(log[..|log| - 1])
  }

  /** The stored form of the relay clock. */
  function StateBytes(last: Option<Tag>): Bytes {
    if last.Some? then TagBytes(last.value) else []
  }

  /** The tag the relay issues next, if its clock can be restored and advanced. */
  function NextTag(last: Option<Tag>, relay: Bytes, physical: Millis): Option<Tag> {
    match RelayHLCState(StateBytes(last), relay, MAX_STRING_BYTES)
    case None => None
    case Some(state) =>
      match Advance(TimeOf(state), Issue(physical))
      case None => None
      case Some(next) => Some(Tag(relay, next.wall, next.logical))
  }

  // ----- appending -----

  ghost function TotalBytes(log: seq<Entry>): nat {
    if log == [] then 0
    else TotalBytes(log[..|log| - 1]) + |Envelope(log[|log| - 1].change)|
  }

  ghost predicate Holds(log: seq<Entry>, dot: Dot, i: int) {
    0 <= i < |log| && log[i].change.dot == dot
  }

  /** Where the log holds a dot. */
  ghost function Find(log: seq<Entry>, dot: Dot): (r: Option<nat>)
    ensures r.Some? ==> Holds(log, dot, r.value)
    ensures r.None? ==> forall i :: !Holds(log, dot, i)
  {
    if log == [] then None
    else if log[|log| - 1].change.dot == dot then Some(|log| - 1)
    else
      var r := Find(log[..|log| - 1], dot);
      assert forall i :: Holds(log, dot, i) ==> Holds(log[..|log| - 1], dot, i);
      r
  }

  /** This relay can read the entry's tag back. */
  predicate Readable(hlc: Option<Tag>, relay: Bytes, max: int) {
    hlc.Some? && hlc.value.replica == relay && ValidHLC(hlc.value, max)
  }

  /** What Append answers for a change, given only the log so far. */
  ghost function Decide(log: seq<Entry>, config: Config, c: Change, physical: Millis): Result<AppendResult> {
    if !Encodable(c) then Err(InvalidWire)
    else if |Envelope(c)| > config.maxBytes then Err(StoreFull)
    else
      match Find(log, c.dot)
      case Some(i) =>
        if log[i].change != c then Err(ConflictingDot)
        else if config.relay == [] then Ok(AppendResult(i + 1, None, true))
        else if Readable(log[i].hlc, config.relay, MAX_STRING_BYTES) then Ok(AppendResult(i + 1, log[i].hlc, true))
        else Err(AntiEntropyUnavailable)
      case None =>
        if |log| >= config.maxEvents || TotalBytes(log) + |Envelope(c)| > config.maxBytes then Err(StoreFull)
        else if config.relay == [] then Ok(AppendResult(|log| + 1, None, false))
        else
          match NextTag(LastTag(log), config.relay, physical)
          case None => Err(CorruptStore)
          case Some(t) => Ok(AppendResult(|log| + 1, Some(t), false))
  }

  /** The log after Append. */
  ghost function Appended(log: seq<Entry>, config: Config, c: Change, physical: Millis): seq<Entry> {
    var r := Decide(log, config, c, physical);
    if r.Ok? && !r.value.duplicate then log + [Entry(c, r.value.hlc)] else log
  }

  // ----- what every run keeps -----

  ghost predicate DotsDistinct(log: seq<Entry>) {
    forall i, j :: 0 <= i < j < |log| ==> log[i].change.dot != log[j].change.dot
  }

  /** Relay tags grow along the log and all name one relay. */
  ghost predicate TagsGrow(log: seq<Entry>) {
    forall i, j :: 0 <= i < j < |log| && log[i].hlc.Some? && log[j].hlc.Some? ==>
      Less(log[i].hlc.value, log[j].hlc.value) && log[i].hlc.value.replica == log[j].hlc.value.replica
  }

  ghost predicate EntryOk(e: Entry) {
    && Encodable(e.change) && |Envelope(e.change)| <= MAX_UINT64
    && (e.hlc.Some? ==> e.hlc.value.Valid() && |e.hlc.value.replica| <= MAX_STRING_BYTES)
  }

  ghost predicate WellFormed(log: seq<Entry>) {
    (forall i :: 0 <= i < |log| ==> EntryOk(log[i])) && DotsDistinct(log) && TagsGrow(log)
  }

  /** The latest tag is the greatest, and names the relay of all. */
  lemma {:induction false} LastTagGreatest(log: seq<Entry>, i: nat)
    requires TagsGrow(log) && i < |log| && log[i].hlc.Some?
    ensures var last := LastTag(log);
      last.Some? && last.value.replica == log[i].hlc.value.replica
        && (last == log[i].hlc || Less(log[i].hlc.value, last.value))
  {
    if log[|log| - 1].hlc.None? {
      LastTagGreatest(log[..|log| - 1], i);
    }
  }

  lemma {:induction false} LastTagIn(log: seq<Entry>) returns (i: nat)
    requires LastTag(log).Some?
    ensures i < |log| && log[i].hlc == LastTag(log)
  {
    if log[|log| - 1].hlc.Some? {
      i := |log| - 1;
    } else {
      i := LastTagIn(log[..|log| - 1]);
    }
  }

  lemma {:induction false} UvarintShort(v: nat, k: nat)
    requires k > 0 && v < Pow128(k)
    ensures |Uvarint(v)| <= k
    decreases k
  {
    if v >= 128 {
      UvarintShort(v / 128, k - 1);
    }
  }

  lemma {:induction false} TagBytesFit(t: Tag)
    requires |t.replica| <= MAX_STRING_BYTES
    ensures |TagBytes(t)| <= MAX_UINT64
  {
    assert Pow128(4) == 0x1000_0000;
    assert Pow128(6) == 0x400_0000_0000;
    assert Pow128(8) == 0x100_0000_0000_0000;
    assert Pow128(10) > MAX_UINT64;
    UvarintShort(|t.replica|, 10);
    UvarintShort(t.wall, 10);
    UvarintShort(t.logical, 10);
  }

  lemma {:induction false} BeforeIsLess(a: Tag, b: Tag)
    requires Before(TimeOf(a), TimeOf(b))
    ensures Less(a, b)
  {
  }

  /** A tag the relay issues is valid, its own, and beyond every tag in the log. */
  lemma {:induction false} NextTagBeyond(log: seq<Entry>, relay: Bytes, physical: Millis)
    requires WellFormed(log) && NextTag(LastTag(log), relay, physical).Some?
    ensures var t := NextTag(LastTag(log), relay, physical).value;
      && t.Valid() && t.replica == relay && |relay| <= MAX_STRING_BYTES
      && forall i :: 0 <= i < |log| && log[i].hlc.Some? ==>
        Less(log[i].hlc.value, t) && log[i].hlc.value.replica == relay
  {
    hide Compare, RelayHLCState, TagBytes, Blank, Advance;
    var last := LastTag(log);
    var state := RelayHLCState(StateBytes(last), relay, MAX_STRING_BYTES).value;
    RelayNamed(StateBytes(last), relay, MAX_STRING_BYTES);
    AdvanceMoves(TimeOf(state), Issue(physical));
    var t := NextTag(last, relay, physical).value;
    if last.Some? {
      var at := LastTagIn(log);
      assert EntryOk(log[at]);
      TagBytesFit(last.value);
      RelayStateRoundTrip(last.value, relay, MAX_STRING_BYTES);
      BeforeIsLess(last.value, t);
    }
    forall i | 0 <= i < |log| && log[i].hlc.Some?
      ensures Less(log[i].hlc.value, t) && log[i].hlc.value.replica == relay {
      LastTagGreatest(log, i);
      if last != log[i].hlc {
        Transitive(log[i].hlc.value, last.value, t);
      }
    }
  }

  lemma {:induction false} RelayNamed(data: Bytes, relay: Bytes, max: int)
    requires RelayHLCState(data, relay, max).Some?
    ensures RelayHLCState(data, relay, max).value.replica == relay && !Blank(relay) && |relay| <= max
  {
    hide ReadTag, Blank;
  }

  /** Appending keeps the log well formed and within its limits, whatever is asked. */
  lemma {:induction false} AppendKeeps(log: seq<Entry>, config: Config, c: Change, physical: Millis)
    requires WellFormed(log)
    ensures WellFormed(Appended(log, config, c, physical))
    ensures Appended(log, config, c, physical) != log ==>
      |log| < config.maxEvents && TotalBytes(Appended(log, config, c, physical)) <= config.maxBytes
  {
    hide Encodable, Compare, NextTag, Envelope, Tag.Valid, LastTag;
    var r := Decide(log, config, c, physical);
    if r.Ok? && !r.value.duplicate {
      var after := log + [Entry(c, r.value.hlc)];
      assert after[..|after| - 1] == log;
      forall i | 0 <= i < |log| ensures log[i].change.dot != c.dot {
        assert !Holds(log, c.dot, i);
      }
      if config.relay != [] {
        NextTagBeyond(log, config.relay, physical);
      }
      assert EntryOk(after[|log|]);
    }
  }

  /** The log after a run of requests on an initially empty store. */
  ghost function Logged(config: Config, requests: seq<(Change, Millis)>): seq<Entry> {
    if requests == [] then []
    else
      var n := |requests| - 1;
      Appended(Logged(config, requests[..n]), config, requests[n].0, requests[n].1)
  }

  lemma {:induction false} RunKeeps(config: Config, requests: seq<(Change, Millis)>)
    ensures WellFormed(Logged(config, requests))
    ensures |Logged(config, requests)| <= config.maxEvents && TotalBytes(Logged(config, requests)) <= config.maxBytes
  {
    hide WellFormed, Decide;
    if requests == [] {
      NothingLogged();
    } else {
      var n := |requests| - 1;
      RunKeeps(config, requests[..n]);
      AppendKeeps(Logged(config, requests[..n]), config, requests[n].0, requests[n].1);
    }
  }

  lemma {:induction false} NothingLogged()
    ensures WellFormed([])
  {
  }

  /** The log only grows at its end, so an answered sequence number names the same change for ever. */
  lemma {:induction false} RunGrows(config: Config, requests: seq<(Change, Millis)>, k: nat)
    requires k <= |requests|
    ensures Logged(config, requests[..k]) <= Logged(config, requests)
  {
    hide Decide;
    if k < |requests| {
      var n := |requests| - 1;
      RunGrows(config, requests[..n], k);
      assert requests[..n][..k] == requests[..k];
    } else {
      assert requests[..k] == requests;
    }
  }

  /** Every request answered with a sequence number is the change the log holds there, now and later. */
  lemma {:induction false} AnsweredIsLogged(config: Config, requests: seq<(Change, Millis)>, k: nat)
    requires k < |requests|
    ensures var r := Decide(Logged(config, requests[..k]), config, requests[k].0, requests[k].1);
      r.Ok? ==>
        1 <= r.value.sequence <= |Logged(config, requests)|
          && Logged(config, requests)[r.value.sequence - 1].change == requests[k].0
  {
    hide NextTag, Envelope, Encodable;
    RunGrows(config, requests, k + 1);
    assert requests[..k + 1][..k] == requests[..k];
    var r := Decide(Logged(config, requests[..k]), config, requests[k].0, requests[k].1);
    if r.Ok? {
      assert Logged(config, requests[..k + 1])[r.value.sequence - 1].change == requests[k].0;
    }
  }

  // ----- the actor index -----

  /** The greatest counter of every actor. */
  ghost function ActorMaxima(log: seq<Entry>): map<Bytes, Uint64> {
    if log == [] then map[]
    else Raise(ActorMaxima(log[..|log| - 1]), log[|log| - 1].change.dot)
  }

  function Raise(m: map<Bytes, Uint64>, dot: Dot): map<Bytes, Uint64> {
    if dot.counter > (if dot.actor in m then m[dot.actor] else 0) then m[dot.actor := dot.counter] else m
  }

  /** Every actor entry is the true maximum, and the actors are exactly those in the log. */
  lemma {:induction false} MaximaAreMaxima(log: seq<Entry>, actor: Bytes)
    requires forall i :: 0 <= i < |log| ==> log[i].change.dot.counter > 0
    ensures forall i :: 0 <= i < |log| && log[i].change.dot.actor == actor ==>
              actor in ActorMaxima(log) && log[i].change.dot.counter <= ActorMaxima(log)[actor]
    ensures actor in ActorMaxima(log) ==> exists i :: Holds(log, Dot(actor, ActorMaxima(log)[actor]), i)
  {
    if log != [] {
      var n := |log| - 1;
      var before, dot := ActorMaxima(log[..n]), log[n].change.dot;
      MaximaAreMaxima(log[..n], actor);
      if actor in ActorMaxima(log) {
        if dot == Dot(actor, ActorMaxima(log)[actor]) {
          assert Holds(log, dot, n);
        } else {
          var i :| Holds(log[..n], Dot(actor, before[actor]), i);
          assert Holds(log, Dot(actor, before[actor]), i);
        }
      }
    }
  }
}
