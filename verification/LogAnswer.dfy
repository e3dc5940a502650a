/** What an append must be answered, said of the log itself: retries, conflicts, full stores and new changes. */
module LogAnswers {
  import opened Tags
  import opened Clocks
  import opened Wires
  import opened Changes
  import opened Logs

  // ----- the next relay tag -----

  /** A reading the relay may issue: not behind its physical clock and after every tag in the log. */
  ghost predicate Beyond(log: seq<Entry>, physical: Millis, u: Time) {
    && physical >= 0 && Before(Time(0, 0), u) && NotAfter(Time(physical, 0), u)
    && forall i :: 0 <= i < |log| && log[i].hlc.Some? ==> Before(TimeOf(log[i].hlc.value), u)
  }

  /** The relay can go on from the tags in the log: all are its own and readable, and there is a reading after them. */
  ghost predicate CanTag(log: seq<Entry>, relay: Bytes, physical: Millis) {
    && !Blank(relay) && |relay| <= MAX_STRING_BYTES && (exists u :: Beyond(log, physical, u))
    && forall i :: 0 <= i < |log| && log[i].hlc.Some? ==> log[i].hlc.value.replica == relay && ValidUtf8(relay)
  }

  /** The tag is this relay's, at the earliest reading it may issue. */
  ghost predicate NextInLog(log: seq<Entry>, relay: Bytes, physical: Millis, t: Tag) {
    t.replica == relay && Beyond(log, physical, TimeOf(t))
      && forall u :: Beyond(log, physical, u) ==> NotAfter(TimeOf(t), u)
  }

  /** Where the relay's clock stands. */
  ghost function LastTime(log: seq<Entry>): Time {
    if LastTag(log).Some? then TimeOf(LastTag(log).value) else Time(0, 0)
  }

  lemma {:induction false} LessIsBefore(a: Tag, b: Tag)
    requires Less(a, b) && a.replica == b.replica
    ensures Before(TimeOf(a), TimeOf(b))
  {
    CompareBytesAntisymmetric(a.replica, b.replica);
  }

  lemma {:induction false} BeyondIsLater(log: seq<Entry>, physical: Millis, u: Time)
    requires TagsGrow(log)
    ensures Beyond(log, physical, u) <==> Later(LastTime(log), Issue(physical), u)
  {
    hide Less, LastTag;
    forall i | 0 <= i < |log| && log[i].hlc.Some? ensures NotAfter(TimeOf(log[i].hlc.value), LastTime(log)) {
      LastTagGreatest(log, i);
      if LastTag(log) != log[i].hlc {
        LessIsBefore(log[i].hlc.value, LastTag(log).value);
      }
    }
    if LastTag(log).Some? {
      var at := LastTagIn(log);
      assert log[at].hlc == LastTag(log);
    }
  }

  /** The stored clock is readable exactly when the last tag is this relay's and its name is text. */
  lemma {:induction false} StateWhen(log: seq<Entry>, relay: Bytes)
    requires WellFormed(log)
    ensures var state := RelayHLCState(StateBytes(LastTag(log)), relay, MAX_STRING_BYTES);
      && (state.Some? <==>
            && !Blank(relay) && |relay| <= MAX_STRING_BYTES
            && (LastTag(log).Some? ==> LastTag(log).value.replica == relay && ValidUtf8(relay)))
      && (state.Some? ==> TimeOf(state.value) == LastTime(log))
  {
    hide Blank, TagBytes, ReadTag, ValidUtf8, LastTag, DotsDistinct, TagsGrow, Encodable, Envelope;
    var last := LastTag(log);
    if last.Some? {
      var at := LastTagIn(log);
      assert EntryOk(log[at]);
      TagBytesFit(last.value);
      RelayStateRoundTrip(last.value, relay, MAX_STRING_BYTES);
    }
  }

  lemma {:induction false} OneRelay(log: seq<Entry>, relay: Bytes)
    requires TagsGrow(log)
    ensures (LastTag(log).Some? ==> LastTag(log).value.replica == relay && ValidUtf8(relay)) <==>
      forall i :: 0 <= i < |log| && log[i].hlc.Some? ==> log[i].hlc.value.replica == relay && ValidUtf8(relay)
  {
    hide Less, LastTag, ValidUtf8;
    if LastTag(log).Some? {
      var at := LastTagIn(log);
      assert log[at].hlc.Some?;
    }
    forall i | 0 <= i < |log| && log[i].hlc.Some?
      ensures LastTag(log).Some? && log[i].hlc.value.replica == LastTag(log).value.replica {
      LastTagGreatest(log, i);
    }
  }

  /** The relay issues a tag exactly when it can, and then the earliest one. */
  lemma {:induction false} NextTagWhen(log: seq<Entry>, relay: Bytes, physical: Millis)
    requires WellFormed(log)
    ensures var t := NextTag(LastTag(log), relay, physical);
      && (t.Some? <==> CanTag(log, relay, physical))
      && (t.Some? ==> NextInLog(log, relay, physical, t.value))
  {
    hide Blank, Advance, RelayHLCState, ValidUtf8, LastTag, Later, Beyond, EntryOk, LastTime;
    StateWhen(log, relay);
    OneRelay(log, relay);
    AdvanceEarliest(LastTime(log), Issue(physical));
    forall u ensures Beyond(log, physical, u) <==> Later(LastTime(log), Issue(physical), u) {
      BeyondIsLater(log, physical, u);
    }
  }

  // ----- answers -----

  /** The dot is bound to another change. */
  ghost predicate Clashing(log: seq<Entry>, c: Change) {
    exists i :: Holds(log, c.dot, i) && log[i].change != c
  }

  ghost predicate Unbound(log: seq<Entry>, c: Change) {
    forall i :: !Holds(log, c.dot, i)
  }

  /** The log takes one more change of this size, with the tag it needs. */
  ghost predicate Takes(log: seq<Entry>, config: Config, c: Change, physical: Millis) {
    && |log| < config.maxEvents && TotalBytes(log) + |Envelope(c)| <= config.maxBytes
    && (config.relay == [] || CanTag(log, config.relay, physical))
  }

  /** The entry is still readable under this configuration. */
  ghost predicate StillRead(e: Entry, config: Config) {
    config.relay == [] || Readable(e.hlc, config.relay, MAX_STRING_BYTES)
  }

  /** A retry gets the sequence number of the entry again. */
  ghost predicate Retried(log: seq<Entry>, config: Config, c: Change, r: Result<AppendResult>) {
    forall i :: Holds(log, c.dot, i) && log[i].change == c ==>
      r == if StillRead(log[i], config)
           then Ok(AppendResult(i + 1, if config.relay == [] then None else log[i].hlc, true))
           else Err(AntiEntropyUnavailable)
  }

  /** A change with a new dot gets the next sequence number exactly if the log takes it. */
  ghost predicate Numbered(log: seq<Entry>, config: Config, c: Change, physical: Millis, r: Result<AppendResult>) {
    && (r.Ok? <==> Takes(log, config, c, physical))
    && (r.Ok? ==> r.value.sequence == |log| + 1 && !r.value.duplicate && (r.value.hlc.Some? <==> config.relay != []))
    && (r.Ok? && config.relay != [] ==> NextInLog(log, config.relay, physical, r.value.hlc.value))
    && (r == Err(StoreFull) <==> |log| >= config.maxEvents || TotalBytes(log) + |Envelope(c)| > config.maxBytes)
    && (r.Err? ==> r.error.StoreFull? || r.error.CorruptStore?)
  }

  /** What the answer to a change must be. */
  ghost predicate Fair(log: seq<Entry>, config: Config, c: Change, physical: Millis, r: Result<AppendResult>) {
    && (r == Err(InvalidWire) <==> !Encodable(c))
    && (Encodable(c) && |Envelope(c)| > config.maxBytes ==> r == Err(StoreFull))
    && (r == Err(ConflictingDot) <==> Encodable(c) && |Envelope(c)| <= config.maxBytes && Clashing(log, c))
    && (Encodable(c) && |Envelope(c)| <= config.maxBytes ==>
          Retried(log, config, c, r) && (Unbound(log, c) ==> Numbered(log, config, c, physical, r)))
  }

  lemma {:induction false} DecideFair(log: seq<Entry>, config: Config, c: Change, physical: Millis)
    requires WellFormed(log)
    ensures Fair(log, config, c, physical, Decide(log, config, c, physical))
  {
    hide Encodable, Envelope, NextTag, LastTag, CanTag, NextInLog, Readable, TotalBytes, EntryOk, TagsGrow;
    NextTagWhen(log, config.relay, physical);
    var found := Find(log, c.dot);
    if found.Some? {
      forall j | Holds(log, c.dot, j) ensures j == found.value {
      }
    }
  }

  // ----- whole runs -----

  /** What a store file goes through: changes, and being opened with other limits or another relay name. */
  datatype Request = Submit(change: Change, physical: Millis) | Configure(config: Config)

  /** The log and the configuration at some point of a run. */
  datatype Page = Page(log: seq<Entry>, config: Config)

  /** One request: a fair answer, and the log grows by the change exactly if it was answered as new. */
  ghost predicate TurnsTo(p: Page, request: Request, answer: Option<Result<AppendResult>>, q: Page) {
    match request
    case Submit(c, physical) =>
      && answer.Some? && Fair(p.log, p.config, c, physical, answer.value) && q.config == p.config
      && var r := answer.value; q.log == if r.Ok? && !r.value.duplicate then p.log + [Entry(c, r.value.hlc)] else p.log
    case Configure(other) =>
      if other.Valid() then answer.None? && q == Page(p.log, other) else answer == Some(Err(InvalidConfig)) && q == p
  }

  /** The log and the configuration before and after every request of a run from an empty file. */
  ghost predicate Ledger(config: Config, requests: seq<Request>, answers: seq<Option<Result<AppendResult>>>,
                         pages: seq<Page>)
  {
    && |pages| == |requests| + 1 && |answers| == |requests| && pages[0] == Page([], config)
    && forall k :: 0 <= k < |requests| ==> TurnsTo(pages[k], requests[k], answers[k], pages[k + 1])
  }

  lemma {:induction false} FirstPage(config: Config)
    ensures Ledger(config, [], [], [Page([], config)])
  {
  }

  lemma {:induction false} LedgerNext(config: Config, requests: seq<Request>,
                                      answers: seq<Option<Result<AppendResult>>>, pages: seq<Page>, n: nat,
                                      answer: Option<Result<AppendResult>>, page: Page)
    requires n < |requests| && Ledger(config, requests[..n], answers, pages)
    requires |pages| == n + 1 && TurnsTo(pages[n], requests[n], answer, page)
    ensures Ledger(config, requests[..n + 1], answers + [answer], pages + [page]) && (pages + [page])[n + 1] == page
  {
    hide TurnsTo;
  }

  lemma {:induction false} PagesGrow(config: Config, requests: seq<Request>, answers: seq<Option<Result<AppendResult>>>,
                                     pages: seq<Page>, j: nat, k: nat)
    requires Ledger(config, requests, answers, pages) && j <= k <= |requests|
    ensures pages[j].log <= pages[k].log
    decreases k
  {
    hide Fair;
    if j < k {
      PagesGrow(config, requests, answers, pages, j, k - 1);
      assert TurnsTo(pages[k - 1], requests[k - 1], answers[k - 1], pages[k]);
    }
  }

  /** The entry behind an answer. */
  lemma {:induction false} AnswerNames(log: seq<Entry>, config: Config, c: Change, physical: Millis,
                                       r: Result<AppendResult>)
    requires Fair(log, config, c, physical, r) && r.Ok?
    ensures if r.value.duplicate then 1 <= r.value.sequence <= |log| && log[r.value.sequence - 1].change == c
      else r.value.sequence == |log| + 1
  {
    hide Encodable, Envelope, Takes, NextInLog, StillRead;
    if !Unbound(log, c) {
      var i :| Holds(log, c.dot, i);
      assert log[i].change == c;
    }
  }

  /**
    A retry is answered with the same sequence number, as a duplicate, as long as the store is opened so that it can
    read the entry and the change is within its size limit.
   */
  lemma {:induction false} RetryIsDuplicate(config: Config, requests: seq<Request>,
                                            answers: seq<Option<Result<AppendResult>>>, pages: seq<Page>, j: nat,
                                            k: nat)
    requires Ledger(config, requests, answers, pages) && j < k < |requests|
    requires requests[j].Submit? && requests[k].Submit? && requests[j].change == requests[k].change
    requires answers[j].Some? && answers[j].value.Ok?
    ensures var n := answers[j].value.value.sequence;
      1 <= n <= |pages[k].log| && pages[k].log[n - 1].change == requests[k].change
    ensures var n := answers[j].value.value.sequence;
      |Envelope(requests[k].change)| <= pages[k].config.maxBytes && StillRead(pages[k].log[n - 1], pages[k].config) ==>
        answers[k].Some? && answers[k].value.Ok? && answers[k].value.value.duplicate
          && answers[k].value.value.sequence == n
  {
    hide Encodable, Envelope, StillRead, Numbered;
    var c := requests[j].change;
    assert TurnsTo(pages[j], requests[j], answers[j], pages[j + 1]);
    assert TurnsTo(pages[k], requests[k], answers[k], pages[k + 1]);
    AnswerNames(pages[j].log, pages[j].config, c, requests[j].physical, answers[j].value);
    PagesGrow(config, requests, answers, pages, j + 1, k);
    var n := answers[j].value.value.sequence;
    assert pages[j + 1].log[n - 1].change == c;
    assert Holds(pages[k].log, c.dot, n - 1);
  }
}
