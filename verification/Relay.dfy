/** Subscribers of one group: replay, live queue, connection and client cursor, under every interleaving. */
module Relays {
  import opened Tags
  import opened Clocks
  import opened Changes
  import opened Logs
  import opened Stores
  import opened StoreReads
  import opened StoreMerkles

  // ----- one server-side session -----

  /**
    What the server holds for one connection. The replay list is written by the serving goroutine;
    only then does the write loop start taking from the queue. A message is taken off the queue,
    then subtracted from the byte count, then written: others may run in between.
    A closed session takes no more messages; only some time later is its connection gone, and until
    then what it already holds may still be written. A failed write ends the connection first.
   */
  datatype Session = Session(
    client: nat, start: nat, sent: seq<Bytes>, got: nat,
    replay: seq<Bytes>, live: bool, outbound: seq<Bytes>, held: Option<Bytes>, counted: bool,
    queuedBytes: int, closed: bool, gone: bool)
  {
    /** Everything written or still to be written, in order. */
    function Stream(): seq<Bytes> {
      sent + replay + (if held.Some? then [held.value] else []) + outbound
    }
  }

  datatype QueueLimits = QueueLimits(maxEvents: nat, maxBytes: nat)

  /** The messages of the log entries from a to b. */
  ghost function Messages(log: seq<Entry>, a: nat, b: nat): (r: seq<Bytes>)
    requires a <= b <= |log|
    ensures |r| == b - a && forall k :: 0 <= k < b - a ==> r[k] == EventBytes(a + k + 1, log[a + k].change)
  {
    seq(b - a, k requires 0 <= k < b - a => EventBytes(a + k + 1, log[a + k].change))
  }

  /** The messages are the log entries right after `start`, without a gap. */
  ghost predicate Contiguous(log: seq<Entry>, start: nat, ms: seq<Bytes>) {
    start + |ms| <= |log| && ms == Messages(log, start, start + |ms|)
  }

  function QueueBytes(ms: seq<Bytes>): nat {
    if ms == [] then 0 else |ms[0]| + QueueBytes(ms[1..])
  }

  ghost predicate Accounted(s: Session, limits: QueueLimits) {
    && |s.outbound| <= limits.maxEvents && s.queuedBytes <= limits.maxBytes
    && s.queuedBytes == QueueBytes(s.outbound) + if s.held.Some? && s.counted then |s.held.value| else 0
  }

  /**
    Whatever is on the connection continues the client's cursor without a gap. Until the connection is
    gone so does everything still to be written, and if it is subscribed that reaches the end of the log.
   */
  ghost predicate SessionOk(log: seq<Entry>, s: Session, joined: bool, limits: QueueLimits) {
    && s.got <= |s.sent| && Contiguous(log, s.start, s.sent)
    && (!s.gone ==> Contiguous(log, s.start, s.Stream()))
    && (!s.gone && joined ==> s.start + |s.Stream()| == |log|)
    && (s.held.Some? ==> s.live) && (s.live ==> s.replay == [])
    && Accounted(s, limits)
  }

  lemma {:induction false} ContiguousPrefix(log: seq<Entry>, start: nat, a: seq<Bytes>, b: seq<Bytes>)
    requires Contiguous(log, start, a + b)
    ensures Contiguous(log, start, a)
  {
    assert forall k :: 0 <= k < |a| ==> a[k] == (a + b)[k];
  }

  lemma {:induction false} ContiguousGrows(log: seq<Entry>, e: Entry, start: nat, ms: seq<Bytes>)
    requires Contiguous(log, start, ms)
    ensures Contiguous(log + [e], start, ms)
  {
  }

  lemma {:induction false} ContiguousNext(log: seq<Entry>, e: Entry, start: nat, ms: seq<Bytes>)
    requires Contiguous(log, start, ms) && start + |ms| == |log|
    ensures Contiguous(log + [e], start, ms + [EventBytes(|log| + 1, e.change)])
  {
  }

  lemma {:induction false} QueueBytesAppend(ms: seq<Bytes>, m: Bytes)
    ensures QueueBytes(ms + [m]) == QueueBytes(ms) + |m|
  {
    if ms == [] {
      assert ms + [m] == [m];
    } else {
      assert (ms + [m])[1..] == ms[1..] + [m];
      QueueBytesAppend(ms[1..], m);
    }
  }

  // ----- steps of a session -----

  /** Put a live event on the queue, unless the session is closed or a bound would be passed. */
  function Enqueue(s: Session, m: Bytes, limits: QueueLimits): Option<Session> {
    if s.closed || |m| > limits.maxBytes || s.queuedBytes > limits.maxBytes - |m| || |s.outbound| >= limits.maxEvents
      then None
    else Some(s.(outbound := s.outbound + [m], queuedBytes := s.queuedBytes + |m|))
  }

  /** An open session whose queue is short of its bounds by at least this message. */
  ghost predicate HasRoom(s: Session, m: Bytes, limits: QueueLimits) {
    !s.closed && |s.outbound| < limits.maxEvents && s.queuedBytes + |m| <= limits.maxBytes
  }

  /** The queue with one more message at its end. */
  ghost function Queued(s: Session, m: Bytes): Session {
    s.(outbound := s.outbound + [m], queuedBytes := s.queuedBytes + |m|)
  }

  /** After an append, a subscriber has the new event queued or is closed and unsubscribed. */
  lemma {:induction false} EnqueueKeeps(log: seq<Entry>, e: Entry, s: Session, limits: QueueLimits)
    requires SessionOk(log, s, true, limits)
    ensures var r := Enqueue(s, EventBytes(|log| + 1, e.change), limits);
      if r.Some? then SessionOk(log + [e], r.value, true, limits)
        else SessionOk(log + [e], s.(closed := true), false, limits)
    ensures var m := EventBytes(|log| + 1, e.change); var r := Enqueue(s, m, limits);
      (r.Some? <==> HasRoom(s, m, limits)) && (r.Some? ==> r.value == Queued(s, m))
  {
    hide EventBytes, Messages, Contiguous;
    var m := EventBytes(|log| + 1, e.change);
    ContiguousGrows(log, e, s.start, s.sent);
    var r := Enqueue(s, m, limits);
    if !s.gone {
      ContiguousGrows(log, e, s.start, s.Stream());
    }
    if r.Some? {
      QueueBytesAppend(s.outbound, m);
      if !s.gone {
        ContiguousNext(log, e, s.start, s.Stream());
      }
      assert r.value.Stream() == s.Stream() + [m];
    }
  }

  /** A session that is not subscribed does not notice an append. */
  lemma {:induction false} AppendUnseen(log: seq<Entry>, e: Entry, s: Session, limits: QueueLimits)
    requires SessionOk(log, s, false, limits)
    ensures SessionOk(log + [e], s, false, limits)
  {
    hide EventBytes, Messages, Contiguous;
    ContiguousGrows(log, e, s.start, s.sent);
    if !s.gone {
      ContiguousGrows(log, e, s.start, s.Stream());
    }
  }

  /** The serving goroutine writes the next replay message, closed or not; a failure is its last write. */
  function WriteReplay(s: Session, ok: bool): Session {
    if s.gone || s.replay == [] then s
    else if ok then s.(sent := s.sent + [s.replay[0]], replay := s.replay[1..])
    else s.(gone := true)
  }

  function StartLive(s: Session): Session {
    if s.closed || s.gone || s.replay != [] then s else s.(live := true)
  }

  /** The write loop may still take a message of a session that is being closed. */
  function Take(s: Session): Session {
    if !s.live || s.held.Some? || s.outbound == [] then s
    else s.(held := Some(s.outbound[0]), counted := true, outbound := s.outbound[1..])
  }

  function Settle(s: Session): Session {
    if s.held.None? || !s.counted then s
    else s.(counted := false, queuedBytes := s.queuedBytes - |s.held.value|)
  }

  /** Write the message that was taken, or fail for good: it is never written later. */
  function Deliver(s: Session, ok: bool): Session {
    if s.held.None? || s.counted then s
    else if s.gone || !ok then s.(held := None, gone := true)
    else s.(held := None, sent := s.sent + [s.held.value])
  }

  /** The connection of a closed session is torn down. */
  function TearDown(s: Session): Session {
    if s.closed then s.(gone := true) else s
  }

  // ----- progress -----

  /** What goes on the connection next. */
  ghost function NextUp(s: Session): Bytes
    requires |s.sent| < |s.Stream()|
  {
    s.Stream()[|s.sent|]
  }

  /** A replay write that succeeds puts the next message of the stream on the connection, also of a closed session. */
  lemma {:induction false} WriteProgress(s: Session)
    requires !s.gone && s.replay != []
    ensures |s.sent| < |s.Stream()|
    ensures var t := WriteReplay(s, true);
      t.sent == s.sent + [NextUp(s)] && t.Stream() == s.Stream() && t == s.(sent := t.sent, replay := t.replay)
    ensures WriteReplay(s, false) == s.(gone := true)
  {
    var t := WriteReplay(s, true);
    assert t.Stream() == s.Stream();
  }

  /** So do taking, accounting and writing a queued message, and a failure is the last write. */
  lemma {:induction false} DeliverProgress(s: Session)
    requires !s.gone && s.live && s.replay == [] && s.held.None? && s.outbound != []
    ensures |s.sent| < |s.Stream()|
    ensures var t := Deliver(Settle(Take(s)), true);
      && t.sent == s.sent + [NextUp(s)] && t.Stream() == s.Stream() && t.outbound == s.outbound[1..]
      && t.queuedBytes == s.queuedBytes - |s.outbound[0]| && t.held.None? && t.live && !t.gone && t.closed == s.closed
    ensures var t := Deliver(Settle(Take(s)), false); t.gone && t.sent == s.sent
  {
    var t := Deliver(Settle(Take(s)), true);
    assert t.Stream() == s.Stream();
  }

  /** A message on its way is written before anything else. */
  lemma {:induction false} HeldProgress(s: Session)
    requires !s.gone && s.replay == [] && s.held.Some?
    ensures |s.sent| < |s.Stream()|
    ensures var t := Deliver(Settle(s), true);
      t.sent == s.sent + [NextUp(s)] && t.Stream() == s.Stream() && t.held.None? && t.live == s.live && !t.gone
        && t.closed == s.closed
  {
    var t := Deliver(Settle(s), true);
    assert t.Stream() == s.Stream();
  }

  /** A session that is not being closed goes live once its replay is written. */
  lemma {:induction false} LiveProgress(s: Session)
    requires !s.gone && !s.closed && s.replay == []
    ensures StartLive(s) == s.(live := true) && StartLive(s).Stream() == s.Stream()
  {
  }

  lemma {:induction false} WriteReplayKeeps(log: seq<Entry>, s: Session, joined: bool, limits: QueueLimits, ok: bool)
    requires SessionOk(log, s, joined, limits)
    ensures SessionOk(log, WriteReplay(s, ok), joined, limits)
  {
    hide Messages, Contiguous;
    if !s.gone && s.replay != [] && ok {
      var t := WriteReplay(s, ok);
      assert t.Stream() == s.Stream();
      assert t.Stream() == t.sent + (t.replay + t.outbound);
      ContiguousPrefix(log, s.start, t.sent, t.replay + t.outbound);
    }
  }

  lemma {:induction false} TakeKeeps(log: seq<Entry>, s: Session, joined: bool, limits: QueueLimits)
    requires SessionOk(log, s, joined, limits)
    ensures SessionOk(log, Take(s), joined, limits)
  {
    hide Messages, Contiguous;
    assert Take(s).Stream() == s.Stream();
  }

  lemma {:induction false} DeliverKeeps(log: seq<Entry>, s: Session, joined: bool, limits: QueueLimits, ok: bool)
    requires SessionOk(log, s, joined, limits)
    ensures SessionOk(log, Deliver(s, ok), joined, limits)
  {
    hide Messages, Contiguous;
    if s.held.Some? && !s.counted && !s.gone && ok {
      var t := Deliver(s, ok);
      assert t.Stream() == s.Stream();
      assert t.Stream() == t.sent + t.outbound;
      ContiguousPrefix(log, s.start, t.sent, t.outbound);
    }
  }

  lemma {:induction false} OtherStepsKeep(log: seq<Entry>, s: Session, joined: bool, limits: QueueLimits)
    requires SessionOk(log, s, joined, limits)
    ensures SessionOk(log, StartLive(s), joined, limits) && SessionOk(log, Settle(s), joined, limits)
    ensures SessionOk(log, s.(closed := true), joined, limits) && SessionOk(log, TearDown(s), joined, limits)
    ensures SessionOk(log, s, false, limits)
    ensures Settle(s).queuedBytes <= s.queuedBytes
  {
    hide Messages, Contiguous;
    assert StartLive(s).Stream() == s.Stream() && Settle(s).Stream() == s.Stream();
    assert s.(closed := true).Stream() == s.Stream();
  }

  // ----- clients -----

  /** A client's durable position and what it has installed since its checkpoint. */
  datatype Client = Client(start: Uint64, cursor: Uint64, installed: seq<Change>, session: Option<nat>)

  /** The client has installed exactly the log entries from its checkpoint to its cursor, in order. */
  ghost predicate Installed(log: seq<Entry>, c: Client) {
    && c.cursor == c.start + |c.installed| && (c.installed != [] ==> c.cursor <= |log|)
    && forall k :: 0 <= k < |c.installed| ==> c.start + k < |log| && c.installed[k] == log[c.start + k].change
  }

  /** Its session, if it has one, is its own, and has given it everything up to the cursor. */
  ghost predicate Attached(c: Client, name: nat, sessions: map<nat, Session>) {
    c.session.Some? ==>
      var id := c.session.value;
      id in sessions && sessions[id].client == name && sessions[id].start + sessions[id].got == c.cursor
  }

  ghost predicate SessionsOk(log: seq<Entry>, sessions: map<nat, Session>, joined: set<nat>, queue: QueueLimits) {
    joined <= sessions.Keys && forall id :: id in sessions ==> SessionOk(log, sessions[id], id in joined, queue)
  }

  ghost predicate ClientsOk(log: seq<Entry>, clients: map<nat, Client>, sessions: map<nat, Session>) {
    forall name :: name in clients ==> Installed(log, clients[name]) && Attached(clients[name], name, sessions)
  }

  /** The sessions still belong to the same readers at the same place. */
  ghost predicate SameReaders(a: map<nat, Session>, b: map<nat, Session>) {
    a.Keys <= b.Keys && forall id :: id in a ==>
      a[id].client == b[id].client && a[id].start == b[id].start && a[id].got == b[id].got
  }

  lemma {:induction false} ClientsKept(log: seq<Entry>, clients: map<nat, Client>, a: map<nat, Session>,
                                       b: map<nat, Session>)
    requires ClientsOk(log, clients, a) && SameReaders(a, b)
    ensures ClientsOk(log, clients, b)
  {
    hide Installed;
  }

  lemma {:induction false} ClientsOutlive(log: seq<Entry>, e: Entry, clients: map<nat, Client>,
                                          sessions: map<nat, Session>)
    requires ClientsOk(log, clients, sessions)
    ensures ClientsOk(log + [e], clients, sessions)
  {
    hide Attached;
  }

  /** A subscribed session with nothing left to write or read has brought its client to the end of the log. */
  lemma {:induction false} DrainedIsCaughtUp(log: seq<Entry>, s: Session, c: Client, queue: QueueLimits)
    requires SessionOk(log, s, true, queue) && !s.gone && s.start + s.got == c.cursor
    requires s.replay == [] && s.held.None? && s.outbound == [] && s.got == |s.sent|
    ensures c.cursor == |log|
  {
    hide Messages;
    assert s.Stream() == s.sent;
  }

  // ----- publishing -----

  /** The sessions in rest have not been offered the new event yet; all others have. */
  ghost predicate Offered(log: seq<Entry>, e: Entry, sessions: map<nat, Session>, joined: set<nat>, rest: set<nat>,
                          queue: QueueLimits)
  {
    && rest <= joined <= sessions.Keys
    && (forall id :: id in rest ==> SessionOk(log, sessions[id], true, queue))
    && (forall id :: id in sessions && id !in rest ==> SessionOk(log + [e], sessions[id], id in joined, queue))
  }

  /**
    Everybody subscribed was offered the message, except those in rest: who had room has it at the end of the queue,
    who had not is closed and no longer subscribed. The others did not change.
   */
  ghost predicate Told(before: map<nat, Session>, subscribed: set<nat>, message: Bytes, queue: QueueLimits,
                       sessions: map<nat, Session>, joined: set<nat>, rest: set<nat>)
  {
    && sessions.Keys == before.Keys && joined <= subscribed && subscribed <= before.Keys
    && (forall id :: id in before && (id !in subscribed || id in rest) ==> sessions[id] == before[id])
    && (forall id :: id in rest ==> id in joined)
    && (forall id :: id in subscribed && id !in rest && HasRoom(before[id], message, queue) ==>
          id in joined && sessions[id] == Queued(before[id], message))
    && (forall id :: id in subscribed && id !in rest && !HasRoom(before[id], message, queue) ==>
          id !in joined && sessions[id] == before[id].(closed := true))
  }

  lemma {:induction false} ToldNext(before: map<nat, Session>, subscribed: set<nat>, message: Bytes, queue: QueueLimits,
                                    sessions: map<nat, Session>, joined: set<nat>, rest: set<nat>, id: nat, s: Session,
                                    stays: bool)
    requires Told(before, subscribed, message, queue, sessions, joined, rest) && id in rest
    requires id in sessions && (stays <==> HasRoom(sessions[id], message, queue))
    requires s == if stays then Queued(sessions[id], message) else sessions[id].(closed := true)
    ensures Told(before, subscribed, message, queue, sessions[id := s], if stays then joined else joined - {id},
      rest - {id})
  {
    hide HasRoom, Queued;
  }

  method OfferOne(s: Session, message: Bytes, queue: QueueLimits, ghost log: seq<Entry>, ghost e: Entry)
    returns (t: Session, stays: bool)
    requires SessionOk(log, s, true, queue) && message == EventBytes(|log| + 1, e.change)
    ensures SessionOk(log + [e], t, stays, queue) && t.client == s.client && t.start == s.start && t.got == s.got
    ensures (stays <==> HasRoom(s, message, queue)) && t == if stays then Queued(s, message) else s.(closed := true)
  {
    hide SessionOk, EventBytes;
    EnqueueKeeps(log, e, s, queue);
    var queued := Enqueue(s, message, queue);
    if queued.None? {
      return s.(closed := true), false;
    }
    return queued.value, true;
  }

  lemma {:induction false} OfferedPart(log: seq<Entry>, e: Entry, sessions: map<nat, Session>, joined: set<nat>,
                                       rest: set<nat>, queue: QueueLimits, id: nat)
    requires Offered(log, e, sessions, joined, rest, queue) && id in rest
    ensures id in joined && id in sessions && SessionOk(log, sessions[id], true, queue)
  {
    hide SessionOk;
  }

  lemma {:induction false} OfferStep(log: seq<Entry>, e: Entry, sessions: map<nat, Session>, joined: set<nat>,
                                     rest: set<nat>, queue: QueueLimits, id: nat, s: Session, stays: bool)
    requires Offered(log, e, sessions, joined, rest, queue) && id in rest && SessionOk(log + [e], s, stays, queue)
    ensures Offered(log, e, sessions[id := s], if stays then joined else joined - {id}, rest - {id}, queue)
  {
    hide SessionOk;
  }

  lemma {:induction false} AllOffered(log: seq<Entry>, e: Entry, sessions: map<nat, Session>, joined: set<nat>,
                                      queue: QueueLimits)
    requires Offered(log, e, sessions, joined, {}, queue)
    ensures SessionsOk(log + [e], sessions, joined, queue)
  {
    hide SessionOk;
  }

  lemma {:induction false} SameReader(a: map<nat, Session>, b: map<nat, Session>, id: nat, s: Session)
    requires SameReaders(a, b) && id in b && s.client == b[id].client && s.start == b[id].start && s.got == b[id].got
    ensures SameReaders(a, b[id := s])
  {
  }

  /** Offer a new event to every subscriber, in any order; whoever cannot take it is closed and removed. */
  method Broadcast(before: map<nat, Session>, subscribed: set<nat>, message: Bytes, queue: QueueLimits,
                   ghost log: seq<Entry>, ghost e: Entry)
    returns (sessions: map<nat, Session>, joined: set<nat>)
    requires SessionsOk(log, before, subscribed, queue) && message == EventBytes(|log| + 1, e.change)
    ensures SessionsOk(log + [e], sessions, joined, queue) && SameReaders(before, sessions)
    ensures sessions.Keys == before.Keys
    ensures Told(before, subscribed, message, queue, sessions, joined, {})
  {
    hide SessionOk, Enqueue, EventBytes, HasRoom, Queued;
    forall id | id in before && id !in subscribed ensures SessionOk(log + [e], before[id], false, queue) {
      AppendUnseen(log, e, before[id], queue);
    }
    sessions, joined := before, subscribed;
    var rest := joined;
    assert Offered(log, e, sessions, joined, rest, queue);
    assert Told(before, subscribed, message, queue, sessions, joined, rest);
    hide Offered, SameReaders, Told;
    while rest != {}
      invariant sessions.Keys == before.Keys && Offered(log, e, sessions, joined, rest, queue)
      invariant SameReaders(before, sessions) && Told(before, subscribed, message, queue, sessions, joined, rest)
      decreases |rest|
    {
      var id :| id in rest;
      OfferedPart(log, e, sessions, joined, rest, queue, id);
      var s, stays := OfferOne(sessions[id], message, queue, log, e);
      OfferStep(log, e, sessions, joined, rest, queue, id, s, stays);
      SameReader(before, sessions, id, s);
      ToldNext(before, subscribed, message, queue, sessions, joined, rest, id, s, stays);
      sessions := sessions[id := s];
      if !stays {
        joined := joined - {id};
      }
      rest := rest - {id};
    }
    AllOffered(log, e, sessions, joined, queue);
  }

  // ----- the relay -----

  datatype Received = Nothing | Malformed | Gap | NotInstalled | Advanced

  /** There is a message on the client's connection that it has not read. */
  ghost predicate Waiting(clients: map<nat, Client>, sessions: map<nat, Session>, name: nat) {
    && name in clients && clients[name].session.Some? && clients[name].session.value in sessions
    && var s := sessions[clients[name].session.value]; s.got < |s.sent|
  }

  /**
    What reading it comes to: the event right after the cursor, installed unless the client refuses it. There is
    never a gap.
   */
  ghost function ReadOutcome(clients: map<nat, Client>, sessions: map<nat, Session>, log: seq<Entry>, name: nat,
                             maxMessage: int, maxActor: int, accepts: Change -> bool, installs: bool): Received
  {
    if !Waiting(clients, sessions, name) || clients[name].cursor >= |log| then Nothing
    else
      var i := clients[name].cursor;
      var c := log[i].change;
      if |EventBytes(i + 1, c)| > maxMessage || maxActor <= 0 || |c.dot.actor| > maxActor || !accepts(c) then Malformed
      else if !installs then NotInstalled
      else Advanced
  }

  /**
    Exactly which messages are published: well formed, admitted, authorized, small enough to repair, and accepted by
    the log.
   */
  ghost predicate Acceptable(data: Bytes, authorized: bool, physical: Millis, log: seq<Entry>, indexable: bool,
                             config: Config, limits: ReadLimits, admits: Change -> bool)
    requires limits.Valid()
  {
    var c := UnmarshalChange(data, limits.maxMessage, limits.maxActor);
    && c.Some? && admits(c.value) && authorized
    && (config.relay == [] || |data| <= limits.maxMessage - MerkleOverhead(limits.maxActor))
    && indexable && Decide(log, config, c.value, physical).Ok?
  }

  class Relay {
    const store: GroupLog
    const limits: ReadLimits
    const queue: QueueLimits
    const admits: Change -> bool
    var sessions: map<nat, Session>
    /** The subscribed sessions. */
    var joined: set<nat>
    var next: nat
    var clients: map<nat, Client>

    ghost predicate Valid()
      reads this, store
    {
      && store.Valid() && limits.Valid() && limits.maxMessage <= MAX_UINT64 && limits.maxActor <= MAX_UINT64
      && SessionsOk(store.log, sessions, joined, queue) && ClientsOk(store.log, clients, sessions)
      && forall id :: id in sessions ==> id < next
    }

    constructor (store: GroupLog, limits: ReadLimits, queue: QueueLimits, admits: Change -> bool)
      requires store.Valid() && limits.Valid() && limits.maxMessage <= MAX_UINT64 && limits.maxActor <= MAX_UINT64
      ensures Valid() && this.store == store && clients == map[] && sessions == map[]
    {
      this.store, this.limits, this.queue, this.admits := store, limits, queue, admits;
      sessions, joined, next, clients := map[], {}, 0, map[];
    }

    /** Replace one session by a later state of it. */
    method Advance(id: nat, s: Session, stays: bool)
      requires Valid() && id in sessions && SessionOk(store.log, s, stays && id in joined, queue)
      requires s.client == sessions[id].client && s.start == sessions[id].start && s.got == sessions[id].got
      modifies this`sessions, this`joined
      ensures Valid() && sessions == old(sessions)[id := s]
      ensures joined == if stays then old(joined) else old(joined) - {id}
    {
      hide SessionOk, Installed, GroupLog.Valid, Attached;
      ghost var before := sessions;
      sessions := sessions[id := s];
      if !stays {
        joined := joined - {id};
      }
      ClientsKept(store.log, clients, before, sessions);
    }

    // ----- steps -----

    /** A client with a durable checkpoint. */
    method Enroll(name: nat, start: Uint64)
      requires Valid() && name !in clients
      modifies this`clients
      ensures Valid() && clients == old(clients)[name := Client(start, start, [], None)]
    {
      hide SessionsOk, GroupLog.Valid;
      clients := clients[name := Client(start, start, [], None)];
    }

    /** Decode, check, append under the group lock, and offer the event to the subscribers. */
    method Publish(data: Bytes, authorized: bool, physical: Millis) returns (ok: bool)
      requires Valid()
      modifies this`sessions, this`joined, store`group, store`log
      ensures Valid() && SameReaders(old(sessions), sessions) && sessions.Keys == old(sessions.Keys)
      ensures ok <==>
        Acceptable(data, authorized, physical, old(store.log), old(store.Indexable()), store.config, limits, admits)
      ensures store.log == if !ok then old(store.log) else
        Appended(old(store.log), store.config, UnmarshalChange(data, limits.maxMessage, limits.maxActor).value,
          physical)
      ensures ok ==> exists i :: 0 <= i < |store.log| && Envelope(store.log[i].change) == data
      ensures store.config.relay != [] && Roomy(old(store.log), limits) ==> Roomy(store.log, limits)
      ensures store.log == old(store.log) ==> sessions == old(sessions) && joined == old(joined)
      ensures |store.log| > |old(store.log)| ==>
        Told(old(sessions), old(joined), EventBytes(|store.log|, store.log[|store.log| - 1].change), queue, sessions,
          joined, {})
    {
      hide SessionsOk, ClientsOk, WellFormed, InStep, Envelope, UnmarshalChange, EventBytes, Encodable, SameReaders,
        Find, NextTag, LastTag, TotalBytes, MerkleOverhead, GroupLog.Indexable, Told;
      var decoded := UnmarshalChange(data, limits.maxMessage, limits.maxActor);
      SameItself(sessions);
      if decoded.None? || !admits(decoded.value) || !authorized {
        return false;
      }
      DecodedEnvelope(data, limits, decoded.value);
      if store.config.relay != [] && |data| > limits.maxMessage - MerkleOverhead(limits.maxActor) {
        return false;
      }
      ghost var log := store.log;
      var r := store.Append(decoded.value, physical);
      if r.Err? {
        return false;
      }
      if r.value.duplicate {
        assert Envelope(store.log[r.value.sequence - 1].change) == data;
        return true;
      }
      var e := Entry(decoded.value, r.value.hlc);
      assert store.log == log + [e];
      Announce(log, e, r.value.sequence);
      assert store.log[|log|] == e;
      return true;
    }

    /** Offer the event that was just appended to the subscribers. */
    method Announce(ghost log: Sized, e: Entry, sequence: nat)
      requires store.Valid() && limits.Valid() && limits.maxMessage <= MAX_UINT64 && limits.maxActor <= MAX_UINT64
      requires SessionsOk(log, sessions, joined, queue) && ClientsOk(log, clients, sessions)
      requires forall id :: id in sessions ==> id < next
      requires store.log == log + [e] && sequence == |log| + 1 && Encodable(e.change)
      modifies this`sessions, this`joined
      ensures Valid() && SameReaders(old(sessions), sessions) && sessions.Keys == old(sessions.Keys)
      ensures Told(old(sessions), old(joined), EventBytes(sequence, e.change), queue, sessions, joined, {})
    {
      hide SessionsOk, ClientsOk, GroupLog.Valid, EventBytes, SameReaders, Told;
      ghost var before := sessions;
      var message := MarshalEvent(sequence, e.change);
      sessions, joined := Broadcast(sessions, joined, message.value, queue, log, e);
      ClientsOutlive(log, e, clients, before);
      ClientsKept(store.log, clients, before, sessions);
    }

    /** Subscribe at the client's cursor: the replay and the registration are one step. */
    method Connect(name: nat) returns (ok: bool)
      requires Valid()
      modifies this`sessions, this`joined, this`next, this`clients
      ensures Valid() && (!ok ==> sessions == old(sessions) && joined == old(joined) && clients == old(clients))
      ensures ok <==>
        name in old(clients) && old(clients)[name].session.None?
          && Replayable(store.log, old(clients)[name].cursor, limits, admits)
      ensures ok ==> clients == old(clients)[name := old(clients)[name].(session := Some(old(next)))]
      ensures ok ==> joined == old(joined) + {old(next)} && sessions.Keys == old(sessions).Keys + {old(next)}
      ensures ok ==>
        sessions[old(next)].start == old(clients)[name].cursor && !sessions[old(next)].closed
          && !sessions[old(next)].gone
      ensures ok ==> forall x :: x in old(sessions) ==> sessions[x] == old(sessions)[x]
    {
      hide WellFormed, InStep, Replayable, EventsAfter, SessionsOk, ClientsOk, SessionOk, Messages;
      if name !in clients || clients[name].session.Some? {
        return false;
      }
      var c := clients[name];
      var r := Replay(store, c.cursor, limits, admits);
      if r.Err? {
        return false;
      }
      ReplayableCursor(store.log, c.cursor, limits, admits);
      var messages := EncodeAll(store.log, c.cursor, r.value.0);
      var s := Session(name, c.cursor, [], 0, messages, false, [], None, false, 0, false, false);
      NewSession(store.log, s, queue);
      Opened(s, next);
      return true;
    }

    method Opened(s: Session, id: nat)
      requires Valid() && id == next && SessionOk(store.log, s, true, queue) && s.got == 0
      requires s.client in clients && clients[s.client].cursor == s.start
      modifies this`sessions, this`joined, this`next, this`clients
      ensures Valid() && sessions == old(sessions)[id := s]
      ensures clients == old(clients)[s.client := old(clients)[s.client].(session := Some(id))]
      ensures next == id + 1 && joined == old(joined) + {id}
    {
      hide SessionOk, Installed, GroupLog.Valid;
      ghost var before := sessions;
      assert id !in sessions;
      sessions, joined, next := sessions[id := s], joined + {id}, next + 1;
      ClientsKept(store.log, clients, before, sessions);
      SessionIrrelevant(store.log, clients[s.client], Some(id));
      clients := clients[s.client := clients[s.client].(session := Some(id))];
    }

    /** The client reads its next message, checks the sequence number and installs the event; the check never fails. */
    method Read(name: nat, maxMessage: int, maxActor: int, accepts: Change -> bool, installs: bool)
      returns (r: Received)
      requires Valid() && maxMessage <= MAX_UINT64 && maxActor <= MAX_UINT64
      modifies this`sessions, this`clients
      ensures Valid() && clients.Keys == old(clients.Keys)
      ensures r == ReadOutcome(old(clients), old(sessions), store.log, name, maxMessage, maxActor, accepts, installs)
      ensures forall x :: x in clients && x != name ==> clients[x] == old(clients)[x]
      ensures !r.Advanced? ==> sessions == old(sessions)
      ensures !r.Advanced? && name in clients ==>
        clients[name].(session := None) == old(clients)[name].(session := None)
      ensures r.Advanced? ==> name in clients && old(clients)[name].cursor < |store.log|
      ensures r.Advanced? ==>
        var c := old(clients)[name];
        clients[name] == c.(cursor := c.cursor + 1, installed := c.installed + [store.log[c.cursor].change])
      ensures r.Advanced? ==>
        var id := old(clients)[name].session.value;
        id in old(sessions) && sessions == old(sessions)[id := old(sessions)[id].(got := old(sessions)[id].got + 1)]
    {
      hide WellFormed, InStep, SessionOk, EventBytes, UnmarshalEvent, Installed;
      if name !in clients || clients[name].session.None? {
        return Nothing;
      }
      var c := clients[name];
      var id := c.session.value;
      var s := sessions[id];
      if s.got >= |s.sent| {
        return Nothing;
      }
      var event := UnmarshalEvent(s.sent[s.got], maxMessage, maxActor);
      NextMessage(store.log, s, id in joined, queue, maxMessage, maxActor);
      if event.None? || !accepts(event.value.1) {
        Hangup(name);
        return Malformed;
      }
      if event.value.0 != c.cursor + 1 {
        return Gap;
      }
      if !installs {
        Hangup(name);
        return NotInstalled;
      }
      Install(name, id, event.value.1);
      return Advanced;
    }

    method Install(name: nat, id: nat, change: Change)
      requires Valid() && name in clients && clients[name].session == Some(id) && id in sessions
      requires sessions[id].got < |sessions[id].sent|
      requires clients[name].cursor < |store.log| && change == store.log[clients[name].cursor].change
      modifies this`sessions, this`clients
      ensures Valid() && sessions == old(sessions)[id := old(sessions)[id].(got := old(sessions)[id].got + 1)]
      ensures var c := old(clients)[name];
        clients == old(clients)[name := c.(cursor := c.cursor + 1, installed := c.installed + [change])]
    {
      hide SessionOk, Installed, GroupLog.Valid;
      var c, s := clients[name], sessions[id];
      InstalledNext(store.log, c);
      ReadKeeps(store.log, s, id in joined, queue);
      sessions := sessions[id := s.(got := s.got + 1)];
      clients := clients[name := c.(cursor := c.cursor + 1, installed := c.installed + [change])];
    }

    /** The client ends its session and will come back with its cursor. */
    method Hangup(name: nat)
      requires Valid()
      modifies this`clients
      ensures Valid()
      ensures clients
           == if name in old(clients) then old(clients)[name := old(clients)[name].(session := None)] else old(clients)
    {
      hide SessionsOk, GroupLog.Valid, Installed;
      if name in clients {
        SessionIrrelevant(store.log, clients[name], None);
        clients := clients[name := clients[name].(session := None)];
      }
    }
  }

  // ----- whole runs -----

  /** One atomic step of some goroutine or client. */
  datatype Step =
    | NewClient(name: nat, start: Uint64) | Submit(data: Bytes, authorized: bool, physical: Millis)
      | Subscribe(name: nat)
    | WriteOne(id: nat, ok: bool) | GoLive(id: nat) | TakeOne(id: nat) | SettleOne(id: nat)
      | DeliverOne(id: nat, ok: bool)
    | Close(id: nat) | Tear(id: nat) | Remove(id: nat)
      | Receive(name: nat, maxMessage: Uint64, maxActor: Uint64, installs: bool) | End(name: nat)

  /** The session after a step of its own. */
  function Stepped(s: Session, step: Step): Session {
    match step
    case WriteOne(_, ok) => WriteReplay(s, ok)
    case GoLive(_) => StartLive(s)
    case TakeOne(_) => Take(s)
    case SettleOne(_) => Settle(s)
    case DeliverOne(_, ok) => Deliver(s, ok)
    case Close(_) => s.(closed := true)
    case Tear(_) => TearDown(s)
    case _ => s
  }

  method SessionStep(relay: Relay, step: Step, id: nat)
    requires relay.Valid() && id in relay.sessions
    modifies relay`sessions, relay`joined
    ensures relay.Valid() && relay.sessions == old(relay.sessions)[id := Stepped(old(relay.sessions)[id], step)]
    ensures relay.joined == if step.Remove? then old(relay.joined) - {id} else old(relay.joined)
  {
    hide SessionOk, GroupLog.Valid, ClientsOk, WriteReplay, StartLive, Take, Settle, Deliver, TearDown;
    var s := relay.sessions[id];
    ghost var log, joined := relay.store.log, id in relay.joined;
    OtherStepsKeep(log, s, joined, relay.queue);
    ReadersKept(s);
    match step {
      case WriteOne(_, ok) =>
        WriteReplayKeeps(log, s, joined, relay.queue, ok);
        relay.Advance(id, WriteReplay(s, ok), true);
      case GoLive(_) =>
        relay.Advance(id, StartLive(s), true);
      case TakeOne(_) =>
        TakeKeeps(log, s, joined, relay.queue);
        relay.Advance(id, Take(s), true);
      case SettleOne(_) =>
        relay.Advance(id, Settle(s), true);
      case DeliverOne(_, ok) =>
        DeliverKeeps(log, s, joined, relay.queue, ok);
        relay.Advance(id, Deliver(s, ok), true);
      case Close(_) =>
        relay.Advance(id, s.(closed := true), true);
      case Tear(_) =>
        relay.Advance(id, TearDown(s), true);
      case Remove(_) =>
        relay.Advance(id, s, false);
      case _ =>
    }
  }

  lemma {:induction false} ReadersKept(s: Session)
    ensures forall t: Session ::
      t in {StartLive(s), Take(s), Settle(s), TearDown(s), WriteReplay(s, true), WriteReplay(s, false),
        Deliver(s, true), Deliver(s, false)} ==>
      t.client == s.client && t.start == s.start && t.got == s.got
  {
  }

  /**
    Every interleaving of publishers, subscriptions, overflowing queues, writes, failures and
    reconnecting clients: at the end every client has installed exactly the log entries from its
    checkpoint to its cursor, and every connection has carried the entries after its start without a gap.
   */
  method Run(relay: Relay, accepts: Change -> bool, steps: seq<Step>)
    requires relay.Valid()
    modifies relay`sessions, relay`joined, relay`next, relay`clients, relay.store`group, relay.store`log
    ensures relay.Valid() && old(relay.store.log) <= relay.store.log
    ensures (relay.store.config.relay != [] && relay.limits.maxActor >= 0
      && Roomy(old(relay.store.log), relay.limits)) ==>
      Roomy(relay.store.log, relay.limits)
    ensures forall name :: name in relay.clients ==> Installed(relay.store.log, relay.clients[name])
    ensures forall id :: id in relay.sessions ==>
      Contiguous(relay.store.log, relay.sessions[id].start, relay.sessions[id].sent)
  {
    hide Relay.Valid, GroupLog.Valid, Envelope, Installed, Contiguous, Session.Stream, SameReaders, Roomy, Told,
      ReadOutcome;
    var n := 0;
    while n < |steps|
      invariant 0 <= n <= |steps| && relay.Valid() && old(relay.store.log) <= relay.store.log
      invariant (relay.store.config.relay != [] && relay.limits.maxActor >= 0
        && Roomy(old(relay.store.log), relay.limits)) ==>
        Roomy(relay.store.log, relay.limits)
    {
      match steps[n] {
        case NewClient(name, start) =>
          if name !in relay.clients {
            relay.Enroll(name, start);
          }
        case Submit(data, authorized, physical) =>
          var _ := relay.Publish(data, authorized, physical);
        case Subscribe(name) =>
          var _ := relay.Connect(name);
        case Receive(name, maxMessage, maxActor, installs) =>
          var _ := relay.Read(name, maxMessage, maxActor, accepts, installs);
        case End(name) =>
          relay.Hangup(name);
        case _ =>
          if steps[n].id in relay.sessions {
            SessionStep(relay, steps[n], steps[n].id);
          }
      }
      n := n + 1;
    }
    RelayFacts(relay);
  }

  /** The connection stands, and the session is live or can become so. */
  ghost predicate Standing(s: Session) {
    !s.gone && (s.live || !s.closed)
  }

  /** By its own steps alone, a standing session puts everything it has to write on the connection. */
  method SendAll(relay: Relay, id: nat)
    requires relay.Valid() && id in relay.sessions && Standing(relay.sessions[id])
    modifies relay`sessions, relay`joined
    ensures relay.Valid() && relay.joined == old(relay.joined) && relay.sessions.Keys == old(relay.sessions).Keys
    ensures forall x :: x in relay.sessions && x != id ==> relay.sessions[x] == old(relay.sessions)[x]
    ensures var s, t := old(relay.sessions)[id], relay.sessions[id];
      && t.sent == s.Stream() == t.Stream() && !t.gone && t.got == s.got && t.start == s.start && t.client == s.client
  {
    hide Relay.Valid, Session.Stream, WriteReplay, StartLive, Take, Settle, Deliver, TearDown;
    ghost var s := relay.sessions[id];
    StreamLonger(s);
    while |relay.sessions[id].sent| < StreamLength(relay.sessions[id])
      invariant relay.Valid() && relay.joined == old(relay.joined) && relay.sessions.Keys == old(relay.sessions).Keys
      invariant forall x :: x in relay.sessions && x != id ==> relay.sessions[x] == old(relay.sessions)[x]
      invariant id in relay.sessions && Standing(relay.sessions[id]) && relay.sessions[id].Stream() == s.Stream()
      invariant relay.sessions[id].got == s.got && relay.sessions[id].start == s.start
      invariant relay.sessions[id].client == s.client
      invariant |relay.sessions[id].sent| <= |s.Stream()|
      decreases |s.Stream()| - |relay.sessions[id].sent|, if relay.sessions[id].live then 0 else 1
    {
      SendOne(relay, id);
      StreamLonger(relay.sessions[id]);
    }
    StreamLonger(relay.sessions[id]);
  }

  /** How much there is to write in all. */
  function StreamLength(s: Session): nat {
    |s.sent| + |s.replay| + (if s.held.Some? then 1 else 0) + |s.outbound|
  }

  lemma {:induction false} StreamLonger(s: Session)
    ensures |s.Stream()| == StreamLength(s) && |s.sent| <= |s.Stream()|
    ensures |s.sent| == StreamLength(s) ==> s.Stream() == s.sent
  {
  }

  /** One message more on the connection, or the session goes live. */
  method SendOne(relay: Relay, id: nat)
    requires relay.Valid() && id in relay.sessions && Standing(relay.sessions[id])
    requires |relay.sessions[id].sent| < StreamLength(relay.sessions[id])
    modifies relay`sessions, relay`joined
    ensures relay.Valid() && relay.joined == old(relay.joined) && relay.sessions.Keys == old(relay.sessions).Keys
    ensures forall x :: x in relay.sessions && x != id ==> relay.sessions[x] == old(relay.sessions)[x]
    ensures var s, t := old(relay.sessions)[id], relay.sessions[id];
      && Standing(t) && t.Stream() == s.Stream() && t.got == s.got && t.start == s.start && t.client == s.client
      && ((|t.sent| == |s.sent| + 1 && (s.live ==> t.live)) || (t.sent == s.sent && !s.live && t.live))
  {
    hide Relay.Valid, Session.Stream, WriteReplay, StartLive, Take, Settle, Deliver, TearDown;
    ghost var s := relay.sessions[id];
    LiveHasNoReplay(relay, id);
    ReadersKept(s);
    if relay.sessions[id].replay != [] {
      WriteProgress(s);
      SessionStep(relay, WriteOne(id, true), id);
    } else if !relay.sessions[id].live {
      LiveProgress(s);
      SessionStep(relay, GoLive(id), id);
    } else if relay.sessions[id].held.Some? {
      HeldProgress(s);
      ThreeSteps(s);
      SessionStep(relay, SettleOne(id), id);
      SessionStep(relay, DeliverOne(id, true), id);
    } else {
      DeliverProgress(s);
      ThreeSteps(s);
      SessionStep(relay, TakeOne(id), id);
      SessionStep(relay, SettleOne(id), id);
      SessionStep(relay, DeliverOne(id, true), id);
    }
  }

  lemma {:induction false} LiveHasNoReplay(relay: Relay, id: nat)
    requires relay.Valid() && id in relay.sessions
    ensures var s := relay.sessions[id]; (s.live ==> s.replay == []) && (s.held.Some? ==> s.live)
  {
    hide GroupLog.Valid, Contiguous, Session.Stream, Installed;
  }

  lemma {:induction false} ThreeSteps(s: Session)
    ensures var t := Deliver(Settle(Take(s)), true); t.client == s.client && t.start == s.start && t.got == s.got
    ensures var t := Deliver(Settle(s), true); t.client == s.client && t.start == s.start && t.got == s.got
  {
  }

  /** The client can take every event from here to the end of the log. */
  ghost predicate Palatable(log: seq<Entry>, from: nat, maxMessage: int, maxActor: int, accepts: Change -> bool) {
    forall i :: from <= i < |log| ==>
      var c := log[i].change;
      |EventBytes(i + 1, c)| <= maxMessage && 0 < maxActor && |c.dot.actor| <= maxActor && accepts(c)
  }

  /**
    Nothing stands in the way of a subscriber whose connection stands: its own steps and its client's reads bring the
    client to the end of the log, whatever has happened before.
   */
  method CatchUpClient(relay: Relay, name: nat, id: nat, maxMessage: Uint64, maxActor: Uint64, accepts: Change -> bool)
    requires relay.Valid() && name in relay.clients && relay.clients[name].session == Some(id) && id in relay.sessions
    requires id in relay.joined && Standing(relay.sessions[id])
    requires Palatable(relay.store.log, relay.clients[name].cursor, maxMessage, maxActor, accepts)
    modifies relay`sessions, relay`joined, relay`clients
    ensures relay.Valid() && name in relay.clients && relay.clients[name].cursor == |relay.store.log|
    ensures relay.clients[name].start == old(relay.clients)[name].start && relay.clients[name].session == Some(id)
    ensures Installed(relay.store.log, relay.clients[name])
  {
    hide Relay.Valid, Session.Stream, EventBytes, Installed, GroupLog.Valid;
    ghost var start, cursor := relay.clients[name].start, relay.clients[name].cursor;
    SendAll(relay, id);
    while relay.sessions[id].got < |relay.sessions[id].sent|
      invariant relay.Valid() && id in relay.sessions && id in relay.joined && !relay.sessions[id].gone
      invariant name in relay.clients && relay.clients[name].session == Some(id) && relay.clients[name].start == start
      invariant relay.clients[name].cursor >= cursor && relay.sessions[id].sent == relay.sessions[id].Stream()
      decreases |relay.sessions[id].sent| - relay.sessions[id].got
    {
      ghost var s := relay.sessions[id];
      ReaderAt(relay, name, id);
      var r := relay.Read(name, maxMessage, maxActor, accepts, true);
      SameStream(s, s.got + 1);
    }
    ReaderAt(relay, name, id);
  }

  lemma {:induction false} SameStream(s: Session, got: nat)
    ensures s.(got := got).Stream() == s.Stream()
  {
  }

  /** Where the client of a session stands. */
  lemma {:induction false} ReaderAt(relay: Relay, name: nat, id: nat)
    requires relay.Valid() && name in relay.clients && relay.clients[name].session == Some(id) && id in relay.sessions
    ensures var s, c := relay.sessions[id], relay.clients[name];
      && c.cursor == s.start + s.got && s.got <= |s.sent| && s.start + |s.sent| <= |relay.store.log|
      && Installed(relay.store.log, c)
      && (id in relay.joined && !s.gone && s.sent == s.Stream() ==> s.start + |s.sent| == |relay.store.log|)
  {
    hide GroupLog.Valid, Installed, Messages, Session.Stream;
    assert SessionOk(relay.store.log, relay.sessions[id], id in relay.joined, relay.queue);
    assert Attached(relay.clients[name], name, relay.sessions);
  }

  lemma {:induction false} RelayFacts(relay: Relay)
    requires relay.Valid()
    ensures forall name :: name in relay.clients ==> Installed(relay.store.log, relay.clients[name])
    ensures forall id :: id in relay.sessions ==>
      Contiguous(relay.store.log, relay.sessions[id].start, relay.sessions[id].sent)
  {
    hide Installed, Contiguous, GroupLog.Valid, Session.Stream;
    forall id | id in relay.sessions
      ensures Contiguous(relay.store.log, relay.sessions[id].start, relay.sessions[id].sent) {
      assert SessionOk(relay.store.log, relay.sessions[id], id in relay.joined, relay.queue);
    }
  }

  lemma {:induction false} InstalledNext(log: Sized, c: Client)
    requires Installed(log, c) && c.cursor < |log|
    ensures Installed(log, c.(cursor := c.cursor + 1, installed := c.installed + [log[c.cursor].change]))
  {
  }

  lemma {:induction false} ReadKeeps(log: seq<Entry>, s: Session, joined: bool, queue: QueueLimits)
    requires SessionOk(log, s, joined, queue) && s.got < |s.sent|
    ensures SessionOk(log, s.(got := s.got + 1), joined, queue)
  {
    hide Contiguous;
    assert s.(got := s.got + 1).Stream() == s.Stream();
  }

  /** The next message on a connection is the log entry right after what has been read. */
  lemma {:induction false} NextMessage(log: Sized, s: Session, joined: bool, queue: QueueLimits, maxMessage: int,
                                       maxActor: int)
    requires WellFormed(log) && SessionOk(log, s, joined, queue) && s.got < |s.sent| && maxMessage <= MAX_UINT64
    requires maxActor <= MAX_UINT64
    ensures s.start + s.got < |log|
    ensures var i := s.start + s.got; var c := log[i].change;
      UnmarshalEvent(s.sent[s.got], maxMessage, maxActor) ==
        if |EventBytes(i + 1, c)| <= maxMessage && 0 < maxActor && |c.dot.actor| <= maxActor then Some((i + 1, c))
          else None
  {
    hide EventBytes, UnmarshalEvent, DotsDistinct, TagsGrow, Encodable, Envelope, Accounted;
    var i := s.start + s.got;
    assert EntryOk(log[i]);
    UnmarshalOwnEvent(i + 1, log[i].change, maxMessage, maxActor);
  }

  lemma {:induction false} SessionIrrelevant(log: seq<Entry>, c: Client, session: Option<nat>)
    ensures Installed(log, c) ==> Installed(log, c.(session := session))
  {
  }

  lemma {:induction false} SameItself(sessions: map<nat, Session>)
    ensures SameReaders(sessions, sessions)
  {
  }

  lemma {:induction false} DecodedEnvelope(data: Bytes, limits: ReadLimits, c: Change)
    requires UnmarshalChange(data, limits.maxMessage, limits.maxActor) == Some(c) && limits.maxMessage <= MAX_UINT64
    ensures Encodable(c) && data == Envelope(c)
  {
    hide Encodable, Envelope, UnmarshalFields;
    UnmarshalIff(data, limits.maxMessage, limits.maxActor, c);
  }

  lemma {:induction false} ReplayableCursor(log: seq<Entry>, cursor: nat, limits: ReadLimits, admits: Change -> bool)
    requires Replayable(log, cursor, limits, admits)
    ensures cursor <= |log|
  {
  }

  /** Encode the replay for the wire. */
  method EncodeAll(ghost log: Sized, ghost cursor: nat, events: seq<Event>) returns (messages: seq<Bytes>)
    requires WellFormed(log) && cursor <= |log| && events == EventsAfter(log, cursor)
    ensures messages == Messages(log, cursor, |log|)
  {
    hide Envelope, EventBytes, DotsDistinct, TagsGrow;
    messages := [];
    var n := 0;
    while n < |events|
      invariant 0 <= n <= |events| && |messages| == n
      invariant forall k :: 0 <= k < n ==> messages[k] == EventBytes(cursor + k + 1, log[cursor + k].change)
    {
      assert EntryOk(log[cursor + n]);
      var message := MarshalEvent(events[n].sequence, events[n].change);
      messages := messages + [message.value];
      n := n + 1;
    }
  }

  lemma {:induction false} NewSession(log: seq<Entry>, s: Session, queue: QueueLimits)
    requires s.start <= |log| && s.sent == [] && s.got == 0 && s.replay == Messages(log, s.start, |log|)
    requires !s.live && s.outbound == [] && s.held.None? && s.queuedBytes == 0
    ensures SessionOk(log, s, true, queue)
  {
    hide EventBytes;
    assert s.Stream() == s.replay;
  }

  /** A client that is not connected comes back: it succeeds exactly if the rest of the log can be replayed. */
  method Rejoin(relay: Relay, name: nat, maxMessage: Uint64, maxActor: Uint64, accepts: Change -> bool)
    returns (ok: bool)
    requires relay.Valid() && name in relay.clients && relay.clients[name].session.None?
    requires Palatable(relay.store.log, relay.clients[name].cursor, maxMessage, maxActor, accepts)
    modifies relay`sessions, relay`joined, relay`next, relay`clients
    ensures relay.Valid()
    ensures ok <==> Replayable(relay.store.log, old(relay.clients)[name].cursor, relay.limits, relay.admits)
    ensures ok ==> name in relay.clients && relay.clients[name].cursor == |relay.store.log|
    ensures ok ==> Installed(relay.store.log, relay.clients[name])
    ensures ok ==> relay.clients[name].start == old(relay.clients)[name].start
    ensures !ok ==> relay.clients == old(relay.clients) && relay.sessions == old(relay.sessions)
  {
    hide Relay.Valid, Session.Stream, EventBytes, Installed, GroupLog.Valid, Replayable, Palatable;
    var id := relay.next;
    ok := relay.Connect(name);
    if ok {
      CatchUpClient(relay, name, id, maxMessage, maxActor, accepts);
    }
  }
}
