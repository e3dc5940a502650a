/** The bounded delta coalescer: optimistic merging outside the lock, without losing or repeating a delta. */
module Coalescers {
  import opened Tags

  /** Frame type and codec, which all queued deltas share. */
  datatype Kind = Kind(typeID: Uint64, codecID: Bytes)

  const NO_KIND := Kind(0, [])
  const MAX_MERGE_RETRIES := 16

  datatype AddError = Limit | Invalid | TypeMismatch | MergeFailed | MergeRetry

  /** Joins two encoded deltas, or fails. */
  type Merge = (Bytes, Bytes) -> Option<Bytes>

  // ----- what a queued item stands for -----

  /** The left-to-right merge of a nonempty group of deltas. */
  ghost function FoldAll(merge: Merge, group: seq<Bytes>): Option<Bytes>
    requires group != []
    decreases |group|
  {
    var n := |group| - 1;
    if n == 0 then Some(group[0])
    else
      match FoldAll(merge, group[..n])
      case None => None
      case Some(before) => merge(before, group[n])
  }

  ghost predicate Folded(merge: Merge, group: seq<Bytes>, item: Bytes) {
    group != [] && FoldAll(merge, group) == Some(item)
  }

  ghost function Concat(groups: seq<seq<Bytes>>): seq<Bytes> {
    if groups == [] then [] else Concat(groups[..|groups| - 1]) + groups[|groups| - 1]
  }

  /** The committed deltas, cut into consecutive groups, each merged into one item: nothing lost, nothing twice. */
  ghost predicate Explained(merge: Option<Merge>, items: seq<Bytes>, groups: seq<seq<Bytes>>, committed: seq<Bytes>) {
    && |groups| == |items| && Concat(groups) == committed
    && forall k :: 0 <= k < |items| ==>
      if merge.Some? then Folded(merge.value, groups[k], items[k]) else groups[k] == [items[k]]
  }

  lemma {:induction false} ExplainedOne(merge: Option<Merge>, items: seq<Bytes>, groups: seq<seq<Bytes>>,
                                        committed: seq<Bytes>, item: Bytes)
    requires Explained(merge, items, groups, committed)
    ensures Explained(merge, items + [item], groups + [[item]], committed + [item])
  {
    var more := groups + [[item]];
    assert more[..|groups|] == groups;
    if merge.Some? {
      assert Folded(merge.value, [item], item);
    }
  }

  lemma {:induction false} ExplainedMerge(merge: Merge, items: seq<Bytes>, groups: seq<seq<Bytes>>,
                                          committed: seq<Bytes>, item: Bytes, merged: Bytes)
    requires Explained(Some(merge), items, groups, committed) && items != []
    requires merge(items[|items| - 1], item) == Some(merged)
    ensures var n := |items| - 1;
      Explained(Some(merge), items[..n] + [merged], groups[..n] + [groups[n] + [item]], committed + [item])
  {
    var n := |items| - 1;
    var group := groups[n] + [item];
    assert group[..|group| - 1] == groups[n];
    assert Folded(merge, group, merged);
    var more := groups[..n] + [group];
    assert more[..n] == groups[..n];
    assert Concat(groups[..n]) + group == Concat(groups[..n]) + groups[n] + [item];
  }

  // ----- meaning -----

  ghost predicate Associative<T(!new)>(op: (T, T) -> T) {
    forall a, b, c :: op(op(a, b), c) == op(a, op(b, c))
  }

  /** The merge function computes the join of what its arguments mean. */
  ghost predicate Means<T(!new)>(merge: Merge, meaning: Bytes -> T, op: (T, T) -> T) {
    forall a, b :: merge(a, b).Some? ==> meaning(merge(a, b).value) == op(meaning(a), meaning(b))
  }

  /** The ordered join of a nonempty list of deltas. */
  ghost function Join<T(!new)>(meaning: Bytes -> T, op: (T, T) -> T, s: seq<Bytes>): T
    requires s != []
  {
    if |s| == 1 then meaning(s[0]) else op(Join(meaning, op, s[..|s| - 1]), meaning(s[|s| - 1]))
  }

  lemma {:induction false} JoinConcat<T(!new)>(meaning: Bytes -> T, op: (T, T) -> T, a: seq<Bytes>, b: seq<Bytes>)
    requires Associative(op) && a != [] && b != []
    ensures Join(meaning, op, a + b) == op(Join(meaning, op, a), Join(meaning, op, b))
    decreases |b|
  {
    var s := a + b;
    if |b| == 1 {
      assert s[..|s| - 1] == a && s[|s| - 1] == b[0];
    } else {
      var front := b[..|b| - 1];
      assert s[..|s| - 1] == a + front && s[|s| - 1] == b[|b| - 1];
      JoinConcat(meaning, op, a, front);
    }
  }

  lemma {:induction false} FoldedMeans<T(!new)>(merge: Merge, meaning: Bytes -> T, op: (T, T) -> T, group: seq<Bytes>,
                                                item: Bytes)
    requires Means(merge, meaning, op) && Folded(merge, group, item)
    ensures group != [] && meaning(item) == Join(meaning, op, group)
    decreases |group|
  {
    if |group| > 1 {
      var front := group[..|group| - 1];
      FoldedMeans(merge, meaning, op, front, FoldAll(merge, front).value);
    }
  }

  /**
    With an associative join, the drained and queued items together mean exactly what was accepted, in commit order.
   */
  lemma {:induction false} NothingLost<T(!new)>(merge: Option<Merge>, meaning: Bytes -> T, op: (T, T) -> T,
                                                items: seq<Bytes>, groups: seq<seq<Bytes>>, committed: seq<Bytes>)
    requires Explained(merge, items, groups, committed) && items != [] && Associative(op)
    requires merge.Some? ==> Means(merge.value, meaning, op)
    ensures committed != [] && Join(meaning, op, items) == Join(meaning, op, committed)
    decreases |items|
  {
    var n := |items| - 1;
    if merge.Some? {
      FoldedMeans(merge.value, meaning, op, groups[n], items[n]);
    }
    if n > 0 {
      NothingLost(merge, meaning, op, items[..n], groups[..n], Concat(groups[..n]));
      JoinConcat(meaning, op, Concat(groups[..n]), groups[n]);
    } else {
      assert groups[..n] == [] && Concat([]) == [];
      assert committed == [] + groups[n] == groups[n];
    }
  }

  function TotalBytes(items: seq<Bytes>): nat {
    if items == [] then 0 else TotalBytes(items[..|items| - 1]) + |items[|items| - 1]|
  }

  // ----- the object -----

  /** What the queue is made of: nothing, the deltas accepted since the last drain, or their one merge. */
  ghost predicate Queued(merge: Option<Merge>, recent: seq<Bytes>, items: seq<Bytes>) {
    if recent == [] then items == []
    else if merge.None? then items == recent
    else |items| == 1 && Folded(merge.value, recent, items[0])
  }

  ghost predicate AllOf(decode: Bytes -> Option<Kind>, kind: Kind, items: seq<Bytes>) {
    forall d :: d in items ==> decode(d) == Some(kind)
  }

  /** All these deltas have the kind of this one. */
  ghost predicate SameKind(decode: Bytes -> Option<Kind>, recent: seq<Bytes>, item: Bytes) {
    forall d :: d in recent ==> decode(d) == decode(item)
  }

  /** Without merging there is place for one more delta. */
  ghost predicate Room(recent: seq<Bytes>, item: Bytes, maxItems: nat, maxBytes: nat) {
    |recent| < maxItems && TotalBytes(recent) + |item| <= maxBytes
  }

  /** The merge of everything queued with one more delta, if it is one of the same kind within the bound. */
  ghost predicate Mergeable(merge: Merge, decode: Bytes -> Option<Kind>, recent: seq<Bytes>, item: Bytes, maxBytes: nat)
  {
    var all := FoldAll(merge, recent + [item]);
    all.Some? && decode(all.value) == decode(item) && |all.value| <= maxBytes
  }

  lemma {:induction false} QueuedOne(merge: Option<Merge>, recent: seq<Bytes>, items: seq<Bytes>, item: Bytes)
    requires Queued(merge, recent, items) && (merge.Some? ==> items == [])
    ensures Queued(merge, recent + [item], items + [item])
  {
    if merge.Some? {
      assert recent + [item] == [item];
    }
  }

  lemma {:induction false} QueuedMerge(merge: Merge, recent: seq<Bytes>, items: seq<Bytes>, item: Bytes, merged: Bytes)
    requires Queued(Some(merge), recent, items) && items != [] && merge(items[|items| - 1], item) == Some(merged)
    ensures Queued(Some(merge), recent + [item], [merged]) && items[..|items| - 1] == []
  {
    assert (recent + [item])[..|recent|] == recent;
  }

  /** What an adder remembers while it merges outside the lock. */
  datatype Ticket = Ticket(tail: Bytes, generation: nat, kind: Kind)

  datatype Began = Done | Failed(error: AddError) | Merging(ticket: Ticket)
  datatype Finished = Committed | Refused(error: AddError) | Stale

  class Coalescer {
    const maxItems: nat
    const maxBytes: nat
    const merge: Option<Merge>
    const decode: Bytes -> Option<Kind>
    const isDelta: Uint64 -> bool
    var items: seq<Bytes>
    var total: int
    var kind: Kind
    var generation: nat
    /** The queue at every generation so far. */
    ghost var history: map<nat, (seq<Bytes>, Kind)>
    /** All accepted deltas in commit order, everything drained, and how they correspond. */
    ghost var committed: seq<Bytes>
    ghost var drained: seq<Bytes>
    ghost var groups: seq<seq<Bytes>>
    /** How many deltas had been accepted at the last drain. */
    ghost var mark: nat

    ghost predicate Bounded()
      reads this
    {
      total == TotalBytes(items) && total <= maxBytes && |items| <= maxItems && (merge.Some? ==> |items| <= 1)
    }

    /** The deltas accepted since the last drain. */
    ghost function Recent(): seq<Bytes>
      reads this
    {
      if mark <= |committed| then committed[mark..] else []
    }

    /** The queue is made of the recent deltas, and the recorded kind is that of each of them and of each item. */
    ghost predicate Typed()
      reads this
    {
      && mark <= |committed| && Queued(merge, Recent(), items)
      && AllOf(decode, kind, Recent()) && AllOf(decode, kind, items)
    }

    ghost predicate Valid()
      reads this
    {
      && maxItems > 0 && maxBytes > 0 && Bounded()
      && generation in history && history[generation] == (items, kind) && (forall g :: g in history ==> g <= generation)
      && Explained(merge, drained + items, groups, committed) && Typed()
    }

    /** The ticket was taken from this queue at some time. */
    ghost predicate Issued(t: Ticket)
      reads this
    {
      t.generation in history && history[t.generation].0 != []
        && history[t.generation].0[|history[t.generation].0| - 1] == t.tail
        && history[t.generation].1 == t.kind
    }

    constructor (maxItems: nat, maxBytes: nat, merge: Option<Merge>, decode: Bytes -> Option<Kind>,
                 isDelta: Uint64 -> bool)
      requires maxItems > 0 && maxBytes > 0
      ensures Valid() && items == [] && committed == [] && drained == [] && Recent() == []
      ensures this.maxItems == maxItems && this.maxBytes == maxBytes && this.merge == merge
      ensures this.decode == decode && this.isDelta == isDelta
    {
      this.maxItems, this.maxBytes, this.merge, this.decode, this.isDelta := maxItems, maxBytes, merge, decode, isDelta;
      items, total, kind, generation := [], 0, NO_KIND, 0;
      history, committed, drained, groups, mark := map[0 := ([], NO_KIND)], [], [], [], 0;
    }

    /** A delta that may be queued at all. */
    ghost predicate Proper(item: Bytes) {
      item != [] && |item| <= maxBytes && decode(item).Some? && isDelta(decode(item).value.typeID)
    }

    /** Checks that need no lock. */
    method Check(item: Bytes) returns (error: Option<AddError>)
      ensures error.None? <==> Proper(item)
      ensures error == Some(Limit) <==> item == [] || |item| > maxBytes
      ensures error.Some? ==> error.value.Limit? || error.value.Invalid?
    {
      if item == [] || |item| > maxBytes {
        return Some(Limit);
      }
      if decode(item).None? || !isDelta(decode(item).value.typeID) {
        return Some(Invalid);
      }
      return None;
    }

    /**
      First lock region of Add: commit at once, refuse, or leave with a ticket to merge the tail. It is a mismatch
      exactly if some delta accepted since the last drain is of another kind.
     */
    method Begin(item: Bytes) returns (r: Began)
      requires Valid() && |item| <= maxBytes && decode(item).Some?
      modifies this
      ensures Valid() && drained == old(drained)
      ensures r == Failed(TypeMismatch) <==> !SameKind(decode, old(Recent()), item)
      ensures r == Failed(Limit) <==>
        SameKind(decode, old(Recent()), item) && merge.None? && old(Recent()) != []
          && !Room(old(Recent()), item, maxItems, maxBytes)
      ensures r.Merging? <==> SameKind(decode, old(Recent()), item) && merge.Some? && old(Recent()) != []
      ensures r.Failed? ==> r.error.TypeMismatch? || r.error.Limit?
      ensures r.Done? ==> items == old(items) + [item] && committed == old(committed) + [item]
      ensures r.Done? ==> Recent() == old(Recent()) + [item]
      ensures !r.Done? ==>
        items == old(items) && kind == old(kind) && generation == old(generation) && committed == old(committed)
      ensures !r.Done? ==> Recent() == old(Recent())
      ensures r.Merging? ==> items != [] && Issued(r.ticket) && r.ticket.generation == generation
      ensures r.Merging? ==> Some(r.ticket.kind) == decode(item)
      ensures forall t :: old(Issued(t)) ==> Issued(t)
    {
      hide Explained, Folded;
      KindOfQueue(this, item);
      if items == [] {
        kind := decode(item).value;
        Push(item);
        return Done;
      }
      if decode(item) != Some(kind) {
        return Failed(TypeMismatch);
      }
      if merge.None? {
        if |items| == maxItems || |item| > maxBytes - total {
          return Failed(Limit);
        }
        Push(item);
        return Done;
      }
      return Merging(Ticket(items[|items| - 1], generation, kind));
    }

    method Push(item: Bytes)
      requires maxItems > 0 && maxBytes > 0 && Bounded() && |items| < maxItems && total + |item| <= maxBytes
      requires merge.Some? ==> items == []
      requires (forall g :: g in history ==> g <= generation) && Explained(merge, drained + items, groups, committed)
      requires Typed() && decode(item) == Some(kind)
      modifies this`items, this`total, this`generation, this`history, this`committed, this`groups
      ensures Valid() && items == old(items) + [item] && committed == old(committed) + [item]
      ensures Recent() == old(Recent()) + [item]
      ensures forall g :: g in old(history) ==> g in history && history[g] == old(history)[g]
    {
      hide Explained, Concat, Folded, Queued;
      ExplainedOne(merge, drained + items, groups, committed, item);
      QueuedOne(merge, Recent(), items, item);
      assert drained + items + [item] == drained + (items + [item]);
      assert (items + [item])[..|items|] == items;
      assert (committed + [item])[mark..] == committed[mark..] + [item];
      items, total, generation := items + [item], total + |item|, generation + 1;
      history, committed, groups := history[generation := (items, kind)], committed + [item], groups + [[item]];
    }

    /** Second lock region: replace the tail only if nobody changed the queue since the ticket was taken. */
    method Finish(ticket: Ticket, item: Bytes, merged: Bytes) returns (r: Finished)
      requires Valid() && Issued(ticket) && merge.Some? && merge.value(ticket.tail, item) == Some(merged)
      requires decode(item) == Some(ticket.kind) == decode(merged)
      modifies this`items, this`total, this`generation, this`history, this`committed, this`groups
      ensures Valid()
      ensures r.Stale? <==> old(generation) != ticket.generation
      ensures r.Refused? <==> old(generation) == ticket.generation && |merged| > maxBytes
      ensures r.Refused? ==> r.error.Limit?
      ensures !r.Committed? ==> Recent() == old(Recent())
      ensures r.Committed? ==>
        committed == old(committed) + [item] && items == [merged] && Recent() == old(Recent()) + [item]
      ensures !r.Committed? ==> items == old(items) && generation == old(generation) && committed == old(committed)
      ensures forall t :: old(Issued(t)) ==> Issued(t)
    {
      hide Explained, Folded, Queued;
      if generation != ticket.generation {
        return Stale;
      }
      assert items[..|items| - 1] == [] && TotalBytes([]) == 0;
      if |merged| > maxBytes - (total - |items[|items| - 1]|) {
        return Refused(Limit);
      }
      Replace(item, merged);
      return Committed;
    }

    method Replace(item: Bytes, merged: Bytes)
      requires Valid() && items != [] && merge.Some? && merge.value(items[|items| - 1], item) == Some(merged)
      requires |merged| <= maxBytes - (total - |items[|items| - 1]|) && decode(item) == Some(kind) == decode(merged)
      modifies this`items, this`total, this`generation, this`history, this`committed, this`groups
      ensures Valid() && committed == old(committed) + [item] && items == [merged]
      ensures Recent() == old(Recent()) + [item]
      ensures forall g :: g in old(history) ==> g in history && history[g] == old(history)[g]
    {
      hide Explained, Concat, Folded, Queued, TotalBytes, AllOf;
      var n := |items| - 1;
      ghost var all := drained + items;
      OneItem(decode, kind, Recent(), items, item, merged);
      ExplainedMerge(merge.value, all, groups, committed, item, merged);
      QueuedMerge(merge.value, Recent(), items, item, merged);
      TailReplaced(drained, items, merged);
      assert (committed + [item])[mark..] == committed[mark..] + [item];
      GroupCount(merge, all, groups, committed);
      total := total + |merged| - |items[n]|;
      items, generation := items[..n] + [merged], generation + 1;
      history, committed := history[generation := (items, kind)], committed + [item];
      groups := groups[..|all| - 1] + [groups[|all| - 1] + [item]];
    }

    /** Hand out the queue and start afresh. */
    method Drain() returns (batch: seq<Bytes>)
      requires Valid()
      modifies this
      ensures Valid() && batch == old(items) && items == [] && total == 0 && drained == old(drained) + batch
      ensures Queued(merge, old(Recent()), batch) && Recent() == []
      ensures committed == old(committed)
      ensures forall t :: old(Issued(t)) ==> Issued(t)
    {
      hide Explained;
      batch := items;
      drained := drained + items;
      assert drained + [] == drained;
      items, total, kind, generation, mark := [], 0, NO_KIND, generation + 1, |committed|;
      history := history[generation := (items, kind)];
    }
  }

  /** The recorded kind decides whether a delta fits, and the sizes are those of the recent deltas. */
  lemma {:induction false} KindOfQueue(c: Coalescer, item: Bytes)
    requires c.Valid() && c.decode(item).Some?
    ensures c.items == [] <==> c.Recent() == []
    ensures c.items != [] ==> (SameKind(c.decode, c.Recent(), item) <==> c.decode(item) == Some(c.kind))
    ensures c.merge.None? ==> c.items == c.Recent() && c.total == TotalBytes(c.Recent())
  {
    hide Explained, Folded;
    if c.Recent() != [] {
      assert c.Recent()[0] in c.Recent();
    }
  }

  lemma {:induction false} TailReplaced(drained: seq<Bytes>, items: seq<Bytes>, merged: Bytes)
    requires items != []
    ensures var n, all := |items| - 1, drained + items;
      && all[..|all| - 1] + [merged] == drained + (items[..n] + [merged]) && all[|all| - 1] == items[n]
      && (items[..n] + [merged])[..n] == items[..n]
  {
    var n, all := |items| - 1, drained + items;
    assert all[..|all| - 1] == drained + items[..n];
  }

  lemma {:induction false} OneItem(decode: Bytes -> Option<Kind>, kind: Kind, recent: seq<Bytes>, items: seq<Bytes>,
                                   item: Bytes, merged: Bytes)
    requires |items| == 1 && AllOf(decode, kind, recent) && decode(item) == Some(kind) == decode(merged)
    ensures AllOf(decode, kind, recent + [item]) && AllOf(decode, kind, [merged])
    ensures TotalBytes(items) == |items[0]| && TotalBytes([merged]) == |merged|
  {
  }

  lemma {:induction false} GroupCount(merge: Option<Merge>, items: seq<Bytes>, groups: seq<seq<Bytes>>,
                                      committed: seq<Bytes>)
    requires Explained(merge, items, groups, committed)
    ensures |groups| == |items|
  {
  }

  // ----- interleavings -----

  /** An Add between its two lock regions. */
  datatype Adder = Adder(item: Bytes, ticket: Ticket, retries: nat)

  /** One atomic step: some Add enters, some Add comes back from merging, or someone drains. */
  datatype Step = Start(item: Bytes) | Resume(adder: nat) | Flush

  /** How far an Add got: it is accepted, refused, or has to merge outside the lock. */
  datatype Attempt = Taken | Turned(error: AddError) | Waits(adder: Adder)

  /** The adder may come back at any time. */
  ghost predicate Pending(c: Coalescer, a: Adder)
    reads c
  {
    c.merge.Some? && c.Issued(a.ticket) && |a.item| <= c.maxBytes && c.decode(a.item) == Some(a.ticket.kind)
  }

  /** Nobody changed the queue since the adder took its ticket. */
  ghost predicate Undisturbed(c: Coalescer, a: Adder)
    reads c
  {
    a.ticket.generation == c.generation
  }

  /** An Add enters. */
  method Enter(c: Coalescer, item: Bytes, retries: nat) returns (r: Attempt)
    requires c.Valid() && |item| <= c.maxBytes && c.decode(item).Some?
    modifies c
    ensures c.Valid() && c.drained == old(c.drained)
    ensures c.committed == old(c.committed) + if r.Taken? then [item] else []
    ensures c.Recent() == old(c.Recent()) + if r.Taken? then [item] else []
    ensures forall a :: old(Pending(c, a)) ==> Pending(c, a)
    ensures r == Turned(TypeMismatch) <==> !SameKind(c.decode, old(c.Recent()), item)
    ensures r == Turned(Limit) <==>
      SameKind(c.decode, old(c.Recent()), item) && c.merge.None? && old(c.Recent()) != []
        && !Room(old(c.Recent()), item, c.maxItems, c.maxBytes)
    ensures r.Waits? <==> SameKind(c.decode, old(c.Recent()), item) && c.merge.Some? && old(c.Recent()) != []
    ensures r.Turned? ==> r.error.TypeMismatch? || r.error.Limit?
    ensures r.Waits? ==>
      Pending(c, r.adder) && Undisturbed(c, r.adder) && r.adder.item == item && r.adder.retries == retries
  {
    hide Coalescer.Valid, SameKind, Room, Coalescer.Recent;
    var began := c.Begin(item);
    match began {
      case Done => return Taken;
      case Failed(error) => return Turned(error);
      case Merging(ticket) => return Waits(Adder(item, ticket, retries));
    }
  }

  /** The tail is the merge of the recent deltas, so merging it with one more is the merge of all of them. */
  lemma {:induction false} TailIsFold(c: Coalescer, a: Adder)
    requires c.Valid() && Pending(c, a) && Undisturbed(c, a)
    ensures c.Recent() != [] && FoldAll(c.merge.value, c.Recent() + [a.item]) == c.merge.value(a.ticket.tail, a.item)
  {
    hide Explained;
    var recent := c.Recent();
    assert (recent + [a.item])[..|recent|] == recent;
  }

  /** The merge that the adder computes outside the lock succeeds and is of its kind. */
  ghost predicate TailMerges(c: Coalescer, a: Adder)
    requires c.merge.Some?
  {
    var merged := c.merge.value(a.ticket.tail, a.item);
    merged.Some? && c.decode(merged.value) == c.decode(a.item)
  }

  /** An Add comes back: merge, then commit, give up, or try again from the start. */
  method ComeBack(c: Coalescer, a: Adder) returns (r: Attempt)
    requires c.Valid() && Pending(c, a)
    modifies c
    ensures c.Valid() && c.drained == old(c.drained)
    ensures c.committed == old(c.committed) + if r.Taken? then [a.item] else []
    ensures c.Recent() == old(c.Recent()) + if r.Taken? then [a.item] else []
    ensures forall x :: old(Pending(c, x)) ==> Pending(c, x)
    ensures old(Undisturbed(c, a)) ==> !r.Waits?
    ensures old(Undisturbed(c, a)) ==>
      (r.Taken? <==> Mergeable(c.merge.value, c.decode, old(c.Recent()), a.item, c.maxBytes))
    ensures r.Waits? ==>
      Pending(c, r.adder) && r.adder.item == a.item && r.adder.retries == a.retries + 1 < MAX_MERGE_RETRIES
    ensures !TailMerges(c, a) ==> r.Turned?
    ensures r == Turned(MergeRetry) <==>
      TailMerges(c, a) && !old(Undisturbed(c, a)) && a.retries >= MAX_MERGE_RETRIES - 1
    ensures TailMerges(c, a) && !old(Undisturbed(c, a)) && a.retries < MAX_MERGE_RETRIES - 1 ==>
      && (r.Taken? <==> old(c.Recent()) == [])
      && (r.Waits? <==> old(c.Recent()) != [] && SameKind(c.decode, old(c.Recent()), a.item))
      && (r.Turned? <==> !SameKind(c.decode, old(c.Recent()), a.item))
  {
    hide Coalescer.Valid, Room, Coalescer.Recent, FoldAll;
    if a.ticket.generation == c.generation {
      TailIsFold(c, a);
    }
    var merged := c.merge.value(a.ticket.tail, a.item);
    if merged.None? {
      return Turned(MergeFailed);
    }
    if c.decode(merged.value).None? {
      return Turned(Invalid);
    }
    if c.decode(merged.value) != Some(a.ticket.kind) {
      return Turned(TypeMismatch);
    }
    var finished := c.Finish(a.ticket, a.item, merged.value);
    match finished {
      case Committed => return Taken;
      case Refused(error) => return Turned(error);
      case Stale =>
    }
    if a.retries >= MAX_MERGE_RETRIES - 1 {
      return Turned(MergeRetry);
    }
    r := Enter(c, a.item, a.retries + 1);
  }

  /** What a step came to. */
  datatype Result =
    Accepted(item: Bytes) | Rejected(error: AddError) | Parked(adder: nat) | Drained(batch: seq<Bytes>) | Idle

  ghost predicate Waiting(c: Coalescer, adders: seq<Option<Adder>>)
    reads c
  {
    forall k :: 0 <= k < |adders| && adders[k].Some? ==> Pending(c, adders[k].value)
  }

  /** The accepted deltas in step order. */
  function AcceptedIn(results: seq<Result>): seq<Bytes> {
    if results == [] then []
    else
      var n := |results| - 1;
      AcceptedIn(results[..n]) + if results[n].Accepted? then [results[n].item] else []
  }

  function DrainedIn(results: seq<Result>): seq<Bytes> {
    if results == [] then []
    else
      var n := |results| - 1;
      DrainedIn(results[..n]) + if results[n].Drained? then results[n].batch else []
  }

  /** The deltas accepted since the last drain, given those at the start. */
  function RecentAfter(recent: seq<Bytes>, results: seq<Result>): seq<Bytes> {
    if results == [] then recent
    else
      var n := |results| - 1;
      var before := RecentAfter(recent, results[..n]);
      match results[n]
      case Accepted(item) => before + [item]
      case Drained(_) => []
      case _ => before
  }

  /** What happens to an Add that enters when these deltas were accepted since the last drain. */
  ghost predicate Entered(c: Coalescer, recent: seq<Bytes>, item: Bytes, r: Result) {
    if item == [] || |item| > c.maxBytes then r == Rejected(Limit)
    else if !c.Proper(item) then r == Rejected(Invalid)
    else if exists d :: d in recent && c.decode(d) != c.decode(item) then r == Rejected(TypeMismatch)
    else if recent == [] then r == Accepted(item)
    else if c.merge.Some? then r.Parked?
    else if |recent| < c.maxItems && TotalBytes(recent) + |item| <= c.maxBytes then r == Accepted(item)
    else r == Rejected(Limit)
  }

  /** What one step comes to, by the deltas accepted before it. */
  ghost predicate ExplainsStep(c: Coalescer, before: seq<Bytes>, step: Step, r: Result) {
    && (step.Start? ==> Entered(c, before, step.item, r))
    && (step.Flush? ==> r.Drained? && Queued(c.merge, before, r.batch))
  }

  /** An Add that comes back right after it entered is accepted exactly if the merge has its kind and fits. */
  ghost predicate ExplainsReturn(c: Coalescer, before: seq<Bytes>, step: Step, r: Result, next: Step, after: Result) {
    step.Start? && r.Parked? && next == Resume(r.adder) ==>
      && c.merge.Some?
      && (after == Accepted(step.item) <==> Mergeable(c.merge.value, c.decode, before, step.item, c.maxBytes))
  }

  /** The whole run is determined by what was accepted. */
  ghost predicate Explains(c: Coalescer, recent: seq<Bytes>, steps: seq<Step>, results: seq<Result>)
    requires |steps| == |results|
  {
    && (forall n :: 0 <= n < |steps| ==> ExplainsStep(c, RecentAfter(recent, results[..n]), steps[n], results[n]))
    && (forall n :: 0 <= n < |steps| - 1 ==>
          ExplainsReturn(c, RecentAfter(recent, results[..n]), steps[n], results[n], steps[n + 1], results[n + 1]))
  }

  /** The last step left an adder that nobody has disturbed yet. */
  ghost predicate JustParked(c: Coalescer, steps: seq<Step>, results: seq<Result>, adders: seq<Option<Adder>>)
    requires |results| <= |steps|
    reads c
  {
    var n := |results| - 1;
    n >= 0 && results[n].Parked? && steps[n].Start? ==>
      var k := results[n].adder;
      k < |adders| && adders[k].Some? && Undisturbed(c, adders[k].value) && adders[k].value.item == steps[n].item
  }

  lemma {:induction false} ResultsGrow(recent: seq<Bytes>, results: seq<Result>, r: Result)
    ensures var more := results + [r];
      && more[..|results|] == results
      && AcceptedIn(more) == AcceptedIn(results) + (if r.Accepted? then [r.item] else [])
      && DrainedIn(more) == DrainedIn(results) + (if r.Drained? then r.batch else [])
      && (r.Accepted? ==> RecentAfter(recent, more) == RecentAfter(recent, results) + [r.item])
      && (r.Drained? ==> RecentAfter(recent, more) == [])
      && (!r.Accepted? && !r.Drained? ==> RecentAfter(recent, more) == RecentAfter(recent, results))
  {
    assert (results + [r])[..|results|] == results;
  }

  /** One step more. */
  lemma {:induction false} ExplainsNext(c: Coalescer, recent: seq<Bytes>, steps: seq<Step>, results: seq<Result>,
                                        n: nat, r: Result)
    requires n < |steps| && |results| == n && Explains(c, recent, steps[..n], results)
    requires ExplainsStep(c, RecentAfter(recent, results), steps[n], r)
    requires n > 0 ==>
      ExplainsReturn(c, RecentAfter(recent, results[..n - 1]), steps[n - 1], results[n - 1], steps[n], r)
    ensures Explains(c, recent, steps[..n + 1], results + [r])
  {
    hide ExplainsStep, ExplainsReturn, RecentAfter;
    var more, run := results + [r], steps[..n + 1];
    forall m | 0 <= m < |run|
      ensures ExplainsStep(c, RecentAfter(recent, more[..m]), run[m], more[m])
    {
      assert more[..m] == results[..m] && (m == n ==> results[..m] == results);
    }
    forall m | 0 <= m < |run| - 1
      ensures ExplainsReturn(c, RecentAfter(recent, more[..m]), run[m], more[m], run[m + 1], more[m + 1])
    {
      assert more[..m] == results[..m];
    }
  }

  /** A parked Add leaves what was accepted as it was. */
  lemma {:induction false} ParkedKeeps(c: Coalescer, recent: seq<Bytes>, steps: seq<Step>, results: seq<Result>,
                                       n: nat, r: Result)
    requires 0 < n < |steps| && |results| == n
    requires results[n - 1].Parked? && steps[n] == Resume(results[n - 1].adder) && steps[n - 1].Start? ==>
      c.merge.Some? && (r == Accepted(steps[n - 1].item) <==>
        Mergeable(c.merge.value, c.decode, RecentAfter(recent, results), steps[n - 1].item, c.maxBytes))
    ensures ExplainsReturn(c, RecentAfter(recent, results[..n - 1]), steps[n - 1], results[n - 1], steps[n], r)
  {
    hide Mergeable, RecentAfter;
    if results[n - 1].Parked? {
      ResultsGrow(recent, results[..n - 1], results[n - 1]);
      assert results[..n - 1] + [results[n - 1]] == results;
    }
  }

  /** An Add that starts: the lock-free checks, then the first lock region. */
  method Launch(c: Coalescer, item: Bytes, next: nat) returns (r: Result, adder: Option<Adder>)
    requires c.Valid()
    modifies c
    ensures c.Valid() && c.drained == old(c.drained)
    ensures c.committed == old(c.committed) + if r.Accepted? then [item] else []
    ensures c.Recent() == old(c.Recent()) + if r.Accepted? then [item] else []
    ensures forall a :: old(Pending(c, a)) ==> Pending(c, a)
    ensures Entered(c, old(c.Recent()), item, r) && (r.Accepted? ==> r.item == item) && !r.Drained?
    ensures adder.Some? <==> r.Parked?
    ensures adder.Some? ==>
      r == Parked(next) && Pending(c, adder.value) && Undisturbed(c, adder.value) && adder.value.item == item
  {
    hide Coalescer.Valid, Coalescer.Recent, Pending;
    var error := c.Check(item);
    if error.Some? {
      return Rejected(error.value), None;
    }
    var attempt := Enter(c, item, 0);
    match attempt {
      case Taken => return Accepted(item), None;
      case Turned(e) => return Rejected(e), None;
      case Waits(a) => return Parked(next), Some(a);
    }
  }

  /**
    Any interleaving of adders and drains. What was accepted, in commit order, is exactly what has been drained or is
    queued; the byte count is that of the queue, within its bound; and what every step came to follows from the deltas
    accepted before it.
   */
  method Interleave(c: Coalescer, steps: seq<Step>) returns (results: seq<Result>)
    requires c.Valid()
    modifies c
    ensures c.Valid() && |results| == |steps|
    ensures c.committed == old(c.committed) + AcceptedIn(results) && c.drained == old(c.drained) + DrainedIn(results)
    ensures c.Recent() == RecentAfter(old(c.Recent()), results) && Queued(c.merge, c.Recent(), c.items)
    ensures Explains(c, old(c.Recent()), steps, results)
    ensures Explained(c.merge, c.drained + c.items, c.groups, c.committed)
    ensures c.total == TotalBytes(c.items) <= c.maxBytes && |c.items| <= c.maxItems
  {
    hide Explained, Coalescer.Valid, Coalescer.Recent, Entered, Queued, Mergeable, RecentAfter, AcceptedIn, DrainedIn,
      Explains, ExplainsReturn, Coalescer.Issued;
    results := [];
    ghost var recent := c.Recent();
    var adders: seq<Option<Adder>> := [];
    NothingYet(c, recent);
    assert steps[..0] == [];
    var n := 0;
    while n < |steps|
      invariant 0 <= n <= |steps| && |results| == n && c.Valid() && Waiting(c, adders)
      invariant c.committed == old(c.committed) + AcceptedIn(results)
      invariant c.drained == old(c.drained) + DrainedIn(results)
      invariant c.Recent() == RecentAfter(recent, results) && Explains(c, recent, steps[..n], results)
      invariant JustParked(c, steps, results, adders)
    {
      var r: Result := Idle;
      match steps[n] {
        case Start(item) =>
          var adder;
          r, adder := Launch(c, item, |adders|);
          adders := adders + [adder];
        case Resume(k) =>
          if k < |adders| && adders[k].Some? {
            var a := adders[k].value;
            var attempt := ComeBack(c, a);
            match attempt {
              case Taken => r := Accepted(a.item); adders := adders[k := None];
              case Turned(e) => r := Rejected(e); adders := adders[k := None];
              case Waits(again) => r := Parked(k); adders := adders[k := Some(again)];
            }
          }
        case Flush =>
          var batch := c.Drain();
          r := Drained(batch);
      }
      ResultsGrow(recent, results, r);
      if n > 0 {
        ParkedKeeps(c, recent, steps, results, n, r);
      }
      ExplainsNext(c, recent, steps, results, n, r);
      results := results + [r];
      n := n + 1;
    }
    assert steps[..n] == steps;
    ValidFacts(c);
  }

  lemma {:induction false} NothingYet(c: Coalescer, recent: seq<Bytes>)
    ensures Explains(c, recent, [], []) && RecentAfter(recent, []) == recent && AcceptedIn([]) == []
    ensures DrainedIn([]) == []
  {
  }

  lemma {:induction false} ValidFacts(c: Coalescer)
    requires c.Valid()
    ensures Explained(c.merge, c.drained + c.items, c.groups, c.committed) && Queued(c.merge, c.Recent(), c.items)
    ensures c.total == TotalBytes(c.items) <= c.maxBytes && |c.items| <= c.maxItems
  {
    hide Explained, Folded;
  }
}
