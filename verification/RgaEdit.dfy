/** Why a local edit of the insert-only list lands exactly where it was asked to. */
module RgaEdits {
  import opened Tags
  import opened Forests
  import opened Clocks
  import opened RgaOrder
  import opened RgaStates
  import opened RgaSplices

  /** Every tag in the state was issued or witnessed. */
  ghost predicate Seen(s: State, now: Time) {
    && (forall id :: id in s.All() ==> NotAfter(TimeOf(id), now) && NotAfter(TimeOf(s.All()[id].parent), now))
    && (forall id :: id in s.tombstones ==> NotAfter(TimeOf(id), now))
  }

  lemma {:induction false} SeenLater(s: State, now: Time, later: Time)
    requires Seen(s, now) && NotAfter(now, later)
    ensures Seen(s, later)
  {
    hide State.All;
  }

  /** Tags issued one after the other, all after `was` and none after `now`. */
  ghost predicate Issued(ids: seq<Tag>, was: Time, now: Time) {
    && NotAfter(was, now) && Increasing(ids)
    && forall n :: n in ids ==> n.Valid() && Before(was, TimeOf(n)) && NotAfter(TimeOf(n), now)
  }

  lemma {:induction false} IssueOne(ids: seq<Tag>, was: Time, now: Time, n: Tag)
    requires Issued(ids, was, now) && n.Valid() && Before(now, TimeOf(n))
    ensures Issued(ids + [n], was, TimeOf(n)) && n !in ids
  {
    hide Tag.Valid;
    var after := ids + [n];
    forall i, j | 0 <= i < j < |after| ensures Less(after[i], after[j]) {
      if j == |ids| {
        assert after[i] in ids;
      } else {
        assert after[i] == ids[i] && after[j] == ids[j];
      }
    }
  }

  ghost function Prev(ids: seq<Tag>, i: int, p: Tag): Tag
    requires 0 <= i <= |ids|
  {
    if i == 0 then p else ids[i - 1]
  }

  lemma {:induction false} PrevAppend(ids: seq<Tag>, n: Tag, i: int, p: Tag)
    requires 0 <= i <= |ids|
    ensures Prev(ids + [n], i, p) == Prev(ids, i, p)
  {
  }

  /** d holds one node per id, each below the one before it and the first below p. */
  ghost predicate IsRun(d: Nodes, ids: seq<Tag>, values: seq<Bytes>, p: Tag) {
    && |ids| == |values| && d.Keys == Elems(ids)
    && forall i {:trigger ids[i]} :: 0 <= i < |ids| ==> ids[i] in d && d[ids[i]] == Node(Prev(ids, i, p), values[i])
  }

  lemma {:induction false} RunMore(d: Nodes, ids: seq<Tag>, values: seq<Bytes>, p: Tag, n: Tag, value: Bytes)
    requires IsRun(d, ids, values, p) && n !in ids
    ensures IsRun(d[n := Node(Prev(ids, |ids|, p), value)], ids + [n], values + [value], p)
  {
    hide Prev;
    var after, vals, more := ids + [n], values + [value], d[n := Node(Prev(ids, |ids|, p), value)];
    assert Elems(after) == Elems(ids) + {n};
    forall i | 0 <= i < |after| ensures after[i] in more && more[after[i]] == Node(Prev(after, i, p), vals[i]) {
      if i < |ids| {
        assert after[i] == ids[i] && ids[i] in ids && vals[i] == values[i];
      }
      PrevAppend(ids, n, i, p);
    }
  }

  lemma {:induction false} ChainedIs(par: map<Tag, Tag>, ids: seq<Tag>, p: Tag)
    requires NoDup(ids)
    ensures Chained(par, ids, p).Keys == par.Keys + Elems(ids)
    ensures forall i {:trigger ids[i]} :: 0 <= i < |ids| ==> Chained(par, ids, p)[ids[i]] == Prev(ids, i, p)
    ensures forall x :: x in par && x !in ids ==> Chained(par, ids, p)[x] == par[x]
    decreases |ids|
  {
    if ids != [] {
      var rest := ids[1..];
      assert ids == [ids[0]] + rest;
      NoDupSplit([ids[0]], rest);
      ChainedIs(par[ids[0] := p], rest, ids[0]);
      assert ids[0] in [ids[0]] && ids[0] !in rest;
      forall i | 0 <= i < |ids| ensures Chained(par, ids, p)[ids[i]] == Prev(ids, i, p) {
        if i > 0 {
          assert ids[i] == rest[i - 1] && Prev(ids, i, p) == Prev(rest, i - 1, ids[0]);
        }
      }
    }
  }

  /** Adding a run of nodes chains their parents. */
  lemma {:induction false} RunParents(nodes: Nodes, d: Nodes, ids: seq<Tag>, values: seq<Bytes>, p: Tag)
    requires IsRun(d, ids, values, p) && NoDup(ids) && d.Keys !! nodes.Keys
    ensures Par(nodes + d) == Chained(Par(nodes), ids, p)
  {
    hide Prev, Chained, NoDup;
    ChainedIs(Par(nodes), ids, p);
    var left, right := Par(nodes + d), Chained(Par(nodes), ids, p);
    forall x | x in left ensures left[x] == right[x] {
      if x in d {
        var i :| 0 <= i < |ids| && ids[i] == x;
        assert left[x] == d[ids[i]].parent == Prev(ids, i, p) == right[ids[i]];
      } else {
        assert x !in ids && (nodes + d)[x] == nodes[x];
      }
    }
  }

  lemma {:induction false} IncreasingNoDup(ids: seq<Tag>)
    requires Increasing(ids)
    ensures NoDup(ids)
  {
    forall i, j | 0 <= i < j < |ids| ensures ids[i] != ids[j] {
      Trichotomy(ids[i], ids[i]);
    }
  }

  /** Fresh tags are new to the state and newer than everything in it. */
  lemma {:induction false} FreshTags(s: State, ids: seq<Tag>, was: Time, now: Time, n: Tag)
    requires Seen(s, was) && Issued(ids, was, now) && n in ids
    ensures n != ZERO && n !in s.All() && n !in s.tombstones && NewerThanAll(Par(s.nodes), n)
    ensures forall id :: id in s.pending ==> s.pending[id].parent != n
  {
    hide Tag.Valid;
    ZeroInvalid();
    forall c | c in s.nodes ensures Less(c, n) {
      assert c in s.All();
    }
    forall id | id in s.pending ensures s.pending[id].parent != n {
      assert id in s.All() && s.All()[id] == s.pending[id];
    }
  }

  /** What a successful insertion leaves behind. */
  ghost predicate InsertedAt(s: State, t: State, o: int, ids: seq<Tag>, values: seq<Bytes>) {
    && Rooted(Par(s.nodes)) && Rooted(Par(t.nodes)) && 0 <= o <= |s.Visible()|
    && |ids| == |values| && t.Visible() == s.Visible()[..o] + ids + s.Visible()[o..]
    && (forall i :: 0 <= i < |ids| ==> ids[i] in t.nodes && t.nodes[ids[i]].value == values[i])
    && (forall id :: id in s.nodes ==> id in t.nodes && t.nodes[id] == s.nodes[id])
    && t.pending == s.pending && t.tombstones == s.tombstones
  }

  /** What a successful deletion leaves behind. */
  ghost predicate DeletedAt(s: State, t: State, o: int, count: int) {
    && Rooted(Par(s.nodes)) && t.nodes == s.nodes && t.pending == s.pending && 0 <= o && 0 <= count
    && o + count <= |s.Visible()|
    && t.tombstones == s.tombstones + Elems(s.Visible()[o..o + count])
    && t.Visible() == s.Visible()[..o] + s.Visible()[o + count..]
  }

  /** The run is integrated at once: nothing is buffered and nothing pending is released. */
  lemma {:induction false} RunLands(s: State, d: Delta, t: State, ids: seq<Tag>, values: seq<Bytes>, p: Tag, was: Time,
                                    now: Time)
    requires s.Settled() && Seen(s, was) && Issued(ids, was, now) && IsRun(d.nodes, ids, values, p)
    requires d.tombstones == {}
    requires Accepts(s, d, t) && ValidNodes(d.nodes) && Rooted(Chained(Par(s.nodes), ids, p))
    ensures t == State(s.nodes + d.nodes, s.pending, s.waiting, s.pendingBytes, s.tombstones)
    ensures Par(t.nodes) == Chained(Par(s.nodes), ids, p)
  {
    hide Rooted, State.Settled, Seen, Issued, IsRun, ValidNodes, Par, Chained;
    var want := State(s.nodes + d.nodes, s.pending, s.waiting, s.pendingBytes, s.tombstones);
    RunKeys(d.nodes, ids, values, p, was, now);
    forall id | id in d.nodes ensures id !in s.nodes && id !in s.pending && forall x :: x in s.pending ==>
      s.pending[x].parent != id {
      FreshTags(s, ids, was, now, id);
    }
    RunParents(s.nodes, d.nodes, ids, values, p);
    Regrouped(s.nodes, s.pending, d.nodes);
    WantSettled(s, d.nodes);
    SettledUnique(want, t);
  }

  lemma {:induction false} Regrouped(a: Nodes, b: Nodes, c: Nodes)
    requires forall id :: id in c ==> id !in a && id !in b
    ensures (a + c) + b == a + b + c
  {
  }

  lemma {:induction false} WantSettled(s: State, more: Nodes)
    requires s.Settled() && ValidNodes(more) && Rooted(Par(s.nodes + more))
    requires forall id :: id in more ==>
      id !in s.nodes && id !in s.pending && forall x :: x in s.pending ==> s.pending[x].parent != id
    ensures State(s.nodes + more, s.pending, s.waiting, s.pendingBytes, s.tombstones).Settled()
  {
    hide Rooted, Acyclic, SumBytes, WaitingOf, ValidNode, Par;
  }

  lemma {:induction false} RunKeys(d: Nodes, ids: seq<Tag>, values: seq<Bytes>, p: Tag, was: Time, now: Time)
    requires IsRun(d, ids, values, p) && Issued(ids, was, now)
    ensures d.Keys == Elems(ids) && NoDup(ids) && Increasing(ids)
  {
    IncreasingNoDup(ids);
  }

  lemma {:induction false} SettledRooted(s: State)
    requires s.Settled()
    ensures Rooted(Par(s.nodes))
  {
  }

  lemma {:induction false} InsertExact(s: State, d: Delta, t: State, ids: seq<Tag>, values: seq<Bytes>, o: int, p: Tag,
                                       was: Time, now: Time)
    requires s.Settled() && Seen(s, was) && Issued(ids, was, now) && IsRun(d.nodes, ids, values, p)
    requires d.tombstones == {}
    requires At(s.Visible(), o, p) && Accepts(s, d, t) && ValidNodes(d.nodes)
    ensures t.Settled() && InsertedAt(s, t, o, ids, values)
  {
    hide State.Settled, Seen, Issued, ValidNodes, VisibleWalk, Par, Chained;
    SettledRooted(s);
    forall n | n in ids ensures n != ZERO && n !in Par(s.nodes) && n !in s.tombstones && NewerThanAll(Par(s.nodes), n) {
      FreshTags(s, ids, was, now, n);
    }
    RunKeys(d.nodes, ids, values, p, was, now);
    InsertRun(Par(s.nodes), s.tombstones, ids, p, o);
    RunLands(s, d, t, ids, values, p, was, now);
    forall id | id in s.nodes ensures t.nodes[id] == s.nodes[id] {
      if id in d.nodes {
        FreshTags(s, ids, was, now, id);
      }
    }
  }

  /** Deleting only hides: the nodes stay, and exactly the range disappears from view. */
  lemma {:induction false} DeleteExact(s: State, d: Delta, t: State, o: int, count: int)
    requires s.Settled() && Accepts(s, d, t) && d.nodes == map[] && 0 <= o && 0 <= count && o + count <= |s.Visible()|
    requires d.tombstones == Elems(s.Visible()[o..o + count])
    ensures DeletedAt(s, t, o, count)
  {
    hide Acyclic, SumBytes, WaitingOf, ValidNodes, VisibleWalk, Par, Attachable;
    var want := s.(tombstones := s.tombstones + d.tombstones);
    assert want.All() == s.All() + d.nodes;
    assert want.Settled();
    SettledUnique(want, t);
    DeleteRange(Par(s.nodes), s.tombstones, o, count);
  }
}
