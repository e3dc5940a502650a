/** The retained state of an insert-only list, without its index, and what delivery does to it. */
module RgaStates {
  import opened Tags
  import opened Forests
  import opened RgaOrder

  datatype Node = Node(parent: Tag, value: Bytes)
  type Nodes = map<Tag, Node>

  datatype Delta = Delta(codecID: Bytes, nodes: Nodes, tombstones: set<Tag>)

  /** The next version number; 64 bits wrap around. */
  function Bump(version: Uint64): Uint64 {
    (version + 1) % (MAX_UINT64 + 1)
  }

  datatype Options = Options(maxNodes: int, maxTombstones: int, maxPendingNodes: int, maxPendingBytes: int,
    maxValueBytes: int) {
    predicate Valid() {
      maxNodes > 0 && maxTombstones > 0 && maxPendingNodes > 0 && maxPendingBytes > 0 && maxValueBytes > 0
    }
  }

  datatype Error = RangeError | InvalidDelta | InvalidCodec | TagConflict | IncompleteState | ResourceLimit
    | UnsafeCompaction | ClockError

  function Par(nodes: Nodes): (par: map<Tag, Tag>)
    ensures par.Keys == nodes.Keys
  {
    map id | id in nodes :: nodes[id].parent
  }

  predicate ValidNode(id: Tag, item: Node) {
    id.Valid() && id != item.parent && (item.parent == ZERO || item.parent.Valid())
  }

  predicate ValidNodes(nodes: Nodes) {
    forall id :: id in nodes ==> ValidNode(id, nodes[id])
  }

  predicate ValidDelta(d: Delta) {
    !Blank(d.codecID) && ValidNodes(d.nodes) && forall id :: id in d.tombstones ==> id.Valid()
  }

  function NodeBytes(id: Tag, item: Node): nat {
    96 + |id.replica| + |item.parent.replica| + |item.value|
  }

  ghost function SumBytes(nodes: Nodes): nat
    decreases |nodes|
  {
    if nodes == map[] then 0
    else
      var id :| id in nodes;
      NodeBytes(id, nodes[id]) + SumBytes(nodes - {id})
  }

  /** The sum does not depend on the order in which it is taken. */
  lemma {:induction false} SumBytesRemove(nodes: Nodes, id: Tag)
    requires id in nodes
    ensures SumBytes(nodes) == NodeBytes(id, nodes[id]) + SumBytes(nodes - {id})
    decreases |nodes|
  {
    var first :| first in nodes && SumBytes(nodes) == NodeBytes(first, nodes[first]) + SumBytes(nodes - {first});
    if first != id {
      SumBytesRemove(nodes - {first}, id);
      SumBytesRemove(nodes - {id}, first);
      assert nodes - {first} - {id} == nodes - {id} - {first};
    }
  }

  lemma {:induction false} SumBytesAdd(nodes: Nodes, id: Tag, item: Node)
    requires id !in nodes
    ensures SumBytes(nodes[id := item]) == NodeBytes(id, item) + SumBytes(nodes)
  {
    SumBytesRemove(nodes[id := item], id);
    assert nodes[id := item] - {id} == nodes;
  }

  ghost function WaitingOf(pending: Nodes): map<Tag, set<Tag>> {
    map p | p in Par(pending).Values :: set id | id in pending && pending[id].parent == p
  }

  datatype State = State(nodes: Nodes, pending: Nodes, waiting: map<Tag, set<Tag>>, pendingBytes: int,
    tombstones: set<Tag>) {
    ghost function All(): Nodes {
      nodes + pending
    }

    /** Integrated and pending nodes apart, nothing pending could be integrated, bookkeeping exact. */
    ghost predicate Settled() {
      && Kept()
      && forall id :: id in pending ==> !Attachable(nodes, pending[id])
    }

    /** What also holds while ready nodes are being moved over. */
    ghost predicate Kept() {
      && nodes.Keys !! pending.Keys && ValidNodes(nodes) && ValidNodes(pending)
      && Rooted(Par(nodes)) && Acyclic(Par(pending))
      && waiting == WaitingOf(pending) && pendingBytes == SumBytes(pending)
      && forall id :: id in tombstones ==> id.Valid()
    }

    ghost function Visible(): seq<Tag>
      requires Rooted(Par(nodes))
    {
      VisibleWalk(Par(nodes), tombstones)
    }
  }

  const EMPTY := State(map[], map[], map[], 0, {})

  ghost predicate Attachable(nodes: Nodes, item: Node) {
    item.parent == ZERO || item.parent in nodes
  }

  lemma {:induction false} EmptySettled()
    ensures EMPTY.Settled()
  {
    var none: map<Tag, Tag> := map[];
    assert Par(map[]) == none && WaitingOf(map[]) == map[];
    assert Acyclic(none) by {
      forall S: set<Tag> ensures !Trap(none, S) {
      }
    }
  }

  // ----- the integrated nodes are determined by what was delivered -----

  ghost predicate ParentClosed(all: Nodes, S: set<Tag>) {
    S <= all.Keys && forall x :: x in S ==> all[x].parent == ZERO || all[x].parent in S
  }

  /** The integrated nodes are the largest parent-closed set of delivered nodes. */
  lemma {:induction false} IntegratedIsLargestClosed(s: State, S: set<Tag>)
    requires s.Settled()
    ensures ParentClosed(s.All(), s.nodes.Keys)
    ensures ParentClosed(s.All(), S) ==> S <= s.nodes.Keys
  {
    assert ParentClosed(s.All(), s.nodes.Keys) by {
      forall x | x in s.nodes ensures s.All()[x].parent == ZERO || s.All()[x].parent in s.nodes {
        assert s.All()[x] == s.nodes[x] && Par(s.nodes)[x] == s.nodes[x].parent;
      }
    }
    if ParentClosed(s.All(), S) {
      var stuck, par := S * s.pending.Keys, Par(s.pending);
      forall x | x in stuck ensures par[x] in stuck {
        assert s.All()[x] == s.pending[x] && !Attachable(s.nodes, s.pending[x]);
      }
      assert !Trap(par, stuck);
      assert stuck == {};
    }
  }

  /** Two settled states that hold the same deliveries are the same state. */
  lemma {:induction false} SettledUnique(s: State, t: State)
    requires s.Settled() && t.Settled() && s.All() == t.All() && s.tombstones == t.tombstones
    ensures s == t
  {
    hide Attachable, Rooted, Acyclic, SumBytes, WaitingOf;
    IntegratedIsLargestClosed(s, t.nodes.Keys);
    IntegratedIsLargestClosed(t, s.nodes.Keys);
    SamePart(s.nodes, s.pending, t.nodes, t.pending);
  }

  lemma {:induction false} SamePart(a: Nodes, b: Nodes, c: Nodes, d: Nodes)
    requires a.Keys !! b.Keys && c.Keys !! d.Keys && a + b == c + d && a.Keys == c.Keys
    ensures a == c && b == d
  {
    forall id | id in a ensures a[id] == c[id] {
      assert (a + b)[id] == a[id] && (c + d)[id] == c[id];
    }
    forall id ensures id in b <==> id in d {
      assert id in b <==> id in a + b && id !in a;
      assert id in d <==> id in c + d && id !in c;
    }
    forall id | id in b ensures b[id] == d[id] {
      assert (a + b)[id] == b[id] && (c + d)[id] == d[id];
    }
  }

  // ----- delivery -----

  ghost predicate Consistent(a: Nodes, b: Nodes) {
    forall id :: id in a && id in b ==> a[id] == b[id]
  }

  /** One accepted delta: everything in it is retained, nothing else changes. */
  ghost predicate Accepts(s: State, d: Delta, t: State) {
    && Consistent(s.All(), d.nodes)
    && t.Settled() && t.All() == s.All() + d.nodes && t.tombstones == s.tombstones + d.tombstones
  }

  /** The states passed through when the deltas of ds are accepted one after the other. */
  ghost predicate Run(ds: seq<Delta>, states: seq<State>) {
    && |states| == |ds| + 1 && states[0] == EMPTY
    && forall i :: 0 <= i < |ds| ==> Accepts(states[i], ds[i], states[i + 1])
  }

  ghost function Content(ds: seq<Delta>): set<(Tag, Node)> {
    set i, id | 0 <= i < |ds| && id in ds[i].nodes :: (id, ds[i].nodes[id])
  }

  ghost function Deleted(ds: seq<Delta>): set<Tag> {
    set i, id | 0 <= i < |ds| && id in ds[i].tombstones :: id
  }

  ghost predicate Holds(all: Nodes, content: set<(Tag, Node)>) {
    forall id, item :: (id, item) in content <==> id in all && all[id] == item
  }

  lemma {:induction false} RunHolds(ds: seq<Delta>, states: seq<State>)
    requires Run(ds, states)
    ensures states[|ds|].Settled() && Holds(states[|ds|].All(), Content(ds)) && states[|ds|].tombstones == Deleted(ds)
    decreases |ds|
  {
    if ds == [] {
      EmptySettled();
    } else {
      var n := |ds| - 1;
      RunHolds(ds[..n], states[..n + 1]);
      assert Accepts(states[n], ds[n], states[n + 1]);
      assert ds == ds[..n] + [ds[n]];
      ContentAppend(ds[..n], ds[n]);
      HoldsMore(states[n].All(), ds[n].nodes, Content(ds[..n]), Content(ds));
    }
  }

  lemma {:induction false} HoldsMore(all: Nodes, more: Nodes, before: set<(Tag, Node)>, after: set<(Tag, Node)>)
    requires Holds(all, before) && Consistent(all, more)
    requires forall id, item :: (id, item) in after <==> (id, item) in before || (id in more && more[id] == item)
    ensures Holds(all + more, after)
  {
  }

  lemma {:induction false} HoldsSame(a: Nodes, b: Nodes, content: set<(Tag, Node)>)
    requires Holds(a, content) && Holds(b, content)
    ensures a == b
  {
    forall id ensures id in a <==> id in b {
      if id in a { assert (id, a[id]) in content; }
      if id in b { assert (id, b[id]) in content; }
    }
    forall id | id in a ensures a[id] == b[id] {
      assert (id, a[id]) in content;
    }
  }

  lemma {:induction false} ContentAppend(ds: seq<Delta>, d: Delta)
    ensures forall id, item :: (id, item) in Content(ds + [d]) <==>
      (id, item) in Content(ds) || (id in d.nodes && d.nodes[id] == item)
    ensures Deleted(ds + [d]) == Deleted(ds) + d.tombstones
  {
    var all := ds + [d];
    assert all[|ds|] == d;
    forall id, item | (id, item) in Content(ds) ensures (id, item) in Content(all) {
      var i :| 0 <= i < |ds| && id in ds[i].nodes && ds[i].nodes[id] == item;
      assert all[i] == ds[i];
    }
    forall id, item | id in d.nodes && d.nodes[id] == item ensures (id, item) in Content(all) {
      assert id in all[|ds|].nodes;
    }
    forall id | id in Deleted(ds) + d.tombstones ensures id in Deleted(all) {
      if id in d.tombstones {
        assert id in all[|ds|].tombstones;
      } else {
        var i :| 0 <= i < |ds| && id in ds[i].tombstones;
        assert id in all[i].tombstones;
      }
    }
  }

  /**
    Any two ways of delivering the same nodes and tombstones, in any order, with any duplication
    and any batching, end in the same state and so show the same list.
   */
  lemma {:induction false} DeliveryConverges(ds: seq<Delta>, es: seq<Delta>, ss: seq<State>, ts: seq<State>)
    requires Run(ds, ss) && Run(es, ts)
    requires Content(ds) == Content(es) && Deleted(ds) == Deleted(es)
    ensures ss[|ds|] == ts[|es|]
  {
    RunHolds(ds, ss);
    RunHolds(es, ts);
    HoldsSame(ss[|ds|].All(), ts[|es|].All(), Content(ds));
    SettledUnique(ss[|ds|], ts[|es|]);
  }

  // ----- grounding new nodes -----

  /** The nodes of par whose parent chain reaches the root or base through par. */
  ghost function Ground(base: set<Tag>, par: map<Tag, Tag>): (r: set<Tag>)
    ensures r <= par.Keys
    decreases |par|
  {
    var ready := set x | x in par && (par[x] == ZERO || par[x] in base);
    if ready == {} then {}
    else
      assert (par - ready).Keys == par.Keys - ready;
      ready + Ground(base + ready, par - ready)
  }

  /** Every listed node follows its parent, or hangs on the root or on base. */
  ghost predicate ParentFirst(base: set<Tag>, par: map<Tag, Tag>, ids: seq<Tag>) {
    forall i :: 0 <= i < |ids| ==>
      ids[i] in par && (par[ids[i]] == ZERO || par[ids[i]] in base || par[ids[i]] in ids[..i])
  }

  /** A parent-first list with nothing attachable left out is the grounded set. */
  lemma {:induction false} GroundIs(base: set<Tag>, par: map<Tag, Tag>, ids: seq<Tag>)
    requires base !! par.Keys && ParentFirst(base, par, ids)
    requires forall x :: x in par && x !in ids ==> par[x] != ZERO && par[x] !in base && par[x] !in ids
    ensures Elems(ids) == Ground(base, par)
  {
    GroundWithin(base, par, Elems(ids));
    forall i | 0 <= i < |ids| ensures ids[i] in Ground(base, par) {
      InGround(base, par, ids, i);
    }
  }

  lemma {:induction false} GroundWithin(base: set<Tag>, par: map<Tag, Tag>, S: set<Tag>)
    requires forall x :: x in par && x !in S ==> par[x] != ZERO && par[x] !in base && par[x] !in S
    ensures Ground(base, par) <= S
    decreases |par|
  {
    var ready := set x | x in par && (par[x] == ZERO || par[x] in base);
    if ready != {} {
      assert ready <= S;
      assert (par - ready).Keys == par.Keys - ready;
      GroundWithin(base + ready, par - ready, S);
    }
  }

  lemma {:induction false} GroundClosed(base: set<Tag>, par: map<Tag, Tag>, x: Tag)
    requires x in par && (par[x] == ZERO || par[x] in base || par[x] in Ground(base, par))
    ensures x in Ground(base, par)
    decreases |par|
  {
    var ready := set y | y in par && (par[y] == ZERO || par[y] in base);
    if x !in ready {
      assert (par - ready).Keys == par.Keys - ready;
      GroundClosed(base + ready, par - ready, x);
    }
  }

  lemma {:induction false} InGround(base: set<Tag>, par: map<Tag, Tag>, ids: seq<Tag>, i: int)
    requires ParentFirst(base, par, ids) && 0 <= i < |ids|
    ensures ids[i] in Ground(base, par)
    decreases i
  {
    if par[ids[i]] in ids[..i] {
      var j :| 0 <= j < i && ids[j] == par[ids[i]];
      InGround(base, par, ids, j);
    }
    GroundClosed(base, par, ids[i]);
  }

  // ----- single steps -----

  lemma {:induction false} AdmitRooted(nodes: Nodes, id: Tag, item: Node)
    requires Rooted(Par(nodes)) && ValidNode(id, item) && id !in nodes && Attachable(nodes, item)
    ensures Par(nodes[id := item]) == Par(nodes)[id := item.parent] && Rooted(Par(nodes[id := item]))
  {
    var par, after := Par(nodes), Par(nodes)[id := item.parent];
    assert Par(nodes[id := item]) == after;
    assert id != ZERO;
    assert id !in par.Values;
    AcyclicLeaf(par, id, item.parent);
    forall x | x in after ensures after[x] == ZERO || after[x] in after {
      assert x != id ==> after[x] == par[x];
    }
  }

  function WaitMore(waiting: map<Tag, set<Tag>>, id: Tag, parent: Tag): map<Tag, set<Tag>> {
    waiting[parent := (if parent in waiting then waiting[parent] else {}) + {id}]
  }

  function WaitLess(waiting: map<Tag, set<Tag>>, id: Tag, parent: Tag): map<Tag, set<Tag>>
    requires parent in waiting
  {
    if waiting[parent] - {id} == {} then waiting - {parent} else waiting[parent := waiting[parent] - {id}]
  }

  lemma {:induction false} WaitingIs(pending: Nodes, waiting: map<Tag, set<Tag>>)
    requires forall p :: p in waiting ==> waiting[p] != {} && forall id :: id in waiting[p] <==>
      id in pending && pending[id].parent == p
    requires forall id :: id in pending ==> pending[id].parent in waiting
    ensures waiting == WaitingOf(pending)
  {
    forall p ensures p in waiting <==> p in Par(pending).Values {
      if p in waiting {
        var id :| id in waiting[p];
        assert Par(pending)[id] == p;
      }
      if p in Par(pending).Values {
        var id :| id in pending && Par(pending)[id] == p;
      }
    }
    forall p | p in waiting ensures waiting[p] == WaitingOf(pending)[p] {
    }
  }

  lemma {:induction false} WaitingHas(pending: Nodes, id: Tag)
    requires id in pending
    ensures pending[id].parent in WaitingOf(pending) && id in WaitingOf(pending)[pending[id].parent]
  {
    assert Par(pending)[id] == pending[id].parent;
  }

  lemma {:induction false} WaitingNonempty(pending: Nodes)
    ensures forall p :: p in WaitingOf(pending) ==> WaitingOf(pending)[p] != {}
  {
    forall p | p in WaitingOf(pending) ensures WaitingOf(pending)[p] != {} {
      var id :| id in pending && Par(pending)[id] == p;
      assert id in WaitingOf(pending)[p];
    }
  }

  lemma {:induction false} WaitingMore(pending: Nodes, id: Tag, item: Node)
    requires id !in pending
    ensures WaitMore(WaitingOf(pending), id, item.parent) == WaitingOf(pending[id := item])
  {
    var after, more := WaitMore(WaitingOf(pending), id, item.parent), pending[id := item];
    WaitingNonempty(pending);
    forall x | x in more ensures more[x].parent in after {
      if x != id { WaitingHas(pending, x); }
    }
    WaitingIs(more, after);
  }

  lemma {:induction false} WaitingLess(pending: Nodes, id: Tag)
    requires id in pending
    ensures pending[id].parent in WaitingOf(pending)
    ensures WaitLess(WaitingOf(pending), id, pending[id].parent) == WaitingOf(pending - {id})
  {
    WaitingHas(pending, id);
    WaitingNonempty(pending);
    var waiting := WaitingOf(pending);
    var after := WaitLess(waiting, id, pending[id].parent);
    forall x | x in pending - {id} ensures pending[x].parent in after {
      WaitingHas(pending, x);
    }
    WaitingIs(pending - {id}, after);
  }

  lemma {:induction false} Shifted(a: Nodes, b: Nodes, id: Tag)
    requires id in b
    ensures a[id := b[id]] + (b - {id}) == a + b
  {
  }

  lemma {:induction false} AddedLeft(a: Nodes, b: Nodes, id: Tag, item: Node)
    requires id !in b
    ensures a[id := item] + b == (a + b)[id := item]
  {
  }

  lemma {:induction false} AddedRight(a: Nodes, b: Nodes, id: Tag, item: Node)
    ensures a + b[id := item] == (a + b)[id := item]
  {
  }

  /** Moving an attachable node from pending to the integrated nodes keeps everything but settledness. */
  lemma {:induction false} MoveOver(s: State, id: Tag)
    requires s.Kept() && id in s.pending && Attachable(s.nodes, s.pending[id])
    ensures s.pending[id].parent in s.waiting
    ensures var item := s.pending[id]; var t :=
      State(s.nodes[id := item], s.pending - {id}, WaitLess(s.waiting, id, item.parent),
        s.pendingBytes - NodeBytes(id, item), s.tombstones);
      t.Kept() && t.All() == s.All()
  {
    hide Rooted, Acyclic, SumBytes, WaitingOf, WaitLess, NodeBytes, Blank;
    var item := s.pending[id];
    AdmitRooted(s.nodes, id, item);
    WaitingLess(s.pending, id);
    SumBytesRemove(s.pending, id);
    AcyclicSub(Par(s.pending), id);
    assert Par(s.pending - {id}) == Par(s.pending) - {id};
    Shifted(s.nodes, s.pending, id);
  }

  lemma {:induction false} AdmitKept(s: State, id: Tag, item: Node)
    requires s.Kept() && ValidNode(id, item) && id !in s.All() && Attachable(s.nodes, item)
    ensures s.(nodes := s.nodes[id := item]).Kept()
    ensures s.(nodes := s.nodes[id := item]).All() == s.All()[id := item]
  {
    hide Rooted, Acyclic, SumBytes, WaitingOf, ValidNode;
    AdmitRooted(s.nodes, id, item);
    AddedLeft(s.nodes, s.pending, id, item);
  }

  lemma {:induction false} EnqueueKept(s: State, id: Tag, item: Node)
    requires s.Kept() && ValidNode(id, item) && id !in s.All() && Acyclic(Par(s.pending[id := item]))
    ensures var t :=
      State(s.nodes, s.pending[id := item], WaitMore(s.waiting, id, item.parent), s.pendingBytes + NodeBytes(id, item),
        s.tombstones);
      t.Kept() && t.All() == s.All()[id := item]
  {
    hide Rooted, Acyclic, SumBytes, WaitingOf, WaitMore, NodeBytes, ValidNode;
    WaitingMore(s.pending, id, item);
    AddedRight(s.nodes, s.pending, id, item);
    SumBytesAdd(s.pending, id, item);
  }
}
