/** Joining move-capable list states: the lattice laws and convergence of every accepted delivery. */
module MoveJoins {
  import opened Tags
  import opened RgaStates
  import opened MoveProjections

  const BLANK := MoveState(map[], {}, map[])

  /** Per element, the move with the greater tag wins. */
  function JoinMoves(a: map<Tag, MoveRecord>, b: map<Tag, MoveRecord>): map<Tag, MoveRecord> {
    map id | id in a.Keys + b.Keys :: if id in a && (id !in b || !Less(a[id].tag, b[id].tag)) then a[id] else b[id]
  }

  ghost function Join(a: MoveState, b: MoveState): MoveState {
    MoveState(a.nodes + b.nodes, a.tombstones + b.tombstones, JoinMoves(a.moves, b.moves))
  }

  /** No tag stands for two different nodes or two different moves of one element. */
  ghost predicate Compatible(a: MoveState, b: MoveState) {
    && Consistent(a.nodes, b.nodes)
    && forall id :: id in a.moves && id in b.moves && a.moves[id].tag == b.moves[id].tag ==> a.moves[id] == b.moves[id]
  }

  lemma {:induction false} JoinCommutes(a: MoveState, b: MoveState)
    requires Compatible(a, b)
    ensures Join(a, b) == Join(b, a) && Compatible(b, a)
  {
    forall id | id in a.moves && id in b.moves
      ensures JoinMoves(a.moves, b.moves)[id] == JoinMoves(b.moves, a.moves)[id] {
      Trichotomy(a.moves[id].tag, b.moves[id].tag);
    }
    assert JoinMoves(a.moves, b.moves) == JoinMoves(b.moves, a.moves);
    assert a.nodes + b.nodes == b.nodes + a.nodes;
  }

  lemma {:induction false} JoinIdempotent(a: MoveState)
    ensures Join(a, a) == a && Compatible(a, a)
  {
    assert JoinMoves(a.moves, a.moves) == a.moves;
    assert a.nodes + a.nodes == a.nodes;
  }

  lemma {:induction false} JoinMovesAt(a: map<Tag, MoveRecord>, b: map<Tag, MoveRecord>, c: map<Tag, MoveRecord>,
                                       id: Tag)
    requires id in a || id in b || id in c
    ensures id in JoinMoves(JoinMoves(a, b), c) && id in JoinMoves(a, JoinMoves(b, c))
    ensures JoinMoves(JoinMoves(a, b), c)[id] == JoinMoves(a, JoinMoves(b, c))[id]
  {
    LessIsStrictTotalOrder();
  }

  lemma {:induction false} JoinAssociates(a: MoveState, b: MoveState, c: MoveState)
    ensures Join(Join(a, b), c) == Join(a, Join(b, c))
  {
    hide JoinMoves;
    JoinMovesKeys(JoinMoves(a.moves, b.moves), c.moves);
    JoinMovesKeys(a.moves, JoinMoves(b.moves, c.moves));
    JoinMovesKeys(a.moves, b.moves);
    JoinMovesKeys(b.moves, c.moves);
    var left, right := JoinMoves(JoinMoves(a.moves, b.moves), c.moves), JoinMoves(a.moves, JoinMoves(b.moves, c.moves));
    forall id | id in left ensures id in right && left[id] == right[id] {
      JoinMovesAt(a.moves, b.moves, c.moves, id);
    }
    assert left == right;
    assert (a.nodes + b.nodes) + c.nodes == a.nodes + (b.nodes + c.nodes);
  }

  lemma {:induction false} JoinMovesKeys(a: map<Tag, MoveRecord>, b: map<Tag, MoveRecord>)
    ensures JoinMoves(a, b).Keys == a.Keys + b.Keys
  {
  }

  // ----- delivery -----

  /** One accepted delta, seen as a partial state. */
  ghost predicate Delivers(s: MoveState, d: MoveState, t: MoveState) {
    Compatible(s, d) && t == Join(s, d)
  }

  ghost predicate MoveRun(ds: seq<MoveState>, states: seq<MoveState>) {
    && |states| == |ds| + 1 && states[0] == BLANK
    && forall i :: 0 <= i < |ds| ==> Delivers(states[i], ds[i], states[i + 1])
  }

  ghost predicate SameContent(ds: seq<MoveState>, es: seq<MoveState>) {
    && (forall id, item :: NodeIn(ds, id, item) <==> NodeIn(es, id, item))
    && (forall id :: DeadIn(ds, id) <==> DeadIn(es, id))
    && (forall id, r :: MoveIn(ds, id, r) <==> MoveIn(es, id, r))
  }

  ghost predicate NodeIn(ds: seq<MoveState>, id: Tag, item: Node) {
    exists i :: 0 <= i < |ds| && id in ds[i].nodes && ds[i].nodes[id] == item
  }

  ghost predicate DeadIn(ds: seq<MoveState>, id: Tag) {
    exists i :: 0 <= i < |ds| && id in ds[i].tombstones
  }

  ghost predicate MoveIn(ds: seq<MoveState>, id: Tag, r: MoveRecord) {
    exists i :: 0 <= i < |ds| && id in ds[i].moves && ds[i].moves[id] == r
  }

  /** s holds all delivered nodes and tombstones, and per element the one delivered move that beats all others. */
  ghost predicate Sums(s: MoveState, ds: seq<MoveState>) {
    && (forall id, item :: NodeIn(ds, id, item) <==> id in s.nodes && s.nodes[id] == item)
    && (forall id :: DeadIn(ds, id) <==> id in s.tombstones)
    && (forall id :: id in s.moves ==> MoveIn(ds, id, s.moves[id]))
    && (forall id, r :: MoveIn(ds, id, r) ==> id in s.moves && (r == s.moves[id] || Less(r.tag, s.moves[id].tag)))
  }

  lemma {:induction false} InMore(ds: seq<MoveState>, d: MoveState)
    ensures forall id, item :: NodeIn(ds + [d], id, item) <==>
      NodeIn(ds, id, item) || (id in d.nodes && d.nodes[id] == item)
    ensures forall id :: DeadIn(ds + [d], id) <==> DeadIn(ds, id) || id in d.tombstones
    ensures forall id, r :: MoveIn(ds + [d], id, r) <==> MoveIn(ds, id, r) || (id in d.moves && d.moves[id] == r)
  {
    var all := ds + [d];
    assert all[|ds|] == d && forall i :: 0 <= i < |ds| ==> all[i] == ds[i];
  }

  lemma {:induction false} SumsMore(s: MoveState, ds: seq<MoveState>, d: MoveState)
    requires Sums(s, ds) && Compatible(s, d)
    ensures Sums(Join(s, d), ds + [d])
  {
    hide NodeIn, DeadIn, MoveIn;
    InMore(ds, d);
    var t, all := Join(s, d), ds + [d];
    forall id, r | MoveIn(all, id, r) ensures id in t.moves && (r == t.moves[id] || Less(r.tag, t.moves[id].tag)) {
      Beats(s.moves, d.moves, id, r, MoveIn(ds, id, r));
    }
  }

  lemma {:induction false} Beats(a: map<Tag, MoveRecord>, b: map<Tag, MoveRecord>, id: Tag, r: MoveRecord, before: bool)
    requires before ==> id in a && (r == a[id] || Less(r.tag, a[id].tag))
    requires !before ==> id in b && b[id] == r
    requires id in a && id in b && a[id].tag == b[id].tag ==> a[id] == b[id]
    ensures id in JoinMoves(a, b) && (r == JoinMoves(a, b)[id] || Less(r.tag, JoinMoves(a, b)[id].tag))
  {
    LessIsStrictTotalOrder();
  }

  lemma {:induction false} RunSums(ds: seq<MoveState>, states: seq<MoveState>)
    requires MoveRun(ds, states)
    ensures Sums(states[|ds|], ds)
    decreases |ds|
  {
    if ds != [] {
      var n := |ds| - 1;
      RunSums(ds[..n], states[..n + 1]);
      assert Delivers(states[n], ds[n], states[n + 1]);
      assert ds == ds[..n] + [ds[n]];
      SumsMore(states[n], ds[..n], ds[n]);
    }
  }

  lemma {:induction false} SumsUnique(s: MoveState, t: MoveState, ds: seq<MoveState>, es: seq<MoveState>)
    requires Sums(s, ds) && Sums(t, es) && SameContent(ds, es)
    ensures s == t
  {
    hide NodeIn, DeadIn, MoveIn, Less;
    forall id ensures id in s.nodes <==> id in t.nodes {
      if id in s.nodes { assert NodeIn(ds, id, s.nodes[id]); }
      if id in t.nodes { assert NodeIn(es, id, t.nodes[id]); }
    }
    forall id | id in s.nodes ensures s.nodes[id] == t.nodes[id] {
      assert NodeIn(ds, id, s.nodes[id]);
    }
    forall id ensures id in s.moves <==> id in t.moves {
      if id in s.moves { assert MoveIn(ds, id, s.moves[id]); }
      if id in t.moves { assert MoveIn(es, id, t.moves[id]); }
    }
    forall id | id in s.moves ensures s.moves[id] == t.moves[id] {
      assert MoveIn(ds, id, s.moves[id]) && MoveIn(es, id, t.moves[id]);
      NotBoth(s.moves[id].tag, t.moves[id].tag);
    }
    forall id ensures id in s.tombstones <==> id in t.tombstones {
      assert DeadIn(ds, id) <==> DeadIn(es, id);
    }
    assert s.nodes == t.nodes && s.moves == t.moves && s.tombstones == t.tombstones;
  }

  lemma {:induction false} NotBoth(a: Tag, b: Tag)
    ensures !(Less(a, b) && Less(b, a))
  {
    Trichotomy(a, b);
  }

  /** However the same content is ordered, repeated or batched, replicas that accept it all agree, list included. */
  lemma {:induction false} MoveDeliveryConverges(ds: seq<MoveState>, es: seq<MoveState>, ss: seq<MoveState>,
                                                 ts: seq<MoveState>)
    requires MoveRun(ds, ss) && MoveRun(es, ts) && SameContent(ds, es)
    ensures ss[|ds|] == ts[|es|]
  {
    RunSums(ds, ss);
    RunSums(es, ts);
    SumsUnique(ss[|ds|], ts[|es|], ds, es);
  }
}
