/** The three-colour cycle checks, and the recursive projection that relies on them. */
module Cycles {
  import opened Tags
  import opened Forests
  import opened RgaOrder

  // ----- traps are cycles -----

  /** Each element is the parent of the one before it. */
  ghost predicate Path(par: map<Tag, Tag>, p: seq<Tag>) {
    p != [] && forall i :: 0 <= i < |p| - 1 ==> p[i] in par && par[p[i]] == p[i + 1]
  }

  ghost predicate Cycle(par: map<Tag, Tag>, p: seq<Tag>) {
    Path(par, p) && |p| > 1 && p[0] == p[|p| - 1]
  }

  lemma {:induction false} CycleIsTrap(par: map<Tag, Tag>, p: seq<Tag>)
    requires Cycle(par, p)
    ensures !Acyclic(par)
  {
    var S := set i | 0 <= i < |p| - 1 :: p[i];
    assert p[0] in S;
    forall x | x in S ensures x in par && par[x] in S {
      var i :| 0 <= i < |p| - 1 && p[i] == x;
      assert par[x] == p[i + 1];
    }
    assert Trap(par, S);
  }

  lemma {:induction false} TrapHasCycle(par: map<Tag, Tag>, S: set<Tag>, p: seq<Tag>) returns (c: seq<Tag>)
    requires Trap(par, S) && Path(par, p) && Elems(p) <= S
    requires NoDup(p)
    ensures Cycle(par, c)
    decreases S - Elems(p)
  {
    var last := p[|p| - 1];
    assert last in Elems(p);
    var next := par[last];
    if next in p {
      var i :| 0 <= i < |p| && p[i] == next;
      c := p[i..] + [next];
    } else {
      assert next in S && next !in Elems(p);
      assert Elems(p + [next]) == Elems(p) + {next};
      c := TrapHasCycle(par, S, p + [next]);
    }
  }

  /** Having no trap is having no cyclic parent chain. */
  lemma {:induction false} AcyclicIffNoCycle(par: map<Tag, Tag>)
    ensures Acyclic(par) <==> !exists p :: Cycle(par, p)
  {
    if exists p :: Cycle(par, p) {
      var p :| Cycle(par, p);
      CycleIsTrap(par, p);
    }
    if !Acyclic(par) {
      var S: set<Tag> :| Trap(par, S);
      var x :| x in S;
      var c := TrapHasCycle(par, S, [x]);
    }
  }

  // ----- chains that end -----

  /** The parent chain from x is not caught in any trap. */
  ghost predicate Free(par: map<Tag, Tag>, x: Tag) {
    forall S: set<Tag> :: Trap(par, S) ==> x !in S
  }

  lemma {:induction false} FreeUp(par: map<Tag, Tag>, x: Tag)
    requires x in par ==> Free(par, par[x])
    ensures Free(par, x)
  {
  }

  lemma {:induction false} FreePath(par: map<Tag, Tag>, p: seq<Tag>)
    requires Path(par, p) && Free(par, p[|p| - 1])
    ensures forall x :: x in p ==> Free(par, x)
    decreases |p|
  {
    if |p| > 1 {
      FreePath(par, p[1..]);
      assert par[p[0]] == p[1] == p[1..][0];
      FreeUp(par, p[0]);
    }
  }

  lemma {:induction false} AllFree(par: map<Tag, Tag>)
    requires forall x :: x in par ==> Free(par, x)
    ensures Acyclic(par)
  {
  }

  /** A trap without incoming nodes would be a trap of the pending buffer alone. */
  lemma {:induction false} NoNewTrap(incoming: map<Tag, Tag>, pending: map<Tag, Tag>)
    requires Acyclic(pending) && forall x :: x in incoming ==> Free(pending + incoming, x)
    ensures Acyclic(pending + incoming)
  {
    var par := pending + incoming;
    forall S: set<Tag> ensures !Trap(par, S) {
      if Trap(par, S) {
        assert forall x :: x in S ==> x !in incoming && par[x] == pending[x];
        assert Trap(pending, S);
      }
    }
  }

  /** A chain that comes back to itself closes a cycle. */
  lemma {:induction false} Closed(par: map<Tag, Tag>, p: seq<Tag>, x: Tag)
    requires Path(par, p) && x in p[..|p| - 1] && x == p[|p| - 1]
    ensures !Acyclic(par)
  {
    var i :| 0 <= i < |p| - 1 && p[i] == x;
    assert Cycle(par, p[i..]);
    CycleIsTrap(par, p[i..]);
  }

  // ----- incoming nodes against a pending buffer -----

  /** Colours the chain that starts at id, stopping at a finished, unknown or root position. */
  method WalkChain(incoming: map<Tag, Tag>, pending: map<Tag, Tag>, complete: set<Tag>, id: Tag)
    returns (ok: bool, path: set<Tag>)
    requires forall x :: x in incoming || x in pending ==> x.Valid()
    requires forall x :: x in complete ==> Free(pending + incoming, x)
    requires id in incoming
    ensures ok ==> id in path + complete && forall x :: x in path ==> Free(pending + incoming, x)
    ensures !ok ==> !Acyclic(pending + incoming)
  {
    ghost var par := pending + incoming;
    path := {};
    var current := id;
    ghost var trail := [id];
    while current.Valid() && current !in complete
      invariant Path(par, trail) && trail[0] == id && trail[|trail| - 1] == current
      invariant path == Elems(trail[..|trail| - 1]) && path <= par.Keys
      decreases par.Keys - path
    {
      if current in path {
        Closed(par, trail, current);
        return false, path;
      }
      var parent;
      if current in incoming {
        parent := incoming[current];
      } else if current in pending {
        parent := pending[current];
      } else {
        break;
      }
      path := path + {current};
      assert (trail + [parent])[..|trail|] == trail;
      assert Elems(trail) == Elems(trail[..|trail| - 1]) + {current} by {
        assert trail == trail[..|trail| - 1] + [current];
      }
      trail := trail + [parent];
      current := parent;
    }
    assert Free(par, current);
    FreePath(par, trail);
    assert id in path || id == current by {
      assert |trail| > 1 ==> trail[..|trail| - 1][0] == id;
    }
    return true, path;
  }

  /** Accepts exactly the incoming nodes that close no cycle with an acyclic pending buffer. */
  method AcyclicAgainst(incoming: map<Tag, Tag>, pending: map<Tag, Tag>) returns (ok: bool)
    requires forall x :: x in incoming || x in pending ==> x.Valid()
    requires Acyclic(pending)
    ensures ok <==> Acyclic(pending + incoming)
  {
    hide Acyclic, Free;
    ghost var par := pending + incoming;
    var complete: set<Tag> := {};
    var rest := incoming.Keys;
    while rest != {}
      invariant rest <= incoming.Keys
      invariant forall x :: x in complete ==> Free(par, x)
      invariant forall x :: x in incoming && x !in rest ==> Free(par, x)
    {
      var id :| id in rest;
      rest := rest - {id};
      if id !in complete {
        var fine, path := WalkChain(incoming, pending, complete, id);
        if !fine {
          return false;
        }
        complete := complete + path;
      }
    }
    NoNewTrap(incoming, pending);
    return true;
  }

  // ----- the recursive three-colour walk -----

  /** One depth-first visit: grey nodes are on the stack, black nodes are finished. */
  method Visit(par: map<Tag, Tag>, grey: set<Tag>, black: set<Tag>, id: Tag, ghost stack: seq<Tag>)
    returns (ok: bool, done: set<Tag>)
    requires forall x :: x in par ==> x.Valid()
    requires Path(par, stack + [id]) && grey == Elems(stack) && grey <= par.Keys
    requires forall x :: x in black ==> Free(par, x)
    ensures ok ==> black <= done && Free(par, id) && forall x :: x in done ==> Free(par, x)
    ensures !ok ==> !Acyclic(par)
    decreases par.Keys - grey
  {
    if id in grey {
      assert (stack + [id])[..|stack|] == stack;
      Closed(par, stack + [id], id);
      return false, black;
    }
    if id in black || id !in par {
      return true, black;
    }
    done := black;
    if par[id].Valid() {
      assert Elems(stack + [id]) == grey + {id};
      var fine;
      fine, done := Visit(par, grey + {id}, black, par[id], stack + [id]);
      if !fine {
        return false, done;
      }
    }
    FreeUp(par, id);
    return true, done + {id};
  }

  /** Accepts exactly the arrays without a parent cycle among their nodes. */
  method AcyclicArray(par: map<Tag, Tag>) returns (ok: bool)
    requires forall x :: x in par ==> x.Valid()
    ensures ok <==> Acyclic(par)
  {
    var black: set<Tag> := {};
    var rest := par.Keys;
    while rest != {}
      invariant rest <= par.Keys
      invariant forall x :: x in black ==> Free(par, x)
      invariant forall x :: x in par && x !in rest ==> Free(par, x)
    {
      var id :| id in rest;
      rest := rest - {id};
      var fine;
      fine, black := Visit(par, {}, black, id, []);
      if !fine {
        return false;
      }
    }
    AllFree(par);
    return true;
  }

  // ----- the array projection -----

  /** Group the nodes by parent, each group newest first. */
  method GroupChildren(par: map<Tag, Tag>) returns (children: map<Tag, seq<Tag>>)
    ensures children.Keys == par.Values
    ensures forall p :: p in children ==> children[p] == SortedKids(par, p)
  {
    GreaterIsStrictTotalOrder();
    children := map[];
    var rest := par.Values;
    while rest != {}
      invariant rest <= par.Values && children.Keys == par.Values - rest
      invariant forall p :: p in children ==> children[p] == SortedKids(par, p)
    {
      var p :| p in rest;
      rest := rest - {p};
      var group := set id | id in par && par[id] == p;
      assert group == ChildSet(par, p);
      var sorted := SortKeys(Greater, group);
      children := children[p := sorted];
    }
  }

  method VisitChildren(par: map<Tag, Tag>, children: map<Tag, seq<Tag>>, tombstones: set<Tag>, parent: Tag,
                       result: seq<Tag>) returns (out: seq<Tag>)
    requires Acyclic(par) && Canonical(par).WF()
    requires children.Keys == par.Values && forall p :: p in children ==> children[p] == SortedKids(par, p)
    ensures out == result + Without(Walk(Canonical(par), SortedKids(par, parent)), tombstones)
    decreases Height(par, parent)
  {
    hide SortedKids, Acyclic, Walk, Without, Height;
    ghost var f := Canonical(par);
    ghost var kids := SortedKids(par, parent);
    WalkNothing(f, tombstones);
    out := result;
    if parent !in children {
      KidsAre(par, parent, []);
      return;
    }
    var i := 0;
    while i < |children[parent]|
      invariant 0 <= i <= |kids|
      invariant result + Without(Walk(f, kids), tombstones) == out + Without(Walk(f, kids[i..]), tombstones)
    {
      var id := children[parent][i];
      var next := if id in tombstones then out else out + [id];
      ChildLower(par, parent, id);
      next := VisitChildren(par, children, tombstones, id, next);
      WalkStep(f, kids, i, tombstones);
      Shift3(out, if id in tombstones then [] else [id], Without(Walk(f, f.Kids(id)), tombstones),
        Without(Walk(f, kids[i + 1..]), tombstones));
      out := next;
      i := i + 1;
    }
    assert kids[i..] == [];
  }

  lemma {:induction false} WalkNothing(f: Forest, hidden: set<Tag>)
    requires f.WF()
    ensures Without(Walk(f, []), hidden) == []
  {
  }

  lemma {:induction false} Shift3<T>(a: seq<T>, b: seq<T>, c: seq<T>, d: seq<T>)
    ensures a + (b + c + d) == a + b + c + d
    ensures b == [] ==> a + b == a
  {
  }

  lemma {:induction false} ChildLower(par: map<Tag, Tag>, parent: Tag, id: Tag)
    requires Acyclic(par) && id in SortedKids(par, parent)
    ensures Height(par, id) < Height(par, parent)
  {
    SortedKidsSpec(par, parent);
  }

  lemma {:induction false} WalkStep(f: Forest, kids: seq<Tag>, i: int, hidden: set<Tag>)
    requires f.WF() && 0 <= i < |kids|
    ensures Without(Walk(f, kids[i..]), hidden)
         == (if kids[i] in hidden then [] else [kids[i]]) + Without(Walk(f, f.Kids(kids[i])), hidden) +
           Without(Walk(f, kids[i + 1..]), hidden)
  {
    assert kids[i..][0] == kids[i] && kids[i..][1..] == kids[i + 1..];
    var x, below, after := [kids[i]], Walk(f, f.Kids(kids[i])), Walk(f, kids[i + 1..]);
    WithoutConcat(x + below, after, hidden);
    WithoutConcat(x, below, hidden);
  }

  lemma {:induction false} WithoutConcat(a: seq<Tag>, b: seq<Tag>, hidden: set<Tag>)
    ensures Without(a + b, hidden) == Without(a, hidden) + Without(b, hidden)
  {
    if a == [] {
      assert a + b == b;
    } else {
      WithoutConcat(a[1..], b, hidden);
      assert (a + b)[0] == a[0] && (a + b)[1..] == a[1..] + b;
      Shift3([], if a[0] in hidden then [] else [a[0]], Without(a[1..], hidden), Without(b, hidden));
    }
  }

  /** The visible array elements: depth first from the root, without the deleted ones. */
  method VisibleArrayNodes(par: map<Tag, Tag>, tombstones: set<Tag>) returns (result: seq<Tag>)
    requires Acyclic(par)
    ensures result == VisibleWalk(par, tombstones)
  {
    CanonicalWF(par);
    var children := GroupChildren(par);
    result := VisitChildren(par, children, tombstones, ZERO, []);
  }

  /** The projection visits every node whose parent chain reaches the root exactly once, and no other. */
  lemma {:induction false} WalkVisitsReachable(par: map<Tag, Tag>)
    requires Acyclic(par) && ZERO !in par
    ensures Canonical(par).WF()
    ensures NoDup(Walk(Canonical(par), SortedKids(par, ZERO)))
    ensures forall x :: x in Walk(Canonical(par), SortedKids(par, ZERO)) <==>
      x in par && exists p :: Path(par, p) && p[0] == x && p[|p| - 1] == ZERO
  {
    CanonicalWF(par);
    var f := Canonical(par);
    var kids := SortedKids(par, ZERO);
    KidsAreSiblings(f, ZERO);
    ToursNoDup(f, kids);
    EnteredTours(f, kids);
    EnteredNoDup(Tours(f, kids));
    forall x ensures x in Walk(f, kids) <==> x in par && exists p :: Path(par, p) && p[0] == x && p[|p| - 1] == ZERO {
      EnteredIn(Tours(f, kids), x);
      if x in Walk(f, kids) {
        var p := ReachedHasPath(f, x);
      }
      if x in par && exists p :: Path(par, p) && p[0] == x && p[|p| - 1] == ZERO {
        var p :| Path(par, p) && p[0] == x && p[|p| - 1] == ZERO;
        PathIsReached(f, p);
      }
    }
  }

  lemma {:induction false} EnteredIn(ms: seq<Mark>, x: Tag)
    ensures x in Entered(ms) <==> Enter(x) in ms
  {
    if ms != [] {
      EnteredIn(ms[1..], x);
      assert ms == [ms[0]] + ms[1..];
    }
  }

  lemma {:induction false} EnteredNoDup(ms: seq<Mark>)
    requires NoDup(ms)
    ensures NoDup(Entered(ms))
  {
    if ms != [] {
      assert forall i :: 0 <= i < |ms[1..]| ==> ms[1..][i] == ms[i + 1];
      EnteredNoDup(ms[1..]);
      if ms[0].Enter? {
        EnteredIn(ms[1..], ms[0].id);
        NoDupConcat([ms[0].id], Entered(ms[1..]));
      } else {
        assert Entered(ms) == Entered(ms[1..]);
      }
    }
  }

  lemma {:induction false} ReachedHasPath(f: Forest, x: Tag) returns (p: seq<Tag>)
    requires f.WF() && ZERO !in f.par && Enter(x) in Tours(f, f.Kids(ZERO))
    ensures x in f.par && Path(f.par, p) && p[0] == x && p[|p| - 1] == ZERO
    decreases |f.par| - Height(f.par, x)
  {
    TourUp(f, f.Kids(ZERO), x);
    if x in f.Kids(ZERO) {
      p := [x, ZERO];
    } else {
      var rest := ReachedHasPath(f, f.par[x]);
      p := [x] + rest;
    }
  }

  lemma {:induction false} PathIsReached(f: Forest, p: seq<Tag>)
    requires f.WF() && Path(f.par, p) && p[|p| - 1] == ZERO && |p| > 1
    ensures Enter(p[0]) in Tours(f, f.Kids(ZERO))
    decreases |p|
  {
    if |p| == 2 {
      assert f.par[p[0]] == p[1];
      KidIn(f, f.Kids(ZERO), p[0]);
    } else {
      PathIsReached(f, p[1..]);
      assert f.par[p[0]] == p[1];
      TourDown(f, f.Kids(ZERO), p[0]);
    }
  }
}
