/**
  Ordered forests over tags: a parent map with one ordered child list per node, the Euler tour
  of a forest, and what attaching a tree does to the tour.
 */
module Forests {
  import opened Tags

  /** S is a trap when following parents from S never leaves it. */
  ghost predicate Trap(par: map<Tag, Tag>, S: set<Tag>) {
    S != {} && S <= par.Keys && forall x {:trigger par[x]} :: x in S ==> par[x] in S
  }

  /** A finite parent map is acyclic when it has no trap. */
  ghost predicate Acyclic(par: map<Tag, Tag>) {
    forall S: set<Tag> :: !Trap(par, S)
  }

  /** Edges of `par`, and for every node its children in sibling order. */
  datatype Forest = Forest(par: map<Tag, Tag>, kids: map<Tag, seq<Tag>>) {
    ghost function Kids(x: Tag): (r: seq<Tag>) {
      if x in kids then kids[x] else []
    }

    ghost predicate Consistent() {
      && (forall x, c {:trigger c in Kids(x)} :: c in Kids(x) <==> c in par && par[c] == x)
      && (forall x :: Distinct(Kids(x)))
    }

    ghost predicate WF() {
      Consistent() && Acyclic(par)
    }
  }

  // ----- a measure that decreases from parent to child -----

  lemma {:induction false} EmptyAcyclic()
    ensures Acyclic(map[])
  {
    var none: map<Tag, Tag> := map[];
    forall S: set<Tag> ensures !Trap(none, S) {
    }
  }

  lemma {:induction false} TrapPart(par: map<Tag, Tag>, sub: map<Tag, Tag>, S: set<Tag>)
    requires Trap(sub, S) && forall x :: x in S ==> x in par && par[x] == sub[x]
    ensures Trap(par, S)
  {
  }

  /** Part of an acyclic parent map is acyclic. */
  lemma {:induction false} AcyclicPart(par: map<Tag, Tag>, sub: map<Tag, Tag>)
    requires Acyclic(par) && forall x :: x in sub ==> x in par && par[x] == sub[x]
    ensures Acyclic(sub)
  {
    forall S: set<Tag> ensures !Trap(sub, S) {
      if Trap(sub, S) {
        TrapPart(par, sub, S);
      }
    }
  }

  lemma {:induction false} AcyclicSub(par: map<Tag, Tag>, x: Tag)
    requires Acyclic(par)
    ensures Acyclic(par - {x})
  {
    forall S: set<Tag> ensures !Trap(par - {x}, S) {
      if Trap(par - {x}, S) {
        assert Trap(par, S);
      }
    }
  }

  lemma {:induction false} TopExists(par: map<Tag, Tag>)
    requires Acyclic(par) && par != map[]
    ensures exists x :: x in par && par[x] !in par
  {
    assert !Trap(par, par.Keys);
    assert par.Keys != {};
  }

  ghost function Rank(par: map<Tag, Tag>): (r: map<Tag, nat>)
    requires Acyclic(par)
    ensures r.Keys == par.Keys
    ensures forall x :: x in par ==> r[x] < |par|
    ensures forall x {:trigger par[x]} :: x in par && par[x] in par ==> r[x] < r[par[x]]
    decreases |par|
  {
    if par == map[] then map[]
    else
      TopExists(par);
      var x :| x in par && par[x] !in par;
      AcyclicSub(par, x);
      assert (par - {x}).Keys == par.Keys - {x};
      Rank(par - {x})[x := |par| - 1]
  }

  ghost function Height(par: map<Tag, Tag>, x: Tag): (h: nat)
    requires Acyclic(par)
  {
    if x in par then Rank(par)[x] else |par|
  }

  ghost function Bound(par: map<Tag, Tag>, ids: seq<Tag>): (b: nat)
    requires Acyclic(par)
    ensures forall c :: c in ids ==> Height(par, c) < b
    ensures ids != [] ==> exists c :: c in ids && b == Height(par, c) + 1
  {
    if ids == [] then 0
    else
      var rest := Bound(par, ids[1..]);
      if rest > Height(par, ids[0]) then rest else Height(par, ids[0]) + 1
  }

  lemma {:induction false} KidsBelow(f: Forest, x: Tag)
    requires f.WF()
    ensures Bound(f.par, f.Kids(x)) <= Height(f.par, x)
  {
  }

  // ----- Euler tours -----

  datatype Mark = Enter(id: Tag) | Exit(id: Tag)

  /** The concatenated Euler tours of the trees rooted at ids. */
  ghost function Tours(f: Forest, ids: seq<Tag>): (r: seq<Mark>)
    requires f.WF()
    decreases Bound(f.par, ids), |ids|
  {
    if ids == [] then []
    else
      KidsBelow(f, ids[0]);
      [Enter(ids[0])] + Tours(f, f.Kids(ids[0])) + [Exit(ids[0])] + Tours(f, ids[1..])
  }

  ghost function Tour(f: Forest, x: Tag): (r: seq<Mark>)
    requires f.WF()
  {
    Tours(f, [x])
  }

  lemma {:induction false} TourUnfold(f: Forest, x: Tag)
    requires f.WF()
    ensures Tour(f, x) == [Enter(x)] + Tours(f, f.Kids(x)) + [Exit(x)]
  {
    assert [x][1..] == [];
    assert Tours(f, []) == [];
  }

  lemma {:induction false} ToursConcat(f: Forest, a: seq<Tag>, b: seq<Tag>)
    requires f.WF()
    ensures Tours(f, a + b) == Tours(f, a) + Tours(f, b)
    decreases |a|
  {
    if a == [] {
      assert a + b == b;
    } else {
      ToursConcat(f, a[1..], b);
      assert (a + b)[1..] == a[1..] + b;
    }
  }

  lemma {:induction false} ToursCons(f: Forest, ids: seq<Tag>)
    requires f.WF() && ids != []
    ensures Tours(f, ids) == Tour(f, ids[0]) + Tours(f, ids[1..])
  {
    assert ids == [ids[0]] + ids[1..];
    ToursConcat(f, [ids[0]], ids[1..]);
  }

  /** Enter and exit marks of a node occur together. */
  lemma {:induction false} MarksPaired(f: Forest, ids: seq<Tag>, y: Tag)
    requires f.WF()
    ensures Enter(y) in Tours(f, ids) <==> Exit(y) in Tours(f, ids)
    decreases Bound(f.par, ids), |ids|
  {
    if ids != [] {
      KidsBelow(f, ids[0]);
      MarksPaired(f, f.Kids(ids[0]), y);
      MarksPaired(f, ids[1..], y);
    }
  }

  /** A tree is closed under children. */
  lemma {:induction false} TourDown(f: Forest, ids: seq<Tag>, y: Tag)
    requires f.WF() && y in f.par && Enter(f.par[y]) in Tours(f, ids)
    ensures Enter(y) in Tours(f, ids)
    decreases Bound(f.par, ids), |ids|
  {
    KidsBelow(f, ids[0]);
    if f.par[y] == ids[0] {
      KidIn(f, f.Kids(ids[0]), y);
    } else if Enter(f.par[y]) in Tours(f, f.Kids(ids[0])) {
      TourDown(f, f.Kids(ids[0]), y);
    } else {
      TourDown(f, ids[1..], y);
    }
  }

  lemma {:induction false} KidIn(f: Forest, ids: seq<Tag>, y: Tag)
    requires f.WF() && y in ids
    ensures Enter(y) in Tours(f, ids)
    decreases |ids|
  {
    if y != ids[0] {
      KidIn(f, ids[1..], y);
    }
  }

  /** Every node of a tree is a listed root or has its parent in the tree. */
  lemma {:induction false} TourUp(f: Forest, ids: seq<Tag>, y: Tag)
    requires f.WF() && Enter(y) in Tours(f, ids)
    ensures y in ids || (y in f.par && Enter(f.par[y]) in Tours(f, ids))
    decreases Bound(f.par, ids), |ids|
  {
    KidsBelow(f, ids[0]);
    if y == ids[0] {
    } else if Enter(y) in Tours(f, f.Kids(ids[0])) {
      TourUp(f, f.Kids(ids[0]), y);
    } else {
      TourUp(f, ids[1..], y);
    }
  }

  ghost function Nodes(f: Forest, x: Tag): (r: set<Tag>)
    requires f.WF()
  {
    set m | m in Tour(f, x) && m.Enter? :: m.id
  }

  lemma {:induction false} NodesIff(f: Forest, x: Tag, y: Tag)
    requires f.WF()
    ensures y in Nodes(f, x) <==> Enter(y) in Tour(f, x)
  {
    if Enter(y) in Tour(f, x) {
      assert Enter(y).id == y;
    }
  }

  ghost function Parent(f: Forest, x: Tag): (p: Option<Tag>) {
    if x in f.par then Some(f.par[x]) else None
  }

  /** All ids are roots, or all are children of one node. */
  ghost predicate Siblings(f: Forest, ids: seq<Tag>) {
    && Distinct(ids)
    && forall c :: c in ids ==> Parent(f, c) == Parent(f, ids[0])
  }

  /** The parent of a node is outside the node's own tree. */
  lemma {:induction false} ParentOutside(f: Forest, c: Tag)
    requires f.WF() && c in f.par
    ensures Enter(f.par[c]) !in Tour(f, c)
  {
    if Enter(f.par[c]) in Tour(f, c) {
      forall y | y in Nodes(f, c) ensures y in f.par && f.par[y] in Nodes(f, c) {
        NodesIff(f, c, y);
        TourUp(f, [c], y);
        NodesIff(f, c, f.par[y]);
      }
      NodesIff(f, c, f.par[c]);
      assert Trap(f.par, Nodes(f, c));
    }
  }

  lemma {:induction false} SiblingTreesDisjoint(f: Forest, c: Tag, d: Tag, y: Tag)
    requires f.WF() && c != d
    requires Parent(f, c) == Parent(f, d)
    ensures Enter(y) !in Tour(f, c) || Enter(y) !in Tour(f, d)
  {
    var Y := Nodes(f, c) * Nodes(f, d);
    if Enter(y) in Tour(f, c) && Enter(y) in Tour(f, d) {
      NodesIff(f, c, y);
      NodesIff(f, d, y);
      assert y in Y && !Trap(f.par, Y);
      var z :| z in Y && !(z in f.par && f.par[z] in Y);
      NodesIff(f, c, z);
      NodesIff(f, d, z);
      TourUp(f, [c], z);
      TourUp(f, [d], z);
      if z != c && z != d {
        NodesIff(f, c, f.par[z]);
        NodesIff(f, d, f.par[z]);
      } else if z == c {
        ParentOutside(f, d);
      } else {
        ParentOutside(f, c);
      }
    }
  }

  lemma {:induction false} KidsAreSiblings(f: Forest, x: Tag)
    requires f.WF()
    ensures Siblings(f, f.Kids(x))
  {
    forall c | c in f.Kids(x) ensures Parent(f, c) == Parent(f, f.Kids(x)[0]) {
      assert f.Kids(x)[0] in f.Kids(x);
    }
  }

  lemma {:induction false} SiblingsTail(f: Forest, ids: seq<Tag>)
    requires Siblings(f, ids) && ids != []
    ensures Siblings(f, ids[1..]) && ids[0] !in ids[1..]
    ensures forall c :: c in ids[1..] ==> Parent(f, c) == Parent(f, ids[0])
  {
    assert forall c :: c in ids[1..] ==> c in ids;
  }

  lemma {:induction false} HeadDisjoint(f: Forest, ids: seq<Tag>, m: Mark)
    requires f.WF() && Siblings(f, ids) && ids != [] && m in Tour(f, ids[0])
    ensures m !in Tours(f, ids[1..])
  {
    SiblingsTail(f, ids);
    MarksPaired(f, [ids[0]], m.id);
    MarksPaired(f, ids[1..], m.id);
    DisjointFromRest(f, ids[0], ids[1..], m.id);
  }

  /** No mark occurs twice in the tour of distinct siblings. */
  lemma {:induction false} ToursNoDup(f: Forest, ids: seq<Tag>)
    requires f.WF() && Siblings(f, ids)
    ensures NoDup(Tours(f, ids))
    decreases Bound(f.par, ids), |ids|
  {
    if ids != [] {
      var x := ids[0];
      KidsBelow(f, x);
      KidsAreSiblings(f, x);
      ToursNoDup(f, f.Kids(x));
      TourNoDup(f, x);
      SiblingsTail(f, ids);
      ToursNoDup(f, ids[1..]);
      ToursCons(f, ids);
      forall m | m in Tour(f, x) ensures m !in Tours(f, ids[1..]) {
        HeadDisjoint(f, ids, m);
      }
      NoDupConcat(Tour(f, x), Tours(f, ids[1..]));
    }
  }

  lemma {:induction false} NoDupConcat<T>(a: seq<T>, b: seq<T>)
    requires NoDup(a) && NoDup(b) && forall m :: m in a ==> m !in b
    ensures NoDup(a + b)
  {
    forall i, j | 0 <= i < j < |a + b| ensures (a + b)[i] != (a + b)[j] {
      if i < |a| <= j {
        assert a[i] in a && b[j - |a|] in b;
      }
    }
  }

  lemma {:induction false} NoDupSplit<T>(a: seq<T>, b: seq<T>)
    requires NoDup(a + b)
    ensures NoDup(a) && NoDup(b) && forall m :: m in a ==> m !in b
  {
    forall i, j | 0 <= i < |a| && 0 <= j < |b| ensures a[i] != b[j] {
      assert (a + b)[i] == a[i] && (a + b)[|a| + j] == b[j];
    }
    forall i, j | 0 <= i < j < |a| ensures a[i] != a[j] {
      assert (a + b)[i] == a[i] && (a + b)[j] == a[j];
    }
    forall i, j | 0 <= i < j < |b| ensures b[i] != b[j] {
      assert (a + b)[|a| + i] == b[i] && (a + b)[|a| + j] == b[j];
    }
  }

  lemma {:induction false} NotBelowItself(f: Forest, x: Tag)
    requires f.WF()
    ensures Enter(x) !in Tours(f, f.Kids(x)) && Exit(x) !in Tours(f, f.Kids(x))
  {
    MarksPaired(f, f.Kids(x), x);
    if Enter(x) in Tours(f, f.Kids(x)) {
      InSomeTree(f, f.Kids(x), x);
      var c :| c in f.Kids(x) && Enter(x) in Tour(f, c);
      ParentOutside(f, c);
    }
  }

  lemma {:induction false} TourNoDup(f: Forest, x: Tag)
    requires f.WF() && NoDup(Tours(f, f.Kids(x)))
    ensures NoDup(Tour(f, x))
  {
    TourUnfold(f, x);
    NotBelowItself(f, x);
    NoDupConcat([Enter(x)], Tours(f, f.Kids(x)));
    NoDupConcat([Enter(x)] + Tours(f, f.Kids(x)), [Exit(x)]);
  }

  lemma {:induction false} InSomeTree(f: Forest, ids: seq<Tag>, y: Tag)
    requires f.WF() && Enter(y) in Tours(f, ids)
    ensures exists c :: c in ids && Enter(y) in Tour(f, c)
    decreases |ids|
  {
    ToursCons(f, ids);
    if Enter(y) in Tour(f, ids[0]) {
      assert ids[0] in ids;
    } else {
      InSomeTree(f, ids[1..], y);
      var c :| c in ids[1..] && Enter(y) in Tour(f, c);
      assert c in ids;
    }
  }

  lemma {:induction false} DisjointFromRest(f: Forest, x: Tag, rest: seq<Tag>, y: Tag)
    requires f.WF() && x !in rest
    requires forall c :: c in rest ==> Parent(f, c) == Parent(f, x)
    ensures Enter(y) !in Tour(f, x) || Enter(y) !in Tours(f, rest)
  {
    if Enter(y) in Tour(f, x) && Enter(y) in Tours(f, rest) {
      InSomeTree(f, rest, y);
      var c :| c in rest && Enter(y) in Tour(f, c);
      SiblingTreesDisjoint(f, x, c, y);
    }
  }

  // ----- attaching a tree -----

  /** Make the root m the i-th child of a. */
  ghost function Attach(f: Forest, a: Tag, i: nat, m: Tag): (g: Forest)
    requires i <= |f.Kids(a)|
  {
    Forest(f.par[m := a], f.kids[a := f.Kids(a)[..i] + [m] + f.Kids(a)[i..]])
  }

  /** The mark that the tour of the attached tree follows. */
  ghost function Anchor(f: Forest, a: Tag, i: nat): (m: Mark)
    requires i <= |f.Kids(a)|
  {
    if i == 0 then Enter(a) else Exit(f.Kids(a)[i - 1])
  }

  /** Attaching keeps the forest well formed exactly because a is outside the tree of m. */
  lemma {:induction false} AttachWF(f: Forest, a: Tag, i: nat, m: Tag)
    requires f.WF() && m !in f.par && i <= |f.Kids(a)|
    requires Enter(a) !in Tour(f, m)
    ensures Attach(f, a, i, m).WF()
  {
    var g := Attach(f, a, i, m);
    assert f.Kids(a) == f.Kids(a)[..i] + f.Kids(a)[i..];
    forall x, c ensures c in g.Kids(x) <==> c in g.par && g.par[c] == x {
      assert c in f.Kids(x) <==> c in f.par && f.par[c] == x;
      if x == a {
        assert c in g.Kids(a) <==> c in f.Kids(a) || c == m;
      } else {
        assert g.Kids(x) == f.Kids(x);
      }
    }
    forall x ensures Distinct(g.Kids(x)) {
      if x == a {
        assert m !in f.Kids(a);
        InsertDistinct(f.Kids(a), i, m);
      } else {
        assert g.Kids(x) == f.Kids(x);
      }
    }
    forall S: set<Tag> ensures !Trap(g.par, S) {
      if Trap(g.par, S) {
        AttachNoTrap(f, a, m, S);
      }
    }
  }

  lemma {:induction false} InsertDistinct<T>(s: seq<T>, i: nat, m: T)
    requires Distinct(s) && m !in s && i <= |s|
    ensures Distinct(s[..i] + [m] + s[i..])
  {
    DistinctNoDup(s);
    DistinctNoDup(s[..i] + [m] + s[i..]);
  }

  lemma {:induction false} AttachNoTrap(f: Forest, a: Tag, m: Tag, S: set<Tag>)
    requires f.WF() && m !in f.par && Enter(a) !in Tour(f, m)
    ensures !Trap(f.par[m := a], S)
  {
    if Trap(f.par[m := a], S) {
      var rest := S - Nodes(f, m);
      forall x | x in rest ensures x in f.par && f.par[x] in rest {
        TourUnfold(f, m);
        NodesIff(f, m, m);
        NodesIff(f, m, x);
        assert x != m && f.par[m := a][x] == f.par[x];
        NodesIff(f, m, f.par[x]);
        if f.par[x] in Nodes(f, m) {
          TourDown(f, [m], x);
        }
      }
      if m in S {
        NodesIff(f, m, a);
        assert a in rest;
        assert Trap(f.par, rest);
      } else {
        assert Trap(f.par, S);
      }
    }
  }

  /** Trees that do not contain a are unchanged. */
  lemma {:induction false} AttachElsewhere(f: Forest, a: Tag, i: nat, m: Tag, ids: seq<Tag>)
    requires f.WF() && m !in f.par && i <= |f.Kids(a)|
    requires Attach(f, a, i, m).WF()
    requires Enter(a) !in Tours(f, ids)
    ensures Tours(Attach(f, a, i, m), ids) == Tours(f, ids)
    decreases Bound(f.par, ids), |ids|
  {
    if ids != [] {
      KidsBelow(f, ids[0]);
      AttachElsewhere(f, a, i, m, f.Kids(ids[0]));
      AttachElsewhere(f, a, i, m, ids[1..]);
    }
  }

  /** In the tree of a, the tour of m appears as one block right after its anchor mark. */
  lemma {:induction false} AttachSplit(f: Forest, a: Tag, i: nat, m: Tag, ids: seq<Tag>)
    returns (u: seq<Mark>, v: seq<Mark>)
    requires f.WF() && m !in f.par && i <= |f.Kids(a)|
    requires Enter(a) !in Tour(f, m) && Attach(f, a, i, m).WF()
    requires Enter(a) in Tours(f, ids) && Siblings(f, ids)
    ensures Tours(f, ids) == u + [Anchor(f, a, i)] + v
    ensures Tours(Attach(f, a, i, m), ids) == u + [Anchor(f, a, i)] + Tour(f, m) + v
    decreases Bound(f.par, ids), |ids|, 1
  {
    var g, x := Attach(f, a, i, m), ids[0];
    SiblingsTail(f, ids);
    if Enter(a) in Tour(f, x) {
      HeadDisjoint(f, ids, Enter(a));
      AttachElsewhere(f, a, i, m, ids[1..]);
      u, v := AttachSplitTree(f, a, i, m, x);
      v := HeadSplit(f, g, ids, u, [Anchor(f, a, i)], Tour(f, m), v);
    } else {
      AttachElsewhere(f, a, i, m, [x]);
      InTail(f, ids, a);
      u, v := AttachSplit(f, a, i, m, ids[1..]);
      u := TailSplit(f, g, ids, u, [Anchor(f, a, i)], Tour(f, m), v);
    }
  }

  lemma {:induction false} AttachSplitTree(f: Forest, a: Tag, i: nat, m: Tag, x: Tag)
    returns (u: seq<Mark>, v: seq<Mark>)
    requires f.WF() && m !in f.par && i <= |f.Kids(a)|
    requires Enter(a) !in Tour(f, m) && Attach(f, a, i, m).WF()
    requires Enter(a) in Tour(f, x)
    ensures Tour(f, x) == u + [Anchor(f, a, i)] + v
    ensures Tour(Attach(f, a, i, m), x) == u + [Anchor(f, a, i)] + Tour(f, m) + v
    decreases Bound(f.par, [x]), 1, 0
  {
    KidsBelow(f, x);
    if x == a {
      NotBelowItself(f, x);
      u, v := AttachHere(f, a, i, m);
    } else {
      KidsAreSiblings(f, x);
      BelowRoot(f, x, a);
      u, v := AttachSplit(f, a, i, m, f.Kids(x));
      u, v := TourSplit(f, Attach(f, a, i, m), x, u, [Anchor(f, a, i)], Tour(f, m), v);
    }
  }

  lemma {:induction false} BelowRoot(f: Forest, x: Tag, a: Tag)
    requires f.WF() && Enter(a) in Tour(f, x) && a != x
    ensures Enter(a) in Tours(f, f.Kids(x))
  {
    TourUnfold(f, x);
  }

  lemma {:induction false} InTail(f: Forest, ids: seq<Tag>, a: Tag)
    requires f.WF() && ids != [] && Enter(a) in Tours(f, ids) && Enter(a) !in Tour(f, ids[0])
    ensures Enter(a) in Tours(f, ids[1..])
  {
    ToursCons(f, ids);
  }

  // A block w that appears in a part of a tour appears at the same place in the whole.

  lemma {:induction false} Regroup<T>(e: seq<T>, u: seq<T>, k: seq<T>, w: seq<T>, v: seq<T>, b: seq<T>)
    ensures e + (u + k + v) + b == (e + u) + k + (v + b)
    ensures e + (u + k + w + v) + b == (e + u) + k + w + (v + b)
  {
  }

  lemma {:induction false} TourSplit(f: Forest, g: Forest, x: Tag, u: seq<Mark>, k: seq<Mark>, w: seq<Mark>,
                                     v: seq<Mark>) returns (u': seq<Mark>, v': seq<Mark>)
    requires f.WF() && g.WF()
    requires Tours(f, f.Kids(x)) == u + k + v && Tours(g, g.Kids(x)) == u + k + w + v
    ensures Tour(f, x) == u' + k + v' && Tour(g, x) == u' + k + w + v'
  {
    TourUnfold(f, x);
    TourUnfold(g, x);
    Regroup([Enter(x)], u, k, w, v, [Exit(x)]);
    u', v' := [Enter(x)] + u, v + [Exit(x)];
  }

  lemma {:induction false} HeadSplit(f: Forest, g: Forest, ids: seq<Tag>, u: seq<Mark>, k: seq<Mark>, w: seq<Mark>,
                                     v: seq<Mark>) returns (v': seq<Mark>)
    requires f.WF() && g.WF() && ids != []
    requires Tour(f, ids[0]) == u + k + v && Tour(g, ids[0]) == u + k + w + v
    requires Tours(g, ids[1..]) == Tours(f, ids[1..])
    ensures Tours(f, ids) == u + k + v' && Tours(g, ids) == u + k + w + v'
  {
    ToursCons(f, ids);
    ToursCons(g, ids);
    v' := v + Tours(f, ids[1..]);
    AppendRight(u + k, w, v, Tours(f, ids[1..]));
  }

  lemma {:induction false} AppendRight<T>(u: seq<T>, w: seq<T>, v: seq<T>, b: seq<T>)
    ensures (u + v) + b == u + (v + b) && (u + w + v) + b == u + w + (v + b)
  {
  }

  lemma {:induction false} TailSplit(f: Forest, g: Forest, ids: seq<Tag>, u: seq<Mark>, k: seq<Mark>, w: seq<Mark>,
                                     v: seq<Mark>) returns (u': seq<Mark>)
    requires f.WF() && g.WF() && ids != []
    requires Tours(f, ids[1..]) == u + k + v && Tours(g, ids[1..]) == u + k + w + v
    requires Tour(g, ids[0]) == Tour(f, ids[0])
    ensures Tours(f, ids) == u' + k + v && Tours(g, ids) == u' + k + w + v
  {
    ToursCons(f, ids);
    ToursCons(g, ids);
    u' := Tour(f, ids[0]) + u;
    AppendLeft(Tour(f, ids[0]), u, k, w, v);
  }

  lemma {:induction false} AppendLeft<T>(e: seq<T>, u: seq<T>, k: seq<T>, w: seq<T>, v: seq<T>)
    ensures e + (u + k + v) == (e + u) + k + v && e + (u + k + w + v) == (e + u) + k + w + v
  {
  }

  /** The tree of a itself, before and after m becomes its i-th child. */
  lemma {:induction false} AttachHere(f: Forest, a: Tag, i: nat, m: Tag) returns (u: seq<Mark>, v: seq<Mark>)
    requires f.WF() && m !in f.par && i <= |f.Kids(a)|
    requires Enter(a) !in Tour(f, m) && Attach(f, a, i, m).WF()
    requires Enter(a) !in Tours(f, f.Kids(a))
    ensures Tour(f, a) == u + [Anchor(f, a, i)] + v
    ensures Tour(Attach(f, a, i, m), a) == u + [Anchor(f, a, i)] + Tour(f, m) + v
  {
    var g := Attach(f, a, i, m);
    var left, right := AttachKids(f, a, i, m);
    TourUnfold(f, a);
    TourUnfold(g, a);
    if i == 0 {
      u, v := [], right + [Exit(a)];
      assert [] + [Enter(a)] == [Enter(a)];
      AppendRight([Enter(a)], Tour(f, m), right, [Exit(a)]);
    } else {
      u, v := [Enter(a)] + left, right + [Exit(a)];
      Regroup([Enter(a)], left, [Anchor(f, a, i)], Tour(f, m), right, [Exit(a)]);
    }
  }

  lemma {:induction false} AttachKids(f: Forest, a: Tag, i: nat, m: Tag) returns (u: seq<Mark>, v: seq<Mark>)
    requires f.WF() && m !in f.par && i <= |f.Kids(a)|
    requires Enter(a) !in Tour(f, m) && Attach(f, a, i, m).WF()
    requires Enter(a) !in Tours(f, f.Kids(a))
    ensures i == 0 ==> Tours(f, f.Kids(a)) == v
    ensures i == 0 ==> Tours(Attach(f, a, i, m), Attach(f, a, i, m).Kids(a)) == Tour(f, m) + v
    ensures i > 0 ==> Tours(f, f.Kids(a)) == u + [Anchor(f, a, i)] + v
    ensures i > 0 ==> Tours(Attach(f, a, i, m), Attach(f, a, i, m).Kids(a)) == u + [Anchor(f, a, i)] + Tour(f, m) + v
  {
    var g := Attach(f, a, i, m);
    var before, after := f.Kids(a)[..i], f.Kids(a)[i..];
    assert f.Kids(a) == before + after;
    ToursConcat(f, before, after);
    v := Tours(f, after);
    AttachElsewhere(f, a, i, m, before);
    AttachElsewhere(f, a, i, m, after);
    AttachElsewhere(f, a, i, m, [m]);
    ToursConcat(g, before + [m], after);
    ToursConcat(g, before, [m]);
    if i == 0 {
      u := [];
      assert before == [] && [] + Tour(f, m) == Tour(f, m);
    } else {
      u := LastExit(f, before);
    }
  }

  lemma {:induction false} LastExit(f: Forest, ids: seq<Tag>) returns (u: seq<Mark>)
    requires f.WF() && ids != []
    ensures Tours(f, ids) == u + [Exit(ids[|ids| - 1])]
  {
    var n := |ids| - 1;
    assert ids == ids[..n] + [ids[n]];
    ToursConcat(f, ids[..n], [ids[n]]);
    TourUnfold(f, ids[n]);
    u := Tours(f, ids[..n]) + ([Enter(ids[n])] + Tours(f, f.Kids(ids[n])));
  }

  // ----- a forest all of whose chains end at the root -----

  /** When every parent is the root or a node, the tree of the root has every node. */
  lemma {:induction false} AllReached(f: Forest, root: Tag, y: Tag)
    requires f.WF() && root !in f.par && y in f.par
    requires forall x :: x in f.par ==> f.par[x] == root || f.par[x] in f.par
    ensures Enter(y) in Tour(f, root)
  {
    var lost := set x | x in f.par && Enter(x) !in Tour(f, root);
    forall x | x in lost ensures f.par[x] in lost {
      TourUnfold(f, root);
      if Enter(f.par[x]) in Tour(f, root) {
        TourDown(f, [root], x);
      }
    }
    assert !Trap(f.par, lost);
  }

  /** The tree of the root has only the root and nodes of the parent map. */
  lemma {:induction false} OnlyNodes(f: Forest, root: Tag, y: Tag)
    requires f.WF() && Enter(y) in Tour(f, root)
    ensures y == root || y in f.par
  {
    TourUp(f, [root], y);
  }
}
