/** Document states as Go keeps them: maps behind references, shared between states until a section changes. */
module DocumentStates {
  import opened Tags
  import opened DocumentJoins

  /** A map behind a reference. */
  class Section<K(==, !new), V(!new)> {
    var m: map<K, V>

    constructor (m: map<K, V>)
      ensures this.m == m
    {
      this.m := m;
    }
  }

  /** A map from targets to maps behind references, itself behind a reference. */
  class Sections<K(==, !new), V(!new)> {
    var m: map<Tag, Section<K, V>>

    constructor (m: map<Tag, Section<K, V>>)
      ensures this.m == m
    {
      this.m := m;
    }
  }

  datatype State = State(
    roots: Section<Bytes, Root>, objects: Section<Tag, Object>, maps: Sections<Bytes, MapEntry>,
    arrays: Sections<Tag, ArrayNode>, tombstones: Sections<Tag, ()>)

  // ----- the document a state stands for -----

  /** The records by target and key. */
  function Flatten<K(==, !new), V(!new)>(outer: map<Tag, Section<K, V>>): (r: map<(Tag, K), V>)
    reads outer.Values
  {
    map t, k | t in outer && k in outer[t].m :: (t, k) := outer[t].m[k]
  }

  function View(s: State): Doc
    reads s.roots, s.objects, s.maps, s.maps.m.Values, s.arrays, s.arrays.m.Values, s.tombstones, s.tombstones.m.Values
  {
    Doc(s.roots.m, s.objects.m, Flatten(s.maps.m), Flatten(s.arrays.m), Flatten(s.tombstones.m))
  }

  // ----- one section -----

  ghost function Contents<K(!new), V(!new)>(s: Section?<K, V>): map<K, V>
    reads s
  {
    if s == null then map[] else s.m
  }

  /** Taking a record always changes it. */
  ghost predicate TakesNew<V(!new)>(choose: (V, V) -> Choice) {
    forall x, y :: choose(x, y).Take? ==> x != y
  }

  ghost predicate PartJoined<K(!new), V>(choose: (V, V) -> Choice, a: map<K, V>, b: map<K, V>, done: set<K>,
                                         r: map<K, V>)
  {
    forall k :: Get(r, k) == if k in done then Pick(choose, Get(a, k), Get(b, k)) else Get(a, k)
  }

  lemma {:induction false} AllJoined<K(!new), V>(choose: (V, V) -> Choice, a: map<K, V>, b: map<K, V>, r: map<K, V>)
    requires PartJoined(choose, a, b, b.Keys, r)
    ensures r == Joined(choose, a, b)
  {
    forall k ensures Get(r, k) == Get(Joined(choose, a, b), k) {
    }
    SameMap(r, Joined(choose, a, b));
  }

  lemma {:induction false} NoneJoined<K(!new), V>(choose: (V, V) -> Choice, a: map<K, V>, b: map<K, V>)
    ensures PartJoined(choose, a, b, {}, a)
  {
  }

  lemma {:induction false} Untouched<K(!new), V>(choose: (V, V) -> Choice, a: map<K, V>, b: map<K, V>, done: set<K>,
                                                 r: map<K, V>, k: K)
    requires PartJoined(choose, a, b, done, r) && k !in done
    ensures Get(r, k) == Get(a, k)
  {
  }

  lemma {:induction false} Taken<K(!new), V>(choose: (V, V) -> Choice, a: map<K, V>, b: map<K, V>, done: set<K>,
                                             r: map<K, V>, k: K)
    requires PartJoined(choose, a, b, done, r) && k in b && Pick(choose, Get(a, k), Get(b, k)) == Some(b[k])
    ensures PartJoined(choose, a, b, done + {k}, r[k := b[k]])
  {
    hide Pick;
    forall x ensures Get(r[k := b[k]], x) == if x in done + {k} then Pick(choose, Get(a, x), Get(b, x)) else Get(a, x) {
      if x != k {
        assert Get(r[k := b[k]], x) == Get(r, x);
      }
    }
  }

  lemma {:induction false} Kept<K(!new), V>(choose: (V, V) -> Choice, a: map<K, V>, b: map<K, V>, done: set<K>,
                                            r: map<K, V>, k: K)
    requires PartJoined(choose, a, b, done, r) && k !in done && Pick(choose, Get(a, k), Get(b, k)) == Get(a, k)
    ensures PartJoined(choose, a, b, done + {k}, r)
  {
    hide Pick;
  }

  ghost predicate NoClashOn<K(!new), V>(choose: (V, V) -> Choice, a: map<K, V>, b: map<K, V>, done: set<K>) {
    forall k :: k in done ==> !Clash(choose, Get(a, k), Get(b, k))
  }

  lemma {:induction false} NoClashMore<K(!new), V>(choose: (V, V) -> Choice, a: map<K, V>, b: map<K, V>, done: set<K>,
                                                   k: K)
    requires NoClashOn(choose, a, b, done) && !Clash(choose, Get(a, k), Get(b, k))
    ensures NoClashOn(choose, a, b, done + {k})
  {
    hide Clash;
  }

  lemma {:induction false} NoClashAtAll<K(!new), V>(choose: (V, V) -> Choice, a: map<K, V>, b: map<K, V>)
    requires NoClashOn(choose, a, b, b.Keys)
    ensures !Clashes(choose, a, b)
  {
  }

  lemma {:induction false} ClashHere<K(!new), V>(choose: (V, V) -> Choice, a: map<K, V>, b: map<K, V>, k: K)
    requires Clash(choose, Get(a, k), Get(b, k))
    ensures Clashes(choose, a, b)
  {
  }

  lemma {:induction false} Differs<K(!new), V>(a: map<K, V>, b: map<K, V>, k: K)
    requires Get(a, k) != Get(b, k)
    ensures a != b
  {
  }

  /** Join incoming records into a section; it is copied before the first change and left alone otherwise. */
  method JoinSection<K(==, !new), V(!new)>(choose: (V, V) -> Choice, current: Section?<K, V>, incoming: map<K, V>)
    returns (r: Section?<K, V>, changed: bool, conflict: bool)
    requires TakesNew(choose)
    ensures conflict <==> Clashes(choose, Contents(current), incoming)
    ensures !conflict ==> Contents(r) == Joined(choose, Contents(current), incoming)
    ensures !conflict ==> (changed <==> Contents(r) != Contents(current))
    ensures if changed then r != null && fresh(r) else r == current
  {
    hide Pick, Clash, PartJoined, NoClashOn, Clashes, Joined;
    r, changed, conflict := current, false, false;
    ghost var a := Contents(current);
    ghost var done: set<K> := {};
    var rest := incoming.Keys;
    NoneJoined(choose, a, incoming);
    assert NoClashOn(choose, a, incoming, done) by {
      NoClashYet(choose, a, incoming);
    }
    while rest != {}
      invariant rest <= incoming.Keys && done == incoming.Keys - rest && Contents(current) == a
      invariant PartJoined(choose, a, incoming, done, Contents(r)) && NoClashOn(choose, a, incoming, done)
      invariant changed <==> Contents(r) != a
      invariant if changed then r != null && fresh(r) else r == current
      decreases |rest|
    {
      var k :| k in rest;
      var choice := if r != null && k in r.m then choose(r.m[k], incoming[k]) else Take;
      PickCases(choose, Get(a, k), Get(incoming, k));
      Untouched(choose, a, incoming, done, Contents(r), k);
      if choice.Conflict? {
        ClashHere(choose, a, incoming, k);
        conflict := true;
        return;
      }
      NoClashMore(choose, a, incoming, done, k);
      if choice.Take? {
        Taken(choose, a, incoming, done, Contents(r), k);
        var m := (if r == null then map[] else r.m)[k := incoming[k]];
        Differs(m, a, k);
        r, changed := Store(r, changed, m);
      } else {
        Kept(choose, a, incoming, done, Contents(r), k);
      }
      done := done + {k};
      rest := rest - {k};
    }
    assert done == incoming.Keys;
    AllJoined(choose, a, incoming, Contents(r));
    NoClashAtAll(choose, a, incoming);
  }

  /** Put the new contents in place, in a fresh section the first time. */
  method Store<K(==, !new), V(!new)>(r: Section?<K, V>, owned: bool, m: map<K, V>)
    returns (s: Section<K, V>, nowOwned: bool)
    requires owned ==> r != null
    modifies if owned then {r} else {}
    ensures nowOwned && s.m == m && if owned then s == r else fresh(s)
  {
    if owned {
      r.m := m;
      return r, true;
    }
    s := new Section(m);
    return s, true;
  }

  lemma {:induction false} NoClashYet<K(!new), V>(choose: (V, V) -> Choice, a: map<K, V>, b: map<K, V>)
    ensures NoClashOn(choose, a, b, {})
  {
  }

  lemma {:induction false} PickCases<V>(choose: (V, V) -> Choice, x: Option<V>, y: Option<V>)
    ensures y.Some? && x.None? ==> Pick(choose, x, y) == y && !Clash(choose, x, y)
    ensures x.Some? && y.Some? ==> (Clash(choose, x, y) <==> choose(x.value, y.value).Conflict?)
    ensures x.Some? && y.Some? ==> Pick(choose, x, y) == if choose(x.value, y.value).Take? then y else x
  {
  }

  // ----- sections by target -----

  /** The records of the targets in done are joined, the others are as they were. */
  ghost predicate TargetsJoined<K(!new), V>(choose: (V, V) -> Choice, a: map<(Tag, K), V>, b: map<(Tag, K), V>,
                                            done: set<Tag>, r: map<(Tag, K), V>)
  {
    forall t, k :: Get(r, (t, k)) == if t in done then Pick(choose, Get(a, (t, k)), Get(b, (t, k))) else Get(a, (t, k))
  }

  ghost predicate NoTargetClash<K(!new), V>(choose: (V, V) -> Choice, a: map<(Tag, K), V>, b: map<(Tag, K), V>,
                                            done: set<Tag>)
  {
    forall t, k :: t in done ==> !Clash(choose, Get(a, (t, k)), Get(b, (t, k)))
  }

  /** The records of one target. */
  ghost predicate Slice<K(!new), V>(m: map<(Tag, K), V>, t: Tag, s: map<K, V>) {
    forall k :: Get(m, (t, k)) == Get(s, k)
  }

  lemma {:induction false} FlattenSlice<K(!new), V(!new)>(outer: map<Tag, Section<K, V>>, t: Tag)
    ensures Slice(Flatten(outer), t, if t in outer then outer[t].m else map[])
  {
    forall k ensures Get(Flatten(outer), (t, k)) == Get(if t in outer then outer[t].m else map[], k) {
    }
  }

  /** Replacing one target's section changes that slice only. */
  lemma {:induction false} FlattenUpdate<K(!new), V(!new)>(outer: map<Tag, Section<K, V>>, t: Tag, inner: Section<K, V>)
    ensures Slice(Flatten(outer[t := inner]), t, inner.m)
    ensures forall x, k :: x != t ==> Get(Flatten(outer[t := inner]), (x, k)) == Get(Flatten(outer), (x, k))
  {
    FlattenSlice(outer[t := inner], t);
  }

  lemma {:induction false} TargetDone<K(!new), V>(choose: (V, V) -> Choice, a: map<(Tag, K), V>, b: map<(Tag, K), V>,
                                                  done: set<Tag>,
                                                  r: map<(Tag, K), V>, t: Tag, sa: map<K, V>, sb: map<K, V>,
                                                    after: map<(Tag, K), V>)
    requires TargetsJoined(choose, a, b, done, r) && Slice(a, t, sa) && Slice(b, t, sb)
    requires Slice(after, t, Joined(choose, sa, sb))
    requires forall x, k :: x != t ==> Get(after, (x, k)) == Get(r, (x, k))
    ensures TargetsJoined(choose, a, b, done + {t}, after)
  {
    hide Pick;
  }

  lemma {:induction false} SliceClash<K(!new), V>(choose: (V, V) -> Choice, a: map<(Tag, K), V>, b: map<(Tag, K), V>,
                                                  done: set<Tag>, t: Tag, sa: map<K, V>, sb: map<K, V>)
    requires Slice(a, t, sa) && Slice(b, t, sb) && NoTargetClash(choose, a, b, done)
    ensures Clashes(choose, sa, sb) ==> Clashes(choose, a, b)
    ensures !Clashes(choose, sa, sb) ==> NoTargetClash(choose, a, b, done + {t})
  {
    hide Clash;
    if Clashes(choose, sa, sb) {
      var k :| Clash(choose, Get(sa, k), Get(sb, k));
      assert Clash(choose, Get(a, (t, k)), Get(b, (t, k)));
    } else {
      forall k ensures !Clash(choose, Get(a, (t, k)), Get(b, (t, k))) {
        assert !Clash(choose, Get(sa, k), Get(sb, k));
      }
    }
  }

  /** Different slices make different maps, and equal slices equal ones. */
  lemma {:induction false} SliceDiffers<K(!new), V>(a: map<(Tag, K), V>, b: map<(Tag, K), V>, t: Tag, sa: map<K, V>,
                                                    sb: map<K, V>)
    requires Slice(a, t, sa) && Slice(b, t, sb) && sa != sb
    ensures a != b
  {
    if forall k :: Get(sa, k) == Get(sb, k) {
      SameMap(sa, sb);
    }
  }

  lemma {:induction false} NoTargets<K(!new), V>(choose: (V, V) -> Choice, a: map<(Tag, K), V>, b: map<(Tag, K), V>)
    ensures TargetsJoined(choose, a, b, {}, a) && NoTargetClash(choose, a, b, {})
  {
  }

  lemma {:induction false} AllTargets<K(!new), V>(choose: (V, V) -> Choice, a: map<(Tag, K), V>, b: map<(Tag, K), V>,
                                                  done: set<Tag>, r: map<(Tag, K), V>)
    requires TargetsJoined(choose, a, b, done, r) && NoTargetClash(choose, a, b, done)
    requires forall t, k :: (t, k) in b ==> t in done
    ensures r == Joined(choose, a, b) && !Clashes(choose, a, b)
  {
    forall p ensures Get(r, p) == Get(Joined(choose, a, b), p) && !Clash(choose, Get(a, p), Get(b, p)) {
      var (t, k) := p;
      assert Get(r, (t, k)) == if t in done then Pick(choose, Get(a, (t, k)), Get(b, (t, k))) else Get(a, (t, k));
    }
    SameMap(r, Joined(choose, a, b));
  }

  /** Every target of a is in b, and where the records are the same it is the very same map. */
  ghost predicate Shared<K(!new), V(!new)>(a: map<Tag, Section<K, V>>, b: map<Tag, Section<K, V>>)
    reads a.Values, b.Values
  {
    forall t :: t in a ==> t in b && (b[t].m == a[t].m ==> b[t] == a[t])
  }

  /** Unchanged sections are the very same maps, the outer one and those of single targets. */
  ghost predicate SameSections<K(!new), V(!new)>(a: Sections<K, V>, b: Sections<K, V>)
    reads a, a.m.Values, b, b.m.Values
  {
    (Flatten(b.m) == Flatten(a.m) ==> b == a) && Shared(a.m, b.m)
  }

  ghost predicate SameSection<K(!new), V(!new)>(a: Section<K, V>, b: Section<K, V>)
    reads a, b
  {
    b.m == a.m ==> b == a
  }

  /** Only target t was replaced, and only by other records. */
  ghost predicate Replaced<K(!new), V(!new)>(a: map<Tag, Section<K, V>>, b: map<Tag, Section<K, V>>, t: Tag)
    reads a.Values, b.Values
  {
    && (forall x :: x in a && x != t ==> x in b && b[x] == a[x])
    && (t in a ==> t in b && (b[t] == a[t] || b[t].m != a[t].m))
  }

  /** While the targets are gone through: those not in done are untouched. */
  ghost predicate SharedSoFar<K(!new), V(!new)>(a: map<Tag, Section<K, V>>, r: map<Tag, Section<K, V>>, done: set<Tag>)
    reads a.Values, r.Values
  {
    Shared(a, r) && forall x :: x in a && x !in done ==> x in r && r[x] == a[x]
  }

  lemma {:induction false} SharedStart<K(!new), V(!new)>(a: map<Tag, Section<K, V>>)
    ensures SharedSoFar(a, a, {})
  {
  }

  lemma {:induction false} SharedNext<K(!new), V(!new)>(a: map<Tag, Section<K, V>>, r: map<Tag, Section<K, V>>,
                                                        b: map<Tag, Section<K, V>>,
                                                        done: set<Tag>, t: Tag)
    requires SharedSoFar(a, r, done) && Replaced(r, b, t) && t !in done
    ensures SharedSoFar(a, b, done + {t})
  {
  }

  lemma {:induction false} SharedEnd<K(!new), V(!new)>(a: map<Tag, Section<K, V>>, r: map<Tag, Section<K, V>>,
                                                       done: set<Tag>)
    requires SharedSoFar(a, r, done)
    ensures Shared(a, r)
  {
  }

  /** Join the records of one target. */
  method JoinTarget<K(==, !new), V(!new)>(choose: (V, V) -> Choice, outer: Sections<K, V>, owned: bool, t: Tag,
                                          incoming: map<K, V>,
                                          ghost a: map<(Tag, K), V>, ghost b: map<(Tag, K), V>, ghost done: set<Tag>)
    returns (r: Sections<K, V>, changed: bool, conflict: bool)
    requires TakesNew(choose) && t !in done && Slice(b, t, incoming)
    requires TargetsJoined(choose, a, b, done, Flatten(outer.m)) && NoTargetClash(choose, a, b, done)
    requires owned <==> Flatten(outer.m) != a
    modifies if owned then {outer} else {}
    ensures conflict ==> Clashes(choose, a, b)
    ensures !conflict ==>
      TargetsJoined(choose, a, b, done + {t}, Flatten(r.m)) && NoTargetClash(choose, a, b, done + {t})
    ensures !conflict ==> (changed <==> Flatten(r.m) != a)
    ensures if owned then r == outer && changed else if changed then fresh(r) else r == outer
    ensures !conflict ==> Replaced(old(outer.m), r.m, t)
  {
    hide Clashes, Joined, TargetsJoined, NoTargetClash, Slice, Flatten;
    ghost var before := Flatten(outer.m);
    r, changed := outer, owned;
    var held: Section?<K, V> := if t in outer.m then outer.m[t] else null;
    FlattenSlice(outer.m, t);
    ghost var sa := Contents(held);
    SliceUntouched(choose, a, b, done, before, t, sa);
    SliceClash(choose, a, b, done, t, sa, incoming);
    var inner, innerChanged;
    inner, innerChanged, conflict := JoinSection(choose, held, incoming);
    if conflict {
      return;
    }
    if innerChanged {
      var m := outer.m[t := inner];
      FlattenUpdate(outer.m, t, inner);
      SliceDiffers(a, Flatten(m), t, sa, inner.m);
      TargetDone(choose, a, b, done, before, t, sa, incoming, Flatten(m));
      if !owned {
        r := new Sections(m);
      } else {
        r.m := m;
      }
      changed := true;
    } else {
      TargetDone(choose, a, b, done, before, t, sa, incoming, before);
    }
  }

  /** Join incoming records target by target; outer map and touched targets are copied before their first change. */
  method JoinSections<K(==, !new), V(!new)>(choose: (V, V) -> Choice, current: Sections<K, V>, incoming: Sections<K, V>)
    returns (r: Sections<K, V>, changed: bool, conflict: bool)
    requires TakesNew(choose)
    ensures conflict <==> Clashes(choose, Flatten(current.m), Flatten(incoming.m))
    ensures !conflict ==> Flatten(r.m) == Joined(choose, Flatten(current.m), Flatten(incoming.m))
    ensures !conflict ==> (changed <==> Flatten(r.m) != Flatten(current.m))
    ensures if changed then fresh(r) else r == current
    ensures !conflict ==> SameSections(current, r)
  {
    hide Clashes, Joined, TargetsJoined, NoTargetClash, Slice, Flatten, Shared, SharedSoFar, Replaced;
    r, changed, conflict := current, false, false;
    ghost var a, b := Flatten(current.m), Flatten(incoming.m);
    ghost var done: set<Tag> := {};
    var rest := incoming.m.Keys;
    NoTargets(choose, a, b);
    SharedStart(current.m);
    while rest != {}
      invariant rest <= incoming.m.Keys && done == incoming.m.Keys - rest
      invariant Flatten(current.m) == a && Flatten(incoming.m) == b
      invariant TargetsJoined(choose, a, b, done, Flatten(r.m)) && NoTargetClash(choose, a, b, done)
      invariant changed <==> Flatten(r.m) != a
      invariant if changed then fresh(r) else r == current
      invariant SharedSoFar(current.m, r.m, done)
      decreases |rest|
    {
      var t :| t in rest;
      FlattenSlice(incoming.m, t);
      ghost var before := r.m;
      r, changed, conflict := JoinTarget(choose, r, changed, t, incoming.m[t].m, a, b, done);
      if conflict {
        return;
      }
      SharedNext(current.m, before, r.m, done, t);
      done := done + {t};
      rest := rest - {t};
    }
    SharedEnd(current.m, r.m, done);
    FlattenTargets(incoming.m);
    AllTargets(choose, a, b, done, Flatten(r.m));
  }

  lemma {:induction false} FlattenTargets<K(!new), V(!new)>(outer: map<Tag, Section<K, V>>)
    ensures forall t, k :: (t, k) in Flatten(outer) ==> t in outer.Keys
  {
  }

  lemma {:induction false} SliceUntouched<K(!new), V>(choose: (V, V) -> Choice, a: map<(Tag, K), V>,
                                                      b: map<(Tag, K), V>, done: set<Tag>,
                                                      r: map<(Tag, K), V>, t: Tag, s: map<K, V>)
    requires TargetsJoined(choose, a, b, done, r) && t !in done && Slice(r, t, s)
    ensures Slice(a, t, s)
  {
    hide Pick;
    forall k ensures Get(a, (t, k)) == Get(s, k) {
      assert Get(r, (t, k)) == Get(s, k);
    }
  }

  // ----- the whole state -----

  lemma {:induction false} ChoicesTakeNew()
    ensures TakesNew(ChooseRoot) && TakesNew(ChooseSame<Object>) && TakesNew(ChooseEntry)
    ensures TakesNew(ChooseSame<ArrayNode>) && TakesNew(ChooseSame<()>)
  {
    forall t: Tag ensures Compare(t, t) == 0 {
      CompareBytesAntisymmetric(t.replica, t.replica);
    }
  }

  /** Section by section, stopping at the first clash. */
  method JoinParts(current: State, incoming: State) returns (r: Option<State>, changed: bool)
    ensures r.Some? <==> !DocClash(View(current), View(incoming))
    ensures r.Some? ==>
      View(r.value) == JoinDoc(View(current), View(incoming)) && (changed <==> View(r.value) != View(current))
    ensures r.Some? && !changed ==> r.value == current
    ensures r.Some? ==> SameSection(current.roots, r.value.roots) && SameSection(current.objects, r.value.objects)
    ensures r.Some? ==> SameSections(current.maps, r.value.maps) && SameSections(current.arrays, r.value.arrays)
    ensures r.Some? ==> SameSections(current.tombstones, r.value.tombstones)
  {
    hide Clashes, Joined, Flatten, SameSections, ChooseRoot, ChooseEntry, ChooseSame, TakesNew;
    ChoicesTakeNew();
    changed := false;
    var roots, rootsChanged, rootsClash := JoinSection(ChooseRoot, current.roots, incoming.roots.m);
    if rootsClash {
      return None, false;
    }
    var objects, objectsChanged, objectsClash := JoinSection(ChooseSame<Object>, current.objects, incoming.objects.m);
    if objectsClash {
      return None, false;
    }
    var deep, deepChanged := JoinTargets(current, incoming);
    if deep.None? {
      return None, false;
    }
    r := Some(deep.value.(roots := roots, objects := objects));
    changed := rootsChanged || objectsChanged || deepChanged;
  }

  /** The three sections by target. */
  method JoinTargets(current: State, incoming: State) returns (r: Option<State>, changed: bool)
    ensures var a, b := View(current), View(incoming);
      r.None? <==>
        Clashes(ChooseEntry, a.entries, b.entries) || Clashes(ChooseSame, a.nodes, b.nodes)
          || Clashes(ChooseSame, a.marks, b.marks)
    ensures r.Some? ==> var a, b, c := View(current), View(incoming), View(r.value);
      && c.entries == Joined(ChooseEntry, a.entries, b.entries) && c.nodes == Joined(ChooseSame, a.nodes, b.nodes)
      && c.marks == Joined(ChooseSame, a.marks, b.marks)
      && (changed <==> c.entries != a.entries || c.nodes != a.nodes || c.marks != a.marks)
    ensures r.Some? ==>
      r.value.roots == current.roots && r.value.objects == current.objects && (!changed ==> r.value == current)
    ensures r.Some? ==> SameSections(current.maps, r.value.maps) && SameSections(current.arrays, r.value.arrays)
    ensures r.Some? ==> SameSections(current.tombstones, r.value.tombstones)
  {
    hide Clashes, Joined, Flatten, SameSections, ChooseEntry, ChooseSame, TakesNew;
    ChoicesTakeNew();
    changed := false;
    var maps, mapsChanged, mapsClash := JoinSections(ChooseEntry, current.maps, incoming.maps);
    if mapsClash {
      return None, false;
    }
    ghost var entries := Flatten(maps.m);
    var arrays, arraysChanged, arraysClash := JoinSections(ChooseSame<ArrayNode>, current.arrays, incoming.arrays);
    if arraysClash {
      return None, false;
    }
    assert Flatten(maps.m) == entries;
    ghost var nodes := Flatten(arrays.m);
    var tombstones, marksChanged, marksClash := JoinSections(ChooseSame<()>, current.tombstones, incoming.tombstones);
    if marksClash {
      return None, false;
    }
    assert Flatten(maps.m) == entries && Flatten(arrays.m) == nodes;
    assert SameSections(current.maps, maps) && SameSections(current.arrays, arrays);
    r := Some(current.(maps := maps, arrays := arrays, tombstones := tombstones));
    changed := mapsChanged || arraysChanged || marksChanged;
  }

  // ----- the newest tag -----

  /** The tags a document mentions as its own changes. */
  ghost function DocTags(d: Doc): set<Tag> {
    (set n | n in d.roots :: d.roots[n].id) + (set p | p in d.entries :: d.entries[p].tag) +
      (set p | p in d.nodes :: p.1)
  }

  /** The greatest of the tags, or the zero tag without any. */
  ghost predicate Greatest(tags: set<Tag>, greatest: Tag) {
    if tags == {} then greatest == ZERO else greatest in tags && forall x :: x in tags && x != greatest ==>
      Less(x, greatest)
  }

  lemma {:induction false} GreatestMore(met: set<Tag>, greatest: Tag, x: Tag)
    requires Greatest(met, greatest)
    ensures Greatest(met + {x}, if met == {} || Compare(greatest, x) < 0 then x else greatest)
  {
    LessIsStrictTotalOrder();
    Trichotomy(greatest, x);
    if met != {} && Compare(greatest, x) < 0 {
      forall y | y in met ensures Less(y, x) {
        assert y == greatest || Less(y, greatest);
      }
    }
  }

  method Consider(tags: set<Tag>, before: Tag, ghost met: set<Tag>, alreadyFound: bool)
    returns (greatest: Tag, found: bool)
    requires Greatest(met, before) && (alreadyFound <==> met != {})
    ensures Greatest(met + tags, greatest) && (found <==> met + tags != {})
  {
    hide Greatest;
    greatest, found := before, alreadyFound;
    var rest := tags;
    assert met + (tags - rest) == met;
    while rest != {}
      invariant rest <= tags && Greatest(met + (tags - rest), greatest) && (found <==> met + (tags - rest) != {})
    {
      var x :| x in rest;
      GreatestMore(met + (tags - rest), greatest, x);
      assert met + (tags - rest) + {x} == met + (tags - (rest - {x}));
      if !found || Compare(greatest, x) < 0 {
        greatest, found := x, true;
      }
      rest := rest - {x};
    }
    assert met + (tags - rest) == met + tags;
  }

  method GreatestStateTag(state: State) returns (greatest: Tag)
    ensures Greatest(DocTags(View(state)), greatest)
  {
    hide Greatest, Flatten;
    var entries, nodes := Flatten(state.maps.m), Flatten(state.arrays.m);
    var rootTags := set n | n in state.roots.m :: state.roots.m[n].id;
    var entryTags := set p | p in entries :: entries[p].tag;
    var nodeTags := set p | p in nodes :: p.1;
    NoTags();
    var found;
    greatest, found := Consider(rootTags, ZERO, {}, false);
    greatest, found := Consider(entryTags, greatest, {} + rootTags, found);
    greatest, found := Consider(nodeTags, greatest, {} + rootTags + entryTags, found);
    assert {} + rootTags + entryTags + nodeTags == DocTags(View(state));
  }

  lemma {:induction false} NoTags()
    ensures Greatest({}, ZERO)
  {
  }

  /**
    Join incoming into current. Nothing that existed before the call is written, so current is
    unchanged whatever happens; without a change the very same state is returned, and with one every
    section and target that stays the same is shared. The newest tag of a change is reported.
   */
  method JoinState(current: State, incoming: State, valid: Doc -> bool)
    returns (r: Option<State>, changed: bool, greatest: Tag)
    ensures r.Some? <==> JoinResult(valid, View(current), View(incoming)).Some?
    ensures r.Some? ==> View(r.value) == JoinResult(valid, View(current), View(incoming)).value
    ensures r.Some? ==> (changed <==> View(r.value) != View(current)) && (!changed ==> r.value == current)
    ensures r.Some? ==> SameSection(current.roots, r.value.roots) && SameSection(current.objects, r.value.objects)
    ensures r.Some? ==> SameSections(current.maps, r.value.maps) && SameSections(current.arrays, r.value.arrays)
    ensures r.Some? ==> SameSections(current.tombstones, r.value.tombstones)
    ensures if r.Some? && changed then Greatest(DocTags(View(incoming)), greatest) else greatest == ZERO
    ensures View(current) == old(View(current)) && View(incoming) == old(View(incoming))
  {
    hide DocClash, JoinDoc, View, SameSection, SameSections, Greatest, DocTags;
    if !valid(View(current)) || !valid(View(incoming)) {
      return None, false, ZERO;
    }
    greatest := GreatestStateTag(incoming);
    var candidate;
    candidate, changed := JoinParts(current, incoming);
    if candidate.None? {
      return None, false, ZERO;
    }
    if !changed {
      return Some(current), false, ZERO;
    }
    if !valid(View(candidate.value)) {
      return None, false, ZERO;
    }
    return candidate, true, greatest;
  }
}
