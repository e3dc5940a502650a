/** The document-tree join: five sections, joined pointwise, copy-on-write. */
module DocumentJoins {
  import opened Tags

  datatype Owner = Owner(kind: Byte, parent: Tag, rootName: Bytes, key: Bytes, position: Tag)
  /** A root record, stored under its name. */
  datatype Root = Root(id: Tag, kind: Byte)
  datatype Object = Object(id: Tag, kind: Byte, owner: Owner)
  datatype Value = Value(kind: Byte, bytes: Bytes, objectID: Tag, objectKind: Byte)
  datatype MapEntry = MapEntry(tag: Tag, present: bool, value: Value)
  datatype ArrayNode = ArrayNode(id: Tag, parent: Tag, value: Value)

  // ----- what happens to one record that both sides have -----

  datatype Choice = Conflict | Keep | Take

  function ChooseRoot(previous: Root, root: Root): Choice {
    if previous.id == root.id && previous.kind != root.kind then Conflict
    else if Compare(previous.id, root.id) >= 0 then Keep
    else Take
  }

  /** Objects and array nodes never change. */
  function ChooseSame<V(==)>(previous: V, next: V): Choice {
    if previous != next then Conflict else Keep
  }

  function ChooseEntry(previous: MapEntry, entry: MapEntry): Choice {
    if previous.tag == entry.tag then if previous != entry then Conflict else Keep
    else if Compare(previous.tag, entry.tag) > 0 then Keep
    else Take
  }

  /** The greater rank wins, and equal ranks must be the same record. */
  ghost predicate Ranked<V(!new)>(choose: (V, V) -> Choice, rank: V -> Tag) {
    forall x, y ::
      choose(x, y)
        == (if x == y then Keep else if rank(x) == rank(y) then Conflict else if Less(rank(x), rank(y)) then Take
          else Keep)
  }

  function RootRank(r: Root): Tag {
    r.id
  }

  function EntryRank(e: MapEntry): Tag {
    e.tag
  }

  function NoRank<V>(v: V): Tag {
    ZERO
  }

  lemma {:induction false} SectionsRanked()
    ensures Ranked(ChooseRoot, RootRank) && Ranked(ChooseEntry, EntryRank)
    ensures Ranked(ChooseSame<Object>, NoRank<Object>) && Ranked(ChooseSame<ArrayNode>, NoRank<ArrayNode>)
    ensures Ranked(ChooseSame<()>, NoRank<()>)
  {
    forall x: Root, y: Root
      ensures ChooseRoot(x, y)
           == (if x == y then Keep else if x.id == y.id then Conflict else if Less(x.id, y.id) then Take else Keep)
    {
      Trichotomy(x.id, y.id);
    }
    forall x: MapEntry, y: MapEntry
      ensures ChooseEntry(x, y)
           == (if x == y then Keep else if x.tag == y.tag then Conflict else if Less(x.tag, y.tag) then Take else Keep)
    {
      Trichotomy(x.tag, y.tag);
    }
  }

  // ----- joining maps pointwise -----

  function Get<K, V>(m: map<K, V>, k: K): Option<V> {
    if k in m then Some(m[k]) else None
  }

  function Pick<V>(choose: (V, V) -> Choice, x: Option<V>, y: Option<V>): Option<V> {
    if y.None? then x else if x.None? || choose(x.value, y.value).Take? then y else x
  }

  predicate Clash<V>(choose: (V, V) -> Choice, x: Option<V>, y: Option<V>) {
    x.Some? && y.Some? && choose(x.value, y.value).Conflict?
  }

  ghost predicate Clashes<K(!new), V>(choose: (V, V) -> Choice, a: map<K, V>, b: map<K, V>) {
    exists k :: Clash(choose, Get(a, k), Get(b, k))
  }

  /** Every key of either side, with the record that wins there. */
  ghost function Joined<K(!new), V>(choose: (V, V) -> Choice, a: map<K, V>, b: map<K, V>): (r: map<K, V>)
    ensures forall k :: Get(r, k) == Pick(choose, Get(a, k), Get(b, k))
  {
    map k | k in a.Keys + b.Keys :: Pick(choose, Get(a, k), Get(b, k)).value
  }

  lemma {:induction false} SameMap<K(!new), V>(a: map<K, V>, b: map<K, V>)
    requires forall k :: Get(a, k) == Get(b, k)
    ensures a == b
  {
    forall k ensures k in a <==> k in b {
      assert Get(a, k) == Get(b, k);
    }
    forall k | k in a ensures a[k] == b[k] {
      assert Get(a, k) == Get(b, k);
    }
  }

  /** Winning is a maximum: it commutes, associates and is idempotent wherever nothing clashes. */
  lemma {:induction false} PickLaws<V(!new)>(choose: (V, V) -> Choice, rank: V -> Tag, x: Option<V>, y: Option<V>,
                                             z: Option<V>)
    requires Ranked(choose, rank)
    ensures Clash(choose, x, y) <==> Clash(choose, y, x)
    ensures !Clash(choose, x, y) ==> Pick(choose, x, y) == Pick(choose, y, x)
    ensures !Clash(choose, x, x) && Pick(choose, x, x) == x
    ensures (!Clash(choose, x, y) && !Clash(choose, Pick(choose, x, y), z) && !Clash(choose, y, z)
      && !Clash(choose, x, Pick(choose, y, z))) ==>
      Pick(choose, Pick(choose, x, y), z) == Pick(choose, x, Pick(choose, y, z))
  {
    hide Compare;
    LessIsStrictTotalOrder();
    if x.Some? && y.Some? {
      var _ := choose(x.value, y.value);
      Trichotomy(rank(x.value), rank(y.value));
    }
  }

  lemma {:induction false} JoinedLaws<K(!new), V(!new)>(choose: (V, V) -> Choice, rank: V -> Tag, a: map<K, V>,
                                                        b: map<K, V>, c: map<K, V>)
    requires Ranked(choose, rank)
    ensures Clashes(choose, a, b) <==> Clashes(choose, b, a)
    ensures !Clashes(choose, a, b) ==> Joined(choose, a, b) == Joined(choose, b, a)
    ensures !Clashes(choose, a, a) && Joined(choose, a, a) == a
    ensures (!Clashes(choose, a, b) && !Clashes(choose, Joined(choose, a, b), c) && !Clashes(choose, b, c)
      && !Clashes(choose, a, Joined(choose, b, c))) ==>
      Joined(choose, Joined(choose, a, b), c) == Joined(choose, a, Joined(choose, b, c))
  {
    hide Pick, Clash, Ranked;
    forall k
      ensures Clash(choose, Get(a, k), Get(b, k)) <==> Clash(choose, Get(b, k), Get(a, k))
      ensures !Clash(choose, Get(a, k), Get(a, k)) && Pick(choose, Get(a, k), Get(a, k)) == Get(a, k)
    {
      PickLaws(choose, rank, Get(a, k), Get(b, k), Get(c, k));
    }
    SameMap(Joined(choose, a, a), a);
    if !Clashes(choose, a, b) {
      forall k ensures Get(Joined(choose, a, b), k) == Get(Joined(choose, b, a), k) {
        PickLaws(choose, rank, Get(a, k), Get(b, k), Get(c, k));
        assert !Clash(choose, Get(a, k), Get(b, k));
      }
      SameMap(Joined(choose, a, b), Joined(choose, b, a));
    }
    JoinedAssociates(choose, rank, a, b, c);
  }

  lemma {:induction false} JoinedAssociates<K(!new), V(!new)>(choose: (V, V) -> Choice, rank: V -> Tag, a: map<K, V>,
                                                              b: map<K, V>, c: map<K, V>)
    requires Ranked(choose, rank)
    ensures (!Clashes(choose, a, b) && !Clashes(choose, Joined(choose, a, b), c) && !Clashes(choose, b, c)
      && !Clashes(choose, a, Joined(choose, b, c))) ==>
      Joined(choose, Joined(choose, a, b), c) == Joined(choose, a, Joined(choose, b, c))
  {
    hide Pick, Clash, Ranked, Joined;
    var ab, bc := Joined(choose, a, b), Joined(choose, b, c);
    if !Clashes(choose, a, b) && !Clashes(choose, ab, c) && !Clashes(choose, b, c) && !Clashes(choose, a, bc) {
      forall k ensures Get(Joined(choose, ab, c), k) == Get(Joined(choose, a, bc), k) {
        PickLaws(choose, rank, Get(a, k), Get(b, k), Get(c, k));
        assert !Clash(choose, Get(a, k), Get(b, k)) && !Clash(choose, Get(ab, k), Get(c, k));
        assert !Clash(choose, Get(b, k), Get(c, k)) && !Clash(choose, Get(a, k), Get(bc, k));
      }
      SameMap(Joined(choose, ab, c), Joined(choose, a, bc));
    }
  }

  // ----- documents as values -----

  /**
    Roots by name, objects by identity, map entries by target and key, array nodes and deletions by target and
    position.
   */
  datatype Doc = Doc(
    roots: map<Bytes, Root>, objects: map<Tag, Object>, entries: map<(Tag, Bytes), MapEntry>,
    nodes: map<(Tag, Tag), ArrayNode>, marks: map<(Tag, Tag), ()>)

  ghost predicate DocClash(a: Doc, b: Doc) {
    || Clashes(ChooseRoot, a.roots, b.roots) || Clashes(ChooseSame, a.objects, b.objects)
    || Clashes(ChooseEntry, a.entries, b.entries)
    || Clashes(ChooseSame, a.nodes, b.nodes) || Clashes(ChooseSame, a.marks, b.marks)
  }

  ghost function JoinDoc(a: Doc, b: Doc): Doc {
    Doc(Joined(ChooseRoot, a.roots, b.roots), Joined(ChooseSame, a.objects, b.objects),
      Joined(ChooseEntry, a.entries, b.entries),
        Joined(ChooseSame, a.nodes, b.nodes), Joined(ChooseSame, a.marks, b.marks))
  }

  /** The joined document, unless an argument or the result is invalid or records clash. */
  ghost function JoinResult(valid: Doc -> bool, a: Doc, b: Doc): Option<Doc> {
    if !valid(a) || !valid(b) || DocClash(a, b) then None
    else if JoinDoc(a, b) == a || valid(JoinDoc(a, b)) then Some(JoinDoc(a, b))
    else None
  }

  lemma {:induction false} DocCommutes(a: Doc, b: Doc)
    ensures DocClash(a, b) <==> DocClash(b, a)
    ensures !DocClash(a, b) ==> JoinDoc(a, b) == JoinDoc(b, a)
    ensures !DocClash(a, a) && JoinDoc(a, a) == a
  {
    hide Joined, Clashes, Ranked, ChooseRoot, ChooseEntry, ChooseSame;
    SectionsRanked();
    JoinedLaws(ChooseRoot, RootRank, a.roots, b.roots, b.roots);
    JoinedLaws(ChooseSame<Object>, NoRank<Object>, a.objects, b.objects, b.objects);
    JoinedLaws(ChooseEntry, EntryRank, a.entries, b.entries, b.entries);
    JoinedLaws(ChooseSame<ArrayNode>, NoRank<ArrayNode>, a.nodes, b.nodes, b.nodes);
    JoinedLaws(ChooseSame<()>, NoRank<()>, a.marks, b.marks, b.marks);
  }

  lemma {:induction false} DocAssociates(a: Doc, b: Doc, c: Doc)
    requires !DocClash(a, b) && !DocClash(b, c) && !DocClash(JoinDoc(a, b), c) && !DocClash(a, JoinDoc(b, c))
    ensures JoinDoc(JoinDoc(a, b), c) == JoinDoc(a, JoinDoc(b, c))
  {
    hide Joined, Clashes, Ranked, ChooseRoot, ChooseEntry, ChooseSame;
    SectionsRanked();
    JoinedAssociates(ChooseRoot, RootRank, a.roots, b.roots, c.roots);
    JoinedAssociates(ChooseSame<Object>, NoRank<Object>, a.objects, b.objects, c.objects);
    JoinedAssociates(ChooseEntry, EntryRank, a.entries, b.entries, c.entries);
    JoinedAssociates(ChooseSame<ArrayNode>, NoRank<ArrayNode>, a.nodes, b.nodes, c.nodes);
    JoinedAssociates(ChooseSame<()>, NoRank<()>, a.marks, b.marks, c.marks);
  }

  /** Whatever the validity check: where the joins succeed they commute, associate and are idempotent. */
  lemma {:induction false} JoinLaws(valid: Doc -> bool, a: Doc, b: Doc, c: Doc)
    ensures JoinResult(valid, a, b) == JoinResult(valid, b, a)
    ensures valid(a) ==> JoinResult(valid, a, a) == Some(a)
    ensures var ab, bc := JoinResult(valid, a, b), JoinResult(valid, b, c);
      ab.Some? && bc.Some? && JoinResult(valid, ab.value, c).Some? && JoinResult(valid, a, bc.value).Some? ==>
      JoinResult(valid, ab.value, c) == JoinResult(valid, a, bc.value)
  {
    hide JoinDoc, DocClash;
    DocCommutes(a, b);
    DocCommutes(a, a);
    var ab, bc := JoinResult(valid, a, b), JoinResult(valid, b, c);
    if ab.Some? && bc.Some? && JoinResult(valid, ab.value, c).Some? && JoinResult(valid, a, bc.value).Some? {
      DocAssociates(a, b, c);
    }
  }

  // ----- the join without its steps -----

  /** Records that stand at the same key with the same rank are the same. */
  ghost predicate Agreeing<K(!new), V>(rank: V -> Tag, a: map<K, V>, b: map<K, V>) {
    forall k :: k in a && k in b && rank(a[k]) == rank(b[k]) ==> a[k] == b[k]
  }

  /** Every key of either side, with a record of that key that no other record of it outranks. */
  ghost predicate Newest<K(!new), V>(rank: V -> Tag, a: map<K, V>, b: map<K, V>, r: map<K, V>) {
    && (forall k :: k in r <==> k in a || k in b)
    && (forall k :: k in r ==> (k in a && r[k] == a[k]) || (k in b && r[k] == b[k]))
    && (forall k :: k in a && k in r ==> !Less(rank(r[k]), rank(a[k])))
    && (forall k :: k in b && k in r ==> !Less(rank(r[k]), rank(b[k])))
  }

  lemma {:induction false} ClashesIff<K(!new), V(!new)>(choose: (V, V) -> Choice, rank: V -> Tag, a: map<K, V>,
                                                        b: map<K, V>)
    requires Ranked(choose, rank)
    ensures Clashes(choose, a, b) <==> !Agreeing(rank, a, b)
  {
    forall k ensures Clash(choose, Get(a, k), Get(b, k)) <==>
        k in a && k in b && rank(a[k]) == rank(b[k]) && a[k] != b[k] {
      if k in a && k in b {
        var _ := choose(a[k], b[k]);
      }
    }
  }

  lemma {:induction false} PickNewest<V(!new)>(choose: (V, V) -> Choice, rank: V -> Tag, x: V, y: V)
    requires Ranked(choose, rank)
    ensures var p := Pick(choose, Some(x), Some(y)).value; !Less(rank(p), rank(x)) && !Less(rank(p), rank(y))
  {
    hide Compare;
    LessIsStrictTotalOrder();
    var _ := choose(x, y);
    Trichotomy(rank(x), rank(y));
  }

  lemma {:induction false} JoinedNewest<K(!new), V(!new)>(choose: (V, V) -> Choice, rank: V -> Tag, a: map<K, V>,
                                                          b: map<K, V>)
    requires Ranked(choose, rank)
    ensures Newest(rank, a, b, Joined(choose, a, b))
  {
    hide Compare, Ranked;
    LessIsStrictTotalOrder();
    var r := Joined(choose, a, b);
    forall k
      ensures k in r <==> k in a || k in b
      ensures k in r ==> (k in a && r[k] == a[k]) || (k in b && r[k] == b[k])
      ensures k in a && k in r ==> !Less(rank(r[k]), rank(a[k]))
      ensures k in b && k in r ==> !Less(rank(r[k]), rank(b[k]))
    {
      assert Get(r, k) == Pick(choose, Get(a, k), Get(b, k));
      if k in a && k in b {
        PickNewest(choose, rank, a[k], b[k]);
      }
    }
  }

  /** Where the sides agree the newest records are determined. */
  lemma {:induction false} NewestUnique<K(!new), V(!new)>(rank: V -> Tag, a: map<K, V>, b: map<K, V>, r: map<K, V>,
                                                          t: map<K, V>)
    requires Agreeing(rank, a, b) && Newest(rank, a, b, r) && Newest(rank, a, b, t)
    ensures r == t
  {
    hide Compare;
    LessIsStrictTotalOrder();
    forall k ensures Get(r, k) == Get(t, k) {
      if k in a && k in b {
        assert k in r && k in t;
        Trichotomy(rank(a[k]), rank(b[k]));
      }
    }
    SameMap(r, t);
  }

  ghost predicate AgreeingDocs(a: Doc, b: Doc) {
    && Agreeing(RootRank, a.roots, b.roots) && Agreeing(NoRank<Object>, a.objects, b.objects)
    && Agreeing(EntryRank, a.entries, b.entries) && Agreeing(NoRank<ArrayNode>, a.nodes, b.nodes)
  }

  ghost predicate NewestDoc(a: Doc, b: Doc, r: Doc) {
    && Newest(RootRank, a.roots, b.roots, r.roots) && Newest(NoRank<Object>, a.objects, b.objects, r.objects)
    && Newest(EntryRank, a.entries, b.entries, r.entries) && Newest(NoRank<ArrayNode>, a.nodes, b.nodes, r.nodes)
    && Newest(NoRank<()>, a.marks, b.marks, r.marks)
  }

  lemma {:induction false} DocClashIff(a: Doc, b: Doc)
    ensures DocClash(a, b) <==> !AgreeingDocs(a, b)
  {
    hide Clashes, Ranked, ChooseRoot, ChooseEntry, ChooseSame, Agreeing;
    SectionsRanked();
    ClashesIff(ChooseRoot, RootRank, a.roots, b.roots);
    ClashesIff(ChooseSame<Object>, NoRank<Object>, a.objects, b.objects);
    ClashesIff(ChooseEntry, EntryRank, a.entries, b.entries);
    ClashesIff(ChooseSame<ArrayNode>, NoRank<ArrayNode>, a.nodes, b.nodes);
    ClashesIff(ChooseSame<()>, NoRank<()>, a.marks, b.marks);
    MarksAgree(a.marks, b.marks);
  }

  lemma {:induction false} MarksAgree(a: map<(Tag, Tag), ()>, b: map<(Tag, Tag), ()>)
    ensures Agreeing(NoRank<()>, a, b)
  {
  }

  lemma {:induction false} JoinDocNewest(a: Doc, b: Doc)
    ensures NewestDoc(a, b, JoinDoc(a, b))
  {
    hide Joined, Newest, Ranked, ChooseRoot, ChooseEntry, ChooseSame;
    SectionsRanked();
    JoinedNewest(ChooseRoot, RootRank, a.roots, b.roots);
    JoinedNewest(ChooseSame<Object>, NoRank<Object>, a.objects, b.objects);
    JoinedNewest(ChooseEntry, EntryRank, a.entries, b.entries);
    JoinedNewest(ChooseSame<ArrayNode>, NoRank<ArrayNode>, a.nodes, b.nodes);
    JoinedNewest(ChooseSame<()>, NoRank<()>, a.marks, b.marks);
  }

  lemma {:induction false} NewestDocUnique(a: Doc, b: Doc, r: Doc, t: Doc)
    requires AgreeingDocs(a, b) && NewestDoc(a, b, r) && NewestDoc(a, b, t)
    ensures r == t
  {
    hide Newest, Agreeing;
    NewestUnique(RootRank, a.roots, b.roots, r.roots, t.roots);
    NewestUnique(NoRank<Object>, a.objects, b.objects, r.objects, t.objects);
    NewestUnique(EntryRank, a.entries, b.entries, r.entries, t.entries);
    NewestUnique(NoRank<ArrayNode>, a.nodes, b.nodes, r.nodes, t.nodes);
    MarksAgree(a.marks, b.marks);
    NewestUnique(NoRank<()>, a.marks, b.marks, r.marks, t.marks);
  }

  /**
    A join yields r exactly when both documents are valid, nothing of the same rank differs, and r is valid and holds
    the newest record of every key.
   */
  lemma {:induction false} JoinIsNewest(valid: Doc -> bool, a: Doc, b: Doc, r: Doc)
    ensures JoinResult(valid, a, b) == Some(r) <==>
      valid(a) && valid(b) && AgreeingDocs(a, b) && NewestDoc(a, b, r) && valid(r)
  {
    hide JoinDoc, DocClash, AgreeingDocs, NewestDoc;
    DocClashIff(a, b);
    JoinDocNewest(a, b);
    if AgreeingDocs(a, b) && NewestDoc(a, b, r) {
      NewestDocUnique(a, b, r, JoinDoc(a, b));
    }
  }
}
