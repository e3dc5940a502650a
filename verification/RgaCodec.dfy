/** Marshalling an insert-only list state: the payload round trip, its size, and its v1 frame. */
module RgaCodecs {
  import opened Tags
  import opened Forests
  import opened RgaOrder
  import opened RgaStates
  import opened Cycles
  import opened Wires
  import opened RgaWires

  // ----- states as sorted lists -----

  ghost function EntriesOf(nodes: Nodes): (es: seq<Entry>)
    ensures |es| == |nodes|
  {
    LessIsStrictTotalOrder();
    var ids := SortSet(Less, nodes.Keys);
    SortSetSorts(Less, nodes.Keys);
    assert |nodes.Keys| == |nodes|;
    seq(|ids|, i requires 0 <= i < |ids| => assert ids[i] in ids; Entry(ids[i], nodes[ids[i]]))
  }

  ghost function TombstonesOf(dead: set<Tag>): (ts: seq<Tag>) {
    LessIsStrictTotalOrder();
    SortSet(Less, dead)
  }

  function MapOf(es: seq<Entry>): Nodes {
    if es == [] then map[] else MapOf(es[..|es| - 1])[es[|es| - 1].id := es[|es| - 1].item]
  }

  ghost predicate SortedList(es: seq<Entry>) {
    forall i, j :: 0 <= i < j < |es| ==> Less(es[i].id, es[j].id)
  }

  ghost function IdsOf(es: seq<Entry>): (ids: seq<Tag>)
    ensures |ids| == |es| && forall i :: 0 <= i < |es| ==> ids[i] == es[i].id
  {
    seq(|es|, i requires 0 <= i < |es| => es[i].id)
  }

  lemma {:induction false} MapOfIs(es: seq<Entry>)
    requires SortedList(es)
    ensures MapOf(es).Keys == Elems(IdsOf(es)) && forall i :: 0 <= i < |es| ==> MapOf(es)[es[i].id] == es[i].item
  {
    if es != [] {
      var n := |es| - 1;
      var front := es[..n];
      MapOfIs(front);
      assert IdsOf(es) == IdsOf(front) + [es[n].id];
      forall i | 0 <= i < |es| ensures MapOf(es)[es[i].id] == es[i].item {
        if i < n {
          assert front[i] == es[i] && Less(es[i].id, es[n].id);
          Trichotomy(es[i].id, es[n].id);
          assert IdsOf(front)[i] in IdsOf(front);
        }
      }
    }
  }

  lemma {:induction false} EntriesOfIs(nodes: Nodes)
    ensures SortedList(EntriesOf(nodes)) && IdsOf(EntriesOf(nodes)) == TombstonesOf(nodes.Keys)
    ensures forall i :: 0 <= i < |EntriesOf(nodes)| ==>
      EntriesOf(nodes)[i].id in nodes && EntriesOf(nodes)[i].item == nodes[EntriesOf(nodes)[i].id]
  {
    LessIsStrictTotalOrder();
    SortSetSorts(Less, nodes.Keys);
    var es, ids := EntriesOf(nodes), SortSet(Less, nodes.Keys);
    assert forall i :: 0 <= i < |es| ==> es[i].id == ids[i] && ids[i] in ids;
  }

  /** A sorted list of nodes and the map it stands for determine each other. */
  lemma {:induction false} ListAndMap(es: seq<Entry>)
    requires SortedList(es)
    ensures EntriesOf(MapOf(es)) == es
  {
    var nodes := MapOf(es);
    MapOfIs(es);
    EntriesOfIs(nodes);
    var ids := IdsOf(es);
    assert Sorted(Less, ids);
    LessIsStrictTotalOrder();
    SortSetSorts(Less, nodes.Keys);
    SortedUnique(Less, TombstonesOf(nodes.Keys), ids);
    var fs := EntriesOf(nodes);
    forall i | 0 <= i < |es| ensures fs[i] == es[i] {
      assert IdsOf(fs)[i] == ids[i];
    }
  }

  lemma {:induction false} MapAndList(nodes: Nodes)
    ensures MapOf(EntriesOf(nodes)) == nodes
  {
    var es := EntriesOf(nodes);
    EntriesOfIs(nodes);
    MapOfIs(es);
    LessIsStrictTotalOrder();
    SortSetSorts(Less, nodes.Keys);
    assert Elems(IdsOf(es)) == nodes.Keys;
    forall id | id in nodes ensures MapOf(es)[id] == nodes[id] {
      assert id in IdsOf(es);
      var i :| 0 <= i < |es| && IdsOf(es)[i] == id;
      assert es[i].id == id;
    }
  }

  // ----- the payload -----

  ghost function PayloadOf(es: seq<Entry>, ts: seq<Tag>): Bytes {
    Uvarint(|es|) + EntriesBytes(es) + Uvarint(|ts|) + TagsBytes(ts)
  }

  ghost function Payload(nodes: Nodes, dead: set<Tag>): Bytes {
    PayloadOf(EntriesOf(nodes), TombstonesOf(dead))
  }

  predicate CompleteParents(nodes: Nodes) {
    forall id :: id in nodes && nodes[id].parent.Valid() ==> nodes[id].parent in nodes
  }

  /** The states a decoder with these limits accepts. */
  ghost predicate Acceptable(nodes: Nodes, dead: set<Tag>, limits: Limits, complete: bool) {
    && |nodes| <= limits.maxElements && |nodes| <= limits.maxTags && |dead| <= limits.maxTags - |nodes|
    && (forall id :: id in nodes ==> GoodEntry(Entry(id, nodes[id]), limits.maxStringBytes))
    && (forall id :: id in dead ==> id.Valid() && |id.replica| <= limits.maxStringBytes)
    && Acyclic(Par(nodes)) && (complete ==> CompleteParents(nodes))
  }

  lemma {:induction false} AcceptableLists(nodes: Nodes, dead: set<Tag>, limits: Limits, complete: bool)
    requires Acceptable(nodes, dead, limits, complete)
    ensures GoodList(EntriesOf(nodes), limits.maxStringBytes) && GoodTags(TombstonesOf(dead), limits.maxStringBytes)
    ensures |TombstonesOf(dead)| == |dead|
  {
    hide GoodEntry, Tag.Valid, Less, Acyclic, Par;
    EntriesOfIs(nodes);
    var es := EntriesOf(nodes);
    forall i | 0 <= i < |es| ensures GoodEntry(es[i], limits.maxStringBytes) {
      assert es[i] == Entry(es[i].id, nodes[es[i].id]);
    }
    AcceptableTags(dead, limits.maxStringBytes);
  }

  lemma {:induction false} AcceptableTags(dead: set<Tag>, max: int)
    requires forall t :: t in dead ==> t.Valid() && |t.replica| <= max
    ensures GoodTags(TombstonesOf(dead), max) && |TombstonesOf(dead)| == |dead|
  {
    hide Tag.Valid, Less;
    LessIsStrictTotalOrder();
    SortSetSorts(Less, dead);
    var ts := TombstonesOf(dead);
    assert forall i :: 0 <= i < |ts| ==> ts[i] in ts;
  }

  lemma {:induction false} CountBound(es: seq<Entry>)
    ensures |es| <= |EntriesBytes(es)|
  {
    if es != [] {
      CountBound(es[..|es| - 1]);
      assert |EntryBytes(es[|es| - 1])| >= 1;
    }
  }

  lemma {:induction false} TagCountBound(ts: seq<Tag>)
    ensures |ts| <= |TagsBytes(ts)|
  {
    if ts != [] {
      TagCountBound(ts[..|ts| - 1]);
      assert |TagBytes(ts[|ts| - 1])| >= 1;
    }
  }

  /** Where the four parts of a payload stand. */
  lemma {:induction false} PayloadParts(data: Bytes, es: seq<Entry>, ts: seq<Tag>)
    requires data == PayloadOf(es, ts)
    ensures var a := |Uvarint(|es|)|; var b := a + |EntriesBytes(es)|; var c := b + |Uvarint(|ts|)|;
      && Stands(data, 0, Uvarint(|es|)) && Stands(data, a, EntriesBytes(es)) && Stands(data, b, Uvarint(|ts|))
      && Stands(data, c, TagsBytes(ts))
      && |data| == c + |TagsBytes(ts)| && |es| <= |data| && |ts| <= |data|
  {
    hide Uvarint, EntriesBytes, TagsBytes;
    assert data[0..|data|] == data;
    StandsConcat(data, 0, Uvarint(|es|) + EntriesBytes(es) + Uvarint(|ts|), TagsBytes(ts));
    StandsConcat(data, 0, Uvarint(|es|) + EntriesBytes(es), Uvarint(|ts|));
    StandsConcat(data, 0, Uvarint(|es|), EntriesBytes(es));
    CountBound(es);
    TagCountBound(ts);
  }

  lemma {:induction false} PartsPayload(data: Bytes, es: seq<Entry>, ts: seq<Tag>, a: int, b: int, c: int)
    requires Stands(data, 0, Uvarint(|es|)) && a == |Uvarint(|es|)| && Stands(data, a, EntriesBytes(es))
    requires b == a + |EntriesBytes(es)|
    requires Stands(data, b, Uvarint(|ts|)) && c == b + |Uvarint(|ts|)| && Stands(data, c, TagsBytes(ts))
    requires |data| == c + |TagsBytes(ts)|
    ensures data == PayloadOf(es, ts)
  {
    hide Uvarint, EntriesBytes, TagsBytes;
    StandsConcat(data, 0, Uvarint(|es|), EntriesBytes(es));
    StandsConcat(data, 0, Uvarint(|es|) + EntriesBytes(es), Uvarint(|ts|));
    StandsConcat(data, 0, Uvarint(|es|) + EntriesBytes(es) + Uvarint(|ts|), TagsBytes(ts));
    assert data[0..|data|] == data;
  }

  /** Decode the two lists of a payload; it fails exactly when no acceptable pair of lists encodes to data. */
  method DecodeLists(data: Bytes, limits: Limits) returns (ok: bool, es: seq<Entry>, ts: seq<Tag>)
    requires |data| <= MAX_UINT64
    ensures ok ==> GoodLists(es, ts, limits) && data == PayloadOf(es, ts)
    ensures !ok ==> forall fs, us :: GoodLists(fs, us, limits) ==> data != PayloadOf(fs, us)
  {
    hide Uvarint, EntriesBytes, TagsBytes, ReadUvarint, GoodList, GoodTags, PayloadOf;
    es, ts := [], [];
    var head := ReadUvarint(data, 0);
    if head.None? || head.value.0 > limits.maxElements || head.value.0 > limits.maxTags {
      forall fs, us | GoodLists(fs, us, limits) ensures data != PayloadOf(fs, us) {
        if data == PayloadOf(fs, us) {
          HeadReads(data, fs, us);
        }
      }
      return false, es, ts;
    }
    var count, a := head.value.0, head.value.1;
    ReadUvarintIff(data, 0, count, a);
    var b;
    ok, es, b := ReadEntries(data, a, count, limits.maxStringBytes);
    if !ok {
      forall fs, us | GoodLists(fs, us, limits) ensures data != PayloadOf(fs, us) {
        if data == PayloadOf(fs, us) {
          HeadReads(data, fs, us);
          PayloadParts(data, fs, us);
        }
      }
      return false, es, ts;
    }
    ok, ts := DecodeRest(data, limits, es, a, b);
  }

  ghost predicate GoodLists(es: seq<Entry>, ts: seq<Tag>, limits: Limits) {
    && GoodList(es, limits.maxStringBytes) && GoodTags(ts, limits.maxStringBytes)
    && |es| <= limits.maxElements && |es| <= limits.maxTags && |ts| <= limits.maxTags - |es|
  }

  lemma {:induction false} HeadReads(data: Bytes, fs: seq<Entry>, us: seq<Tag>)
    requires data == PayloadOf(fs, us) && |data| <= MAX_UINT64
    ensures ReadUvarint(data, 0) == Some((|fs|, |Uvarint(|fs|)|))
  {
    hide Uvarint, EntriesBytes, TagsBytes, ReadUvarint, PayloadOf;
    PayloadParts(data, fs, us);
    ReadUvarintIff(data, 0, |fs|, |Uvarint(|fs|)|);
  }

  method DecodeRest(data: Bytes, limits: Limits, es: seq<Entry>, a: int, b: int) returns (ok: bool, ts: seq<Tag>)
    requires |data| <= MAX_UINT64 && GoodList(es, limits.maxStringBytes) && |es| <= limits.maxElements
    requires |es| <= limits.maxTags
    requires Stands(data, 0, Uvarint(|es|)) && a == |Uvarint(|es|)| && Stands(data, a, EntriesBytes(es))
    requires b == a + |EntriesBytes(es)|
    ensures ok ==> GoodLists(es, ts, limits) && data == PayloadOf(es, ts)
    ensures !ok ==> forall fs, us :: GoodLists(fs, us, limits) ==> data != PayloadOf(fs, us)
  {
    hide Uvarint, EntriesBytes, TagsBytes, ReadUvarint, GoodList, GoodTags, PayloadOf;
    ts := [];
    var middle := ReadUvarint(data, b);
    if middle.None? || middle.value.0 > limits.maxTags - |es| {
      forall fs, us | GoodLists(fs, us, limits) ensures data != PayloadOf(fs, us) {
        if data == PayloadOf(fs, us) {
          MiddleReads(data, limits, es, fs, us);
        }
      }
      return false, ts;
    }
    var count, c := middle.value.0, middle.value.1;
    ReadUvarintIff(data, b, count, c);
    var next;
    ok, ts, next := ReadTags(data, c, count, limits.maxStringBytes);
    if !ok || next != |data| {
      forall fs, us | GoodLists(fs, us, limits) ensures data != PayloadOf(fs, us) {
        if data == PayloadOf(fs, us) {
          MiddleReads(data, limits, es, fs, us);
          PayloadParts(data, fs, us);
          if ok {
            SameTags(data, c, limits.maxStringBytes, ts, us);
          }
        }
      }
      return false, ts;
    }
    PartsPayload(data, es, ts, a, b, c);
  }

  lemma {:induction false} SameTags(data: Bytes, position: int, max: int, ts: seq<Tag>, us: seq<Tag>)
    requires |data| <= MAX_UINT64 && GoodTags(ts, max) && GoodTags(us, max) && |ts| == |us|
    requires Stands(data, position, TagsBytes(ts)) && Stands(data, position, TagsBytes(us))
    ensures ts == us
  {
    hide TagsBytes, GoodTags;
    TagListUnique(data, position, max, ts, us, |ts|);
    assert ts[..|ts|] == ts && us[..|us|] == us;
  }

  lemma {:induction false} MiddleReads(data: Bytes, limits: Limits, es: seq<Entry>, fs: seq<Entry>, us: seq<Tag>)
    requires |data| <= MAX_UINT64 && GoodList(es, limits.maxStringBytes) && Stands(data, 0, Uvarint(|es|))
    requires Stands(data, |Uvarint(|es|)|, EntriesBytes(es))
    requires data == PayloadOf(fs, us) && GoodLists(fs, us, limits)
    ensures fs == es
    ensures ReadUvarint(data, |Uvarint(|es|)| + |EntriesBytes(es)|)
         == Some((|us|, |Uvarint(|es|)| + |EntriesBytes(es)| + |Uvarint(|us|)|))
  {
    hide Uvarint, EntriesBytes, TagsBytes, ReadUvarint, GoodList, GoodTags, PayloadOf;
    PayloadParts(data, fs, us);
    CountBound(es);
    UvarintUnique(data, 0, |es|, |fs|);
    ListUnique(data, |Uvarint(|es|)|, limits.maxStringBytes, es, fs, |es|);
    assert es[..|es|] == es && fs[..|fs|] == fs;
    var b := |Uvarint(|es|)| + |EntriesBytes(es)|;
    ReadUvarintIff(data, b, |us|, b + |Uvarint(|us|)|);
  }

  /** Decode a payload. The result, if any, is the one acceptable state that encodes to exactly these bytes. */
  method Unmarshal(data: Bytes, limits: Limits, complete: bool) returns (r: Option<(Nodes, set<Tag>)>)
    requires |data| <= MAX_UINT64
    ensures r.Some? ==> Acceptable(r.value.0, r.value.1, limits, complete) && data == Payload(r.value.0, r.value.1)
    ensures r.None? ==> forall nodes, dead :: Acceptable(nodes, dead, limits, complete) ==> data != Payload(nodes, dead)
  {
    hide PayloadOf, GoodLists, Acceptable, EntriesOf, TombstonesOf, Acyclic, Tag.Valid, CompleteParents, Par;
    var ok, es, ts := DecodeLists(data, limits);
    if !ok {
      forall nodes, dead | Acceptable(nodes, dead, limits, complete) ensures data != Payload(nodes, dead) {
        AcceptableGood(nodes, dead, limits, complete);
      }
      return None;
    }
    var nodes, dead := MapOf(es), set t | t in ts;
    ListsAcceptable(es, ts, limits, nodes, dead);
    var sound := GraphOk(nodes, complete);
    if !sound {
      forall n, d | Acceptable(n, d, limits, complete) ensures data != Payload(n, d) {
        AcceptableGraph(n, d, limits, complete);
        if data == Payload(n, d) {
          PayloadInjective(data, n, d, nodes, dead, limits, complete);
        }
      }
      return None;
    }
    ListsAccepted(es, ts, limits, nodes, dead, complete);
    return Some((nodes, dead));
  }

  method GraphOk(nodes: Nodes, complete: bool) returns (ok: bool)
    requires forall id :: id in nodes ==> id.Valid()
    ensures ok <==> Acyclic(Par(nodes)) && (complete ==> CompleteParents(nodes))
  {
    hide Tag.Valid, CompleteParents;
    EmptyAcyclic();
    ok := AcyclicAgainst(Par(nodes), map[]);
    assert map[] + Par(nodes) == Par(nodes);
    ok := ok && (!complete || CompleteParents(nodes));
  }

  lemma {:induction false} AcceptableGraph(nodes: Nodes, dead: set<Tag>, limits: Limits, complete: bool)
    requires Acceptable(nodes, dead, limits, complete)
    ensures Acyclic(Par(nodes)) && (complete ==> CompleteParents(nodes))
  {
  }

  lemma {:induction false} AcceptableGood(nodes: Nodes, dead: set<Tag>, limits: Limits, complete: bool)
    requires Acceptable(nodes, dead, limits, complete)
    ensures GoodLists(EntriesOf(nodes), TombstonesOf(dead), limits)
  {
    hide GoodEntry, Tag.Valid, GoodList, GoodTags, EntriesOf;
    AcceptableLists(nodes, dead, limits, complete);
    assert |EntriesOf(nodes)| == |nodes|;
  }

  /** Good lists stand for a state whose payload they are, acceptable but for its graph. */
  lemma {:induction false} ListsAcceptable(es: seq<Entry>, ts: seq<Tag>, limits: Limits, nodes: Nodes, dead: set<Tag>)
    requires GoodLists(es, ts, limits) && nodes == MapOf(es) && dead == set t | t in ts
    ensures EntriesOf(nodes) == es && TombstonesOf(dead) == ts
    ensures forall id :: id in nodes ==> id.Valid()
  {
    hide Tag.Valid, GoodEntry;
    ListAndMap(es);
    EntriesOfIs(nodes);
    MapOfIs(es);
    LessIsStrictTotalOrder();
    SortSetSorts(Less, dead);
    assert Sorted(Less, ts);
    SortedUnique(Less, TombstonesOf(dead), ts);
    forall id | id in nodes ensures id.Valid() {
      var i :| 0 <= i < |es| && IdsOf(es)[i] == id;
      GoodIsValid(es[i], limits.maxStringBytes);
    }
  }

  lemma {:induction false} GoodIsValid(e: Entry, max: int)
    requires GoodEntry(e, max)
    ensures e.id.Valid()
  {
  }

  lemma {:induction false} ListsAccepted(es: seq<Entry>, ts: seq<Tag>, limits: Limits, nodes: Nodes, dead: set<Tag>,
                                         complete: bool)
    requires GoodLists(es, ts, limits) && nodes == MapOf(es) && dead == set t | t in ts
    requires Acyclic(Par(nodes)) && (complete ==> CompleteParents(nodes))
    ensures Acceptable(nodes, dead, limits, complete)
  {
    hide Tag.Valid, GoodEntry, Acyclic, CompleteParents;
    ListsAcceptable(es, ts, limits, nodes, dead);
    MapOfIs(es);
    LessIsStrictTotalOrder();
    SortSetSorts(Less, dead);
    assert |EntriesOf(nodes)| == |nodes|;
    forall id | id in nodes ensures GoodEntry(Entry(id, nodes[id]), limits.maxStringBytes) {
      var i :| 0 <= i < |es| && IdsOf(es)[i] == id;
      assert es[i] == Entry(id, nodes[id]);
    }
  }

  /** One payload stands for one state. */
  lemma {:induction false} PayloadInjective(data: Bytes, n: Nodes, d: set<Tag>, nodes: Nodes, dead: set<Tag>,
                                            limits: Limits, complete: bool)
    requires |data| <= MAX_UINT64 && data == Payload(n, d) && data == Payload(nodes, dead)
    requires Acceptable(n, d, limits, complete)
    requires GoodLists(EntriesOf(nodes), TombstonesOf(dead), limits)
    ensures n == nodes && d == dead
  {
    hide PayloadOf, GoodList, GoodTags, EntriesBytes, TagsBytes, Uvarint, GoodEntry, EntriesOf, Acceptable;
    AcceptableGood(n, d, limits, complete);
    var es, ts, fs, us := EntriesOf(nodes), TombstonesOf(dead), EntriesOf(n), TombstonesOf(d);
    PayloadParts(data, es, ts);
    PayloadParts(data, fs, us);
    MiddleReads(data, limits, es, fs, us);
    UvarintUnique(data, |Uvarint(|es|)| + |EntriesBytes(es)|, |ts|, |us|);
    SameTags(data, |Uvarint(|es|)| + |EntriesBytes(es)| + |Uvarint(|ts|)|, limits.maxStringBytes, ts, us);
    MapAndList(n);
    MapAndList(nodes);
    LessIsStrictTotalOrder();
    SortSetSorts(Less, d);
    SortSetSorts(Less, dead);
    assert d == dead;
  }

  // ----- encoding -----

  /** What the encoder demands: everything within the limits, and the payload itself too. */
  ghost predicate Encodable(nodes: Nodes, dead: set<Tag>, limits: Limits) {
    && |nodes| <= limits.maxElements && |nodes| <= limits.maxTags && |dead| <= limits.maxTags - |nodes|
    && (forall id :: id in nodes ==> WithinStrings(Entry(id, nodes[id]), limits.maxStringBytes))
    && (forall id :: id in dead ==> |id.replica| <= limits.maxStringBytes)
    && |Payload(nodes, dead)| <= limits.maxPayload
  }

  predicate WithinStrings(e: Entry, max: int) {
    |e.id.replica| <= max && |e.item.value| <= max && (e.item.parent.Valid() ==> |e.item.parent.replica| <= max)
  }

  function EntrySize(e: Entry): (n: nat)
    ensures n == |EntryBytes(e)|
  {
    TagSize(e.id) + (if e.item.parent.Valid() then 1 + TagSize(e.item.parent) else 1) + UvarintSize(|e.item.value|) +
      |e.item.value|
  }

  /** The size of the node list, or failure as soon as something exceeds its limit. */
  method SizeEntries(nodes: Nodes, ids: seq<Tag>, limits: Limits, start: int) returns (ok: bool, size: int)
    requires ids == TombstonesOf(nodes.Keys)
    ensures ok ==> size == start + |EntriesBytes(EntriesOf(nodes))|
    ensures ok <==>
      (forall i :: 0 <= i < |ids| ==>
        ids[i] in nodes && WithinStrings(Entry(ids[i], nodes[ids[i]]), limits.maxStringBytes))
                    && (nodes == map[] || start + |EntriesBytes(EntriesOf(nodes))| <= limits.maxPayload)
  {
    hide EntryBytes, EntriesOf, WithinStrings, TombstonesOf;
    ghost var es := EntriesOf(nodes);
    EntriesOfIs(nodes);
    size := start;
    var i := 0;
    while i < |ids|
      invariant 0 <= i <= |ids| && size == start + |EntriesBytes(es[..i])|
      invariant forall j :: 0 <= j < i ==> WithinStrings(es[j], limits.maxStringBytes)
      invariant i > 0 ==> size <= limits.maxPayload
    {
      assert ids[i] == IdsOf(es)[i] == es[i].id;
      var e := Entry(ids[i], nodes[ids[i]]);
      assert e == es[i];
      EntriesGrow(es, i);
      if !WithinStrings(e, limits.maxStringBytes) || EntrySize(e) > limits.maxPayload - size {
        return false, size;
      }
      size := size + EntrySize(e);
      i := i + 1;
    }
    assert es[..i] == es;
    return true, size;
  }

  /** Prefixes of the list never take more bytes than the whole. */
  lemma {:induction false} EntriesGrow(es: seq<Entry>, i: int)
    requires 0 <= i < |es|
    ensures |EntriesBytes(es[..i + 1])| == |EntriesBytes(es[..i])| + |EntryBytes(es[i])| <= |EntriesBytes(es)|
  {
    hide EntryBytes;
    assert es[..i + 1][..i] == es[..i];
    var rest := EntriesSplit(es, i);
  }

  method SizeTags(dead: set<Tag>, ts: seq<Tag>, limits: Limits, start: int) returns (ok: bool, size: int)
    requires ts == TombstonesOf(dead)
    ensures ok ==> size == start + |TagsBytes(ts)|
    ensures ok <==>
      (forall i :: 0 <= i < |ts| ==> |ts[i].replica| <= limits.maxStringBytes)
        && (ts == [] || start + |TagsBytes(ts)| <= limits.maxPayload)
  {
    hide TagBytes, TombstonesOf;
    size := start;
    var i := 0;
    while i < |ts|
      invariant 0 <= i <= |ts| && size == start + |TagsBytes(ts[..i])|
      invariant forall j :: 0 <= j < i ==> |ts[j].replica| <= limits.maxStringBytes
      invariant i > 0 ==> size <= limits.maxPayload
    {
      TagsGrow(ts, i);
      if |ts[i].replica| > limits.maxStringBytes || TagSize(ts[i]) > limits.maxPayload - size {
        return false, size;
      }
      size := size + TagSize(ts[i]);
      i := i + 1;
    }
    assert ts[..i] == ts;
    return true, size;
  }

  lemma {:induction false} TagsGrow(ts: seq<Tag>, i: int)
    requires 0 <= i < |ts|
    ensures |TagsBytes(ts[..i + 1])| == |TagsBytes(ts[..i])| + |TagBytes(ts[i])| <= |TagsBytes(ts)|
  {
    hide TagBytes;
    assert ts[..i + 1][..i] == ts[..i];
    var rest := TagsSplit(ts, i);
  }

  method WriteEntries(start: Bytes, nodes: Nodes, ids: seq<Tag>) returns (out: Bytes)
    requires ids == TombstonesOf(nodes.Keys)
    ensures out == start + EntriesBytes(EntriesOf(nodes))
  {
    hide EntryBytes, EntriesOf, TombstonesOf;
    ghost var es := EntriesOf(nodes);
    EntriesOfIs(nodes);
    out := start;
    var i := 0;
    while i < |ids|
      invariant 0 <= i <= |ids| && out == start + EntriesBytes(es[..i])
    {
      assert ids[i] == IdsOf(es)[i] == es[i].id;
      assert es[..i + 1][..i] == es[..i];
      Reassociated(start, EntriesBytes(es[..i]), EntryBytes(es[i]));
      out := out + EntryBytes(Entry(ids[i], nodes[ids[i]]));
      i := i + 1;
    }
    assert es[..i] == es;
  }

  method WriteTags(start: Bytes, ts: seq<Tag>) returns (out: Bytes)
    ensures out == start + TagsBytes(ts)
  {
    hide TagBytes;
    out := start;
    var i := 0;
    while i < |ts|
      invariant 0 <= i <= |ts| && out == start + TagsBytes(ts[..i])
    {
      assert ts[..i + 1][..i] == ts[..i];
      Reassociated(start, TagsBytes(ts[..i]), TagBytes(ts[i]));
      out := out + TagBytes(ts[i]);
      i := i + 1;
    }
    assert ts[..i] == ts;
  }

  /** Write a payload: it succeeds exactly within the limits, and the size computed beforehand is the size written. */
  method WritePayload(nodes: Nodes, dead: set<Tag>, limits: Limits) returns (r: Option<Bytes>, size: int)
    ensures r.Some? <==> Encodable(nodes, dead, limits)
    ensures r.Some? ==> r.value == Payload(nodes, dead) && size == |r.value|
  {
    hide EntriesOf, Uvarint, EntriesBytes, TagsBytes, WithinStrings, Less;
    size := 0;
    if |nodes| > limits.maxElements || |nodes| > limits.maxTags || |dead| > limits.maxTags - |nodes| {
      return None, size;
    }
    LessIsStrictTotalOrder();
    var ids := SortKeys(Less, nodes.Keys);
    var ts := SortKeys(Less, dead);
    SizeOfPayload(nodes, dead, limits, ids, ts);
    NoEntries([], 0);
    var ok;
    ok, size := SizeEntries(nodes, ids, limits, UvarintSize(|ids|));
    if !ok || UvarintSize(|ts|) > limits.maxPayload - size {
      return None, size;
    }
    ok, size := SizeTags(dead, ts, limits, size + UvarintSize(|ts|));
    if !ok {
      return None, size;
    }
    var out := WriteEntries(Uvarint(|ids|), nodes, ids);
    out := WriteTags(out + Uvarint(|ts|), ts);
    return Some(out), size;
  }

  lemma {:induction false} SizeOfPayload(nodes: Nodes, dead: set<Tag>, limits: Limits, ids: seq<Tag>, ts: seq<Tag>)
    requires ids == TombstonesOf(nodes.Keys) && ts == TombstonesOf(dead)
    requires |nodes| <= limits.maxElements && |nodes| <= limits.maxTags && |dead| <= limits.maxTags - |nodes|
    ensures |ids| == |nodes| && |ts| == |dead|
    ensures |Payload(nodes, dead)|
         == |Uvarint(|ids|)| + |EntriesBytes(EntriesOf(nodes))| + |Uvarint(|ts|)| + |TagsBytes(ts)|
    ensures Encodable(nodes, dead, limits) <==>
      && (forall i :: 0 <= i < |ids| ==>
        ids[i] in nodes && WithinStrings(Entry(ids[i], nodes[ids[i]]), limits.maxStringBytes))
      && (forall i :: 0 <= i < |ts| ==> |ts[i].replica| <= limits.maxStringBytes)
      && |Payload(nodes, dead)| <= limits.maxPayload
  {
    hide EntriesOf, Uvarint, EntriesBytes, TagsBytes, WithinStrings, Less;
    LessIsStrictTotalOrder();
    SortSetSorts(Less, nodes.Keys);
    SortSetSorts(Less, dead);
    assert |nodes.Keys| == |nodes|;
    assert forall i :: 0 <= i < |ids| ==> ids[i] in ids;
    assert forall i :: 0 <= i < |ts| ==> ts[i] in ts;
    forall id | id in nodes ensures exists i :: 0 <= i < |ids| && ids[i] == id {
      assert id in ids;
    }
  }

  /** The state may be encoded at all: valid, under a codec, and for a full state without a missing parent. */
  predicate Marshallable(codecID: Bytes, nodes: Nodes, dead: set<Tag>, limits: Limits, complete: bool) {
    ValidDelta(Delta(codecID, nodes, dead)) && (complete ==> CompleteParents(nodes))
      && |codecID| <= limits.maxStringBytes
  }

  /** Encode a delta or a full state: refused exactly when it is invalid, incomplete or over a limit. */
  method Marshal(codecID: Bytes, nodes: Nodes, dead: set<Tag>, limits: Limits, complete: bool)
    returns (r: Option<Bytes>, size: int)
    ensures r.Some? <==> Marshallable(codecID, nodes, dead, limits, complete) && Encodable(nodes, dead, limits)
    ensures r.Some? ==> r.value == Payload(nodes, dead) && size == |r.value|
  {
    hide ValidDelta, CompleteParents, Encodable, Payload;
    if !ValidDelta(Delta(codecID, nodes, dead)) || (complete && !CompleteParents(nodes))
      || |codecID| > limits.maxStringBytes {
      return None, 0;
    }
    r, size := WritePayload(nodes, dead, limits);
  }

  /** Decoding an encoded acceptable state returns that state. */
  method RoundTrip(codecID: Bytes, nodes: Nodes, dead: set<Tag>, limits: Limits, complete: bool)
    returns (ok: bool, back: Option<(Nodes, set<Tag>)>)
    requires Acceptable(nodes, dead, limits, complete) && limits.maxPayload <= MAX_UINT64
    ensures ok <==> !Blank(codecID) && |codecID| <= limits.maxStringBytes && |Payload(nodes, dead)| <= limits.maxPayload
    ensures ok ==> back == Some((nodes, dead))
  {
    hide Payload, GoodEntry, Acyclic, CompleteParents, Tag.Valid, Marshallable, Acceptable, Blank;
    AcceptableStrings(nodes, dead, limits, complete);
    AcceptableMarshals(codecID, nodes, dead, limits, complete);
    back := None;
    var bytes, size := Marshal(codecID, nodes, dead, limits, complete);
    ok := bytes.Some?;
    if ok {
      back := Unmarshal(bytes.value, limits, complete);
      SameState(bytes.value, nodes, dead, back, limits, complete);
    }
  }

  /** Encoding a decoded payload returns the very same bytes, so there is one encoding only. */
  method Reencode(codecID: Bytes, data: Bytes, limits: Limits, complete: bool)
    returns (decoded: bool, again: Option<Bytes>)
    requires |data| <= MAX_UINT64
    ensures decoded <==> exists nodes, dead :: Acceptable(nodes, dead, limits, complete) && data == Payload(nodes, dead)
    ensures decoded ==>
      again == if !Blank(codecID) && |codecID| <= limits.maxStringBytes && |data| <= limits.maxPayload then Some(data)
        else None
  {
    hide Payload, GoodEntry, Acyclic, CompleteParents, Tag.Valid, Marshallable, Acceptable, Blank;
    again := None;
    var state := Unmarshal(data, limits, complete);
    decoded := state.Some?;
    if decoded {
      AcceptableStrings(state.value.0, state.value.1, limits, complete);
      AcceptableMarshals(codecID, state.value.0, state.value.1, limits, complete);
      var bytes, size := Marshal(codecID, state.value.0, state.value.1, limits, complete);
      again := bytes;
    }
  }

  lemma {:induction false} AcceptableMarshals(codecID: Bytes, nodes: Nodes, dead: set<Tag>, limits: Limits,
                                              complete: bool)
    requires Acceptable(nodes, dead, limits, complete)
    ensures Marshallable(codecID, nodes, dead, limits, complete) <==>
      !Blank(codecID) && |codecID| <= limits.maxStringBytes
  {
    hide Acyclic, CompleteParents, Tag.Valid, Blank;
  }

  lemma {:induction false} AcceptableStrings(nodes: Nodes, dead: set<Tag>, limits: Limits, complete: bool)
    requires Acceptable(nodes, dead, limits, complete)
    ensures Encodable(nodes, dead, limits) <==> |Payload(nodes, dead)| <= limits.maxPayload
  {
    hide Payload, Acyclic, CompleteParents, Tag.Valid;
  }

  lemma {:induction false} SameState(data: Bytes, nodes: Nodes, dead: set<Tag>, back: Option<(Nodes, set<Tag>)>,
                                     limits: Limits, complete: bool)
    requires |data| <= MAX_UINT64 && data == Payload(nodes, dead) && Acceptable(nodes, dead, limits, complete)
    requires back.Some? ==>
      Acceptable(back.value.0, back.value.1, limits, complete) && data == Payload(back.value.0, back.value.1)
    requires back.None? ==> forall n, d :: Acceptable(n, d, limits, complete) ==> data != Payload(n, d)
    ensures back == Some((nodes, dead))
  {
    hide Payload, Acceptable, GoodLists;
    if back.Some? {
      AcceptableGood(nodes, dead, limits, complete);
      PayloadInjective(data, back.value.0, back.value.1, nodes, dead, limits, complete);
    }
  }
}
