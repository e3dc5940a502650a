/** The canonical payload of an insert-only list state, and its decoder. */
module RgaWires {
  import opened Tags
  import opened RgaOrder
  import opened RgaStates
  import opened Wires

  datatype Limits = Limits(maxFrameBytes: int, maxPayload: int, maxCodecID: int, maxElements: int, maxTags: int,
    maxStringBytes: int) {
    predicate Valid() {
      maxFrameBytes > 0 && maxPayload > 0 && maxCodecID > 0 && maxElements > 0 && maxTags > 0 && maxStringBytes > 0
    }
  }

  datatype Entry = Entry(id: Tag, item: Node)

  // ----- one node -----

  function ParentBytes(parent: Tag): (r: Bytes) {
    if parent.Valid() then Uvarint(1) + TagBytes(parent) else Uvarint(0)
  }

  function EntryBytes(e: Entry): (r: Bytes) {
    TagBytes(e.id) + ParentBytes(e.item.parent) + PrefixedBytes(e.item.value)
  }

  /** A node that a decoder with bound max accepts. */
  predicate GoodEntry(e: Entry, max: int) {
    && ValidNode(e.id, e.item) && |e.id.replica| <= max && |e.item.value| <= max
    && (e.item.parent.Valid() ==> |e.item.parent.replica| <= max)
  }

  function ReadParent(data: Bytes, position: int, max: int): Option<(Tag, int)> {
    match ReadUvarint(data, position)
    case None => None
    case Some((flag, next)) =>
      if flag > 1 then None
      else if flag == 1 then ReadTag(data, next, max)
      else Some((ZERO, next))
  }

  lemma {:induction false} ReadParentIff(data: Bytes, position: int, max: int, parent: Tag, next: int)
    requires |data| <= MAX_UINT64 && (parent == ZERO || parent.Valid())
    ensures ReadParent(data, position, max) == Some((parent, next)) <==>
      (parent.Valid() ==> |parent.replica| <= max) && Stands(data, position, ParentBytes(parent))
        && next == position + |ParentBytes(parent)|
  {
    hide Uvarint, ReadUvarint, ReadTag, TagBytes, Tag.Valid;
    ZeroInvalid();
    var one, zero := position + |Uvarint(1)|, position + |Uvarint(0)|;
    ReadUvarintIff(data, position, 1, one);
    ReadUvarintIff(data, position, 0, zero);
    StandsConcat(data, position, Uvarint(1), TagBytes(parent));
    ReadTagIff(data, one, max, parent, next);
    if ReadParent(data, position, max) == Some((parent, next)) {
      var (flag, after) := ReadUvarint(data, position).value;
      ReadUvarintIff(data, position, flag, after);
      ReadTagIff(data, after, max, parent, next);
    }
  }

  function ReadEntry(data: Bytes, position: int, max: int): Option<(Entry, int)> {
    match ReadTag(data, position, max)
    case None => None
    case Some((id, a)) =>
      match ReadParent(data, a, max)
      case None => None
      case Some((parent, b)) =>
        match ReadBytes(data, b, max)
        case None => None
        case Some((value, next)) =>
          if ValidNode(id, Node(parent, value)) then Some((Entry(id, Node(parent, value)), next)) else None
  }

  /** Reading a node inverts writing it, exactly for acceptable nodes. */
  lemma {:induction false} ReadEntryIff(data: Bytes, position: int, max: int, e: Entry, next: int)
    requires |data| <= MAX_UINT64
    ensures ReadEntry(data, position, max) == Some((e, next)) <==>
      GoodEntry(e, max) && Stands(data, position, EntryBytes(e)) && next == position + |EntryBytes(e)|
  {
    hide ReadTag, ReadParent, ReadBytes, Tag.Valid, TagBytes, ParentBytes, PrefixedBytes;
    var a := position + |TagBytes(e.id)|;
    var b := a + |ParentBytes(e.item.parent)|;
    StandsConcat(data, position, TagBytes(e.id) + ParentBytes(e.item.parent), PrefixedBytes(e.item.value));
    StandsConcat(data, position, TagBytes(e.id), ParentBytes(e.item.parent));
    ReadTagIff(data, position, max, e.id, a);
    ReadBytesIff(data, b, max, e.item.value, next);
    if e.item.parent == ZERO || e.item.parent.Valid() {
      ReadParentIff(data, a, max, e.item.parent, b);
    }
    if ReadEntry(data, position, max) == Some((e, next)) {
      var (id, x) := ReadTag(data, position, max).value;
      ReadTagIff(data, position, max, id, x);
      var (parent, y) := ReadParent(data, x, max).value;
      ReadParentIff(data, x, max, parent, y);
    }
  }

  // ----- lists of nodes and of tags -----

  ghost function EntriesBytes(es: seq<Entry>): Bytes {
    if es == [] then [] else EntriesBytes(es[..|es| - 1]) + EntryBytes(es[|es| - 1])
  }

  ghost function TagsBytes(ts: seq<Tag>): Bytes {
    if ts == [] then [] else TagsBytes(ts[..|ts| - 1]) + TagBytes(ts[|ts| - 1])
  }

  lemma {:induction false} EntriesSplit(es: seq<Entry>, i: int) returns (rest: Bytes)
    requires 0 <= i < |es|
    ensures EntriesBytes(es) == EntriesBytes(es[..i]) + EntryBytes(es[i]) + rest
    decreases |es|
  {
    hide EntryBytes;
    var n := |es| - 1;
    if i == n {
      rest := [];
      assert EntriesBytes(es[..n]) + EntryBytes(es[n]) + [] == EntriesBytes(es[..n]) + EntryBytes(es[n]);
    } else {
      var front := es[..n];
      var inner := EntriesSplit(front, i);
      assert front[..i] == es[..i] && front[i] == es[i];
      rest := inner + EntryBytes(es[n]);
      Reassociated(EntriesBytes(es[..i]) + EntryBytes(es[i]), inner, EntryBytes(es[n]));
    }
  }

  /** The i-th node stands right after the first i. */
  lemma {:induction false} EntryStands(data: Bytes, position: int, es: seq<Entry>, i: int)
    requires Stands(data, position, EntriesBytes(es)) && 0 <= i < |es|
    ensures Stands(data, position, EntriesBytes(es[..i]))
    ensures Stands(data, position + |EntriesBytes(es[..i])|, EntryBytes(es[i]))
  {
    hide EntriesBytes, EntryBytes;
    var rest := EntriesSplit(es, i);
    StandsConcat(data, position, EntriesBytes(es[..i]) + EntryBytes(es[i]), rest);
    StandsConcat(data, position, EntriesBytes(es[..i]), EntryBytes(es[i]));
  }

  /** What a reader with these bounds accepts: good nodes in strictly increasing identity order. */
  ghost predicate GoodList(es: seq<Entry>, max: int) {
    && (forall i :: 0 <= i < |es| ==> GoodEntry(es[i], max))
    && (forall i, j :: 0 <= i < j < |es| ==> Less(es[i].id, es[j].id))
  }

  /** At one place there stands at most one list of a given length. */
  lemma {:induction false} ListUnique(data: Bytes, position: int, max: int, es: seq<Entry>, fs: seq<Entry>, i: int)
    requires |data| <= MAX_UINT64 && GoodList(es, max) && GoodList(fs, max) && 0 <= i <= |es| && i <= |fs|
    requires Stands(data, position, EntriesBytes(es)) && Stands(data, position, EntriesBytes(fs))
    ensures es[..i] == fs[..i]
    decreases i
  {
    hide EntriesBytes, EntryBytes, ReadEntry, GoodEntry, Less;
    if i > 0 {
      ListUnique(data, position, max, es, fs, i - 1);
      EntryStands(data, position, es, i - 1);
      EntryStands(data, position, fs, i - 1);
      var p := position + |EntriesBytes(es[..i - 1])|;
      ReadEntryIff(data, p, max, es[i - 1], p + |EntryBytes(es[i - 1])|);
      ReadEntryIff(data, p, max, fs[i - 1], p + |EntryBytes(fs[i - 1])|);
      assert es[..i] == es[..i - 1] + [es[i - 1]] && fs[..i] == fs[..i - 1] + [fs[i - 1]];
    }
  }

  /** Read count nodes; it fails exactly when no acceptable list of that length stands there. */
  method ReadEntries(data: Bytes, position: int, count: nat, max: int) returns (ok: bool, es: seq<Entry>, next: int)
    requires |data| <= MAX_UINT64 && 0 <= position <= |data|
    ensures ok ==>
      GoodList(es, max) && |es| == count && Stands(data, position, EntriesBytes(es))
        && next == position + |EntriesBytes(es)|
    ensures !ok ==> forall fs :: GoodList(fs, max) && |fs| == count ==> !Stands(data, position, EntriesBytes(fs))
  {
    hide EntriesBytes, EntryBytes, ReadEntry, GoodEntry;
    es, next := [], position;
    NoEntries(data, position);
    var index := 0;
    while index < count
      invariant 0 <= index <= count && |es| == index && GoodList(es, max)
      invariant Stands(data, position, EntriesBytes(es)) && next == position + |EntriesBytes(es)|
    {
      var r := ReadEntry(data, next, max);
      if r.None? || (index > 0 && !Less(es[index - 1].id, r.value.0.id)) {
        forall fs | GoodList(fs, max) && |fs| == count ensures !Stands(data, position, EntriesBytes(fs)) {
          NoSuchList(data, position, max, es, fs, index);
        }
        return false, es, next;
      }
      ReadEntryIff(data, next, max, r.value.0, r.value.1);
      AppendEntry(data, position, max, es, r.value.0);
      es, next := es + [r.value.0], r.value.1;
      index := index + 1;
    }
    return true, es, next;
  }

  lemma {:induction false} NoEntries(data: Bytes, position: int)
    requires 0 <= position <= |data|
    ensures EntriesBytes([]) == [] && Stands(data, position, []) && TagsBytes([]) == []
  {
  }

  lemma {:induction false} AppendEntry(data: Bytes, position: int, max: int, es: seq<Entry>, e: Entry)
    requires GoodList(es, max) && Stands(data, position, EntriesBytes(es)) && GoodEntry(e, max)
    requires Stands(data, position + |EntriesBytes(es)|, EntryBytes(e)) && (es != [] ==> Less(es[|es| - 1].id, e.id))
    ensures GoodList(es + [e], max) && Stands(data, position, EntriesBytes(es + [e]))
    ensures |EntriesBytes(es + [e])| == |EntriesBytes(es)| + |EntryBytes(e)|
  {
    hide EntryBytes, GoodEntry;
    assert (es + [e])[..|es|] == es;
    StandsConcat(data, position, EntriesBytes(es), EntryBytes(e));
    LessIsStrictTotalOrder();
  }

  lemma {:induction false} NoSuchList(data: Bytes, position: int, max: int, es: seq<Entry>, fs: seq<Entry>, i: int)
    requires |data| <= MAX_UINT64 && GoodList(es, max) && GoodList(fs, max) && |es| == i < |fs|
    requires Stands(data, position, EntriesBytes(es))
    requires var r := ReadEntry(data, position + |EntriesBytes(es)|, max);
      r.None? || (i > 0 && !Less(es[i - 1].id, r.value.0.id))
    ensures !Stands(data, position, EntriesBytes(fs))
  {
    hide EntriesBytes, EntryBytes, ReadEntry, GoodEntry, Less;
    if Stands(data, position, EntriesBytes(fs)) {
      ListUnique(data, position, max, es, fs, i);
      assert es[..i] == es;
      EntryStands(data, position, fs, i);
      var p := position + |EntriesBytes(es)|;
      ReadEntryIff(data, p, max, fs[i], p + |EntryBytes(fs[i])|);
    }
  }

  // ----- tombstone lists -----

  ghost predicate GoodTags(ts: seq<Tag>, max: int) {
    && (forall i :: 0 <= i < |ts| ==> ts[i].Valid() && |ts[i].replica| <= max)
    && (forall i, j :: 0 <= i < j < |ts| ==> Less(ts[i], ts[j]))
  }

  lemma {:induction false} TagsSplit(ts: seq<Tag>, i: int) returns (rest: Bytes)
    requires 0 <= i < |ts|
    ensures TagsBytes(ts) == TagsBytes(ts[..i]) + TagBytes(ts[i]) + rest
    decreases |ts|
  {
    hide TagBytes;
    var n := |ts| - 1;
    if i == n {
      rest := [];
      assert TagsBytes(ts[..n]) + TagBytes(ts[n]) + [] == TagsBytes(ts[..n]) + TagBytes(ts[n]);
    } else {
      var front := ts[..n];
      var inner := TagsSplit(front, i);
      assert front[..i] == ts[..i] && front[i] == ts[i];
      rest := inner + TagBytes(ts[n]);
      Reassociated(TagsBytes(ts[..i]) + TagBytes(ts[i]), inner, TagBytes(ts[n]));
    }
  }

  lemma {:induction false} TagStands(data: Bytes, position: int, ts: seq<Tag>, i: int)
    requires Stands(data, position, TagsBytes(ts)) && 0 <= i < |ts|
    ensures Stands(data, position, TagsBytes(ts[..i])) && Stands(data, position + |TagsBytes(ts[..i])|, TagBytes(ts[i]))
  {
    hide TagsBytes, TagBytes;
    var rest := TagsSplit(ts, i);
    StandsConcat(data, position, TagsBytes(ts[..i]) + TagBytes(ts[i]), rest);
    StandsConcat(data, position, TagsBytes(ts[..i]), TagBytes(ts[i]));
  }

  lemma {:induction false} TagListUnique(data: Bytes, position: int, max: int, ts: seq<Tag>, us: seq<Tag>, i: int)
    requires |data| <= MAX_UINT64 && GoodTags(ts, max) && GoodTags(us, max) && 0 <= i <= |ts| && i <= |us|
    requires Stands(data, position, TagsBytes(ts)) && Stands(data, position, TagsBytes(us))
    ensures ts[..i] == us[..i]
    decreases i
  {
    hide TagsBytes, TagBytes, ReadTag, Tag.Valid, Less;
    if i > 0 {
      TagListUnique(data, position, max, ts, us, i - 1);
      TagStands(data, position, ts, i - 1);
      TagStands(data, position, us, i - 1);
      var p := position + |TagsBytes(ts[..i - 1])|;
      ReadTagIff(data, p, max, ts[i - 1], p + |TagBytes(ts[i - 1])|);
      ReadTagIff(data, p, max, us[i - 1], p + |TagBytes(us[i - 1])|);
      assert ts[..i] == ts[..i - 1] + [ts[i - 1]] && us[..i] == us[..i - 1] + [us[i - 1]];
    }
  }

  /** Read count tags; it fails exactly when no acceptable list of that length stands there. */
  method ReadTags(data: Bytes, position: int, count: nat, max: int) returns (ok: bool, ts: seq<Tag>, next: int)
    requires |data| <= MAX_UINT64 && 0 <= position <= |data|
    ensures ok ==>
      GoodTags(ts, max) && |ts| == count && Stands(data, position, TagsBytes(ts)) && next == position + |TagsBytes(ts)|
    ensures !ok ==> forall us :: GoodTags(us, max) && |us| == count ==> !Stands(data, position, TagsBytes(us))
  {
    hide TagsBytes, TagBytes, ReadTag, Tag.Valid;
    ts, next := [], position;
    NoEntries(data, position);
    var index := 0;
    while index < count
      invariant 0 <= index <= count && |ts| == index && GoodTags(ts, max)
      invariant Stands(data, position, TagsBytes(ts)) && next == position + |TagsBytes(ts)|
    {
      var r := ReadTag(data, next, max);
      if r.None? || (index > 0 && !Less(ts[index - 1], r.value.0)) {
        forall us | GoodTags(us, max) && |us| == count ensures !Stands(data, position, TagsBytes(us)) {
          NoSuchTags(data, position, max, ts, us, index);
        }
        return false, ts, next;
      }
      ReadTagIff(data, next, max, r.value.0, r.value.1);
      AppendTagOf(data, position, max, ts, r.value.0);
      ts, next := ts + [r.value.0], r.value.1;
      index := index + 1;
    }
    return true, ts, next;
  }

  lemma {:induction false} AppendTagOf(data: Bytes, position: int, max: int, ts: seq<Tag>, t: Tag)
    requires GoodTags(ts, max) && Stands(data, position, TagsBytes(ts)) && t.Valid() && |t.replica| <= max
    requires Stands(data, position + |TagsBytes(ts)|, TagBytes(t)) && (ts != [] ==> Less(ts[|ts| - 1], t))
    ensures GoodTags(ts + [t], max) && Stands(data, position, TagsBytes(ts + [t]))
    ensures |TagsBytes(ts + [t])| == |TagsBytes(ts)| + |TagBytes(t)|
  {
    hide TagBytes, Tag.Valid;
    assert (ts + [t])[..|ts|] == ts;
    StandsConcat(data, position, TagsBytes(ts), TagBytes(t));
    LessIsStrictTotalOrder();
  }

  lemma {:induction false} NoSuchTags(data: Bytes, position: int, max: int, ts: seq<Tag>, us: seq<Tag>, i: int)
    requires |data| <= MAX_UINT64 && GoodTags(ts, max) && GoodTags(us, max) && |ts| == i < |us|
    requires Stands(data, position, TagsBytes(ts))
    requires var r := ReadTag(data, position + |TagsBytes(ts)|, max); r.None? || (i > 0 && !Less(ts[i - 1], r.value.0))
    ensures !Stands(data, position, TagsBytes(us))
  {
    hide TagsBytes, TagBytes, ReadTag, Tag.Valid, Less;
    if Stands(data, position, TagsBytes(us)) {
      TagListUnique(data, position, max, ts, us, i);
      assert ts[..i] == ts;
      TagStands(data, position, us, i);
      var p := position + |TagsBytes(ts)|;
      ReadTagIff(data, p, max, us[i], p + |TagBytes(us[i])|);
    }
  }
}
