/** The child lists of an insert-only list: inline for an only child, a sorted slice otherwise. */
module ChildIndexes {
  import opened Tags
  import opened Sequence
  import opened RgaOrder

  ghost function Ids(ps: seq<Pair>): (r: seq<Tag>)
    ensures |r| == |ps| && forall i :: 0 <= i < |ps| ==> r[i] == ps[i].position
  {
    seq(|ps|, i requires 0 <= i < |ps| => ps[i].position)
  }

  ghost predicate Descending(ps: seq<Pair>) {
    Sorted(Greater, Ids(ps))
  }

  /** Everything before `at` is at least target, everything from `at` on is below it. */
  ghost predicate Boundary(items: seq<Pair>, target: Tag, at: int) {
    && 0 <= at <= |items|
    && (forall j :: 0 <= j < at ==> !Less(items[j].position, target))
    && (forall j :: at <= j < |items| ==> Less(items[j].position, target))
  }

  lemma {:induction false} BelowFrom(items: seq<Pair>, target: Tag, m: int)
    requires Descending(items) && 0 <= m < |items| && Less(items[m].position, target)
    ensures forall j :: m <= j < |items| ==> Less(items[j].position, target)
  {
    LessIsStrictTotalOrder();
    forall j | m < j < |items| ensures Less(items[j].position, target) {
      assert Greater(Ids(items)[m], Ids(items)[j]);
    }
  }

  lemma {:induction false} AboveTo(items: seq<Pair>, target: Tag, m: int)
    requires Descending(items) && 0 <= m < |items| && !Less(items[m].position, target)
    ensures forall j :: 0 <= j <= m ==> !Less(items[j].position, target)
  {
    LessIsStrictTotalOrder();
    forall j | 0 <= j < m ensures !Less(items[j].position, target) {
      assert Greater(Ids(items)[j], Ids(items)[m]);
    }
  }

  method SearchDescending(items: seq<Pair>, target: Tag) returns (left: int)
    requires Descending(items)
    ensures Boundary(items, target, left)
  {
    left := 0;
    var right := |items|;
    while left < right
      invariant 0 <= left <= right <= |items|
      invariant forall j :: 0 <= j < left ==> !Less(items[j].position, target)
      invariant forall j :: right <= j < |items| ==> Less(items[j].position, target)
    {
      var middle := left + (right - left) / 2;
      if Compare(items[middle].position, target) < 0 {
        BelowFrom(items, target, middle);
        right := middle;
      } else {
        AboveTo(items, target, middle);
        left := middle + 1;
      }
    }
  }

  /** The first index whose position is at most target. */
  method SearchDescendingOrEqual(items: seq<Pair>, target: Tag) returns (left: int)
    requires Descending(items)
    ensures 0 <= left <= |items|
    ensures forall j :: 0 <= j < left ==> Less(target, items[j].position)
    ensures left < |items| ==> !Less(target, items[left].position)
  {
    left := 0;
    var right := |items|;
    while left < right
      invariant 0 <= left <= right <= |items|
      invariant forall j :: 0 <= j < left ==> Less(target, items[j].position)
      invariant right < |items| ==> !Less(target, items[right].position)
    {
      var middle := left + (right - left) / 2;
      Trichotomy(items[middle].position, target);
      if Compare(items[middle].position, target) <= 0 {
        right := middle;
      } else {
        GreaterTo(items, target, middle);
        left := middle + 1;
      }
    }
  }

  lemma {:induction false} GreaterTo(items: seq<Pair>, target: Tag, m: int)
    requires Descending(items) && 0 <= m < |items| && Less(target, items[m].position)
    ensures forall j :: 0 <= j <= m ==> Less(target, items[j].position)
  {
    LessIsStrictTotalOrder();
    forall j | 0 <= j < m ensures Less(target, items[j].position) {
      assert Greater(Ids(items)[j], Ids(items)[m]);
    }
  }

  lemma {:induction false} InsertDescending(items: seq<Pair>, child: Pair, at: int)
    requires Descending(items) && Boundary(items, child.position, at) && child.position !in Ids(items)
    ensures Descending(items[..at] + [child] + items[at..])
    ensures Ids(items[..at] + [child] + items[at..]) == Ids(items)[..at] + [child.position] + Ids(items)[at..]
  {
    var after := items[..at] + [child] + items[at..];
    LessIsStrictTotalOrder();
    forall j | 0 <= j < at ensures Less(child.position, items[j].position) {
      assert items[j].position == Ids(items)[j];
    }
    forall i, j | 0 <= i < j < |after| ensures Greater(Ids(after)[i], Ids(after)[j]) {
      var a, b := if i < at then i else i - 1, if j < at then j else j - 1;
      if i != at && j != at {
        assert Greater(Ids(items)[a], Ids(items)[b]);
      }
    }
  }

  /** The boundary of a listed child lies behind it, so inserting there lists it twice. */
  lemma {:induction false} ListedTwice(items: seq<Pair>, child: Pair, at: int)
    requires Descending(items) && Boundary(items, child.position, at) && child.position in Ids(items)
    ensures !Descending(items[..at] + [child] + items[at..])
    ensures Ids(items[..at] + [child] + items[at..]) == Ids(items)[..at] + [child.position] + Ids(items)[at..]
  {
    LessIsStrictTotalOrder();
    var i :| 0 <= i < |items| && Ids(items)[i] == child.position;
    assert items[i].position == child.position && !Less(child.position, child.position);
    var after := items[..at] + [child] + items[at..];
    assert Ids(after)[i] == Ids(after)[at];
    assert !Greater(Ids(after)[i], Ids(after)[at]);
  }

  ghost predicate SameElsewhere<T(!new), V>(a: map<T, V>, b: map<T, V>, p: T) {
    forall q :: q != p ==> (q in a <==> q in b) && (q in a && q in b ==> a[q] == b[q])
  }

  class ChildIndex {
    var branches: map<Tag, seq<Pair>>

    constructor ()
      ensures branches == map[]
    {
      branches := map[];
    }

    /** The children of one position, wherever they are stored. */
    ghost function Kids(parent: Pair): (r: seq<Pair>)
      reads this, parent
    {
      if parent.position in branches then branches[parent.position]
      else if parent.singleChild != null then [parent.singleChild]
      else []
    }

    /** A slice is only used for two or more children, and then the inline slot is empty. */
    ghost predicate Stored(parent: Pair)
      reads this, parent
    {
      && Descending(Kids(parent))
      && (parent.position in branches ==> |branches[parent.position]| >= 2 && parent.singleChild == null)
    }

    method Count(parent: Pair) returns (n: int)
      ensures n == |Kids(parent)|
    {
      if parent.position in branches {
        return |branches[parent.position]|;
      }
      if parent.singleChild != null {
        return 1;
      }
      return 0;
    }

    /** The child is the inline one. */
    ghost predicate Inline(parent: Pair, child: Pair)
      reads this, parent, parent.singleChild
    {
      parent.position !in branches && parent.singleChild != null && parent.singleChild.position == child.position
    }

    /**
      Insert a child in descending order and report the sibling before it. A child that is already listed is left
      alone in the inline form only: in a slice the boundary lies behind it, so the guard that looks for it at the
      boundary never holds and it is listed twice. The storage invariant survives exactly otherwise.
     */
    method Insert(parent: Pair, child: Pair) returns (previous: Pair?, hasPrevious: bool, ghost at: int)
      requires Stored(parent)
      modifies this, parent`singleChild
      ensures old(Inline(parent, child)) ==> Kids(parent) == old(Kids(parent)) && !hasPrevious
      ensures !old(Inline(parent, child)) ==> 0 <= at <= |old(Kids(parent))|
      ensures !old(Inline(parent, child)) ==>
        Kids(parent) == old(Kids(parent))[..at] + [child] + old(Kids(parent))[at..]
      ensures !old(Inline(parent, child)) ==>
        (hasPrevious <==> at > 0) && (hasPrevious ==> previous == old(Kids(parent))[at - 1])
      ensures Stored(parent) <==> child.position !in Ids(old(Kids(parent))) || old(Inline(parent, child))
      ensures !old(Inline(parent, child)) ==>
        Ids(Kids(parent)) == Ids(old(Kids(parent)))[..at] + [child.position] + Ids(old(Kids(parent)))[at..]
      ensures SameElsewhere(branches, old(branches), parent.position)
    {
      ghost var before := Kids(parent);
      if parent.position in branches {
        var siblings := branches[parent.position];
        var insertAt := SearchDescending(siblings, child.position);
        if child.position in Ids(siblings) {
          ListedTwice(siblings, child, insertAt);
        } else {
          InsertDescending(siblings, child, insertAt);
        }
        at := insertAt;
        branches := branches[parent.position := siblings[..insertAt] + [child] + siblings[insertAt..]];
        if insertAt > 0 {
          return siblings[insertAt - 1], true, at;
        }
        return null, false, at;
      }
      var current := parent.singleChild;
      if current == null {
        parent.singleChild := child;
        return null, false, 0;
      }
      assert Ids(before) == [current.position];
      if current.position == child.position {
        return null, false, 0;
      }
      Trichotomy(current.position, child.position);
      parent.singleChild := null;
      if Compare(current.position, child.position) < 0 {
        InsertDescending(before, child, 0);
        branches := branches[parent.position := [child, current]];
        assert Kids(parent) == before[..0] + [child] + before[0..];
        return null, false, 0;
      }
      InsertDescending(before, child, 1);
      branches := branches[parent.position := [current, child]];
      assert Kids(parent) == before[..1] + [child] + before[1..];
      return current, true, 1;
    }

    /** Remove a child; it fails exactly when the child is not there. */
    method Remove(parent: Pair, child: Pair) returns (ok: bool)
      requires Stored(parent)
      modifies this, parent`singleChild
      ensures ok <==> child.position in Ids(old(Kids(parent)))
      ensures !ok ==> Kids(parent) == old(Kids(parent))
      ensures ok ==> exists at :: 0 <= at < |old(Kids(parent))| && old(Kids(parent))[at].position == child.position
                       && Kids(parent) == old(Kids(parent))[..at] + old(Kids(parent))[at + 1..]
      ensures Stored(parent)
      ensures SameElsewhere(branches, old(branches), parent.position)
    {
      ghost var before := Kids(parent);
      if parent.position in branches {
        var siblings := branches[parent.position];
        var removeAt := SearchDescendingOrEqual(siblings, child.position);
        if removeAt == |siblings| || siblings[removeAt].position != child.position {
          NotThere(siblings, child.position, removeAt);
          return false;
        }
        assert Ids(siblings)[removeAt] == child.position;
        RemoveDescending(siblings, removeAt);
        siblings := siblings[..removeAt] + siblings[removeAt + 1..];
        if |siblings| == 1 {
          branches := branches - {parent.position};
          parent.singleChild := siblings[0];
          assert Kids(parent) == siblings;
        } else {
          branches := branches[parent.position := siblings];
        }
        return true;
      }
      if parent.singleChild != null && parent.singleChild.position == child.position {
        assert Ids(before)[0] == child.position;
        parent.singleChild := null;
        assert Kids(parent) == before[..0] + before[1..];
        return true;
      }
      return false;
    }
  }

  lemma {:induction false} NotThere(items: seq<Pair>, target: Tag, at: int)
    requires Descending(items) && 0 <= at <= |items|
    requires forall j :: 0 <= j < at ==> Less(target, items[j].position)
    requires at < |items| ==> !Less(target, items[at].position) && items[at].position != target
    ensures target !in Ids(items)
  {
    LessIsStrictTotalOrder();
    if at < |items| {
      BelowFrom(items, target, at);
    }
    assert forall j :: 0 <= j < |items| ==> items[j].position != target;
  }

  lemma {:induction false} RemoveDescending(items: seq<Pair>, at: int)
    requires Descending(items) && 0 <= at < |items|
    ensures Descending(items[..at] + items[at + 1..])
  {
    var after := items[..at] + items[at + 1..];
    forall i, j | 0 <= i < j < |after| ensures Greater(Ids(after)[i], Ids(after)[j]) {
      var a, b := if i < at then i else i + 1, if j < at then j else j + 1;
      assert Greater(Ids(items)[a], Ids(items)[b]);
    }
  }
}
