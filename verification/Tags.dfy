/** Mutation tags: machine widths, the canonical order, and sorted key lists. */
module Tags {

  type Byte = b: int | 0 <= b < 256
  type Bytes = seq<Byte>

  const MAX_UINT64 := 0xFFFF_FFFF_FFFF_FFFF
  type Uint64 = x: int | 0 <= x <= 0xFFFF_FFFF_FFFF_FFFF

  datatype Option<+T> = None | Some(value: T)

  /** A tag; the zero tag stands for the root of a list. */
  datatype Tag = Tag(replica: Bytes, wall: Uint64, logical: Uint64) {
    predicate Valid() {
      !Blank(replica)
    }
  }

  const ZERO := Tag([], 0, 0)

  lemma {:induction false} ZeroInvalid()
    ensures !ZERO.Valid()
  {
  }

  /** The number of leading bytes that encode one white-space character in UTF-8, or 0. */
  function LeadingSpace(s: Bytes): (n: nat)
    ensures n <= |s|
  {
    if |s| >= 1 && (9 <= s[0] <= 13 || s[0] == 32) then 1
    else if |s| >= 2 && s[0] == 0xC2 && (s[1] == 0x85 || s[1] == 0xA0) then 2
    else if |s| >= 3 && s[0] == 0xE1 && s[1] == 0x9A && s[2] == 0x80 then 3
    else if |s| >= 3 && s[0] == 0xE2 && s[1] == 0x80
            && (0x80 <= s[2] <= 0x8A || s[2] == 0xA8 || s[2] == 0xA9 || s[2] == 0xAF) then 3
    else if |s| >= 3 && s[0] == 0xE2 && s[1] == 0x81 && s[2] == 0x9F then 3
    else if |s| >= 3 && s[0] == 0xE3 && s[1] == 0x80 && s[2] == 0x80 then 3
    else 0
  }

  /** Trimming white space from s leaves nothing. */
  predicate Blank(s: Bytes) {
    s == [] || (LeadingSpace(s) > 0 && Blank(s[LeadingSpace(s)..]))
  }

  /** Byte-wise lexicographic comparison, as Go compares strings. */
  function CompareBytes(a: Bytes, b: Bytes): int {
    if a == [] && b == [] then 0
    else if a == [] then -1
    else if b == [] then 1
    else if a[0] < b[0] then -1
    else if a[0] > b[0] then 1
    else CompareBytes(a[1..], b[1..])
  }

  function Compare(t: Tag, o: Tag): int {
    if t.wall < o.wall then -1
    else if t.wall > o.wall then 1
    else if t.logical < o.logical then -1
    else if t.logical > o.logical then 1
    else CompareBytes(t.replica, o.replica)
  }

  predicate Less(a: Tag, b: Tag) {
    Compare(a, b) < 0
  }

  lemma {:induction false} CompareBytesAntisymmetric(a: Bytes, b: Bytes)
    ensures CompareBytes(a, b) == -CompareBytes(b, a)
    ensures CompareBytes(a, b) == 0 <==> a == b
  {
    if a != [] && b != [] && a[0] == b[0] {
      CompareBytesAntisymmetric(a[1..], b[1..]);
      assert a == [a[0]] + a[1..] && b == [b[0]] + b[1..];
    }
  }

  lemma {:induction false} CompareBytesTransitive(a: Bytes, b: Bytes, c: Bytes)
    requires CompareBytes(a, b) <= 0 && CompareBytes(b, c) <= 0
    ensures CompareBytes(a, c) <= 0
    ensures CompareBytes(a, b) < 0 || CompareBytes(b, c) < 0 ==> CompareBytes(a, c) < 0
  {
    if a != [] && b != [] && c != [] && a[0] == b[0] == c[0] {
      CompareBytesTransitive(a[1..], b[1..], c[1..]);
    }
  }

  /** Tag comparison is a strict total order: exactly one of <, ==, > holds, and < is transitive. */
  lemma {:induction false} Trichotomy(a: Tag, b: Tag)
    ensures Compare(a, b) == -Compare(b, a)
    ensures Compare(a, b) == 0 <==> a == b
  {
    CompareBytesAntisymmetric(a.replica, b.replica);
  }

  lemma {:induction false} Transitive(a: Tag, b: Tag, c: Tag)
    requires Compare(a, b) <= 0 && Compare(b, c) <= 0
    ensures Compare(a, c) <= 0
    ensures Compare(a, b) < 0 || Compare(b, c) < 0 ==> Compare(a, c) < 0
  {
    if a.wall == b.wall == c.wall && a.logical == b.logical == c.logical {
      CompareBytesTransitive(a.replica, b.replica, c.replica);
    }
  }

  ghost predicate StrictTotalOrder<T(!new)>(less: (T, T) -> bool) {
    && (forall a :: !less(a, a))
    && (forall a, b :: a != b ==> less(a, b) || less(b, a))
    && (forall a, b, c :: less(a, b) && less(b, c) ==> less(a, c))
  }

  /** The tag order, packaged for clients that quantify over it. */
  lemma {:induction false} LessIsStrictTotalOrder()
    ensures StrictTotalOrder(Less)
  {
    forall a, b
      ensures !Less(a, a)
      ensures a != b ==> Less(a, b) || Less(b, a)
    {
      Trichotomy(a, a);
      Trichotomy(a, b);
    }
    forall a, b, c | Less(a, b) && Less(b, c)
      ensures Less(a, c)
    {
      Transitive(a, b, c);
    }
  }

  ghost predicate Sorted<T(!new)>(less: (T, T) -> bool, s: seq<T>) {
    forall i, j :: 0 <= i < j < |s| ==> less(s[i], s[j])
  }

  ghost predicate NoDup<T>(s: seq<T>) {
    forall i, j :: 0 <= i < j < |s| ==> s[i] != s[j]
  }

  /** The same property, by recursion over the list. */
  ghost predicate Distinct<T>(s: seq<T>) {
    s == [] || (s[0] !in s[1..] && Distinct(s[1..]))
  }

  lemma {:induction false} DistinctNoDup<T>(s: seq<T>)
    ensures Distinct(s) <==> NoDup(s)
  {
    if s != [] {
      DistinctNoDup(s[1..]);
      if NoDup(s) {
        assert forall j :: 0 <= j < |s[1..]| ==> s[1..][j] == s[j + 1];
      }
      if Distinct(s) {
        forall i, j | 0 <= i < j < |s| ensures s[i] != s[j] {
          assert s[j] == s[1..][j - 1];
          if i > 0 { assert s[i] == s[1..][i - 1]; }
        }
      }
    }
  }

  ghost function Elems<T>(s: seq<T>): (r: set<T>) {
    set x | x in s
  }

  /** Two lists sorted by the same strict order with the same elements are the same list. */
  lemma {:induction false} SortedUnique<T(!new)>(less: (T, T) -> bool, a: seq<T>, b: seq<T>)
    requires StrictTotalOrder(less) && Sorted(less, a) && Sorted(less, b)
    requires forall x :: x in a <==> x in b
    ensures a == b
  {
    if a == [] {
      assert forall i :: 0 <= i < |b| ==> b[i] in a;
    } else {
      assert a[0] in b && b != [];
      assert b[0] in a;
      assert a[0] == b[0];
      forall x ensures x in a[1..] <==> x in b[1..] {
        if x in a[1..] { assert x in a && less(a[0], x); }
        if x in b[1..] { assert x in b && less(b[0], x); }
      }
      SortedUnique(less, a[1..], b[1..]);
      assert a == [a[0]] + a[1..] && b == [b[0]] + b[1..];
    }
  }

  ghost predicate IsLeast<T(!new)>(less: (T, T) -> bool, s: set<T>, m: T) {
    m in s && forall x :: x in s && x != m ==> less(m, x)
  }

  lemma {:induction false} LeastExists<T(!new)>(less: (T, T) -> bool, s: set<T>)
    requires StrictTotalOrder(less) && s != {}
    ensures exists m :: IsLeast(less, s, m)
    decreases |s|
  {
    var x :| x in s;
    if s == {x} {
      assert IsLeast(less, s, x);
    } else {
      LeastExists(less, s - {x});
      var m :| IsLeast(less, s - {x}, m);
      if less(x, m) {
        forall y | y in s && y != x ensures less(x, y) {
          assert y in s - {x} && (y == m || less(m, y));
        }
        assert IsLeast(less, s, x);
      } else {
        assert less(m, x);
        assert IsLeast(less, s, m);
      }
    }
  }

  /** The elements of s in increasing order: what collecting map keys and sorting them yields. */
  ghost function SortSet<T(!new)>(less: (T, T) -> bool, s: set<T>): seq<T>
    requires StrictTotalOrder(less)
    decreases |s|
  {
    if s == {} then []
    else
      LeastExists(less, s);
      var m :| IsLeast(less, s, m);
      [m] + SortSet(less, s - {m})
  }

  lemma {:induction false} SortSetSorts<T(!new)>(less: (T, T) -> bool, s: set<T>)
    requires StrictTotalOrder(less)
    ensures Sorted(less, SortSet(less, s))
    ensures forall x :: x in SortSet(less, s) <==> x in s
    ensures |SortSet(less, s)| == |s|
    decreases |s|
  {
    if s != {} {
      LeastExists(less, s);
      var m := SortSet(less, s)[0];
      assert IsLeast(less, s, m);
      SortSetSorts(less, s - {m});
    }
  }

  method InsertSorted<T(==, !new)>(less: (T, T) -> bool, s: seq<T>, x: T) returns (r: seq<T>)
    requires StrictTotalOrder(less) && Sorted(less, s) && x !in s
    ensures Sorted(less, r) && forall y :: y in r <==> y in s || y == x
  {
    var i := 0;
    while i < |s| && less(s[i], x)
      invariant 0 <= i <= |s| && forall j :: 0 <= j < i ==> less(s[j], x)
    {
      i := i + 1;
    }
    assert s == s[..i] + s[i..];
    assert forall j :: i <= j < |s| ==> less(x, s[j]);
    r := s[..i] + [x] + s[i..];
  }

  /** Collect a set and sort it. */
  method SortKeys<T(==, !new)>(less: (T, T) -> bool, s: set<T>) returns (r: seq<T>)
    requires StrictTotalOrder(less)
    ensures r == SortSet(less, s)
  {
    r := [];
    var rest := s;
    while rest != {}
      invariant rest <= s && Sorted(less, r) && forall x :: x in r <==> x in s && x !in rest
    {
      var x :| x in rest;
      rest := rest - {x};
      r := InsertSorted(less, r, x);
    }
    SortSetSorts(less, s);
    SortedUnique(less, r, SortSet(less, s));
  }
}
