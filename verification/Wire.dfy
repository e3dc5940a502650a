/** Canonical byte encodings: shortest-form varints, length-prefixed bytes and tags. */
module Wires {
  import opened Tags

  /** The shortest unsigned LEB128 encoding. */
  function Uvarint(v: nat): (r: Bytes)
    ensures r != []
  {
    if v < 128 then [v] else [v % 128 + 128] + Uvarint(v / 128)
  }

  function UvarintSize(v: nat): (n: nat)
    ensures n == |Uvarint(v)|
  {
    if v < 128 then 1 else 1 + UvarintSize(v / 128)
  }

  /**
    One varint from the front of buf, as the standard library reads it: i bytes came before, ten
    bytes are the most a 64-bit value can take, and the tenth may only hold one bit.
   */
  function DecodeUvarint(buf: Bytes, i: nat): Option<(nat, nat)>
    decreases |buf|
  {
    if buf == [] || i >= 10 then None
    else if buf[0] < 128 then
      if i == 9 && buf[0] > 1 then None else Some((buf[0], 1))
    else
      match DecodeUvarint(buf[1..], i + 1)
      case None => None
      case Some((v, n)) => Some((buf[0] - 128 + 128 * v, n + 1))
  }

  /** A varint at position, refused unless it is complete, fits 64 bits and is in shortest form. */
  function ReadUvarint(data: Bytes, position: int): Option<(nat, int)> {
    if position < 0 || position >= |data| then None
    else
      match DecodeUvarint(data[position..], 0)
      case None => None
      case Some((v, n)) => if UvarintSize(v) != n then None else Some((v, position + n))
  }

  /** enc stands in data at position. */
  predicate Stands(data: Bytes, position: int, enc: Bytes) {
    0 <= position && position + |enc| <= |data| && data[position..position + |enc|] == enc
  }

  ghost function Pow128(n: nat): nat {
    if n == 0 then 1 else 128 * Pow128(n - 1)
  }

  /** A value fits when nothing is left of it after the bytes that may still follow. */
  ghost predicate FitsFrom(v: nat, i: nat) {
    i < 10 && v < 2 * Pow128(9 - i)
  }

  lemma {:induction false} FitsStep(v: nat, i: nat)
    requires v >= 128
    ensures FitsFrom(v, i) <==> i < 9 && FitsFrom(v / 128, i + 1)
  {
    if i < 9 {
      assert Pow128(9 - i) == 128 * Pow128(8 - i);
    }
  }

  lemma {:induction false} Uint64Fits(v: nat)
    ensures FitsFrom(v, 0) <==> v <= MAX_UINT64
  {
    assert Pow128(9) == 0x8000_0000_0000_0000 by {
      assert Pow128(1) == 128 && Pow128(2) == 128 * 128 && Pow128(3) == 128 * Pow128(2) && Pow128(4) == 128 * Pow128(3);
      assert Pow128(5) == 128 * Pow128(4) && Pow128(6) == 128 * Pow128(5) && Pow128(7) == 128 * Pow128(6);
      assert Pow128(8) == 128 * Pow128(7);
    }
  }

  /** One byte with the continuation bit in front of an encoding. */
  lemma {:induction false} DecodeStep(v: nat, s: Bytes, i: nat)
    requires v >= 128 && i < 9 && DecodeUvarint(s, i + 1).Some? && DecodeUvarint(s, i + 1).value.0 == v / 128
    ensures DecodeUvarint([v % 128 + 128] + s, i) == Some((v, DecodeUvarint(s, i + 1).value.1 + 1))
  {
    var buf := [v % 128 + 128] + s;
    assert buf[1..] == s && buf[0] == v % 128 + 128;
  }

  /** Decoding an encoding gives the value back, whatever follows it. */
  lemma {:induction false} DecodeOwn(v: nat, i: nat, rest: Bytes)
    requires FitsFrom(v, i)
    ensures DecodeUvarint(Uvarint(v) + rest, i) == Some((v, |Uvarint(v)|))
    decreases v
  {
    if v < 128 {
      assert (Uvarint(v) + rest)[0] == v;
      if i == 9 {
        assert Pow128(0) == 1;
      }
    } else {
      hide FitsFrom, DecodeUvarint;
      FitsStep(v, i);
      DecodeOwn(v / 128, i + 1, rest);
      assert Uvarint(v) + rest == [v % 128 + 128] + (Uvarint(v / 128) + rest);
      DecodeStep(v, Uvarint(v / 128) + rest, i);
    }
  }

  /** What decodes in as many bytes as the shortest form is the shortest form. */
  lemma {:induction false} DecodeShortest(buf: Bytes, i: nat)
    requires DecodeUvarint(buf, i).Some?
    ensures var (v, n) := DecodeUvarint(buf, i).value;
      0 < n <= |buf| && |Uvarint(v)| <= n && FitsFrom(v, i) && (|Uvarint(v)| == n ==> buf[..n] == Uvarint(v))
    decreases |buf|
  {
    var (v, n) := DecodeUvarint(buf, i).value;
    if buf[0] < 128 {
      assert Uvarint(v) == [v] == buf[..1];
      Pow128Positive(9 - i);
    } else {
      DecodeShortest(buf[1..], i + 1);
      var (w, m) := DecodeUvarint(buf[1..], i + 1).value;
      assert v % 128 == buf[0] - 128 && v / 128 == w;
      if v < 128 {
        assert w == 0 && Uvarint(v) == [v];
        Pow128Positive(9 - i);
      } else {
        FitsStep(v, i);
        assert buf[..n] == [buf[0]] + buf[1..][..m];
      }
    }
  }

  lemma {:induction false} Pow128Positive(n: nat)
    ensures Pow128(n) >= 1 && (n > 0 ==> Pow128(n) >= 128)
  {
    if n > 0 {
      Pow128Positive(n - 1);
    }
  }

  /** Reading succeeds exactly on the shortest form of a 64-bit value, and only consumes that. */
  lemma {:induction false} ReadUvarintIff(data: Bytes, position: int, v: nat, next: int)
    ensures ReadUvarint(data, position) == Some((v, next)) <==>
      v <= MAX_UINT64 && Stands(data, position, Uvarint(v)) && next == position + |Uvarint(v)|
  {
    if ReadUvarint(data, position) == Some((v, next)) {
      DecodeShortest(data[position..], 0);
      Uint64Fits(v);
      assert data[position..][..next - position] == data[position..next];
    }
    if v <= MAX_UINT64 && Stands(data, position, Uvarint(v)) && next == position + |Uvarint(v)| {
      Uint64Fits(v);
      DecodeOwn(v, 0, data[next..]);
      assert data[position..] == Uvarint(v) + data[next..];
    }
  }

  /** Seven bits a byte, least significant first. */
  function Base128(s: Bytes): nat {
    if s == [] then 0 else s[0] % 128 + 128 * Base128(s[1..])
  }

  /** The high bit is set on all bytes but the last, and the last is not a superfluous zero. */
  predicate Terminated(s: Bytes) {
    && s != [] && s[|s| - 1] < 128 && (|s| > 1 ==> s[|s| - 1] > 0)
    && forall k :: 0 <= k < |s| - 1 ==> s[k] >= 128
  }

  lemma {:induction false} Base128Positive(s: Bytes)
    requires Terminated(s) && |s| > 1
    ensures Base128(s) >= 128
    decreases |s|
  {
    if |s| == 2 {
      assert Base128(s[1..]) == s[1] % 128 + 128 * Base128(s[1..][1..]);
    } else {
      Base128Positive(s[1..]);
    }
  }

  /** A varint is the one shortest base-128 numeral of its value. */
  lemma {:induction false} UvarintIsNumeral(v: nat, s: Bytes)
    ensures s == Uvarint(v) <==> Terminated(s) && Base128(s) == v
    decreases |s| + v
  {
    if |s| <= 1 {
      assert s != [] ==> s[1..] == [];
      if Terminated(s) && Base128(s) == v {
        assert s == [v];
      }
    } else {
      if v < 128 {
        if Terminated(s) {
          Base128Positive(s);
        }
      } else {
        UvarintIsNumeral(v / 128, s[1..]);
        NumeralStep(v, s);
      }
    }
  }

  lemma {:induction false} TerminatedTail(s: Bytes)
    requires |s| > 1
    ensures Terminated(s) <==> s[0] >= 128 && Terminated(s[1..]) && s[1..] != [0]
  {
    var rest := s[1..];
    assert rest[|rest| - 1] == s[|s| - 1];
    assert forall k :: 0 <= k < |rest| - 1 ==> rest[k] == s[k + 1];
    if s[0] >= 128 && Terminated(rest) && rest != [0] {
      forall k | 0 <= k < |s| - 1 ensures s[k] >= 128 {
        assert k > 0 ==> s[k] == rest[k - 1];
      }
    }
  }

  lemma {:induction false} FirstDigit(b: Byte, rest: nat, v: nat)
    requires b >= 128
    ensures b % 128 + 128 * rest == v <==> b == v % 128 + 128 && rest == v / 128
  {
  }

  lemma {:induction false} NumeralStep(v: nat, s: Bytes)
    requires |s| > 1 && v >= 128
    requires s[1..] == Uvarint(v / 128) <==> Terminated(s[1..]) && Base128(s[1..]) == v / 128
    ensures s == Uvarint(v) <==> Terminated(s) && Base128(s) == v
  {
    hide Terminated;
    var rest := s[1..];
    TerminatedTail(s);
    assert s == [s[0]] + rest;
    assert s == Uvarint(v) <==> s[0] == v % 128 + 128 && rest == Uvarint(v / 128);
    if rest == [0] {
      assert Base128(rest) == 0;
    }
    if s[0] >= 128 {
      FirstDigit(s[0], Base128(rest), v);
    }
  }

  /** Two varints standing at the same place are the same. */
  lemma {:induction false} UvarintUnique(data: Bytes, position: int, v: nat, w: nat)
    requires v <= MAX_UINT64 && w <= MAX_UINT64 && Stands(data, position, Uvarint(v))
    requires Stands(data, position, Uvarint(w))
    ensures v == w
  {
    ReadUvarintIff(data, position, v, position + |Uvarint(v)|);
    ReadUvarintIff(data, position, w, position + |Uvarint(w)|);
  }

  /** No varint is a prefix of another. */
  lemma {:induction false} UvarintPrefixFree(v: nat, w: nat, a: Bytes, b: Bytes)
    requires Uvarint(v) + a == Uvarint(w) + b
    ensures v == w && a == b
    decreases v
  {
    var s, t := Uvarint(v) + a, Uvarint(w) + b;
    assert s[0] == Uvarint(v)[0] && t[0] == Uvarint(w)[0];
    if v < 128 || w < 128 {
      assert s[1..] == a && t[1..] == b;
    } else {
      assert s[1..] == Uvarint(v / 128) + a && t[1..] == Uvarint(w / 128) + b;
      UvarintPrefixFree(v / 128, w / 128, a, b);
    }
  }

  // ----- length-prefixed bytes -----

  lemma {:induction false} PrefixedInjective(s: Bytes, t: Bytes, a: Bytes, b: Bytes)
    requires PrefixedBytes(s) + a == PrefixedBytes(t) + b
    ensures s == t && a == b
  {
    hide Uvarint;
    assert PrefixedBytes(s) + a == Uvarint(|s|) + (s + a);
    assert PrefixedBytes(t) + b == Uvarint(|t|) + (t + b);
    UvarintPrefixFree(|s|, |t|, s + a, t + b);
    assert (s + a)[..|s|] == s && (t + b)[..|s|] == t;
    assert (s + a)[|s|..] == a && (t + b)[|s|..] == b;
  }

  function PrefixedBytes(s: Bytes): (r: Bytes) {
    Uvarint(|s|) + s
  }

  function ReadBytes(data: Bytes, position: int, max: int): Option<(Bytes, int)> {
    if max < 0 then None
    else
      match ReadUvarint(data, position)
      case None => None
      case Some((n, next)) =>
        if n > max || n > |data| - next then None else
          ReadWithin(data, position, n, next);
          Some((data[next..next + n], next + n))
  }

  lemma {:induction false} ReadWithin(data: Bytes, position: int, v: nat, next: int)
    requires ReadUvarint(data, position) == Some((v, next))
    ensures 0 <= position < next <= |data|
  {
    ReadUvarintIff(data, position, v, next);
  }

  lemma {:induction false} StandsConcat(data: Bytes, position: int, a: Bytes, b: Bytes)
    ensures Stands(data, position, a + b) <==> Stands(data, position, a) && Stands(data, position + |a|, b)
  {
    if Stands(data, position, a + b) {
      assert data[position..position + |a|] == (a + b)[..|a|] == a;
      assert data[position + |a|..position + |a| + |b|] == (a + b)[|a|..] == b;
    }
    if Stands(data, position, a) && Stands(data, position + |a|, b) {
      assert data[position..position + |a + b|] == data[position..position + |a|] +
        data[position + |a|..position + |a| + |b|];
    }
  }

  /** Reading bytes inverts writing them, within the bound. */
  lemma {:induction false} ReadBytesIff(data: Bytes, position: int, max: int, s: Bytes, next: int)
    requires |data| <= MAX_UINT64 || max <= MAX_UINT64
    ensures ReadBytes(data, position, max) == Some((s, next)) <==>
      |s| <= max && Stands(data, position, PrefixedBytes(s)) && next == position + |PrefixedBytes(s)|
  {
    hide Uvarint, ReadUvarint;
    StandsConcat(data, position, Uvarint(|s|), s);
    var mid := position + |Uvarint(|s|)|;
    ReadUvarintIff(data, position, |s|, mid);
    if ReadBytes(data, position, max) == Some((s, next)) {
      var (n, m) := ReadUvarint(data, position).value;
      ReadWithin(data, position, n, m);
      assert n == |s|;
      ReadUvarintIff(data, position, n, m);
    }
  }

  // ----- tags -----

  function TagBytes(t: Tag): (r: Bytes) {
    PrefixedBytes(t.replica) + Uvarint(t.wall) + Uvarint(t.logical)
  }

  function TagSize(t: Tag): (n: nat)
    ensures n == |TagBytes(t)|
  {
    UvarintSize(|t.replica|) + |t.replica| + UvarintSize(t.wall) + UvarintSize(t.logical)
  }

  function ReadTag(data: Bytes, position: int, max: int): (r: Option<(Tag, int)>) {
    match ReadBytes(data, position, max)
    case None => None
    case Some((replica, a)) =>
      match ReadUvarint(data, a)
      case None => None
      case Some((wall, b)) =>
        match ReadUvarint(data, b)
        case None => None
        case Some((logical, next)) =>
          ReadUvarintIff(data, a, wall, b);
          ReadUvarintIff(data, b, logical, next);
          var t := Tag(replica, wall, logical);
          if t.Valid() then Some((t, next)) else None
  }

  /** Reading a tag inverts writing it, exactly for valid tags within the bound. */
  lemma {:induction false} ReadTagIff(data: Bytes, position: int, max: int, t: Tag, next: int)
    requires |data| <= MAX_UINT64
    ensures ReadTag(data, position, max) == Some((t, next)) <==>
      t.Valid() && |t.replica| <= max && Stands(data, position, TagBytes(t)) && next == position + |TagBytes(t)|
  {
    hide Uvarint, ReadUvarint, ReadBytes, Tag.Valid, PrefixedBytes;
    var a := position + |PrefixedBytes(t.replica)|;
    var b := a + |Uvarint(t.wall)|;
    StandsConcat(data, position, PrefixedBytes(t.replica) + Uvarint(t.wall), Uvarint(t.logical));
    StandsConcat(data, position, PrefixedBytes(t.replica), Uvarint(t.wall));
    ReadBytesIff(data, position, max, t.replica, a);
    ReadUvarintIff(data, a, t.wall, b);
    ReadUvarintIff(data, b, t.logical, next);
    if ReadTag(data, position, max) == Some((t, next)) {
      var (replica, x) := ReadBytes(data, position, max).value;
      ReadBytesIff(data, position, max, replica, x);
      var (wall, y) := ReadUvarint(data, x).value;
      ReadUvarintIff(data, x, wall, y);
    }
  }

  /** No tag's encoding is a prefix of another's. */
  lemma {:induction false} TagPrefixFree(s: Tag, t: Tag, a: Bytes, b: Bytes)
    requires TagBytes(s) + a == TagBytes(t) + b
    ensures s == t && a == b
  {
    hide Uvarint, PrefixedBytes;
    var x, y := Uvarint(s.logical) + a, Uvarint(t.logical) + b;
    assert TagBytes(s) + a == PrefixedBytes(s.replica) + (Uvarint(s.wall) + x);
    assert TagBytes(t) + b == PrefixedBytes(t.replica) + (Uvarint(t.wall) + y);
    PrefixedInjective(s.replica, t.replica, Uvarint(s.wall) + x, Uvarint(t.wall) + y);
    UvarintPrefixFree(s.wall, t.wall, x, y);
    UvarintPrefixFree(s.logical, t.logical, a, b);
  }

  lemma {:induction false} TagBytesInjective(s: Tag, t: Tag)
    requires TagBytes(s) == TagBytes(t)
    ensures s == t
  {
    hide TagBytes;
    assert TagBytes(s) + [] == TagBytes(t) + [];
    TagPrefixFree(s, t, [], []);
  }

  // ----- big-endian integers -----

  ghost function Pow256(k: nat): nat {
    if k == 0 then 1 else 256 * Pow256(k - 1)
  }

  function BigEndian(n: nat, k: nat): (r: Bytes)
    ensures |r| == k
  {
    if k == 0 then [] else BigEndian(n / 256, k - 1) + [n % 256]
  }

  function FromBigEndian(s: Bytes): nat {
    if s == [] then 0 else FromBigEndian(s[..|s| - 1]) * 256 + s[|s| - 1]
  }

  lemma {:induction false} BigEndianInverse(n: nat, k: nat)
    requires n < Pow256(k)
    ensures FromBigEndian(BigEndian(n, k)) == n
  {
    if k > 0 {
      BigEndianInverse(n / 256, k - 1);
      var s := BigEndian(n, k);
      assert s[..k - 1] == BigEndian(n / 256, k - 1) && s[k - 1] == n % 256;
    }
  }

  lemma {:induction false} FromBigEndianInverse(s: Bytes)
    ensures FromBigEndian(s) < Pow256(|s|) && BigEndian(FromBigEndian(s), |s|) == s
  {
    if s != [] {
      var front, last := s[..|s| - 1], s[|s| - 1];
      FromBigEndianInverse(front);
      assert FromBigEndian(s) / 256 == FromBigEndian(front) && FromBigEndian(s) % 256 == last;
      assert s == front + [last];
    }
  }

  /** Big-endian order is numeric order. */
  lemma {:induction false} BigEndianOrder(m: nat, n: nat, k: nat)
    requires m < Pow256(k) && n < Pow256(k)
    ensures CompareBytes(BigEndian(m, k), BigEndian(n, k)) < 0 <==> m < n
  {
    if k == 0 {
    } else {
      BigEndianOrder(m / 256, n / 256, k - 1);
      var a, b := BigEndian(m / 256, k - 1), BigEndian(n / 256, k - 1);
      CompareLast(a, b, m % 256, n % 256);
      BigEndianInverse(m / 256, k - 1);
      BigEndianInverse(n / 256, k - 1);
      CompareBytesAntisymmetric(a, b);
    }
  }

  lemma {:induction false} CompareLast(a: Bytes, b: Bytes, x: Byte, y: Byte)
    requires |a| == |b|
    ensures CompareBytes(a + [x], b + [y])
         == if a == b then (if x < y then -1 else if x > y then 1 else 0) else CompareBytes(a, b)
  {
    if a == [] {
      assert a + [x] == [x] && b + [y] == [y];
      assert [x][1..] == [] && [y][1..] == [];
    } else {
      assert (a + [x])[1..] == a[1..] + [x] && (b + [y])[1..] == b[1..] + [y];
      CompareLast(a[1..], b[1..], x, y);
      CompareBytesAntisymmetric(a, b);
      assert a == [a[0]] + a[1..] && b == [b[0]] + b[1..];
    }
  }
}
