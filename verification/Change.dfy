/** Durable changes: their canonical envelope, and the index keys of the log. */
module Changes {
  import opened Tags
  import opened Wires
  import opened Merkles

  /** The identity of a change: its author and the author's counter. */
  datatype Dot = Dot(actor: Bytes, counter: Uint64)

  datatype Change = Change(dot: Dot, delta: Bytes)

  const CHANGE_MESSAGE: Byte := 1
  const MAX_STRING_BYTES := 0x10_0000

  predicate Continuation(b: Byte) {
    0x80 <= b <= 0xBF
  }

  /** The length of the well-formed UTF-8 character at the front of s, or 0. */
  function LeadingRune(s: Bytes): (n: nat)
    ensures n <= |s|
  {
    if s == [] then 0
    else if s[0] <= 0x7F then 1
    else if |s| >= 2 && 0xC2 <= s[0] <= 0xDF && Continuation(s[1]) then 2
    else if |s| >= 3 && 0xE0 <= s[0] <= 0xEF && Continuation(s[1]) && Continuation(s[2])
            && (s[0] == 0xE0 ==> s[1] >= 0xA0) && (s[0] == 0xED ==> s[1] <= 0x9F) then 3
    else if |s| >= 4 && 0xF0 <= s[0] <= 0xF4 && Continuation(s[1]) && Continuation(s[2]) && Continuation(s[3])
            && (s[0] == 0xF0 ==> s[1] >= 0x90) && (s[0] == 0xF4 ==> s[1] <= 0x8F) then 4
    else 0
  }

  predicate ValidUtf8(s: Bytes) {
    s == [] || (LeadingRune(s) > 0 && ValidUtf8(s[LeadingRune(s)..]))
  }

  // ----- the envelope -----

  /** A change that has an envelope at all. */
  predicate Encodable(c: Change) {
    ValidUtf8(c.dot.actor) && !Blank(c.dot.actor) && c.dot.counter != 0 && c.delta != []
  }

  function Fields(c: Change): Bytes {
    PrefixedBytes(c.dot.actor) + Uvarint(c.dot.counter) + PrefixedBytes(c.delta)
  }

  function Envelope(c: Change): Bytes {
    [CHANGE_MESSAGE] + Fields(c)
  }

  function MarshalChange(c: Change): Option<Bytes> {
    if Encodable(c) then Some(Envelope(c)) else None
  }

  function UnmarshalFields(data: Bytes, position: int, maxMessage: int, maxActor: int): Option<Change> {
    match ReadBytes(data, position, maxActor)
    case None => None
    case Some((actor, a)) =>
      match ReadUvarint(data, a)
      case None => None
      case Some((counter, b)) =>
        match ReadBytes(data, b, maxMessage)
        case None => None
        case Some((delta, next)) =>
          ReadUvarintIff(data, a, counter, b);
          var c := Change(Dot(actor, counter), delta);
          if counter == 0 || next != |data| || !Encodable(c) then None else Some(c)
  }

  function UnmarshalChange(data: Bytes, maxMessage: int, maxActor: int): Option<Change> {
    if data == [] || |data| > maxMessage || maxActor <= 0 || data[0] != CHANGE_MESSAGE then None
    else UnmarshalFields(data, 1, maxMessage, maxActor)
  }

  lemma {:induction false} FieldsStand(data: Bytes, position: int, c: Change)
    ensures Stands(data, position, Fields(c)) <==>
      var a := position + |PrefixedBytes(c.dot.actor)|;
      var b := a + |Uvarint(c.dot.counter)|;
      Stands(data, position, PrefixedBytes(c.dot.actor)) && Stands(data, a, Uvarint(c.dot.counter))
        && Stands(data, b, PrefixedBytes(c.delta))
  {
    hide Uvarint, PrefixedBytes, Stands;
    StandsConcat(data, position, PrefixedBytes(c.dot.actor) + Uvarint(c.dot.counter), PrefixedBytes(c.delta));
    StandsConcat(data, position, PrefixedBytes(c.dot.actor), Uvarint(c.dot.counter));
  }

  lemma {:induction false} UnmarshalFieldsIff(data: Bytes, position: int, maxMessage: int, maxActor: int, c: Change)
    requires |data| <= MAX_UINT64 || (maxMessage <= MAX_UINT64 && maxActor <= MAX_UINT64)
    ensures UnmarshalFields(data, position, maxMessage, maxActor) == Some(c) <==>
      && Encodable(c) && |c.dot.actor| <= maxActor && |c.delta| <= maxMessage
      && Stands(data, position, Fields(c)) && position + |Fields(c)| == |data|
  {
    hide Uvarint, PrefixedBytes, Stands, ReadBytes, ReadUvarint, Blank, ValidUtf8;
    var a := position + |PrefixedBytes(c.dot.actor)|;
    var b := a + |Uvarint(c.dot.counter)|;
    var next := b + |PrefixedBytes(c.delta)|;
    FieldsStand(data, position, c);
    ReadBytesIff(data, position, maxActor, c.dot.actor, a);
    ReadUvarintIff(data, a, c.dot.counter, b);
    ReadBytesIff(data, b, maxMessage, c.delta, next);
    if UnmarshalFields(data, position, maxMessage, maxActor) == Some(c) {
      var (actor, x) := ReadBytes(data, position, maxActor).value;
      ReadBytesIff(data, position, maxActor, actor, x);
      var (counter, y) := ReadUvarint(data, x).value;
      ReadUvarintIff(data, x, counter, y);
      var (delta, z) := ReadBytes(data, y, maxMessage).value;
      ReadBytesIff(data, y, maxMessage, delta, z);
    }
  }

  /** Decoding succeeds exactly on the envelope of a change within the bounds, and returns that change. */
  lemma {:induction false} UnmarshalIff(data: Bytes, maxMessage: int, maxActor: int, c: Change)
    requires |data| <= MAX_UINT64
    ensures UnmarshalChange(data, maxMessage, maxActor) == Some(c) <==>
      && MarshalChange(c) == Some(data) && |data| <= maxMessage && 0 < maxActor && |c.dot.actor| <= maxActor
  {
    hide UnmarshalFields, Fields, Encodable;
    UnmarshalFieldsIff(data, 1, maxMessage, maxActor, c);
    if data != [] && data[0] == CHANGE_MESSAGE {
      assert data == [CHANGE_MESSAGE] + data[1..];
    }
    if data == Envelope(c) {
      assert data[1..1 + |Fields(c)|] == Fields(c);
      DeltaFits(c);
    }
  }

  lemma {:induction false} DeltaFits(c: Change)
    ensures |c.delta| < |Envelope(c)|
  {
  }

  /** Two encodable changes with one envelope are one change. */
  lemma {:induction false} EnvelopeInjective(c: Change, d: Change)
    requires Envelope(c) == Envelope(d)
    ensures c == d
  {
    hide Uvarint, PrefixedBytes;
    var x, y := PrefixedBytes(c.delta), PrefixedBytes(d.delta);
    assert Envelope(c)[1..] == PrefixedBytes(c.dot.actor) + (Uvarint(c.dot.counter) + x);
    assert Envelope(d)[1..] == PrefixedBytes(d.dot.actor) + (Uvarint(d.dot.counter) + y);
    PrefixedInjective(c.dot.actor, d.dot.actor, Uvarint(c.dot.counter) + x, Uvarint(d.dot.counter) + y);
    UvarintPrefixFree(c.dot.counter, d.dot.counter, x, y);
    assert x + [] == y + [];
    PrefixedInjective(c.delta, d.delta, [], []);
  }

  // ----- events on the wire -----

  const EVENT_MESSAGE: Byte := 2

  /** A change with its place in the log, as a subscriber receives it. */
  function EventBytes(sequence: nat, c: Change): Bytes {
    [EVENT_MESSAGE] + Uvarint(sequence) + Fields(c)
  }

  function MarshalEvent(sequence: nat, c: Change): Option<Bytes> {
    if sequence != 0 && Encodable(c) then Some(EventBytes(sequence, c)) else None
  }

  function UnmarshalEvent(data: Bytes, maxMessage: int, maxActor: int): Option<(nat, Change)> {
    if data == [] || |data| > maxMessage || maxActor <= 0 || data[0] != EVENT_MESSAGE then None
    else
      match ReadUvarint(data, 1)
      case None => None
      case Some((sequence, position)) =>
        match UnmarshalFields(data, position, maxMessage, maxActor)
        case None => None
        case Some(c) => if sequence == 0 then None else Some((sequence, c))
  }

  /** A subscriber decodes exactly what the relay encoded, within its own bounds. */
  lemma {:induction false} UnmarshalOwnEvent(sequence: Uint64, c: Change, maxMessage: int, maxActor: int)
    requires sequence > 0 && Encodable(c) && maxMessage <= MAX_UINT64 && maxActor <= MAX_UINT64
    ensures UnmarshalEvent(EventBytes(sequence, c), maxMessage, maxActor) ==
      if |EventBytes(sequence, c)| <= maxMessage && 0 < maxActor && |c.dot.actor| <= maxActor
        then Some((sequence as nat, c)) else None
  {
    hide Uvarint, Fields, ReadUvarint, UnmarshalFields, Encodable, Stands;
    var data := EventBytes(sequence, c);
    var next := 1 + |Uvarint(sequence)|;
    EventStands(sequence, c);
    ReadUvarintIff(data, 1, sequence, next);
    UnmarshalFieldsIff(data, next, maxMessage, maxActor, c);
    FieldsBound(c);
    var r := UnmarshalFields(data, next, maxMessage, maxActor);
    if r.Some? {
      UnmarshalFieldsIff(data, next, maxMessage, maxActor, r.value);
      FieldsUnique(data, next, r.value, c);
    }
  }

  lemma {:induction false} EventStands(sequence: nat, c: Change)
    ensures var data, next := EventBytes(sequence, c), 1 + |Uvarint(sequence)|;
      Stands(data, 1, Uvarint(sequence)) && Stands(data, next, Fields(c)) && next + |Fields(c)| == |data|
  {
    hide Uvarint, Fields;
  }

  lemma {:induction false} FieldsBound(c: Change)
    ensures |c.delta| < |Fields(c)|
  {
  }

  lemma {:induction false} FieldsUnique(data: Bytes, position: int, c: Change, d: Change)
    requires Stands(data, position, Fields(c)) && Stands(data, position, Fields(d))
    requires position + |Fields(c)| == |data| == position + |Fields(d)|
    ensures c == d
  {
    hide Fields;
    assert Envelope(c) == Envelope(d);
    EnvelopeInjective(c, d);
  }

  // ----- keys -----

  function SequenceKey(n: Uint64): (r: Bytes)
    ensures |r| == 8
  {
    BigEndian(n, 8)
  }

  lemma {:induction false} Pow256Eight()
    ensures Pow256(8) == MAX_UINT64 + 1
  {
    assert Pow256(2) == 0x1_0000;
    assert Pow256(4) == 0x1_0000_0000;
    assert Pow256(6) == 0x1_0000_0000_0000;
  }

  lemma {:induction false} SequenceKeyInverse(n: Uint64)
    ensures FromBigEndian(SequenceKey(n)) == n
  {
    Pow256Eight();
    BigEndianInverse(n, 8);
  }

  lemma {:induction false} SequenceKeyOrder(m: Uint64, n: Uint64)
    ensures ByKey(SequenceKey(m), SequenceKey(n)) <==> m < n
    ensures SequenceKey(m) == SequenceKey(n) <==> m == n
  {
    Pow256Eight();
    BigEndianOrder(m, n, 8);
    SequenceKeyInverse(m);
    SequenceKeyInverse(n);
  }

  function DotPrefix(actor: Bytes): Bytes {
    PrefixedBytes(actor)
  }

  function DotKey(dot: Dot): Bytes {
    DotPrefix(dot.actor) + SequenceKey(dot.counter)
  }

  lemma {:induction false} DotKeyInjective(a: Dot, b: Dot)
    requires DotKey(a) == DotKey(b)
    ensures a == b
  {
    hide PrefixedBytes, SequenceKey;
    PrefixedInjective(a.actor, b.actor, SequenceKey(a.counter), SequenceKey(b.counter));
    SequenceKeyOrder(a.counter, b.counter);
  }

  /** A dot's key starts with an actor's prefix exactly when the dot is that actor's. */
  lemma {:induction false} DotKeyPrefix(actor: Bytes, dot: Dot)
    ensures DotPrefix(actor) <= DotKey(dot) <==> dot.actor == actor
  {
    hide PrefixedBytes, SequenceKey;
    var p, k := DotPrefix(actor), DotKey(dot);
    if p <= k {
      assert p + k[|p|..] == k;
      PrefixedInjective(actor, dot.actor, k[|p|..], SequenceKey(dot.counter));
    }
  }

  lemma {:induction false} CompareAfterPrefix(p: Bytes, a: Bytes, b: Bytes)
    ensures CompareBytes(p + a, p + b) == CompareBytes(a, b)
  {
    if p == [] {
      assert p + a == a && p + b == b;
    } else {
      assert (p + a)[1..] == p[1..] + a && (p + b)[1..] == p[1..] + b;
      CompareAfterPrefix(p[1..], a, b);
    }
  }

  /** One actor's keys are in counter order. */
  lemma {:induction false} DotKeyOrder(actor: Bytes, m: Uint64, n: Uint64)
    ensures ByKey(DotKey(Dot(actor, m)), DotKey(Dot(actor, n))) <==> m < n
  {
    hide SequenceKey, CompareBytes, PrefixedBytes;
    CompareAfterPrefix(DotPrefix(actor), SequenceKey(m), SequenceKey(n));
    SequenceKeyOrder(m, n);
  }

  /** Keys with a common prefix are next to each other: whatever lies between two of them has it too. */
  lemma {:induction false} PrefixContiguous(p: Bytes, low: Bytes, k: Bytes, high: Bytes)
    requires p <= low && p <= high && !ByKey(k, low) && !ByKey(high, k)
    ensures p <= k
  {
    if p != [] {
      assert low != [] && high != [] && low[0] == p[0] == high[0];
      if k != [] && k[0] == p[0] {
        PrefixContiguous(p[1..], low[1..], k[1..], high[1..]);
        assert p == [p[0]] + p[1..] && k == [k[0]] + k[1..];
      }
    }
  }

  /** The dot a key stands for. */
  function DotFromKey(key: Bytes): Option<Dot> {
    match ReadBytes(key, 0, MAX_STRING_BYTES)
    case None => None
    case Some((actor, position)) =>
      ReadBytesWithin(key, 0, MAX_STRING_BYTES);
      if |key| - position != 8 then None
      else
        EightBytes(key[position..]);
        var dot := Dot(actor, FromBigEndian(key[position..]));
        if Blank(actor) || dot.counter == 0 then None else Some(dot)
  }

  lemma {:induction false} EightBytes(s: Bytes)
    requires |s| == 8
    ensures FromBigEndian(s) <= MAX_UINT64
  {
    Pow256Eight();
    FromBigEndianInverse(s);
  }

  lemma {:induction false} ReadBytesWithin(data: Bytes, position: int, max: int)
    ensures var r := ReadBytes(data, position, max); r.Some? ==> 0 <= position <= r.value.1 <= |data|
  {
    var r := ReadUvarint(data, position);
    if r.Some? {
      ReadWithin(data, position, r.value.0, r.value.1);
    }
  }

  /** Reading a key back gives its dot, exactly when the actor's name is within the bound. */
  lemma {:induction false} DotFromOwnKey(dot: Dot)
    requires !Blank(dot.actor) && dot.counter != 0
    ensures DotFromKey(DotKey(dot)) == (if |dot.actor| <= MAX_STRING_BYTES then Some(dot) else None)
  {
    hide Uvarint, PrefixedBytes, ReadBytes, Blank, SequenceKey;
    var key, p := DotKey(dot), DotPrefix(dot.actor);
    assert key[0..|p|] == p && key[|p|..] == SequenceKey(dot.counter);
    ReadBytesIff(key, 0, MAX_STRING_BYTES, dot.actor, |p|);
    SequenceKeyInverse(dot.counter);
    if |dot.actor| > MAX_STRING_BYTES && ReadBytes(key, 0, MAX_STRING_BYTES).Some? {
      var (s, next) := ReadBytes(key, 0, MAX_STRING_BYTES).value;
      ReadBytesIff(key, 0, MAX_STRING_BYTES, s, next);
      assert PrefixedBytes(s) + key[next..] == key;
      PrefixedInjective(s, dot.actor, key[next..], SequenceKey(dot.counter));
    }
  }
}
