/** The v1 frame around a payload; the checksum is any function of the covered bytes. */
module Frames {
  import opened Tags
  import opened Wires
  import opened RgaWires

  type Uint32 = x: int | 0 <= x < 0x1_0000_0000

  datatype Frame = Frame(typeID: Uint64, codecID: Bytes, payload: Bytes)

  const MAGIC: Bytes := [67, 82, 68, 84]
  const FORMAT_VERSION := 1

  /** Everything the checksum covers. */
  function Body(f: Frame): Bytes {
    Uvarint(FORMAT_VERSION) + Uvarint(f.typeID) + PrefixedBytes(f.codecID) + PrefixedBytes(f.payload)
  }

  function FrameBytes(f: Frame, crc: Bytes -> Uint32): Bytes {
    MAGIC + Body(f) + BigEndian(crc(Body(f)), 4)
  }

  /** Frames within the limits, measured before anything is written. */
  predicate Framable(f: Frame, limits: Limits) {
    && limits.Valid() && f.typeID != 0 && |f.codecID| <= limits.maxCodecID && |f.payload| <= limits.maxPayload
    && 4 + UvarintSize(FORMAT_VERSION) + UvarintSize(f.typeID) + UvarintSize(|f.codecID|) + |f.codecID| +
      UvarintSize(|f.payload|) + 4
         <= limits.maxFrameBytes - |f.payload|
  }

  function MarshalFrame(f: Frame, limits: Limits, crc: Bytes -> Uint32): Option<Bytes> {
    if Framable(f, limits) then Some(FrameBytes(f, crc)) else None
  }

  /** The fields of a frame body. */
  function ReadBody(body: Bytes, limits: Limits): Option<Frame> {
    match ReadUvarint(body, 0)
    case None => None
    case Some((version, a)) =>
      if version != FORMAT_VERSION then None
      else
        match ReadUvarint(body, a)
        case None => None
        case Some((typeID, b)) =>
          if typeID == 0 then None
          else
            ReadUvarintIff(body, a, typeID, b);
            match ReadBytes(body, b, limits.maxCodecID)
            case None => None
            case Some((codecID, c)) =>
              match ReadBytes(body, c, limits.maxPayload)
              case None => None
              case Some((payload, next)) => if next != |body| then None else Some(Frame(typeID, codecID, payload))
  }

  function UnmarshalFrame(data: Bytes, limits: Limits, crc: Bytes -> Uint32): Option<Frame> {
    if !limits.Valid() || |data| > limits.maxFrameBytes || |data| < 9 || data[..4] != MAGIC then None
    else
      var body := data[4..|data| - 4];
      if crc(body) != FromBigEndian(data[|data| - 4..]) then None else ReadBody(body, limits)
  }

  /** The reader accepts exactly the encodings of frames within its bounds. */
  lemma {:induction false} ReadBodyIff(body: Bytes, limits: Limits, f: Frame)
    requires |body| <= MAX_UINT64
    ensures ReadBody(body, limits) == Some(f) <==>
      f.typeID != 0 && |f.codecID| <= limits.maxCodecID && |f.payload| <= limits.maxPayload && body == Body(f)
  {
    hide Uvarint, ReadUvarint, ReadBytes, PrefixedBytes;
    var a := |Uvarint(FORMAT_VERSION)|;
    var b := a + |Uvarint(f.typeID)|;
    var c := b + |PrefixedBytes(f.codecID)|;
    var d := c + |PrefixedBytes(f.payload)|;
    StandsConcat(body, 0, Uvarint(FORMAT_VERSION) + Uvarint(f.typeID) + PrefixedBytes(f.codecID),
      PrefixedBytes(f.payload));
    StandsConcat(body, 0, Uvarint(FORMAT_VERSION) + Uvarint(f.typeID), PrefixedBytes(f.codecID));
    StandsConcat(body, 0, Uvarint(FORMAT_VERSION), Uvarint(f.typeID));
    assert body[0..|body|] == body;
    ReadUvarintIff(body, 0, FORMAT_VERSION, a);
    ReadUvarintIff(body, a, f.typeID, b);
    ReadBytesIff(body, b, limits.maxCodecID, f.codecID, c);
    ReadBytesIff(body, c, limits.maxPayload, f.payload, d);
    if ReadBody(body, limits) == Some(f) {
      ReadBodyDown(body, limits, f);
    }
  }

  lemma {:induction false} ReadBodyDown(body: Bytes, limits: Limits, f: Frame)
    requires |body| <= MAX_UINT64 && ReadBody(body, limits) == Some(f)
    ensures f.typeID != 0 && |f.codecID| <= limits.maxCodecID && |f.payload| <= limits.maxPayload
    ensures Stands(body, 0, Body(f)) && |Body(f)| == |body|
  {
    hide Uvarint, ReadUvarint, ReadBytes, PrefixedBytes;
    var (version, a) := ReadUvarint(body, 0).value;
    ReadUvarintIff(body, 0, version, a);
    var (typeID, b) := ReadUvarint(body, a).value;
    ReadUvarintIff(body, a, typeID, b);
    var (codecID, c) := ReadBytes(body, b, limits.maxCodecID).value;
    ReadBytesIff(body, b, limits.maxCodecID, codecID, c);
    var (payload, d) := ReadBytes(body, c, limits.maxPayload).value;
    ReadBytesIff(body, c, limits.maxPayload, payload, d);
    StandsConcat(body, 0, Uvarint(FORMAT_VERSION) + Uvarint(f.typeID) + PrefixedBytes(f.codecID),
      PrefixedBytes(f.payload));
    StandsConcat(body, 0, Uvarint(FORMAT_VERSION) + Uvarint(f.typeID), PrefixedBytes(f.codecID));
    StandsConcat(body, 0, Uvarint(FORMAT_VERSION), Uvarint(f.typeID));
  }

  /**
    A frame and its bytes determine each other, for any checksum: what one side writes within its
    limits the other side reads back, and what is read can only have been written that way.
   */
  lemma {:induction false} FrameRoundTrip(data: Bytes, f: Frame, limits: Limits, crc: Bytes -> Uint32)
    requires |data| <= MAX_UINT64
    ensures UnmarshalFrame(data, limits, crc) == Some(f) <==> MarshalFrame(f, limits, crc) == Some(data)
  {
    hide Uvarint, ReadBody, BigEndian, FromBigEndian, PrefixedBytes;
    BodySize(f);
    assert Pow256(4) == 0x1_0000_0000 by {
      assert Pow256(1) == 256 && Pow256(2) == 256 * 256 && Pow256(3) == 256 * Pow256(2);
    }
    if UnmarshalFrame(data, limits, crc) == Some(f) {
      var body, tail := data[4..|data| - 4], data[|data| - 4..];
      ReadBodyIff(body, limits, f);
      FromBigEndianInverse(tail);
      assert data == data[..4] + body + tail;
    }
    if MarshalFrame(f, limits, crc) == Some(data) {
      var tail := BigEndian(crc(Body(f)), 4);
      BigEndianInverse(crc(Body(f)), 4);
      assert data[..4] == MAGIC && data[4..|data| - 4] == Body(f) && data[|data| - 4..] == tail;
      ReadBodyIff(Body(f), limits, f);
    }
  }

  lemma {:induction false} BodySize(f: Frame)
    ensures |Body(f)|
         == UvarintSize(FORMAT_VERSION) + UvarintSize(f.typeID) + UvarintSize(|f.codecID|) + |f.codecID| +
           UvarintSize(|f.payload|) + |f.payload|
    ensures |Body(f)| >= 4
  {
  }
}
