/** The on-disk image of a needle: big-endian id, big-endian 32-bit payload size,
    payload, big-endian checksum.  The checksum algorithm is a parameter. */
module NeedleCodec {
  import opened Bytes

  const ID_SIZE := 8
  const CHECKSUM_SIZE := 8
  const HEADER_SIZE := ID_SIZE + 4
  const FOOTER_SIZE := 8

  type Checksum = Bytes -> U64

  /** Needle ids are 64-bit. */
  type NeedleId = int

  predicate IsId(id: NeedleId) {
    0 <= id < U64_LIMIT
  }

  datatype Needle = Needle(id: NeedleId, data: Bytes, checksum: U64)

  datatype NeedleError = TooShort | SizeMismatch | ChecksumMismatch

  datatype ParseResult = Parsed(needle: Needle) | Rejected(error: NeedleError)

  function Size(dataLen: nat): nat {
    HEADER_SIZE + dataLen + FOOTER_SIZE
  }

  /** Readers compute the length of an image in 32 bits; this payload length does not make it wrap. */
  predicate Readable(dataLen: nat) {
    Size(dataLen) < U32_LIMIT
  }

  function NewNeedle(ck: Checksum, id: NeedleId, data: Bytes): Needle {
    Needle(id, data, ck(data))
  }

  /** The size field is the payload length cast to 32 bits. */
  function ToBytes(n: Needle): (b: Bytes)
    ensures |b| == Size(|n.data|)
    ensures b[HEADER_SIZE..HEADER_SIZE + |n.data|] == n.data
  {
    BigEndian(n.id, ID_SIZE) + BigEndian(|n.data| % U32_LIMIT, 4) + n.data + BigEndian(n.checksum, CHECKSUM_SIZE)
  }

  function FromBytes(ck: Checksum, b: Bytes): ParseResult {
    if |b| < HEADER_SIZE + FOOTER_SIZE then Rejected(TooShort)
    else
      FieldWidths();
      var id := FromBigEndian(b[..ID_SIZE]);
      var dataSize := FromBigEndian(b[ID_SIZE..HEADER_SIZE]);
      if |b| != Size(dataSize) then Rejected(SizeMismatch)
      else
        var data := b[HEADER_SIZE..HEADER_SIZE + dataSize];
        var checksum := FromBigEndian(b[HEADER_SIZE + dataSize..]);
        if checksum != ck(data) then Rejected(ChecksumMismatch)
        else Parsed(Needle(id, data, checksum))
  }

  /** Parsing undoes serialising for exactly the payloads whose length fits the size field. */
  lemma ParseUndoesSerialise(ck: Checksum, id: NeedleId, data: Bytes)
    requires IsId(id)
    ensures FromBytes(ck, ToBytes(NewNeedle(ck, id, data))) == Parsed(NewNeedle(ck, id, data))
       <==> |data| < U32_LIMIT
  {
    hide BigEndian, FromBigEndian;
    FieldWidths();
    var n := NewNeedle(ck, id, data);
    var b := ToBytes(n);
    var size := BigEndian(|data| % U32_LIMIT, 4);
    assert b[..ID_SIZE] == BigEndian(id, ID_SIZE);
    assert b[ID_SIZE..HEADER_SIZE] == size;
    BigEndianDecodes(id, ID_SIZE);
    BigEndianDecodes(|data| % U32_LIMIT, 4);
    BigEndianDecodes(n.checksum, CHECKSUM_SIZE);
    if |data| < U32_LIMIT {
      assert b[HEADER_SIZE + |data|..] == BigEndian(n.checksum, CHECKSUM_SIZE);
    }
  }

  /** What a reader makes of the leading bytes of an image, as many as the size field calls for, when the
      payload is longer than the field can say: a shorter payload if the eight bytes after it happen to be
      its checksum, a checksum error otherwise. */
  lemma TruncatedImage(ck: Checksum, id: NeedleId, data: Bytes)
    requires |data| >= U32_LIMIT
    ensures var short := |data| % U32_LIMIT;
            var next := FromBigEndian((data + BigEndian(ck(data), CHECKSUM_SIZE))[short..short + CHECKSUM_SIZE]);
            FromBytes(ck, ToBytes(NewNeedle(ck, id, data))[..Size(short)]) ==
              if next != ck(data[..short]) then Rejected(ChecksumMismatch)
              else Parsed(Needle(FromBigEndian(BigEndian(id, ID_SIZE)), data[..short], next))
  {
    hide BigEndian, FromBigEndian;
    FieldWidths();
    var short := |data| % U32_LIMIT;
    var image := ToBytes(NewNeedle(ck, id, data));
    var b := image[..Size(short)];
    var tail := data + BigEndian(ck(data), CHECKSUM_SIZE);
    assert image == BigEndian(id, ID_SIZE) + BigEndian(short, 4) + tail;
    assert b[..ID_SIZE] == BigEndian(id, ID_SIZE);
    assert b[ID_SIZE..HEADER_SIZE] == BigEndian(short, 4);
    BigEndianDecodes(short, 4);
    assert b[HEADER_SIZE..HEADER_SIZE + short] == data[..short];
    assert b[HEADER_SIZE + short..] == tail[short..short + CHECKSUM_SIZE];
  }

  /** The parser accepts exactly the images the serialiser produces. */
  lemma AcceptsExactlyImages(ck: Checksum, b: Bytes)
    ensures FromBytes(ck, b).Parsed? <==>
            exists id: NeedleId, data: Bytes :: IsId(id) && |data| < U32_LIMIT && b == ToBytes(NewNeedle(ck, id, data))
    ensures FromBytes(ck, b).Parsed? ==> ToBytes(FromBytes(ck, b).needle) == b
  {
    hide BigEndian, FromBigEndian;
    var r := FromBytes(ck, b);
    if r.Parsed? {
      FieldWidths();
      var n := r.needle;
      BigEndianEncodes(b[..ID_SIZE]);
      BigEndianEncodes(b[ID_SIZE..HEADER_SIZE]);
      BigEndianEncodes(b[HEADER_SIZE + |n.data|..]);
      assert b == b[..ID_SIZE] + b[ID_SIZE..HEADER_SIZE] + n.data + b[HEADER_SIZE + |n.data|..];
      assert n == NewNeedle(ck, n.id, n.data);
      assert b == ToBytes(n);
    }
    forall id: NeedleId, data: Bytes | IsId(id) && |data| < U32_LIMIT && b == ToBytes(NewNeedle(ck, id, data))
      ensures r.Parsed?
    {
      ParseUndoesSerialise(ck, id, data);
    }
  }
}
