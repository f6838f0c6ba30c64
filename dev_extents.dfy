/**
  The 48-byte device extent of src/dev/dev_extent.rs: maps a physical extent
  of one device back to the chunk that uses it.
 */
module DevExtents {
  import opened Primitives

  const DEV_EXTENT_SIZE: nat := 48

  /** The owning chunk tree and chunk, and the extent length. */
  datatype DevExtent = DevExtent(
    chunkTree: u64,
    chunkObjectid: u64,
    chunkOffset: u64,
    length: u64,
    chunkTreeUuid: Uuid)

  /** Reads the record from exactly DEV_EXTENT_SIZE bytes; every sequence of that length decodes. */
  function FromBytes(b: seq<byte>): (r: Result<DevExtent>)
    ensures r.Ok? <==> |b| == DEV_EXTENT_SIZE
  {
    if |b| != DEV_EXTENT_SIZE then Err(SizeMismatch)
    else
      Ok(DevExtent(
        U64At(b, 0),
        U64At(b, 8),
        U64At(b, 16),
        U64At(b, 24),
        b[32..48]))
  }

  /** Writes the fields back at the offsets FromBytes reads them from. */
  function ToBytes(x: DevExtent): (r: seq<byte>)
    ensures |r| == DEV_EXTENT_SIZE
  {
    U64Bytes(x.chunkTree) + U64Bytes(x.chunkObjectid) + U64Bytes(x.chunkOffset)
    + U64Bytes(x.length) + x.chunkTreeUuid
  }

  lemma FromBytesToBytes(x: DevExtent)
    ensures FromBytes(ToBytes(x)) == Ok(x)
  {
    var b := ToBytes(x);
    var q0 := U64Bytes(x.chunkTree);
    var q1 := q0 + U64Bytes(x.chunkObjectid);
    var q2 := q1 + U64Bytes(x.chunkOffset);
    var q3 := q2 + U64Bytes(x.length);
    var q4 := q3 + x.chunkTreeUuid;
    assert b[..DEV_EXTENT_SIZE] == q4;
    SplitPrefix(b, q3, x.chunkTreeUuid);
    SplitPrefix(b, q2, U64Bytes(x.length));
    SplitPrefix(b, q1, U64Bytes(x.chunkOffset));
    SplitPrefix(b, q0, U64Bytes(x.chunkObjectid));
    assert b[0..8] == U64Bytes(x.chunkTree);
    U64DecodeEncode(x.chunkTree);
    assert b[8..16] == U64Bytes(x.chunkObjectid);
    U64DecodeEncode(x.chunkObjectid);
    assert b[16..24] == U64Bytes(x.chunkOffset);
    U64DecodeEncode(x.chunkOffset);
    assert b[24..32] == U64Bytes(x.length);
    U64DecodeEncode(x.length);
    assert b[32..48] == x.chunkTreeUuid;
  }

  lemma ToBytesFromBytes(b: seq<byte>)
    requires |b| == DEV_EXTENT_SIZE
    ensures ToBytes(FromBytes(b).value) == b
  {
    U64EncodeDecode(b[0..8]);
    U64EncodeDecode(b[8..16]);
    U64EncodeDecode(b[16..24]);
    U64EncodeDecode(b[24..32]);
    PrefixAppend(b, 8, 16);
    PrefixAppend(b, 16, 24);
    PrefixAppend(b, 24, 32);
    PrefixAppend(b, 32, 48);
    assert b[..DEV_EXTENT_SIZE] == b;
  }
}
