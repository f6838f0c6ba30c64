/**
  The 28-byte indirect back reference for a file data extent
  (src/extent/extent_data_ref.rs).
 */
module ExtentDataRefs {
  import opened Primitives

  const EXTENT_DATA_REF_SIZE: nat := 28

  /** The file tree, the inode, the file offset and the reference count. */
  datatype ExtentDataRef = ExtentDataRef(
    root: u64,
    objectid: u64,
    offset: u64,
    count: u32)

  /** Reads the record from exactly EXTENT_DATA_REF_SIZE bytes; every sequence of that length decodes. */
  function FromBytes(b: seq<byte>): (r: Result<ExtentDataRef>)
    ensures r.Ok? <==> |b| == EXTENT_DATA_REF_SIZE
  {
    if |b| != EXTENT_DATA_REF_SIZE then Err(SizeMismatch)
    else
      Ok(ExtentDataRef(
        U64At(b, 0),
        U64At(b, 8),
        U64At(b, 16),
        U32At(b, 24)))
  }

  /** Writes the fields back at the offsets FromBytes reads them from. */
  function ToBytes(x: ExtentDataRef): (r: seq<byte>)
    ensures |r| == EXTENT_DATA_REF_SIZE
  {
    U64Bytes(x.root) + U64Bytes(x.objectid) + U64Bytes(x.offset) + U32Bytes(x.count)
  }

  lemma FromBytesToBytes(x: ExtentDataRef)
    ensures FromBytes(ToBytes(x)) == Ok(x)
  {
    var b := ToBytes(x);
    var q0 := U64Bytes(x.root);
    var q1 := q0 + U64Bytes(x.objectid);
    var q2 := q1 + U64Bytes(x.offset);
    var q3 := q2 + U32Bytes(x.count);
    assert b[..EXTENT_DATA_REF_SIZE] == q3;
    SplitPrefix(b, q2, U32Bytes(x.count));
    SplitPrefix(b, q1, U64Bytes(x.offset));
    SplitPrefix(b, q0, U64Bytes(x.objectid));
    assert b[0..8] == U64Bytes(x.root);
    U64DecodeEncode(x.root);
    assert b[8..16] == U64Bytes(x.objectid);
    U64DecodeEncode(x.objectid);
    assert b[16..24] == U64Bytes(x.offset);
    U64DecodeEncode(x.offset);
    assert b[24..28] == U32Bytes(x.count);
    U32DecodeEncode(x.count);
  }

  lemma ToBytesFromBytes(b: seq<byte>)
    requires |b| == EXTENT_DATA_REF_SIZE
    ensures ToBytes(FromBytes(b).value) == b
  {
    U64EncodeDecode(b[0..8]);
    U64EncodeDecode(b[8..16]);
    U64EncodeDecode(b[16..24]);
    U32EncodeDecode(b[24..28]);
    PrefixAppend(b, 8, 16);
    PrefixAppend(b, 16, 24);
    PrefixAppend(b, 24, 28);
    assert b[..EXTENT_DATA_REF_SIZE] == b;
  }
}
