/**
  The 4-byte reference count of a shared data back reference
  (src/extent/shared_data_ref.rs).
 */
module SharedDataRefs {
  import opened Primitives

  const SHARED_DATA_REF_SIZE: nat := 4

  /** The reference count. */
  datatype SharedDataRef = SharedDataRef(
    count: u32)

  /** Reads the record from exactly SHARED_DATA_REF_SIZE bytes; every sequence of that length decodes. */
  function FromBytes(b: seq<byte>): (r: Result<SharedDataRef>)
    ensures r.Ok? <==> |b| == SHARED_DATA_REF_SIZE
  {
    if |b| != SHARED_DATA_REF_SIZE then Err(SizeMismatch)
    else
      Ok(SharedDataRef(
        U32At(b, 0)))
  }

  /** Writes the fields back at the offsets FromBytes reads them from. */
  function ToBytes(x: SharedDataRef): (r: seq<byte>)
    ensures |r| == SHARED_DATA_REF_SIZE
  {
    U32Bytes(x.count)
  }

  lemma FromBytesToBytes(x: SharedDataRef)
    ensures FromBytes(ToBytes(x)) == Ok(x)
  {
    var b := ToBytes(x);
    var q0 := U32Bytes(x.count);
    assert b[..SHARED_DATA_REF_SIZE] == q0;
    assert b[0..4] == U32Bytes(x.count);
    U32DecodeEncode(x.count);
  }

  lemma ToBytesFromBytes(b: seq<byte>)
    requires |b| == SHARED_DATA_REF_SIZE
    ensures ToBytes(FromBytes(b).value) == b
  {
    U32EncodeDecode(b[0..4]);
    assert b[..SHARED_DATA_REF_SIZE] == b;
  }
}
