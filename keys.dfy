/**
  The 17-byte packed key of src/core/key.rs that locates every item in every
  tree.
 */
module Keys {
  import opened Primitives

  const KEY_SIZE: nat := 17

  /** An object id, an item type and a type-dependent offset. */
  datatype Key = Key(
    objectid: u64,
    keyType: byte,
    offset: u64)

  /** Reads the record from exactly KEY_SIZE bytes; every sequence of that length decodes. */
  function FromBytes(b: seq<byte>): (r: Result<Key>)
    ensures r.Ok? <==> |b| == KEY_SIZE
  {
    if |b| != KEY_SIZE then Err(SizeMismatch)
    else
      Ok(Key(
        U64At(b, 0),
        b[8],
        U64At(b, 9)))
  }

  /** Writes the fields back at the offsets FromBytes reads them from. */
  function ToBytes(x: Key): (r: seq<byte>)
    ensures |r| == KEY_SIZE
  {
    U64Bytes(x.objectid) + [x.keyType] + U64Bytes(x.offset)
  }

  lemma FromBytesToBytes(x: Key)
    ensures FromBytes(ToBytes(x)) == Ok(x)
  {
    var b := ToBytes(x);
    var q0 := U64Bytes(x.objectid);
    var q1 := q0 + [x.keyType];
    var q2 := q1 + U64Bytes(x.offset);
    assert b[..KEY_SIZE] == q2;
    SplitPrefix(b, q1, U64Bytes(x.offset));
    SplitPrefix(b, q0, [x.keyType]);
    assert b[0..8] == U64Bytes(x.objectid);
    U64DecodeEncode(x.objectid);
    assert b[8..9] == [x.keyType];
    assert b[8] == x.keyType;
    assert b[9..17] == U64Bytes(x.offset);
    U64DecodeEncode(x.offset);
  }

  lemma ToBytesFromBytes(b: seq<byte>)
    requires |b| == KEY_SIZE
    ensures ToBytes(FromBytes(b).value) == b
  {
    U64EncodeDecode(b[0..8]);
    assert b[8..9] == [b[8]];
    U64EncodeDecode(b[9..17]);
    PrefixAppend(b, 8, 9);
    PrefixAppend(b, 9, 17);
    assert b[..KEY_SIZE] == b;
  }
}
