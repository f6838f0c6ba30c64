/**
  The root reference of src/core/root_ref.rs: an 18-byte header that links a
  subvolume tree root, followed on disk by the subvolume name.
 */
module RootRefs {
  import opened Primitives

  const ROOT_REF_SIZE: nat := 18

  /** The subtree id, the directory sequence number and the name length. */
  datatype RootRef = RootRef(
    dirid: u64,
    sequence: u64,
    nameLen: u16)

  /** Reads the record from exactly ROOT_REF_SIZE bytes; every sequence of that length decodes. */
  function FromBytes(b: seq<byte>): (r: Result<RootRef>)
    ensures r.Ok? <==> |b| == ROOT_REF_SIZE
  {
    if |b| != ROOT_REF_SIZE then Err(SizeMismatch)
    else
      Ok(RootRef(
        U64At(b, 0),
        U64At(b, 8),
        U16At(b, 16)))
  }

  /** Writes the fields back at the offsets FromBytes reads them from. */
  function ToBytes(x: RootRef): (r: seq<byte>)
    ensures |r| == ROOT_REF_SIZE
  {
    U64Bytes(x.dirid) + U64Bytes(x.sequence) + U16Bytes(x.nameLen)
  }

  lemma FromBytesToBytes(x: RootRef)
    ensures FromBytes(ToBytes(x)) == Ok(x)
  {
    var b := ToBytes(x);
    var q0 := U64Bytes(x.dirid);
    var q1 := q0 + U64Bytes(x.sequence);
    var q2 := q1 + U16Bytes(x.nameLen);
    assert b[..ROOT_REF_SIZE] == q2;
    SplitPrefix(b, q1, U16Bytes(x.nameLen));
    SplitPrefix(b, q0, U64Bytes(x.sequence));
    assert b[0..8] == U64Bytes(x.dirid);
    U64DecodeEncode(x.dirid);
    assert b[8..16] == U64Bytes(x.sequence);
    U64DecodeEncode(x.sequence);
    assert b[16..18] == U16Bytes(x.nameLen);
    U16DecodeEncode(x.nameLen);
  }

  lemma ToBytesFromBytes(b: seq<byte>)
    requires |b| == ROOT_REF_SIZE
    ensures ToBytes(FromBytes(b).value) == b
  {
    U64EncodeDecode(b[0..8]);
    U64EncodeDecode(b[8..16]);
    U16EncodeDecode(b[16..18]);
    PrefixAppend(b, 8, 16);
    PrefixAppend(b, 16, 18);
    assert b[..ROOT_REF_SIZE] == b;
  }


  /** A root reference read from the front of a buffer together with its
      trailing name: the nameLen bytes right after the 18-byte header. A
      buffer too short for the header or for the name is refused. */
  function FromPrefixWithName(buf: seq<byte>): (r: Result<(RootRef, seq<byte>)>)
    ensures r.Ok? <==> |buf| >= ROOT_REF_SIZE && |buf| >= ROOT_REF_SIZE + LeU16(buf[16..18])
    ensures r.Err? ==> r.error == TruncatedRecord
    ensures r.Ok? ==> r.value.0 == FromBytes(buf[..ROOT_REF_SIZE]).value
    ensures r.Ok? ==> ROOT_REF_SIZE + r.value.0.nameLen <= |buf|
                      && r.value.1 == buf[ROOT_REF_SIZE..ROOT_REF_SIZE + r.value.0.nameLen]
  {
    if |buf| < ROOT_REF_SIZE then Err(TruncatedRecord)
    else
      var header := FromBytes(buf[..ROOT_REF_SIZE]).value;
      assert buf[..ROOT_REF_SIZE][16..18] == buf[16..18];
      if |buf| < ROOT_REF_SIZE + header.nameLen then Err(TruncatedRecord)
      else Ok((header, buf[ROOT_REF_SIZE..ROOT_REF_SIZE + header.nameLen]))
  }

  /** The header followed by the name it counts. */
  function ToBytesWithName(x: RootRef, name: seq<byte>): (r: seq<byte>)
    requires |name| == x.nameLen
    ensures |r| == ROOT_REF_SIZE + x.nameLen
  {
    ToBytes(x) + name
  }

  /** Writing a header and its name, then anything else, reads back the same
      header and name. */
  lemma WithNameRoundTrip(x: RootRef, name: seq<byte>, rest: seq<byte>)
    requires |name| == x.nameLen
    ensures FromPrefixWithName(ToBytesWithName(x, name) + rest) == Ok((x, name))
  {
    var buf := ToBytesWithName(x, name) + rest;
    assert buf[..ROOT_REF_SIZE] == ToBytes(x);
    FromBytesToBytes(x);
    assert buf[ROOT_REF_SIZE..ROOT_REF_SIZE + x.nameLen] == name;
  }
}
