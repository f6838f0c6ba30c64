/**
  The 98-byte device item of src/core/dev_item.rs, one per block device of the
  filesystem; a copy is embedded in the superblock.
 */
module DevItems {
  import opened Primitives

  const DEV_ITEM_SIZE: nat := 98

  /** Identity, size, I/O hints and ratings of one device. */
  datatype DevItem = DevItem(
    devid: u64,
    totalBytes: u64,
    bytesUsed: u64,
    ioAlign: u32,
    ioWidth: u32,
    sectorSize: u32,
    devType: u64,
    generation: u64,
    startOffset: u64,
    devGroup: u32,
    seekSpeed: byte,
    bandwith: byte,
    uuid: Uuid,
    fsid: Uuid)

  /** Reads the record from exactly DEV_ITEM_SIZE bytes; every sequence of that length decodes. */
  function FromBytes(b: seq<byte>): (r: Result<DevItem>)
    ensures r.Ok? <==> |b| == DEV_ITEM_SIZE
  {
    if |b| != DEV_ITEM_SIZE then Err(SizeMismatch)
    else
      Ok(DevItem(
        U64At(b, 0),
        U64At(b, 8),
        U64At(b, 16),
        U32At(b, 24),
        U32At(b, 28),
        U32At(b, 32),
        U64At(b, 36),
        U64At(b, 44),
        U64At(b, 52),
        U32At(b, 60),
        b[64],
        b[65],
        b[66..82],
        b[82..98]))
  }

  /** Writes the fields back at the offsets FromBytes reads them from. */
  function ToBytes(x: DevItem): (r: seq<byte>)
    ensures |r| == DEV_ITEM_SIZE
  {
    U64Bytes(x.devid) + U64Bytes(x.totalBytes) + U64Bytes(x.bytesUsed)
    + U32Bytes(x.ioAlign) + U32Bytes(x.ioWidth) + U32Bytes(x.sectorSize)
    + U64Bytes(x.devType) + U64Bytes(x.generation) + U64Bytes(x.startOffset)
    + U32Bytes(x.devGroup) + [x.seekSpeed] + [x.bandwith] + x.uuid + x.fsid
  }

  lemma FromBytesToBytes(x: DevItem)
    ensures FromBytes(ToBytes(x)) == Ok(x)
  {
    var b := ToBytes(x);
    var q0 := U64Bytes(x.devid);
    var q1 := q0 + U64Bytes(x.totalBytes);
    var q2 := q1 + U64Bytes(x.bytesUsed);
    var q3 := q2 + U32Bytes(x.ioAlign);
    var q4 := q3 + U32Bytes(x.ioWidth);
    var q5 := q4 + U32Bytes(x.sectorSize);
    var q6 := q5 + U64Bytes(x.devType);
    var q7 := q6 + U64Bytes(x.generation);
    var q8 := q7 + U64Bytes(x.startOffset);
    var q9 := q8 + U32Bytes(x.devGroup);
    var q10 := q9 + [x.seekSpeed];
    var q11 := q10 + [x.bandwith];
    var q12 := q11 + x.uuid;
    var q13 := q12 + x.fsid;
    assert b[..DEV_ITEM_SIZE] == q13;
    SplitPrefix(b, q12, x.fsid);
    SplitPrefix(b, q11, x.uuid);
    SplitPrefix(b, q10, [x.bandwith]);
    SplitPrefix(b, q9, [x.seekSpeed]);
    SplitPrefix(b, q8, U32Bytes(x.devGroup));
    SplitPrefix(b, q7, U64Bytes(x.startOffset));
    SplitPrefix(b, q6, U64Bytes(x.generation));
    SplitPrefix(b, q5, U64Bytes(x.devType));
    SplitPrefix(b, q4, U32Bytes(x.sectorSize));
    SplitPrefix(b, q3, U32Bytes(x.ioWidth));
    SplitPrefix(b, q2, U32Bytes(x.ioAlign));
    SplitPrefix(b, q1, U64Bytes(x.bytesUsed));
    SplitPrefix(b, q0, U64Bytes(x.totalBytes));
    assert b[0..8] == U64Bytes(x.devid);
    U64DecodeEncode(x.devid);
    assert b[8..16] == U64Bytes(x.totalBytes);
    U64DecodeEncode(x.totalBytes);
    assert b[16..24] == U64Bytes(x.bytesUsed);
    U64DecodeEncode(x.bytesUsed);
    assert b[24..28] == U32Bytes(x.ioAlign);
    U32DecodeEncode(x.ioAlign);
    assert b[28..32] == U32Bytes(x.ioWidth);
    U32DecodeEncode(x.ioWidth);
    assert b[32..36] == U32Bytes(x.sectorSize);
    U32DecodeEncode(x.sectorSize);
    assert b[36..44] == U64Bytes(x.devType);
    U64DecodeEncode(x.devType);
    assert b[44..52] == U64Bytes(x.generation);
    U64DecodeEncode(x.generation);
    assert b[52..60] == U64Bytes(x.startOffset);
    U64DecodeEncode(x.startOffset);
    assert b[60..64] == U32Bytes(x.devGroup);
    U32DecodeEncode(x.devGroup);
    assert b[64..65] == [x.seekSpeed];
    assert b[64] == x.seekSpeed;
    assert b[65..66] == [x.bandwith];
    assert b[65] == x.bandwith;
    assert b[66..82] == x.uuid;
    assert b[82..98] == x.fsid;
  }

  lemma ToBytesFromBytes(b: seq<byte>)
    requires |b| == DEV_ITEM_SIZE
    ensures ToBytes(FromBytes(b).value) == b
  {
    U64EncodeDecode(b[0..8]);
    U64EncodeDecode(b[8..16]);
    U64EncodeDecode(b[16..24]);
    U32EncodeDecode(b[24..28]);
    U32EncodeDecode(b[28..32]);
    U32EncodeDecode(b[32..36]);
    U64EncodeDecode(b[36..44]);
    U64EncodeDecode(b[44..52]);
    U64EncodeDecode(b[52..60]);
    U32EncodeDecode(b[60..64]);
    assert b[64..65] == [b[64]];
    assert b[65..66] == [b[65]];
    PrefixAppend(b, 8, 16);
    PrefixAppend(b, 16, 24);
    PrefixAppend(b, 24, 28);
    PrefixAppend(b, 28, 32);
    PrefixAppend(b, 32, 36);
    PrefixAppend(b, 36, 44);
    PrefixAppend(b, 44, 52);
    PrefixAppend(b, 52, 60);
    PrefixAppend(b, 60, 64);
    PrefixAppend(b, 64, 65);
    PrefixAppend(b, 65, 66);
    PrefixAppend(b, 66, 82);
    PrefixAppend(b, 82, 98);
    assert b[..DEV_ITEM_SIZE] == b;
  }


  /** Seek speed and bandwidth are documented as ratings from 0 to 100. */
  predicate WellFormed(d: DevItem)
  {
    d.seekSpeed <= 100 && d.bandwith <= 100
  }

  /** The ratings are the bytes at offsets 64 and 65. */
  lemma WellFormedFromBytes(b: seq<byte>)
    requires |b| == DEV_ITEM_SIZE
    ensures WellFormed(FromBytes(b).value) <==> b[64] <= 100 && b[65] <= 100
  {
  }
}
