/**
  The 168-byte backup of the tree roots kept in the superblock
  (src/core/root_backup.rs).
 */
module RootBackups {
  import opened Primitives

  const ROOT_BACKUP_SIZE: nat := 168

  /** Four host-endian reserved words, kept as opaque bytes. */
  type UnusedWords = s: seq<byte> | |s| == 32 witness Zeros(32)
  type UnusedLevels = s: seq<byte> | |s| == 10 witness Zeros(10)

  /** Root addresses and generations of the main trees, sizes and levels. */
  datatype RootBackup = RootBackup(
    treeRoot: u64,
    treeRootGen: u64,
    chunkRoot: u64,
    chunkRootGen: u64,
    extentRoot: u64,
    extentRootGen: u64,
    fsRoot: u64,
    fsRootGen: u64,
    devRoot: u64,
    devRootGen: u64,
    csumRoot: u64,
    csumRootGen: u64,
    totalBytes: u64,
    bytesUsed: u64,
    numDevices: u64,
    unusedU64s: UnusedWords,
    treeRootLevel: byte,
    chunkRootLevel: byte,
    extentRootLevel: byte,
    fsRootLevel: byte,
    devRootLevel: byte,
    csumRootLevel: byte,
    unusedU8s: UnusedLevels)

  /** Reads the record from exactly ROOT_BACKUP_SIZE bytes; every sequence of that length decodes. */
  function FromBytes(b: seq<byte>): (r: Result<RootBackup>)
    ensures r.Ok? <==> |b| == ROOT_BACKUP_SIZE
  {
    if |b| != ROOT_BACKUP_SIZE then Err(SizeMismatch)
    else
      Ok(RootBackup(
        U64At(b, 0),
        U64At(b, 8),
        U64At(b, 16),
        U64At(b, 24),
        U64At(b, 32),
        U64At(b, 40),
        U64At(b, 48),
        U64At(b, 56),
        U64At(b, 64),
        U64At(b, 72),
        U64At(b, 80),
        U64At(b, 88),
        U64At(b, 96),
        U64At(b, 104),
        U64At(b, 112),
        b[120..152],
        b[152],
        b[153],
        b[154],
        b[155],
        b[156],
        b[157],
        b[158..168]))
  }

  /** Writes the fields back at the offsets FromBytes reads them from. */
  function ToBytes(x: RootBackup): (r: seq<byte>)
    ensures |r| == ROOT_BACKUP_SIZE
  {
    U64Bytes(x.treeRoot) + U64Bytes(x.treeRootGen) + U64Bytes(x.chunkRoot)
    + U64Bytes(x.chunkRootGen) + U64Bytes(x.extentRoot) + U64Bytes(x.extentRootGen)
    + U64Bytes(x.fsRoot) + U64Bytes(x.fsRootGen) + U64Bytes(x.devRoot)
    + U64Bytes(x.devRootGen) + U64Bytes(x.csumRoot) + U64Bytes(x.csumRootGen)
    + U64Bytes(x.totalBytes) + U64Bytes(x.bytesUsed) + U64Bytes(x.numDevices)
    + x.unusedU64s + [x.treeRootLevel] + [x.chunkRootLevel] + [x.extentRootLevel]
    + [x.fsRootLevel] + [x.devRootLevel] + [x.csumRootLevel] + x.unusedU8s
  }

  lemma FromBytesToBytes(x: RootBackup)
    ensures FromBytes(ToBytes(x)) == Ok(x)
  {
    var b := ToBytes(x);
    var q0 := U64Bytes(x.treeRoot);
    var q1 := q0 + U64Bytes(x.treeRootGen);
    var q2 := q1 + U64Bytes(x.chunkRoot);
    var q3 := q2 + U64Bytes(x.chunkRootGen);
    var q4 := q3 + U64Bytes(x.extentRoot);
    var q5 := q4 + U64Bytes(x.extentRootGen);
    var q6 := q5 + U64Bytes(x.fsRoot);
    var q7 := q6 + U64Bytes(x.fsRootGen);
    var q8 := q7 + U64Bytes(x.devRoot);
    var q9 := q8 + U64Bytes(x.devRootGen);
    var q10 := q9 + U64Bytes(x.csumRoot);
    var q11 := q10 + U64Bytes(x.csumRootGen);
    var q12 := q11 + U64Bytes(x.totalBytes);
    var q13 := q12 + U64Bytes(x.bytesUsed);
    var q14 := q13 + U64Bytes(x.numDevices);
    var q15 := q14 + x.unusedU64s;
    var q16 := q15 + [x.treeRootLevel];
    var q17 := q16 + [x.chunkRootLevel];
    var q18 := q17 + [x.extentRootLevel];
    var q19 := q18 + [x.fsRootLevel];
    var q20 := q19 + [x.devRootLevel];
    var q21 := q20 + [x.csumRootLevel];
    var q22 := q21 + x.unusedU8s;
    assert b[..ROOT_BACKUP_SIZE] == q22;
    SplitPrefix(b, q21, x.unusedU8s);
    SplitPrefix(b, q20, [x.csumRootLevel]);
    SplitPrefix(b, q19, [x.devRootLevel]);
    SplitPrefix(b, q18, [x.fsRootLevel]);
    SplitPrefix(b, q17, [x.extentRootLevel]);
    SplitPrefix(b, q16, [x.chunkRootLevel]);
    SplitPrefix(b, q15, [x.treeRootLevel]);
    SplitPrefix(b, q14, x.unusedU64s);
    SplitPrefix(b, q13, U64Bytes(x.numDevices));
    SplitPrefix(b, q12, U64Bytes(x.bytesUsed));
    SplitPrefix(b, q11, U64Bytes(x.totalBytes));
    SplitPrefix(b, q10, U64Bytes(x.csumRootGen));
    SplitPrefix(b, q9, U64Bytes(x.csumRoot));
    SplitPrefix(b, q8, U64Bytes(x.devRootGen));
    SplitPrefix(b, q7, U64Bytes(x.devRoot));
    SplitPrefix(b, q6, U64Bytes(x.fsRootGen));
    SplitPrefix(b, q5, U64Bytes(x.fsRoot));
    SplitPrefix(b, q4, U64Bytes(x.extentRootGen));
    SplitPrefix(b, q3, U64Bytes(x.extentRoot));
    SplitPrefix(b, q2, U64Bytes(x.chunkRootGen));
    SplitPrefix(b, q1, U64Bytes(x.chunkRoot));
    SplitPrefix(b, q0, U64Bytes(x.treeRootGen));
    assert b[0..8] == U64Bytes(x.treeRoot);
    U64DecodeEncode(x.treeRoot);
    assert b[8..16] == U64Bytes(x.treeRootGen);
    U64DecodeEncode(x.treeRootGen);
    assert b[16..24] == U64Bytes(x.chunkRoot);
    U64DecodeEncode(x.chunkRoot);
    assert b[24..32] == U64Bytes(x.chunkRootGen);
    U64DecodeEncode(x.chunkRootGen);
    assert b[32..40] == U64Bytes(x.extentRoot);
    U64DecodeEncode(x.extentRoot);
    assert b[40..48] == U64Bytes(x.extentRootGen);
    U64DecodeEncode(x.extentRootGen);
    assert b[48..56] == U64Bytes(x.fsRoot);
    U64DecodeEncode(x.fsRoot);
    assert b[56..64] == U64Bytes(x.fsRootGen);
    U64DecodeEncode(x.fsRootGen);
    assert b[64..72] == U64Bytes(x.devRoot);
    U64DecodeEncode(x.devRoot);
    assert b[72..80] == U64Bytes(x.devRootGen);
    U64DecodeEncode(x.devRootGen);
    assert b[80..88] == U64Bytes(x.csumRoot);
    U64DecodeEncode(x.csumRoot);
    assert b[88..96] == U64Bytes(x.csumRootGen);
    U64DecodeEncode(x.csumRootGen);
    assert b[96..104] == U64Bytes(x.totalBytes);
    U64DecodeEncode(x.totalBytes);
    assert b[104..112] == U64Bytes(x.bytesUsed);
    U64DecodeEncode(x.bytesUsed);
    assert b[112..120] == U64Bytes(x.numDevices);
    U64DecodeEncode(x.numDevices);
    assert b[120..152] == x.unusedU64s;
    assert b[152..153] == [x.treeRootLevel];
    assert b[152] == x.treeRootLevel;
    assert b[153..154] == [x.chunkRootLevel];
    assert b[153] == x.chunkRootLevel;
    assert b[154..155] == [x.extentRootLevel];
    assert b[154] == x.extentRootLevel;
    assert b[155..156] == [x.fsRootLevel];
    assert b[155] == x.fsRootLevel;
    assert b[156..157] == [x.devRootLevel];
    assert b[156] == x.devRootLevel;
    assert b[157..158] == [x.csumRootLevel];
    assert b[157] == x.csumRootLevel;
    assert b[158..168] == x.unusedU8s;
  }

  lemma ToBytesFromBytes(b: seq<byte>)
    requires |b| == ROOT_BACKUP_SIZE
    ensures ToBytes(FromBytes(b).value) == b
  {
    U64EncodeDecode(b[0..8]);
    U64EncodeDecode(b[8..16]);
    U64EncodeDecode(b[16..24]);
    U64EncodeDecode(b[24..32]);
    U64EncodeDecode(b[32..40]);
    U64EncodeDecode(b[40..48]);
    U64EncodeDecode(b[48..56]);
    U64EncodeDecode(b[56..64]);
    U64EncodeDecode(b[64..72]);
    U64EncodeDecode(b[72..80]);
    U64EncodeDecode(b[80..88]);
    U64EncodeDecode(b[88..96]);
    U64EncodeDecode(b[96..104]);
    U64EncodeDecode(b[104..112]);
    U64EncodeDecode(b[112..120]);
    assert b[152..153] == [b[152]];
    assert b[153..154] == [b[153]];
    assert b[154..155] == [b[154]];
    assert b[155..156] == [b[155]];
    assert b[156..157] == [b[156]];
    assert b[157..158] == [b[157]];
    PrefixAppend(b, 8, 16);
    PrefixAppend(b, 16, 24);
    PrefixAppend(b, 24, 32);
    PrefixAppend(b, 32, 40);
    PrefixAppend(b, 40, 48);
    PrefixAppend(b, 48, 56);
    PrefixAppend(b, 56, 64);
    PrefixAppend(b, 64, 72);
    PrefixAppend(b, 72, 80);
    PrefixAppend(b, 80, 88);
    PrefixAppend(b, 88, 96);
    PrefixAppend(b, 96, 104);
    PrefixAppend(b, 104, 112);
    PrefixAppend(b, 112, 120);
    PrefixAppend(b, 120, 152);
    PrefixAppend(b, 152, 153);
    PrefixAppend(b, 153, 154);
    PrefixAppend(b, 154, 155);
    PrefixAppend(b, 155, 156);
    PrefixAppend(b, 156, 157);
    PrefixAppend(b, 157, 158);
    PrefixAppend(b, 158, 168);
    assert b[..ROOT_BACKUP_SIZE] == b;
  }


  /** An all-zero backup, the decoding of 168 zero bytes. */
  const ZEROED: RootBackup := RootBackup(0, 0, 0, 0, 0, 0, 0, 0, 0, 0, 0, 0, 0, 0, 0, Zeros(32), 0, 0, 0, 0, 0, 0, Zeros(10))
}
