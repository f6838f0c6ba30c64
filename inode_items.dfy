/**
  The 160-byte inode item of src/core/inode_item.rs and its flag bits.
 */
module InodeItems {
  import opened Primitives
  import opened BitFlags
  import Times

  const INODE_ITEM_SIZE: nat := 160

  /** Four host-endian reserved words, kept as opaque bytes. */
  type UnusedWords = s: seq<byte> | |s| == 32 witness Zeros(32)

  /** Traditional inode data: sizes, link count, owner, mode, flags and four timestamps. */
  datatype InodeItem = InodeItem(
    generation: u64,
    transid: u64,
    size: u64,
    nbytes: u64,
    blockGroup: u64,
    nlink: u32,
    uid: u32,
    gid: u32,
    mode: u32,
    rdev: u64,
    flags: u64,
    sequence: u64,
    unused: UnusedWords,
    atime: Times.Time,
    ctime: Times.Time,
    mtime: Times.Time,
    otime: Times.Time)

  /** Reads the record from exactly INODE_ITEM_SIZE bytes; every sequence of that length decodes. */
  function FromBytes(b: seq<byte>): (r: Result<InodeItem>)
    ensures r.Ok? <==> |b| == INODE_ITEM_SIZE
  {
    if |b| != INODE_ITEM_SIZE then Err(SizeMismatch)
    else
      Ok(InodeItem(
        U64At(b, 0),
        U64At(b, 8),
        U64At(b, 16),
        U64At(b, 24),
        U64At(b, 32),
        U32At(b, 40),
        U32At(b, 44),
        U32At(b, 48),
        U32At(b, 52),
        U64At(b, 56),
        U64At(b, 64),
        U64At(b, 72),
        b[80..112],
        Times.FromBytes(b[112..124]).value,
        Times.FromBytes(b[124..136]).value,
        Times.FromBytes(b[136..148]).value,
        Times.FromBytes(b[148..160]).value))
  }

  /** Writes the fields back at the offsets FromBytes reads them from. */
  function ToBytes(x: InodeItem): (r: seq<byte>)
    ensures |r| == INODE_ITEM_SIZE
  {
    U64Bytes(x.generation) + U64Bytes(x.transid) + U64Bytes(x.size)
    + U64Bytes(x.nbytes) + U64Bytes(x.blockGroup) + U32Bytes(x.nlink)
    + U32Bytes(x.uid) + U32Bytes(x.gid) + U32Bytes(x.mode) + U64Bytes(x.rdev)
    + U64Bytes(x.flags) + U64Bytes(x.sequence) + x.unused + Times.ToBytes(x.atime)
    + Times.ToBytes(x.ctime) + Times.ToBytes(x.mtime) + Times.ToBytes(x.otime)
  }

  lemma FromBytesToBytes(x: InodeItem)
    ensures FromBytes(ToBytes(x)) == Ok(x)
  {
    var b := ToBytes(x);
    var q0 := U64Bytes(x.generation);
    var q1 := q0 + U64Bytes(x.transid);
    var q2 := q1 + U64Bytes(x.size);
    var q3 := q2 + U64Bytes(x.nbytes);
    var q4 := q3 + U64Bytes(x.blockGroup);
    var q5 := q4 + U32Bytes(x.nlink);
    var q6 := q5 + U32Bytes(x.uid);
    var q7 := q6 + U32Bytes(x.gid);
    var q8 := q7 + U32Bytes(x.mode);
    var q9 := q8 + U64Bytes(x.rdev);
    var q10 := q9 + U64Bytes(x.flags);
    var q11 := q10 + U64Bytes(x.sequence);
    var q12 := q11 + x.unused;
    var q13 := q12 + Times.ToBytes(x.atime);
    var q14 := q13 + Times.ToBytes(x.ctime);
    var q15 := q14 + Times.ToBytes(x.mtime);
    var q16 := q15 + Times.ToBytes(x.otime);
    assert b[..INODE_ITEM_SIZE] == q16;
    SplitPrefix(b, q15, Times.ToBytes(x.otime));
    SplitPrefix(b, q14, Times.ToBytes(x.mtime));
    SplitPrefix(b, q13, Times.ToBytes(x.ctime));
    SplitPrefix(b, q12, Times.ToBytes(x.atime));
    SplitPrefix(b, q11, x.unused);
    SplitPrefix(b, q10, U64Bytes(x.sequence));
    SplitPrefix(b, q9, U64Bytes(x.flags));
    SplitPrefix(b, q8, U64Bytes(x.rdev));
    SplitPrefix(b, q7, U32Bytes(x.mode));
    SplitPrefix(b, q6, U32Bytes(x.gid));
    SplitPrefix(b, q5, U32Bytes(x.uid));
    SplitPrefix(b, q4, U32Bytes(x.nlink));
    SplitPrefix(b, q3, U64Bytes(x.blockGroup));
    SplitPrefix(b, q2, U64Bytes(x.nbytes));
    SplitPrefix(b, q1, U64Bytes(x.size));
    SplitPrefix(b, q0, U64Bytes(x.transid));
    assert b[0..8] == U64Bytes(x.generation);
    U64DecodeEncode(x.generation);
    assert b[8..16] == U64Bytes(x.transid);
    U64DecodeEncode(x.transid);
    assert b[16..24] == U64Bytes(x.size);
    U64DecodeEncode(x.size);
    assert b[24..32] == U64Bytes(x.nbytes);
    U64DecodeEncode(x.nbytes);
    assert b[32..40] == U64Bytes(x.blockGroup);
    U64DecodeEncode(x.blockGroup);
    assert b[40..44] == U32Bytes(x.nlink);
    U32DecodeEncode(x.nlink);
    assert b[44..48] == U32Bytes(x.uid);
    U32DecodeEncode(x.uid);
    assert b[48..52] == U32Bytes(x.gid);
    U32DecodeEncode(x.gid);
    assert b[52..56] == U32Bytes(x.mode);
    U32DecodeEncode(x.mode);
    assert b[56..64] == U64Bytes(x.rdev);
    U64DecodeEncode(x.rdev);
    assert b[64..72] == U64Bytes(x.flags);
    U64DecodeEncode(x.flags);
    assert b[72..80] == U64Bytes(x.sequence);
    U64DecodeEncode(x.sequence);
    assert b[80..112] == x.unused;
    assert b[112..124] == Times.ToBytes(x.atime);
    Times.FromBytesToBytes(x.atime);
    assert b[124..136] == Times.ToBytes(x.ctime);
    Times.FromBytesToBytes(x.ctime);
    assert b[136..148] == Times.ToBytes(x.mtime);
    Times.FromBytesToBytes(x.mtime);
    assert b[148..160] == Times.ToBytes(x.otime);
    Times.FromBytesToBytes(x.otime);
  }

  lemma ToBytesFromBytes(b: seq<byte>)
    requires |b| == INODE_ITEM_SIZE
    ensures ToBytes(FromBytes(b).value) == b
  {
    U64EncodeDecode(b[0..8]);
    U64EncodeDecode(b[8..16]);
    U64EncodeDecode(b[16..24]);
    U64EncodeDecode(b[24..32]);
    U64EncodeDecode(b[32..40]);
    U32EncodeDecode(b[40..44]);
    U32EncodeDecode(b[44..48]);
    U32EncodeDecode(b[48..52]);
    U32EncodeDecode(b[52..56]);
    U64EncodeDecode(b[56..64]);
    U64EncodeDecode(b[64..72]);
    U64EncodeDecode(b[72..80]);
    Times.ToBytesFromBytes(b[112..124]);
    Times.ToBytesFromBytes(b[124..136]);
    Times.ToBytesFromBytes(b[136..148]);
    Times.ToBytesFromBytes(b[148..160]);
    PrefixAppend(b, 8, 16);
    PrefixAppend(b, 16, 24);
    PrefixAppend(b, 24, 32);
    PrefixAppend(b, 32, 40);
    PrefixAppend(b, 40, 44);
    PrefixAppend(b, 44, 48);
    PrefixAppend(b, 48, 52);
    PrefixAppend(b, 52, 56);
    PrefixAppend(b, 56, 64);
    PrefixAppend(b, 64, 72);
    PrefixAppend(b, 72, 80);
    PrefixAppend(b, 80, 112);
    PrefixAppend(b, 112, 124);
    PrefixAppend(b, 124, 136);
    PrefixAppend(b, 136, 148);
    PrefixAppend(b, 148, 160);
    assert b[..INODE_ITEM_SIZE] == b;
  }


  // The inode flag bits, in declaration order.
  const NO_DATA_SUM: bv64 := 0x1
  const NO_DATA_COW: bv64 := 0x2
  const READ_ONLY: bv64 := 0x4
  const NO_COMPRESS: bv64 := 0x8
  const PREALLOC: bv64 := 0x10
  const SYNC: bv64 := 0x20
  const IMMUTABLE: bv64 := 0x40
  const APPEND: bv64 := 0x80
  const NO_DUMP: bv64 := 0x100
  const NO_ATIME: bv64 := 0x200
  const DIR_SYNC: bv64 := 0x400
  const COMPRESS: bv64 := 0x800

  const INODE_FLAGS: seq<bv64> := [NO_DATA_SUM, NO_DATA_COW, READ_ONLY, NO_COMPRESS, PREALLOC, SYNC,
                                   IMMUTABLE, APPEND, NO_DUMP, NO_ATIME, DIR_SYNC, COMPRESS]

  /** Every declared flag: the known bits of an inode's flag word. */
  const KNOWN_INODE_FLAGS: bv64 := 0xFFF

  /** The twelve flags are distinct single bits, and together they make up
      exactly the known bits. */
  lemma InodeFlagsAreSingleBits()
    ensures forall i :: 0 <= i < |INODE_FLAGS| ==> IsSingleBit(INODE_FLAGS[i]) && Contains(KNOWN_INODE_FLAGS, INODE_FLAGS[i])
    ensures forall i, j :: 0 <= i < j < |INODE_FLAGS| ==> INODE_FLAGS[i] & INODE_FLAGS[j] == 0
    ensures KNOWN_INODE_FLAGS == NO_DATA_SUM | NO_DATA_COW | READ_ONLY | NO_COMPRESS | PREALLOC | SYNC
                               | IMMUTABLE | APPEND | NO_DUMP | NO_ATIME | DIR_SYNC | COMPRESS
  {
  }

  /** A flag word converts strictly iff it has no bit above bit 11. */
  lemma InodeFlagsFromBits(bits: bv64)
    ensures FromBits(KNOWN_INODE_FLAGS, bits).Some? <==> bits < 0x1000
  {
  }

  /** Truncation keeps exactly the declared flags the word holds, and its
      result converts strictly. */
  lemma InodeFlagsTruncate(bits: bv64, f: bv64)
    requires Contains(KNOWN_INODE_FLAGS, f)
    ensures Contains(FromBitsTruncate(KNOWN_INODE_FLAGS, bits), f) <==> Contains(bits, f)
    ensures FromBits(KNOWN_INODE_FLAGS, FromBitsTruncate(KNOWN_INODE_FLAGS, bits)).Some?
  {
  }

  /** Whether the flags word of an inode item holds only declared flags. */
  predicate FlagsKnown(x: InodeItem)
  {
    FromBits(KNOWN_INODE_FLAGS, Bits(x.flags)).Some?
  }

  /** Read from the bytes of an inode item: its flags are the u64 at offset
      64, and they hold only declared flags exactly when that word has no bit
      above the twelfth set. */
  lemma FlagsKnownFromBytes(b: seq<byte>)
    requires |b| == INODE_ITEM_SIZE
    ensures FlagsKnown(FromBytes(b).value) <==> Bits(U64At(b, 64)) < 0x1000
  {
    InodeFlagsFromBits(Bits(U64At(b, 64)));
  }
}
