/**
  Filesystem-wide constants: the superblock magic, the superblock copy
  addresses, the fixed array sizes and the legacy checksum numbering
  (src/constants.rs).
 */
module Constants {
  import opened Primitives

  /** Physical address of the primary superblock. */
  const PRIMARY_SUPERBLOCK_ADDR: u64 := 0x1_0000

  /** Physical addresses of the superblock copies, primary first. */
  const SUPERBLOCK_ADDRS: seq<u64> := [PRIMARY_SUPERBLOCK_ADDR, 0x400_0000, 0x40_0000_0000]

  const MAGIC: u64 := 0x4D5F_5366_5248_425F

  /** The text the magic field holds when read as bytes. */
  const MAGIC_TEXT: string := "_BHRfS_M"

  const CSUM_SIZE: nat := 32
  const FSID_SIZE: nat := 16
  const LABEL_SIZE: nat := 256
  const MAX_SYSTEM_CHUNK_ARRAY_SIZE: nat := 2048
  const NUM_BACKUP_ROOTS: nat := 4

  /** The older checksum numbering kept beside the superblock's own. */
  datatype LegacyChecksumType = CRC32 | XXHASH64 | SHA256 | BLAKE2b

  function LegacyChecksumValue(t: LegacyChecksumType): u16
  {
    match t
    case CRC32 => 0
    case XXHASH64 => 1
    case SHA256 => 2
    case BLAKE2b => 3
  }

  /** The magic number as it lies on disk, least significant byte first. */
  const MAGIC_BYTES: seq<byte> := [0x5F, 0x42, 0x48, 0x52, 0x66, 0x53, 0x5F, 0x4D]

  /** The magic number is the text "_BHRfS_M" read as a little-endian u64,
      and writing the magic number gives that text back. */
  lemma MagicIsAsciiText()
    ensures |MAGIC_BYTES| == |MAGIC_TEXT| == 8
    ensures forall i :: 0 <= i < 8 ==> MAGIC_BYTES[i] == MAGIC_TEXT[i] as int
    ensures LeU64(MAGIC_BYTES) == MAGIC
    ensures U64Bytes(MAGIC) == MAGIC_BYTES
  {
    var m := MAGIC_BYTES;
    assert m[7..][1..] == m[8..];
    assert FromLE(m[7..]) == 0x4D;
    assert m[6..][1..] == m[7..];
    assert FromLE(m[6..]) == 0x4D5F;
    assert m[5..][1..] == m[6..];
    assert FromLE(m[5..]) == 0x4D5F53;
    assert m[4..][1..] == m[5..];
    assert FromLE(m[4..]) == 0x4D5F5366;
    assert m[3..][1..] == m[4..];
    assert FromLE(m[3..]) == 0x4D5F536652;
    assert m[2..][1..] == m[3..];
    assert FromLE(m[2..]) == 0x4D5F53665248;
    assert m[1..][1..] == m[2..];
    assert FromLE(m[1..]) == 0x4D5F5366524842;
    assert m[0..][1..] == m[1..];
    assert FromLE(m[0..]) == 0x4D5F53665248425F;
    assert m[0..] == m;
    U64EncodeDecode(m);
  }

  /** The primary address is the first copy and the copies lie at strictly
      increasing addresses. */
  lemma SuperblockAddrsOrdered()
    ensures SUPERBLOCK_ADDRS[0] == PRIMARY_SUPERBLOCK_ADDR == 0x1_0000
    ensures forall i, j :: 0 <= i < j < |SUPERBLOCK_ADDRS| ==> SUPERBLOCK_ADDRS[i] < SUPERBLOCK_ADDRS[j]
  {
  }
}
