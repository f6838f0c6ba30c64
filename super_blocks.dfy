/**
  The 4096-byte superblock of src/core/super_block.rs and its checksum type.
  The primary copy lies at the primary superblock address; further copies lie at the
  other superblock addresses when the device is large enough.
 */
module SuperBlocks {
  import opened Primitives
  import Constants
  import DevItems
  import RootBackups

  const SUPERBLOCK_SIZE: nat := 4096

  type Label = s: seq<byte> | |s| == Constants.LABEL_SIZE witness Zeros(Constants.LABEL_SIZE)
  type Reserved = s: seq<byte> | |s| == 240 witness Zeros(240)
  type SysChunkArray = s: seq<byte> | |s| == Constants.MAX_SYSTEM_CHUNK_ARRAY_SIZE witness Zeros(Constants.MAX_SYSTEM_CHUNK_ARRAY_SIZE)
  type Unused = s: seq<byte> | |s| == 565 witness Zeros(565)
  type SuperRoots = s: seq<RootBackups.RootBackup> | |s| == Constants.NUM_BACKUP_ROOTS
    witness [RootBackups.ZEROED, RootBackups.ZEROED, RootBackups.ZEROED, RootBackups.ZEROED]


  /** The hashing algorithm used for checksums, stored as a little-endian u16. */
  datatype ChecksumType = CRC32C | XXHASH64 | SHA256 | BLAKE2b

  function ChecksumTypeValue(t: ChecksumType): u16
  {
    match t
    case CRC32C => 0
    case XXHASH64 => 1
    case SHA256 => 2
    case BLAKE2b => 3
  }

  /** The algorithm a stored value names: only 0 to 3 name one. */
  function ChecksumTypeFromU16(v: u16): (r: Option<ChecksumType>)
    ensures r.Some? <==> v <= 3
    ensures r.Some? ==> ChecksumTypeValue(r.value) == v
  {
    match v
    case 0 => Some(CRC32C)
    case 1 => Some(XXHASH64)
    case 2 => Some(SHA256)
    case 3 => Some(BLAKE2b)
    case _ => None
  }

  lemma ChecksumTypeRoundTrip(t: ChecksumType)
    ensures ChecksumTypeFromU16(ChecksumTypeValue(t)) == Some(t)
  {
  }

  /** The legacy numbering names the same algorithms with the same values. */
  function FromLegacy(t: Constants.LegacyChecksumType): (c: ChecksumType)
    ensures ChecksumTypeValue(c) == Constants.LegacyChecksumValue(t)
    ensures ChecksumTypeFromU16(Constants.LegacyChecksumValue(t)) == Some(c)
  {
    match t
    case CRC32 => CRC32C
    case XXHASH64 => XXHASH64
    case SHA256 => SHA256
    case BLAKE2b => BLAKE2b
  }


  /** n root backups read back to back: the i-th from the 168 bytes at 168 i. */
  function RootsFromBytes(s: seq<byte>, n: nat): (r: seq<RootBackups.RootBackup>)
    requires |s| == n * 168
    ensures |r| == n
  {
    seq(n, i requires 0 <= i < n => RootBackups.FromBytes(s[i * 168..i * 168 + 168]).value)
  }

  /** Root backups written back to back. */
  function RootsToBytes(rs: seq<RootBackups.RootBackup>): (s: seq<byte>)
    ensures |s| == |rs| * 168
  {
    if |rs| == 0 then [] else RootBackups.ToBytes(rs[0]) + RootsToBytes(rs[1..])
  }

  /** Each backup's 168 bytes lie at 168 i of the array. */
  lemma {:induction false} RootsToBytesAt(rs: seq<RootBackups.RootBackup>, i: nat)
    requires i < |rs|
    ensures RootsToBytes(rs)[i * 168..i * 168 + 168] == RootBackups.ToBytes(rs[i])
  {
    var tail := RootsToBytes(rs[1..]);
    assert RootsToBytes(rs) == RootBackups.ToBytes(rs[0]) + tail;
    if i > 0 {
      RootsToBytesAt(rs[1..], i - 1);
      assert RootsToBytes(rs)[i * 168..i * 168 + 168] == tail[(i - 1) * 168..(i - 1) * 168 + 168];
    }
  }

  lemma RootsFromBytesToBytes(rs: seq<RootBackups.RootBackup>)
    ensures RootsFromBytes(RootsToBytes(rs), |rs|) == rs
  {
    forall i | 0 <= i < |rs|
      ensures RootsFromBytes(RootsToBytes(rs), |rs|)[i] == rs[i]
    {
      RootsToBytesAt(rs, i);
      RootBackups.FromBytesToBytes(rs[i]);
    }
  }

  /** The bytes of the q-th backup read from s write back to its 168 bytes. */
  lemma RootsBlockRoundTrip(s: seq<byte>, n: nat, q: nat)
    requires |s| == n * 168 && q < n
    ensures RootBackups.ToBytes(RootsFromBytes(s, n)[q]) == s[q * 168..q * 168 + 168]
  {
    RootBackups.ToBytesFromBytes(s[q * 168..q * 168 + 168]);
  }

  lemma {:induction false} RootsToBytesFromBytes(s: seq<byte>, n: nat)
    requires |s| == n * 168
    ensures RootsToBytes(RootsFromBytes(s, n)) == s
  {
    if n > 0 {
      var rs := RootsFromBytes(s, n);
      var head, tail := s[..168], s[168..];
      forall i | 0 <= i < n - 1
        ensures rs[1..][i] == RootsFromBytes(tail, n - 1)[i]
      {
        assert tail[i * 168..i * 168 + 168] == s[(i + 1) * 168..(i + 1) * 168 + 168];
      }
      assert rs[1..] == RootsFromBytes(tail, n - 1);
      RootsBlockRoundTrip(s, n, 0);
      RootsToBytesFromBytes(tail, n - 1);
      assert s == head + tail;
    }
  }

  /** The superblock: filesystem identity, tree roots, sizes, the system chunk array and root backups. */
  datatype SuperBlock = SuperBlock(
    csum: Csum,
    fsid: Uuid,
    bytenr: u64,
    flags: u64,
    magic: u64,
    generation: u64,
    root: u64,
    chunkRoot: u64,
    logRoot: u64,
    logRootTransid: u64,
    totalBytes: u64,
    bytesUsed: u64,
    rootDirObjectid: u64,
    numDevices: u64,
    sectorsize: u32,
    nodesize: u32,
    leafsize: u32,
    stripesize: u32,
    sysChunkArraySize: u32,
    chunkRootGeneration: u64,
    compatFlags: u64,
    compatRoFlags: u64,
    incompatFlags: u64,
    csumType: ChecksumType,
    rootLevel: byte,
    chunkRootLevel: byte,
    logRootLevel: byte,
    devItem: DevItems.DevItem,
    fsLabel: Label,
    cacheGeneration: u64,
    uuidTreeGeneration: u64,
    reserved: Reserved,
    sysChunkArray: SysChunkArray,
    superRoots: SuperRoots,
    unused1: Unused)

  /** Reads a superblock from exactly SUPERBLOCK_SIZE bytes; the checksum type at 196 must name an algorithm. */
  function FromBytes(b: seq<byte>): (r: Result<SuperBlock>)
    ensures r.Ok? <==> |b| == SUPERBLOCK_SIZE && U16At(b, 196) <= 3
    ensures r.Err? && |b| == SUPERBLOCK_SIZE ==> r.error == UnknownTag
  {
    if |b| != SUPERBLOCK_SIZE then Err(SizeMismatch)
    else match ChecksumTypeFromU16(U16At(b, 196))
      case None => Err(UnknownTag)
      case Some(csumType) => Ok(Decode(b, csumType))
  }

  /** The fields at their offsets, once the csumType field is known to be valid. */
  function Decode(b: seq<byte>, csumType: ChecksumType): SuperBlock
    requires |b| == SUPERBLOCK_SIZE
  {
    SuperBlock(
      b[0..32],
      b[32..48],
      U64At(b, 48),
      U64At(b, 56),
      U64At(b, 64),
      U64At(b, 72),
      U64At(b, 80),
      U64At(b, 88),
      U64At(b, 96),
      U64At(b, 104),
      U64At(b, 112),
      U64At(b, 120),
      U64At(b, 128),
      U64At(b, 136),
      U32At(b, 144),
      U32At(b, 148),
      U32At(b, 152),
      U32At(b, 156),
      U32At(b, 160),
      U64At(b, 164),
      U64At(b, 172),
      U64At(b, 180),
      U64At(b, 188),
      csumType,
      b[198],
      b[199],
      b[200],
      DevItems.FromBytes(b[201..299]).value,
      b[299..555],
      U64At(b, 555),
      U64At(b, 563),
      b[571..811],
      b[811..2859],
      RootsFromBytes(b[2859..3531], 4),
      b[3531..4096])
  }

  /** Bytes 0..72: checksum, fsid, own address, flags and magic. */
  function IdentityBytes(csum: Csum, fsid: Uuid, bytenr: u64, flags: u64, magic: u64): (r: seq<byte>)
    ensures |r| == 72
  {
    csum + fsid + U64Bytes(bytenr) + U64Bytes(flags) + U64Bytes(magic)
  }

  /** Bytes 72..168: generation, tree roots, sizes and device count. */
  function TreeRootBytes(generation: u64, root: u64, chunkRoot: u64, logRoot: u64, logRootTransid: u64
    , totalBytes: u64, bytesUsed: u64, rootDirObjectid: u64, numDevices: u64): (r: seq<byte>)
    ensures |r| == 72
  {
    U64Bytes(generation) + U64Bytes(root) + U64Bytes(chunkRoot) + U64Bytes(logRoot)
    + U64Bytes(logRootTransid) + U64Bytes(totalBytes) + U64Bytes(bytesUsed)
    + U64Bytes(rootDirObjectid) + U64Bytes(numDevices)
  }

  /** Bytes 168..196: block sizes and feature flags. */
  function GeometryBytes(sectorsize: u32, nodesize: u32, leafsize: u32, stripesize: u32
    , sysChunkArraySize: u32, chunkRootGeneration: u64, compatFlags: u64
    , compatRoFlags: u64, incompatFlags: u64): (r: seq<byte>)
    ensures |r| == 52
  {
    U32Bytes(sectorsize) + U32Bytes(nodesize) + U32Bytes(leafsize)
    + U32Bytes(stripesize) + U32Bytes(sysChunkArraySize)
    + U64Bytes(chunkRootGeneration) + U64Bytes(compatFlags) + U64Bytes(compatRoFlags)
    + U64Bytes(incompatFlags)
  }

  /** Bytes 196..299: checksum type, root levels and the device item. */
  function DescriptionBytes(csumType: ChecksumType, rootLevel: byte, chunkRootLevel: byte, logRootLevel: byte
    , devItem: DevItems.DevItem): (r: seq<byte>)
    ensures |r| == 103
  {
    U16Bytes(ChecksumTypeValue(csumType)) + [rootLevel] + [chunkRootLevel]
    + [logRootLevel] + DevItems.ToBytes(devItem)
  }

  /** Bytes 299..2859: label, generations and the system chunk array. */
  function LabelBytes(fsLabel: Label, cacheGeneration: u64, uuidTreeGeneration: u64, reserved: Reserved
    , sysChunkArray: SysChunkArray): (r: seq<byte>)
    ensures |r| == 2560
  {
    fsLabel + U64Bytes(cacheGeneration) + U64Bytes(uuidTreeGeneration) + reserved
    + sysChunkArray
  }

  /** Bytes 2859..4096: the root backups and the unused tail. */
  function BackupBytes(superRoots: SuperRoots, unused1: Unused): (r: seq<byte>)
    ensures |r| == 1237
  {
    RootsToBytes(superRoots) + unused1
  }

  /** The pieces of IdentityBytes lie one after another. */
  lemma IdentityBytesPieces(csum: Csum, fsid: Uuid, bytenr: u64, flags: u64, magic: u64, c: seq<byte>)
    requires c == IdentityBytes(csum, fsid, bytenr, flags, magic)
    ensures c[0..32] == csum
    ensures c[32..48] == fsid
    ensures c[48..56] == U64Bytes(bytenr)
    ensures c[56..64] == U64Bytes(flags)
    ensures c[64..72] == U64Bytes(magic)
  {
    var q0 := csum;
    var q1 := q0 + fsid;
    var q2 := q1 + U64Bytes(bytenr);
    var q3 := q2 + U64Bytes(flags);
    var q4 := q3 + U64Bytes(magic);
    assert c[..72] == q4;
    SplitPrefix(c, q3, U64Bytes(magic));
    SplitPrefix(c, q2, U64Bytes(flags));
    SplitPrefix(c, q1, U64Bytes(bytenr));
    SplitPrefix(c, q0, fsid);
  }

  /** Bytes 0..72 written by IdentityBytes read back as the same field values. */
  lemma IdentityBytesDecodes(csum: Csum, fsid: Uuid, bytenr: u64, flags: u64, magic: u64, b: seq<byte>)
    requires |b| == SUPERBLOCK_SIZE && b[0..72] == IdentityBytes(csum, fsid, bytenr, flags, magic)
    ensures b[0..32] == csum
    ensures b[32..48] == fsid
    ensures U64At(b, 48) == bytenr
    ensures U64At(b, 56) == flags
    ensures U64At(b, 64) == magic
  {
    IdentityBytesPieces(csum, fsid, bytenr, flags, magic, b[0..72]);
    SliceShift(b, 0, 72, 0, 32);
    SliceShift(b, 0, 72, 32, 48);
    SliceShift(b, 0, 72, 48, 56);
    U64DecodeEncode(bytenr);
    SliceShift(b, 0, 72, 56, 64);
    U64DecodeEncode(flags);
    SliceShift(b, 0, 72, 64, 72);
    U64DecodeEncode(magic);
  }

  /** A sequence made of the pieces of IdentityBytes, one after another, is IdentityBytes. */
  lemma IdentityBytesFromPieces(csum: Csum, fsid: Uuid, bytenr: u64, flags: u64, magic: u64, c: seq<byte>)
    requires |c| == 72
    requires c[0..32] == csum
    requires c[32..48] == fsid
    requires c[48..56] == U64Bytes(bytenr)
    requires c[56..64] == U64Bytes(flags)
    requires c[64..72] == U64Bytes(magic)
    ensures c == IdentityBytes(csum, fsid, bytenr, flags, magic)
  {
    PrefixAppend(c, 32, 48);
    PrefixAppend(c, 48, 56);
    PrefixAppend(c, 56, 64);
    PrefixAppend(c, 64, 72);
    assert c[..72] == c;
  }

  /** The field values read from bytes 0..72 write back to those bytes. */
  lemma IdentityBytesEncodes(b: seq<byte>, csum: Csum, fsid: Uuid, bytenr: u64, flags: u64, magic: u64)
    requires |b| == SUPERBLOCK_SIZE
    requires b[0..32] == csum
    requires b[32..48] == fsid
    requires U64At(b, 48) == bytenr
    requires U64At(b, 56) == flags
    requires U64At(b, 64) == magic
    ensures IdentityBytes(csum, fsid, bytenr, flags, magic) == b[0..72]
  {
    SliceShift(b, 0, 72, 0, 32);
    SliceShift(b, 0, 72, 32, 48);
    U64EncodeDecode(b[48..56]);
    SliceShift(b, 0, 72, 48, 56);
    U64EncodeDecode(b[56..64]);
    SliceShift(b, 0, 72, 56, 64);
    U64EncodeDecode(b[64..72]);
    SliceShift(b, 0, 72, 64, 72);
    IdentityBytesFromPieces(csum, fsid, bytenr, flags, magic, b[0..72]);
  }

  /** The pieces of TreeRootBytes lie one after another. */
  lemma TreeRootBytesPieces(generation: u64, root: u64, chunkRoot: u64, logRoot: u64, logRootTransid: u64
      , totalBytes: u64, bytesUsed: u64, rootDirObjectid: u64, numDevices: u64
      , c: seq<byte>)
    requires c == TreeRootBytes(generation, root, chunkRoot, logRoot, logRootTransid, totalBytes, bytesUsed, rootDirObjectid, numDevices)
    ensures c[0..8] == U64Bytes(generation)
    ensures c[8..16] == U64Bytes(root)
    ensures c[16..24] == U64Bytes(chunkRoot)
    ensures c[24..32] == U64Bytes(logRoot)
    ensures c[32..40] == U64Bytes(logRootTransid)
    ensures c[40..48] == U64Bytes(totalBytes)
    ensures c[48..56] == U64Bytes(bytesUsed)
    ensures c[56..64] == U64Bytes(rootDirObjectid)
    ensures c[64..72] == U64Bytes(numDevices)
  {
    var q0 := U64Bytes(generation);
    var q1 := q0 + U64Bytes(root);
    var q2 := q1 + U64Bytes(chunkRoot);
    var q3 := q2 + U64Bytes(logRoot);
    var q4 := q3 + U64Bytes(logRootTransid);
    var q5 := q4 + U64Bytes(totalBytes);
    var q6 := q5 + U64Bytes(bytesUsed);
    var q7 := q6 + U64Bytes(rootDirObjectid);
    var q8 := q7 + U64Bytes(numDevices);
    assert c[..72] == q8;
    SplitPrefix(c, q7, U64Bytes(numDevices));
    SplitPrefix(c, q6, U64Bytes(rootDirObjectid));
    SplitPrefix(c, q5, U64Bytes(bytesUsed));
    SplitPrefix(c, q4, U64Bytes(totalBytes));
    SplitPrefix(c, q3, U64Bytes(logRootTransid));
    SplitPrefix(c, q2, U64Bytes(logRoot));
    SplitPrefix(c, q1, U64Bytes(chunkRoot));
    SplitPrefix(c, q0, U64Bytes(root));
  }

  /** Bytes 72..144 written by TreeRootBytes read back as the same field values. */
  lemma TreeRootBytesDecodes(generation: u64, root: u64, chunkRoot: u64, logRoot: u64, logRootTransid: u64
      , totalBytes: u64, bytesUsed: u64, rootDirObjectid: u64, numDevices: u64
      , b: seq<byte>)
    requires |b| == SUPERBLOCK_SIZE && b[72..144] == TreeRootBytes(generation, root, chunkRoot, logRoot, logRootTransid, totalBytes, bytesUsed, rootDirObjectid, numDevices)
    ensures U64At(b, 72) == generation
    ensures U64At(b, 80) == root
    ensures U64At(b, 88) == chunkRoot
    ensures U64At(b, 96) == logRoot
    ensures U64At(b, 104) == logRootTransid
    ensures U64At(b, 112) == totalBytes
    ensures U64At(b, 120) == bytesUsed
    ensures U64At(b, 128) == rootDirObjectid
    ensures U64At(b, 136) == numDevices
  {
    TreeRootBytesPieces(generation, root, chunkRoot, logRoot, logRootTransid, totalBytes, bytesUsed, rootDirObjectid, numDevices, b[72..144]);
    SliceShift(b, 72, 144, 0, 8);
    U64DecodeEncode(generation);
    SliceShift(b, 72, 144, 8, 16);
    U64DecodeEncode(root);
    SliceShift(b, 72, 144, 16, 24);
    U64DecodeEncode(chunkRoot);
    SliceShift(b, 72, 144, 24, 32);
    U64DecodeEncode(logRoot);
    SliceShift(b, 72, 144, 32, 40);
    U64DecodeEncode(logRootTransid);
    SliceShift(b, 72, 144, 40, 48);
    U64DecodeEncode(totalBytes);
    SliceShift(b, 72, 144, 48, 56);
    U64DecodeEncode(bytesUsed);
    SliceShift(b, 72, 144, 56, 64);
    U64DecodeEncode(rootDirObjectid);
    SliceShift(b, 72, 144, 64, 72);
    U64DecodeEncode(numDevices);
  }

  /** A sequence made of the pieces of TreeRootBytes, one after another, is TreeRootBytes. */
  lemma TreeRootBytesFromPieces(generation: u64, root: u64, chunkRoot: u64, logRoot: u64, logRootTransid: u64
      , totalBytes: u64, bytesUsed: u64, rootDirObjectid: u64, numDevices: u64
      , c: seq<byte>)
    requires |c| == 72
    requires c[0..8] == U64Bytes(generation)
    requires c[8..16] == U64Bytes(root)
    requires c[16..24] == U64Bytes(chunkRoot)
    requires c[24..32] == U64Bytes(logRoot)
    requires c[32..40] == U64Bytes(logRootTransid)
    requires c[40..48] == U64Bytes(totalBytes)
    requires c[48..56] == U64Bytes(bytesUsed)
    requires c[56..64] == U64Bytes(rootDirObjectid)
    requires c[64..72] == U64Bytes(numDevices)
    ensures c == TreeRootBytes(generation, root, chunkRoot, logRoot, logRootTransid, totalBytes, bytesUsed, rootDirObjectid, numDevices)
  {
    PrefixAppend(c, 8, 16);
    PrefixAppend(c, 16, 24);
    PrefixAppend(c, 24, 32);
    PrefixAppend(c, 32, 40);
    PrefixAppend(c, 40, 48);
    PrefixAppend(c, 48, 56);
    PrefixAppend(c, 56, 64);
    PrefixAppend(c, 64, 72);
    assert c[..72] == c;
  }

  /** The field values read from bytes 72..144 write back to those bytes. */
  lemma TreeRootBytesEncodes(b: seq<byte>, generation: u64, root: u64, chunkRoot: u64, logRoot: u64
      , logRootTransid: u64, totalBytes: u64, bytesUsed: u64, rootDirObjectid: u64
      , numDevices: u64)
    requires |b| == SUPERBLOCK_SIZE
    requires U64At(b, 72) == generation
    requires U64At(b, 80) == root
    requires U64At(b, 88) == chunkRoot
    requires U64At(b, 96) == logRoot
    requires U64At(b, 104) == logRootTransid
    requires U64At(b, 112) == totalBytes
    requires U64At(b, 120) == bytesUsed
    requires U64At(b, 128) == rootDirObjectid
    requires U64At(b, 136) == numDevices
    ensures TreeRootBytes(generation, root, chunkRoot, logRoot, logRootTransid, totalBytes, bytesUsed, rootDirObjectid, numDevices) == b[72..144]
  {
    U64EncodeDecode(b[72..80]);
    SliceShift(b, 72, 144, 0, 8);
    U64EncodeDecode(b[80..88]);
    SliceShift(b, 72, 144, 8, 16);
    U64EncodeDecode(b[88..96]);
    SliceShift(b, 72, 144, 16, 24);
    U64EncodeDecode(b[96..104]);
    SliceShift(b, 72, 144, 24, 32);
    U64EncodeDecode(b[104..112]);
    SliceShift(b, 72, 144, 32, 40);
    U64EncodeDecode(b[112..120]);
    SliceShift(b, 72, 144, 40, 48);
    U64EncodeDecode(b[120..128]);
    SliceShift(b, 72, 144, 48, 56);
    U64EncodeDecode(b[128..136]);
    SliceShift(b, 72, 144, 56, 64);
    U64EncodeDecode(b[136..144]);
    SliceShift(b, 72, 144, 64, 72);
    TreeRootBytesFromPieces(generation, root, chunkRoot, logRoot, logRootTransid, totalBytes, bytesUsed, rootDirObjectid, numDevices, b[72..144]);
  }

  /** The pieces of GeometryBytes lie one after another. */
  lemma GeometryBytesPieces(sectorsize: u32, nodesize: u32, leafsize: u32, stripesize: u32
      , sysChunkArraySize: u32, chunkRootGeneration: u64, compatFlags: u64
      , compatRoFlags: u64, incompatFlags: u64, c: seq<byte>)
    requires c == GeometryBytes(sectorsize, nodesize, leafsize, stripesize, sysChunkArraySize, chunkRootGeneration, compatFlags, compatRoFlags, incompatFlags)
    ensures c[0..4] == U32Bytes(sectorsize)
    ensures c[4..8] == U32Bytes(nodesize)
    ensures c[8..12] == U32Bytes(leafsize)
    ensures c[12..16] == U32Bytes(stripesize)
    ensures c[16..20] == U32Bytes(sysChunkArraySize)
    ensures c[20..28] == U64Bytes(chunkRootGeneration)
    ensures c[28..36] == U64Bytes(compatFlags)
    ensures c[36..44] == U64Bytes(compatRoFlags)
    ensures c[44..52] == U64Bytes(incompatFlags)
  {
    var q0 := U32Bytes(sectorsize);
    var q1 := q0 + U32Bytes(nodesize);
    var q2 := q1 + U32Bytes(leafsize);
    var q3 := q2 + U32Bytes(stripesize);
    var q4 := q3 + U32Bytes(sysChunkArraySize);
    var q5 := q4 + U64Bytes(chunkRootGeneration);
    var q6 := q5 + U64Bytes(compatFlags);
    var q7 := q6 + U64Bytes(compatRoFlags);
    var q8 := q7 + U64Bytes(incompatFlags);
    assert c[..52] == q8;
    SplitPrefix(c, q7, U64Bytes(incompatFlags));
    SplitPrefix(c, q6, U64Bytes(compatRoFlags));
    SplitPrefix(c, q5, U64Bytes(compatFlags));
    SplitPrefix(c, q4, U64Bytes(chunkRootGeneration));
    SplitPrefix(c, q3, U32Bytes(sysChunkArraySize));
    SplitPrefix(c, q2, U32Bytes(stripesize));
    SplitPrefix(c, q1, U32Bytes(leafsize));
    SplitPrefix(c, q0, U32Bytes(nodesize));
  }

  /** Bytes 144..196 written by GeometryBytes read back as the same field values. */
  lemma GeometryBytesDecodes(sectorsize: u32, nodesize: u32, leafsize: u32, stripesize: u32
      , sysChunkArraySize: u32, chunkRootGeneration: u64, compatFlags: u64
      , compatRoFlags: u64, incompatFlags: u64, b: seq<byte>)
    requires |b| == SUPERBLOCK_SIZE && b[144..196] == GeometryBytes(sectorsize, nodesize, leafsize, stripesize, sysChunkArraySize, chunkRootGeneration, compatFlags, compatRoFlags, incompatFlags)
    ensures U32At(b, 144) == sectorsize
    ensures U32At(b, 148) == nodesize
    ensures U32At(b, 152) == leafsize
    ensures U32At(b, 156) == stripesize
    ensures U32At(b, 160) == sysChunkArraySize
    ensures U64At(b, 164) == chunkRootGeneration
    ensures U64At(b, 172) == compatFlags
    ensures U64At(b, 180) == compatRoFlags
    ensures U64At(b, 188) == incompatFlags
  {
    GeometryBytesPieces(sectorsize, nodesize, leafsize, stripesize, sysChunkArraySize, chunkRootGeneration, compatFlags, compatRoFlags, incompatFlags, b[144..196]);
    SliceShift(b, 144, 196, 0, 4);
    U32DecodeEncode(sectorsize);
    SliceShift(b, 144, 196, 4, 8);
    U32DecodeEncode(nodesize);
    SliceShift(b, 144, 196, 8, 12);
    U32DecodeEncode(leafsize);
    SliceShift(b, 144, 196, 12, 16);
    U32DecodeEncode(stripesize);
    SliceShift(b, 144, 196, 16, 20);
    U32DecodeEncode(sysChunkArraySize);
    SliceShift(b, 144, 196, 20, 28);
    U64DecodeEncode(chunkRootGeneration);
    SliceShift(b, 144, 196, 28, 36);
    U64DecodeEncode(compatFlags);
    SliceShift(b, 144, 196, 36, 44);
    U64DecodeEncode(compatRoFlags);
    SliceShift(b, 144, 196, 44, 52);
    U64DecodeEncode(incompatFlags);
  }

  /** A sequence made of the pieces of GeometryBytes, one after another, is GeometryBytes. */
  lemma GeometryBytesFromPieces(sectorsize: u32, nodesize: u32, leafsize: u32, stripesize: u32
      , sysChunkArraySize: u32, chunkRootGeneration: u64, compatFlags: u64
      , compatRoFlags: u64, incompatFlags: u64, c: seq<byte>)
    requires |c| == 52
    requires c[0..4] == U32Bytes(sectorsize)
    requires c[4..8] == U32Bytes(nodesize)
    requires c[8..12] == U32Bytes(leafsize)
    requires c[12..16] == U32Bytes(stripesize)
    requires c[16..20] == U32Bytes(sysChunkArraySize)
    requires c[20..28] == U64Bytes(chunkRootGeneration)
    requires c[28..36] == U64Bytes(compatFlags)
    requires c[36..44] == U64Bytes(compatRoFlags)
    requires c[44..52] == U64Bytes(incompatFlags)
    ensures c == GeometryBytes(sectorsize, nodesize, leafsize, stripesize, sysChunkArraySize, chunkRootGeneration, compatFlags, compatRoFlags, incompatFlags)
  {
    PrefixAppend(c, 4, 8);
    PrefixAppend(c, 8, 12);
    PrefixAppend(c, 12, 16);
    PrefixAppend(c, 16, 20);
    PrefixAppend(c, 20, 28);
    PrefixAppend(c, 28, 36);
    PrefixAppend(c, 36, 44);
    PrefixAppend(c, 44, 52);
    assert c[..52] == c;
  }

  /** The field values read from bytes 144..196 write back to those bytes. */
  lemma GeometryBytesEncodes(b: seq<byte>, sectorsize: u32, nodesize: u32, leafsize: u32, stripesize: u32
      , sysChunkArraySize: u32, chunkRootGeneration: u64, compatFlags: u64
      , compatRoFlags: u64, incompatFlags: u64)
    requires |b| == SUPERBLOCK_SIZE
    requires U32At(b, 144) == sectorsize
    requires U32At(b, 148) == nodesize
    requires U32At(b, 152) == leafsize
    requires U32At(b, 156) == stripesize
    requires U32At(b, 160) == sysChunkArraySize
    requires U64At(b, 164) == chunkRootGeneration
    requires U64At(b, 172) == compatFlags
    requires U64At(b, 180) == compatRoFlags
    requires U64At(b, 188) == incompatFlags
    ensures GeometryBytes(sectorsize, nodesize, leafsize, stripesize, sysChunkArraySize, chunkRootGeneration, compatFlags, compatRoFlags, incompatFlags) == b[144..196]
  {
    U32EncodeDecode(b[144..148]);
    SliceShift(b, 144, 196, 0, 4);
    U32EncodeDecode(b[148..152]);
    SliceShift(b, 144, 196, 4, 8);
    U32EncodeDecode(b[152..156]);
    SliceShift(b, 144, 196, 8, 12);
    U32EncodeDecode(b[156..160]);
    SliceShift(b, 144, 196, 12, 16);
    U32EncodeDecode(b[160..164]);
    SliceShift(b, 144, 196, 16, 20);
    U64EncodeDecode(b[164..172]);
    SliceShift(b, 144, 196, 20, 28);
    U64EncodeDecode(b[172..180]);
    SliceShift(b, 144, 196, 28, 36);
    U64EncodeDecode(b[180..188]);
    SliceShift(b, 144, 196, 36, 44);
    U64EncodeDecode(b[188..196]);
    SliceShift(b, 144, 196, 44, 52);
    GeometryBytesFromPieces(sectorsize, nodesize, leafsize, stripesize, sysChunkArraySize, chunkRootGeneration, compatFlags, compatRoFlags, incompatFlags, b[144..196]);
  }

  /** The pieces of DescriptionBytes lie one after another. */
  lemma DescriptionBytesPieces(csumType: ChecksumType, rootLevel: byte, chunkRootLevel: byte, logRootLevel: byte
      , devItem: DevItems.DevItem, c: seq<byte>)
    requires c == DescriptionBytes(csumType, rootLevel, chunkRootLevel, logRootLevel, devItem)
    ensures c[0..2] == U16Bytes(ChecksumTypeValue(csumType))
    ensures c[2..3] == [rootLevel]
    ensures c[3..4] == [chunkRootLevel]
    ensures c[4..5] == [logRootLevel]
    ensures c[5..103] == DevItems.ToBytes(devItem)
  {
    var q0 := U16Bytes(ChecksumTypeValue(csumType));
    var q1 := q0 + [rootLevel];
    var q2 := q1 + [chunkRootLevel];
    var q3 := q2 + [logRootLevel];
    var q4 := q3 + DevItems.ToBytes(devItem);
    assert c[..103] == q4;
    SplitPrefix(c, q3, DevItems.ToBytes(devItem));
    SplitPrefix(c, q2, [logRootLevel]);
    SplitPrefix(c, q1, [chunkRootLevel]);
    SplitPrefix(c, q0, [rootLevel]);
  }

  /** Bytes 196..299 written by DescriptionBytes read back as the same field values. */
  lemma DescriptionBytesDecodes(csumType: ChecksumType, rootLevel: byte, chunkRootLevel: byte, logRootLevel: byte
      , devItem: DevItems.DevItem, b: seq<byte>)
    requires |b| == SUPERBLOCK_SIZE && b[196..299] == DescriptionBytes(csumType, rootLevel, chunkRootLevel, logRootLevel, devItem)
    ensures ChecksumTypeFromU16(U16At(b, 196)) == Some(csumType)
    ensures b[198] == rootLevel
    ensures b[199] == chunkRootLevel
    ensures b[200] == logRootLevel
    ensures DevItems.FromBytes(b[201..299]).value == devItem
  {
    DescriptionBytesPieces(csumType, rootLevel, chunkRootLevel, logRootLevel, devItem, b[196..299]);
    SliceShift(b, 196, 299, 0, 2);
    U16DecodeEncode(ChecksumTypeValue(csumType));
    ChecksumTypeRoundTrip(csumType);
    SliceShift(b, 196, 299, 2, 3);
    assert b[198] == rootLevel;
    SliceShift(b, 196, 299, 3, 4);
    assert b[199] == chunkRootLevel;
    SliceShift(b, 196, 299, 4, 5);
    assert b[200] == logRootLevel;
    SliceShift(b, 196, 299, 5, 103);
    DevItems.FromBytesToBytes(devItem);
  }

  /** A sequence made of the pieces of DescriptionBytes, one after another, is DescriptionBytes. */
  lemma DescriptionBytesFromPieces(csumType: ChecksumType, rootLevel: byte, chunkRootLevel: byte, logRootLevel: byte
      , devItem: DevItems.DevItem, c: seq<byte>)
    requires |c| == 103
    requires c[0..2] == U16Bytes(ChecksumTypeValue(csumType))
    requires c[2..3] == [rootLevel]
    requires c[3..4] == [chunkRootLevel]
    requires c[4..5] == [logRootLevel]
    requires c[5..103] == DevItems.ToBytes(devItem)
    ensures c == DescriptionBytes(csumType, rootLevel, chunkRootLevel, logRootLevel, devItem)
  {
    PrefixAppend(c, 2, 3);
    PrefixAppend(c, 3, 4);
    PrefixAppend(c, 4, 5);
    PrefixAppend(c, 5, 103);
    assert c[..103] == c;
  }

  /** The field values read from bytes 196..299 write back to those bytes. */
  lemma DescriptionBytesEncodes(b: seq<byte>, csumType: ChecksumType, rootLevel: byte, chunkRootLevel: byte
      , logRootLevel: byte, devItem: DevItems.DevItem)
    requires |b| == SUPERBLOCK_SIZE
    requires ChecksumTypeFromU16(U16At(b, 196)) == Some(csumType)
    requires b[198] == rootLevel
    requires b[199] == chunkRootLevel
    requires b[200] == logRootLevel
    requires DevItems.FromBytes(b[201..299]).value == devItem
    ensures DescriptionBytes(csumType, rootLevel, chunkRootLevel, logRootLevel, devItem) == b[196..299]
  {
    U16EncodeDecode(b[196..198]);
    SliceShift(b, 196, 299, 0, 2);
    assert b[198..199] == [b[198]];
    SliceShift(b, 196, 299, 2, 3);
    assert b[199..200] == [b[199]];
    SliceShift(b, 196, 299, 3, 4);
    assert b[200..201] == [b[200]];
    SliceShift(b, 196, 299, 4, 5);
    DevItems.ToBytesFromBytes(b[201..299]);
    SliceShift(b, 196, 299, 5, 103);
    DescriptionBytesFromPieces(csumType, rootLevel, chunkRootLevel, logRootLevel, devItem, b[196..299]);
  }

  /** The pieces of LabelBytes lie one after another. */
  lemma LabelBytesPieces(fsLabel: Label, cacheGeneration: u64, uuidTreeGeneration: u64, reserved: Reserved
      , sysChunkArray: SysChunkArray, c: seq<byte>)
    requires c == LabelBytes(fsLabel, cacheGeneration, uuidTreeGeneration, reserved, sysChunkArray)
    ensures c[0..256] == fsLabel
    ensures c[256..264] == U64Bytes(cacheGeneration)
    ensures c[264..272] == U64Bytes(uuidTreeGeneration)
    ensures c[272..512] == reserved
    ensures c[512..2560] == sysChunkArray
  {
    var q0 := fsLabel;
    var q1 := q0 + U64Bytes(cacheGeneration);
    var q2 := q1 + U64Bytes(uuidTreeGeneration);
    var q3 := q2 + reserved;
    var q4 := q3 + sysChunkArray;
    assert c[..2560] == q4;
    SplitPrefix(c, q3, sysChunkArray);
    SplitPrefix(c, q2, reserved);
    SplitPrefix(c, q1, U64Bytes(uuidTreeGeneration));
    SplitPrefix(c, q0, U64Bytes(cacheGeneration));
  }

  /** Bytes 299..2859 written by LabelBytes read back as the same field values. */
  lemma LabelBytesDecodes(fsLabel: Label, cacheGeneration: u64, uuidTreeGeneration: u64, reserved: Reserved
      , sysChunkArray: SysChunkArray, b: seq<byte>)
    requires |b| == SUPERBLOCK_SIZE && b[299..2859] == LabelBytes(fsLabel, cacheGeneration, uuidTreeGeneration, reserved, sysChunkArray)
    ensures b[299..555] == fsLabel
    ensures U64At(b, 555) == cacheGeneration
    ensures U64At(b, 563) == uuidTreeGeneration
    ensures b[571..811] == reserved
    ensures b[811..2859] == sysChunkArray
  {
    LabelBytesPieces(fsLabel, cacheGeneration, uuidTreeGeneration, reserved, sysChunkArray, b[299..2859]);
    SliceShift(b, 299, 2859, 0, 256);
    SliceShift(b, 299, 2859, 256, 264);
    U64DecodeEncode(cacheGeneration);
    SliceShift(b, 299, 2859, 264, 272);
    U64DecodeEncode(uuidTreeGeneration);
    SliceShift(b, 299, 2859, 272, 512);
    SliceShift(b, 299, 2859, 512, 2560);
  }

  /** A sequence made of the pieces of LabelBytes, one after another, is LabelBytes. */
  lemma LabelBytesFromPieces(fsLabel: Label, cacheGeneration: u64, uuidTreeGeneration: u64, reserved: Reserved
      , sysChunkArray: SysChunkArray, c: seq<byte>)
    requires |c| == 2560
    requires c[0..256] == fsLabel
    requires c[256..264] == U64Bytes(cacheGeneration)
    requires c[264..272] == U64Bytes(uuidTreeGeneration)
    requires c[272..512] == reserved
    requires c[512..2560] == sysChunkArray
    ensures c == LabelBytes(fsLabel, cacheGeneration, uuidTreeGeneration, reserved, sysChunkArray)
  {
    PrefixAppend(c, 256, 264);
    PrefixAppend(c, 264, 272);
    PrefixAppend(c, 272, 512);
    PrefixAppend(c, 512, 2560);
    assert c[..2560] == c;
  }

  /** The field values read from bytes 299..2859 write back to those bytes. */
  lemma LabelBytesEncodes(b: seq<byte>, fsLabel: Label, cacheGeneration: u64, uuidTreeGeneration: u64
      , reserved: Reserved, sysChunkArray: SysChunkArray)
    requires |b| == SUPERBLOCK_SIZE
    requires b[299..555] == fsLabel
    requires U64At(b, 555) == cacheGeneration
    requires U64At(b, 563) == uuidTreeGeneration
    requires b[571..811] == reserved
    requires b[811..2859] == sysChunkArray
    ensures LabelBytes(fsLabel, cacheGeneration, uuidTreeGeneration, reserved, sysChunkArray) == b[299..2859]
  {
    SliceShift(b, 299, 2859, 0, 256);
    U64EncodeDecode(b[555..563]);
    SliceShift(b, 299, 2859, 256, 264);
    U64EncodeDecode(b[563..571]);
    SliceShift(b, 299, 2859, 264, 272);
    SliceShift(b, 299, 2859, 272, 512);
    SliceShift(b, 299, 2859, 512, 2560);
    LabelBytesFromPieces(fsLabel, cacheGeneration, uuidTreeGeneration, reserved, sysChunkArray, b[299..2859]);
  }

  /** The pieces of BackupBytes lie one after another. */
  lemma BackupBytesPieces(superRoots: SuperRoots, unused1: Unused, c: seq<byte>)
    requires c == BackupBytes(superRoots, unused1)
    ensures c[0..672] == RootsToBytes(superRoots)
    ensures c[672..1237] == unused1
  {
    var q0 := RootsToBytes(superRoots);
    var q1 := q0 + unused1;
    assert c[..1237] == q1;
    SplitPrefix(c, q0, unused1);
  }

  /** Bytes 2859..4096 written by BackupBytes read back as the same field values. */
  lemma BackupBytesDecodes(superRoots: SuperRoots, unused1: Unused, b: seq<byte>)
    requires |b| == SUPERBLOCK_SIZE && b[2859..4096] == BackupBytes(superRoots, unused1)
    ensures RootsFromBytes(b[2859..3531], 4) == superRoots
    ensures b[3531..4096] == unused1
  {
    BackupBytesPieces(superRoots, unused1, b[2859..4096]);
    SliceShift(b, 2859, 4096, 0, 672);
    RootsFromBytesToBytes(superRoots);
    SliceShift(b, 2859, 4096, 672, 1237);
  }

  /** A sequence made of the pieces of BackupBytes, one after another, is BackupBytes. */
  lemma BackupBytesFromPieces(superRoots: SuperRoots, unused1: Unused, c: seq<byte>)
    requires |c| == 1237
    requires c[0..672] == RootsToBytes(superRoots)
    requires c[672..1237] == unused1
    ensures c == BackupBytes(superRoots, unused1)
  {
    PrefixAppend(c, 672, 1237);
    assert c[..1237] == c;
  }

  /** The field values read from bytes 2859..4096 write back to those bytes. */
  lemma BackupBytesEncodes(b: seq<byte>, superRoots: SuperRoots, unused1: Unused)
    requires |b| == SUPERBLOCK_SIZE
    requires RootsFromBytes(b[2859..3531], 4) == superRoots
    requires b[3531..4096] == unused1
    ensures BackupBytes(superRoots, unused1) == b[2859..4096]
  {
    RootsToBytesFromBytes(b[2859..3531], 4);
    SliceShift(b, 2859, 4096, 0, 672);
    SliceShift(b, 2859, 4096, 672, 1237);
    BackupBytesFromPieces(superRoots, unused1, b[2859..4096]);
  }

  /** Writes the fields back at the offsets FromBytes reads them from. */
  function ToBytes(x: SuperBlock): (r: seq<byte>)
    ensures |r| == SUPERBLOCK_SIZE
  {
    IdentityBytes(x.csum, x.fsid, x.bytenr, x.flags, x.magic)
    + TreeRootBytes(x.generation, x.root, x.chunkRoot, x.logRoot, x.logRootTransid, x.totalBytes, x.bytesUsed, x.rootDirObjectid, x.numDevices)
    + GeometryBytes(x.sectorsize, x.nodesize, x.leafsize, x.stripesize, x.sysChunkArraySize, x.chunkRootGeneration, x.compatFlags, x.compatRoFlags, x.incompatFlags)
    + DescriptionBytes(x.csumType, x.rootLevel, x.chunkRootLevel, x.logRootLevel, x.devItem)
    + LabelBytes(x.fsLabel, x.cacheGeneration, x.uuidTreeGeneration, x.reserved, x.sysChunkArray)
    + BackupBytes(x.superRoots, x.unused1)
  }

  lemma FromBytesToBytes(x: SuperBlock)
    ensures FromBytes(ToBytes(x)) == Ok(x)
  {
    var b := ToBytes(x);
    var p0 := IdentityBytes(x.csum, x.fsid, x.bytenr, x.flags, x.magic);
    var p1 := TreeRootBytes(x.generation, x.root, x.chunkRoot, x.logRoot, x.logRootTransid, x.totalBytes, x.bytesUsed, x.rootDirObjectid, x.numDevices);
    var p2 := GeometryBytes(x.sectorsize, x.nodesize, x.leafsize, x.stripesize, x.sysChunkArraySize, x.chunkRootGeneration, x.compatFlags, x.compatRoFlags, x.incompatFlags);
    var p3 := DescriptionBytes(x.csumType, x.rootLevel, x.chunkRootLevel, x.logRootLevel, x.devItem);
    var p4 := LabelBytes(x.fsLabel, x.cacheGeneration, x.uuidTreeGeneration, x.reserved, x.sysChunkArray);
    var p5 := BackupBytes(x.superRoots, x.unused1);
    assert b[..SUPERBLOCK_SIZE] == p0 + p1 + p2 + p3 + p4 + p5;
    SplitPrefix(b, p0 + p1 + p2 + p3 + p4, p5);
    SplitPrefix(b, p0 + p1 + p2 + p3, p4);
    SplitPrefix(b, p0 + p1 + p2, p3);
    SplitPrefix(b, p0 + p1, p2);
    SplitPrefix(b, p0, p1);
    IdentityBytesDecodes(x.csum, x.fsid, x.bytenr, x.flags, x.magic, b);
    TreeRootBytesDecodes(x.generation, x.root, x.chunkRoot, x.logRoot, x.logRootTransid, x.totalBytes, x.bytesUsed, x.rootDirObjectid, x.numDevices, b);
    GeometryBytesDecodes(x.sectorsize, x.nodesize, x.leafsize, x.stripesize, x.sysChunkArraySize, x.chunkRootGeneration, x.compatFlags, x.compatRoFlags, x.incompatFlags, b);
    DescriptionBytesDecodes(x.csumType, x.rootLevel, x.chunkRootLevel, x.logRootLevel, x.devItem, b);
    LabelBytesDecodes(x.fsLabel, x.cacheGeneration, x.uuidTreeGeneration, x.reserved, x.sysChunkArray, b);
    BackupBytesDecodes(x.superRoots, x.unused1, b);
  }

  lemma ToBytesFromBytes(b: seq<byte>)
    requires FromBytes(b).Ok?
    ensures ToBytes(FromBytes(b).value) == b
  {
    var x := FromBytes(b).value;
    IdentityBytesEncodes(b, x.csum, x.fsid, x.bytenr, x.flags, x.magic);
    TreeRootBytesEncodes(b, x.generation, x.root, x.chunkRoot, x.logRoot, x.logRootTransid, x.totalBytes, x.bytesUsed, x.rootDirObjectid, x.numDevices);
    GeometryBytesEncodes(b, x.sectorsize, x.nodesize, x.leafsize, x.stripesize, x.sysChunkArraySize, x.chunkRootGeneration, x.compatFlags, x.compatRoFlags, x.incompatFlags);
    DescriptionBytesEncodes(b, x.csumType, x.rootLevel, x.chunkRootLevel, x.logRootLevel, x.devItem);
    LabelBytesEncodes(b, x.fsLabel, x.cacheGeneration, x.uuidTreeGeneration, x.reserved, x.sysChunkArray);
    BackupBytesEncodes(b, x.superRoots, x.unused1);
    PrefixAppend(b, 72, 144);
    PrefixAppend(b, 144, 196);
    PrefixAppend(b, 196, 299);
    PrefixAppend(b, 299, 2859);
    PrefixAppend(b, 2859, 4096);
    assert b[..SUPERBLOCK_SIZE] == b;
  }


  /** Whether the magic field holds the filesystem magic. Decoding a
      superblock does not check it. */
  predicate HasValidMagic(sb: SuperBlock)
  {
    sb.magic == Constants.MAGIC
  }

  /** On disk: the eight bytes at 64 spell "_BHRfS_M". */
  lemma HasValidMagicFromBytes(b: seq<byte>)
    requires FromBytes(b).Ok?
    ensures HasValidMagic(FromBytes(b).value) <==> b[64..72] == Constants.MAGIC_BYTES
  {
    Constants.MagicIsAsciiText();
    FromLEInjective(b[64..72], Constants.MAGIC_BYTES);
  }

  /** The length of the text of a label: the bytes before its first NUL, or
      the whole label when it has none. */
  function TextLength(l: seq<byte>): (n: nat)
    ensures n <= |l|
    ensures forall j :: 0 <= j < n ==> l[j] != 0
    ensures n < |l| ==> l[n] == 0
  {
    if |l| == 0 || l[0] == 0 then 0 else 1 + TextLength(l[1..])
  }

  /** A label is a NUL-terminated string that contains neither '/' nor '\\'. */
  predicate LabelWellFormed(l: Label)
  {
    var n := TextLength(l);
    n < |l| && forall j :: 0 <= j < n ==> l[j] != '/' as byte && l[j] != '\\' as byte
  }

  /** The system chunk array holds sys_chunk_array_size meaningful bytes,
      within its capacity, and the label is well formed. */
  predicate WellFormed(sb: SuperBlock)
  {
    sb.sysChunkArraySize <= Constants.MAX_SYSTEM_CHUNK_ARRAY_SIZE && LabelWellFormed(sb.fsLabel)
  }

  /** The meaningful prefix of the system chunk array of a well-formed superblock. */
  function SysChunks(sb: SuperBlock): (r: seq<byte>)
    requires WellFormed(sb)
    ensures |r| == sb.sysChunkArraySize
    ensures r == sb.sysChunkArray[..|r|]
  {
    sb.sysChunkArray[..sb.sysChunkArraySize]
  }

  /** Read from the bytes of a superblock: the system chunks are the
      sys_chunk_array_size bytes (the u32 at offset 160, at most 2048) from
      offset 811 on. */
  lemma SysChunksFromBytes(b: seq<byte>)
    requires FromBytes(b).Ok? && WellFormed(FromBytes(b).value)
    ensures U32At(b, 160) <= Constants.MAX_SYSTEM_CHUNK_ARRAY_SIZE
    ensures SysChunks(FromBytes(b).value) == b[811..811 + U32At(b, 160)]
  {
    SliceShift(b, 811, 2859, 0, U32At(b, 160));
  }

  /** A superblock copy at addr is usable only if all its bytes fit on the device. */
  predicate CopyFits(addr: u64, deviceSize: nat)
  {
    addr + SUPERBLOCK_SIZE <= deviceSize
  }

  /** The superblock addresses, primary first, whose copies fit on a device of
      the given size. */
  function UsableSuperblockAddrs(deviceSize: nat): (r: seq<u64>)
    ensures forall a :: a in r <==> a in Constants.SUPERBLOCK_ADDRS && CopyFits(a, deviceSize)
    ensures |r| <= |Constants.SUPERBLOCK_ADDRS| && r == Constants.SUPERBLOCK_ADDRS[..|r|]
  {
    Constants.SuperblockAddrsOrdered();
    Fitting(Constants.SUPERBLOCK_ADDRS, deviceSize)
  }

  function Fitting(addrs: seq<u64>, deviceSize: nat): (r: seq<u64>)
    requires forall i, j :: 0 <= i < j < |addrs| ==> addrs[i] < addrs[j]
    ensures forall a :: a in r <==> a in addrs && CopyFits(a, deviceSize)
    ensures |r| <= |addrs| && r == addrs[..|r|]
  {
    if |addrs| == 0 || !CopyFits(addrs[0], deviceSize) then []
    else [addrs[0]] + Fitting(addrs[1..], deviceSize)
  }

  /** A device too small for the primary copy has no usable copy; one of
      256 GiB and more has all three. */
  lemma UsableSuperblockAddrsBounds(deviceSize: nat)
    ensures deviceSize < Constants.PRIMARY_SUPERBLOCK_ADDR + SUPERBLOCK_SIZE ==> UsableSuperblockAddrs(deviceSize) == []
    ensures deviceSize >= 0x40_0000_0000 + SUPERBLOCK_SIZE ==> UsableSuperblockAddrs(deviceSize) == Constants.SUPERBLOCK_ADDRS
  {
    var r := UsableSuperblockAddrs(deviceSize);
    var addrs := Constants.SUPERBLOCK_ADDRS;
    assert |r| > 0 ==> r[0] in r && r[0] == addrs[0];
    if deviceSize >= 0x40_0000_0000 + SUPERBLOCK_SIZE {
      var third := addrs[2];
      assert third in r;
      assert third !in addrs[..0] && third !in addrs[..1] && third !in addrs[..2];
    }
  }
}
