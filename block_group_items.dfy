/**
  The 24-byte block group item of src/extent/block_group_item.rs and the two
  flag sets its flags word holds: the allocation type and the replication
  policy.
 */
module BlockGroupItems {
  import opened Primitives
  import opened BitFlags

  const BLOCK_GROUP_ITEM_SIZE: nat := 24

  /** The space used, the backing chunk and the flags word. */
  datatype BlockGroupItem = BlockGroupItem(
    used: u64,
    chunkObjectid: u64,
    flags: u64)

  /** Reads the record from exactly BLOCK_GROUP_ITEM_SIZE bytes; every sequence of that length decodes. */
  function FromBytes(b: seq<byte>): (r: Result<BlockGroupItem>)
    ensures r.Ok? <==> |b| == BLOCK_GROUP_ITEM_SIZE
  {
    if |b| != BLOCK_GROUP_ITEM_SIZE then Err(SizeMismatch)
    else
      Ok(BlockGroupItem(
        U64At(b, 0),
        U64At(b, 8),
        U64At(b, 16)))
  }

  /** Writes the fields back at the offsets FromBytes reads them from. */
  function ToBytes(x: BlockGroupItem): (r: seq<byte>)
    ensures |r| == BLOCK_GROUP_ITEM_SIZE
  {
    U64Bytes(x.used) + U64Bytes(x.chunkObjectid) + U64Bytes(x.flags)
  }

  lemma FromBytesToBytes(x: BlockGroupItem)
    ensures FromBytes(ToBytes(x)) == Ok(x)
  {
    var b := ToBytes(x);
    var q0 := U64Bytes(x.used);
    var q1 := q0 + U64Bytes(x.chunkObjectid);
    var q2 := q1 + U64Bytes(x.flags);
    assert b[..BLOCK_GROUP_ITEM_SIZE] == q2;
    SplitPrefix(b, q1, U64Bytes(x.flags));
    SplitPrefix(b, q0, U64Bytes(x.chunkObjectid));
    assert b[0..8] == U64Bytes(x.used);
    U64DecodeEncode(x.used);
    assert b[8..16] == U64Bytes(x.chunkObjectid);
    U64DecodeEncode(x.chunkObjectid);
    assert b[16..24] == U64Bytes(x.flags);
    U64DecodeEncode(x.flags);
  }

  lemma ToBytesFromBytes(b: seq<byte>)
    requires |b| == BLOCK_GROUP_ITEM_SIZE
    ensures ToBytes(FromBytes(b).value) == b
  {
    U64EncodeDecode(b[0..8]);
    U64EncodeDecode(b[8..16]);
    U64EncodeDecode(b[16..24]);
    PrefixAppend(b, 8, 16);
    PrefixAppend(b, 16, 24);
    assert b[..BLOCK_GROUP_ITEM_SIZE] == b;
  }


  // Allocation types: the kind of storage a block group allows.
  const DATA: bv64 := 0x1
  const SYSTEM: bv64 := 0x2
  const METADATA: bv64 := 0x4

  // Replication policies.
  const RAID0: bv64 := 0x8
  const RAID1: bv64 := 0x10
  const DUP: bv64 := 0x20
  const RAID10: bv64 := 0x40
  const RAID5: bv64 := 0x80
  const RAID6: bv64 := 0x100
  const RAID1C3: bv64 := 0x200
  const RAID1C4: bv64 := 0x400

  const ALLOCATION_TYPES: seq<bv64> := [DATA, SYSTEM, METADATA]
  const REPLICATION_POLICIES: seq<bv64> := [RAID0, RAID1, DUP, RAID10, RAID5, RAID6, RAID1C3, RAID1C4]

  /** The known bits of each of the two flag sets. */
  const ALLOCATION_MASK: bv64 := 0x7
  const REPLICATION_MASK: bv64 := 0x7F8

  /** The allocation part and the replication part of a flags word. */
  function AllocationOf(flags: bv64): bv64 { FromBitsTruncate(ALLOCATION_MASK, flags) }
  function ReplicationOf(flags: bv64): bv64 { FromBitsTruncate(REPLICATION_MASK, flags) }

  /** System chunks cannot be mixed with data or metadata; data and metadata may. */
  predicate ValidAllocation(flags: bv64)
  {
    Contains(flags, SYSTEM) ==> !Contains(flags, DATA) && !Contains(flags, METADATA)
  }

  /** Only one replication policy may be set for a given group. */
  predicate SingleReplication(flags: bv64)
  {
    var r := ReplicationOf(flags);
    r & (r - 1) == 0
  }

  predicate WellFormedFlags(flags: bv64)
  {
    ValidAllocation(flags) && SingleReplication(flags)
  }

  /** The declared flags are eleven distinct single bits; the three allocation
      types make up the allocation mask and the eight policies the disjoint
      replication mask. */
  lemma FlagBitsAreDistinct()
    ensures forall i :: 0 <= i < |ALLOCATION_TYPES| ==> IsSingleBit(ALLOCATION_TYPES[i])
    ensures forall i :: 0 <= i < |REPLICATION_POLICIES| ==> IsSingleBit(REPLICATION_POLICIES[i])
    ensures forall i, j :: 0 <= i < j < |REPLICATION_POLICIES| ==> REPLICATION_POLICIES[i] & REPLICATION_POLICIES[j] == 0
    ensures ALLOCATION_MASK == DATA | SYSTEM | METADATA
    ensures REPLICATION_MASK == RAID0 | RAID1 | DUP | RAID10 | RAID5 | RAID6 | RAID1C3 | RAID1C4
    ensures ALLOCATION_MASK & REPLICATION_MASK == 0
  {
  }

  /** A flags word splits uniquely into an allocation part and a replication
      part that together hold all its declared bits. */
  lemma FlagsSplit(flags: bv64)
    ensures AllocationOf(flags) | ReplicationOf(flags) == flags & (ALLOCATION_MASK | REPLICATION_MASK)
    ensures AllocationOf(flags) & ReplicationOf(flags) == 0
  {
  }

  lemma FlagsSplitUnique(flags: bv64, a: bv64, r: bv64)
    requires Contains(ALLOCATION_MASK, a) && Contains(REPLICATION_MASK, r)
    requires a | r == flags & (ALLOCATION_MASK | REPLICATION_MASK)
    ensures a == AllocationOf(flags) && r == ReplicationOf(flags)
  {
  }

  /** At most one replication bit is set iff the replication part is empty or
      one of the eight declared policies. */
  lemma SingleReplicationIff(flags: bv64)
    ensures SingleReplication(flags) <==>
      ReplicationOf(flags) == 0 || exists i :: 0 <= i < |REPLICATION_POLICIES| && ReplicationOf(flags) == REPLICATION_POLICIES[i]
  {
    var r := ReplicationOf(flags);
    if r != 0 && SingleReplication(flags) {
      if r == RAID0 { assert r == REPLICATION_POLICIES[0]; }
      else if r == RAID1 { assert r == REPLICATION_POLICIES[1]; }
      else if r == DUP { assert r == REPLICATION_POLICIES[2]; }
      else if r == RAID10 { assert r == REPLICATION_POLICIES[3]; }
      else if r == RAID5 { assert r == REPLICATION_POLICIES[4]; }
      else if r == RAID6 { assert r == REPLICATION_POLICIES[5]; }
      else if r == RAID1C3 { assert r == REPLICATION_POLICIES[6]; }
      else { assert r == REPLICATION_POLICIES[7]; }
    }
  }

  /** Data mirrored with RAID1 is a valid combination; system mixed with data
      is not; two policies at once are not. */
  lemma WorkedFlags()
    ensures WellFormedFlags(DATA | RAID1) && DATA | RAID1 == 0x11
    ensures !ValidAllocation(SYSTEM | DATA) && SYSTEM | DATA == 0x3
    ensures ValidAllocation(DATA | METADATA)
    ensures !SingleReplication(RAID0 | RAID1)
  {
  }

  /** Whether the flags word of a block group item is well formed: SYSTEM is
      not mixed with DATA or METADATA, and at most one replication policy is
      set. */
  predicate FlagsWellFormed(x: BlockGroupItem)
  {
    WellFormedFlags(Bits(x.flags))
  }

  /** The flags rules read from the bytes of an item: the flags word is the
      u64 at offset 16, and writing an item out and reading it back keeps
      its flags well formed or not. */
  lemma FlagsWellFormedFromBytes(b: seq<byte>, x: BlockGroupItem)
    requires |b| == BLOCK_GROUP_ITEM_SIZE
    ensures FlagsWellFormed(FromBytes(b).value) <==> WellFormedFlags(Bits(U64At(b, 16)))
    ensures FlagsWellFormed(FromBytes(ToBytes(x)).value) <==> FlagsWellFormed(x)
  {
    FromBytesToBytes(x);
  }
}
