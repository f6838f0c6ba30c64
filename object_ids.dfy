/**
  Object ids (src/core/object_id.rs): the first field of every key. The
  reserved ids name the fixed trees and special objects; the ids of ordinary
  objects are taken from the free range between them.
 */
module ObjectIds {
  import opened Primitives

  /** The u64 with the bits of a negative i64, as an `as u64` cast gives it. */
  function CastToU64(x: i64): (r: u64)
    ensures r % 0x1_0000_0000_0000_0000 == x % 0x1_0000_0000_0000_0000
  {
    if x < 0 then x + 0x1_0000_0000_0000_0000 else x
  }

  /** The ids with a fixed meaning. */
  datatype ReservedObjectId =
    | DevStats | RootTree | ExtentTree | ChunkTree | DevTree | FsTree
    | RootTreeDirectory | ChecksumTree | QuotaTree | UuidTree | FreeSpaceTree
    | Balance | Orphan | TreeLogTree | TreeRelocationTree | DataRelocationTree
    | ExtentChecksum | FreeSpace | FreeInode | MultipleObjectIds

  /** The id a reserved object id stands for; the special objects count down
      from the top of the u64 range. */
  function Value(t: ReservedObjectId): u64
  {
    match t
    case DevStats => 0
    case RootTree => 1
    case ExtentTree => 2
    case ChunkTree => 3
    case DevTree => 4
    case FsTree => 5
    case RootTreeDirectory => 6
    case ChecksumTree => 7
    case QuotaTree => 8
    case UuidTree => 9
    case FreeSpaceTree => 10
    case Balance => CastToU64(-4)
    case Orphan => CastToU64(-5)
    case TreeLogTree => CastToU64(-7)
    case TreeRelocationTree => CastToU64(-8)
    case DataRelocationTree => CastToU64(-9)
    case ExtentChecksum => CastToU64(-10)
    case FreeSpace => CastToU64(-11)
    case FreeInode => CastToU64(-12)
    case MultipleObjectIds => CastToU64(-255)
  }

  /** The reserved ids in declaration order, the order iteration visits them. */
  const ALL_RESERVED: seq<ReservedObjectId> := [
    DevStats, RootTree, ExtentTree, ChunkTree, DevTree, FsTree,
    RootTreeDirectory, ChecksumTree, QuotaTree, UuidTree, FreeSpaceTree,
    Balance, Orphan, TreeLogTree, TreeRelocationTree, DataRelocationTree,
    ExtentChecksum, FreeSpace, FreeInode, MultipleObjectIds]

  /** The position of a reserved id in declaration order. */
  function Position(t: ReservedObjectId): (i: nat)
    ensures i < |ALL_RESERVED| && ALL_RESERVED[i] == t
  {
    match t
    case DevStats => 0
    case RootTree => 1
    case ExtentTree => 2
    case ChunkTree => 3
    case DevTree => 4
    case FsTree => 5
    case RootTreeDirectory => 6
    case ChecksumTree => 7
    case QuotaTree => 8
    case UuidTree => 9
    case FreeSpaceTree => 10
    case Balance => 11
    case Orphan => 12
    case TreeLogTree => 13
    case TreeRelocationTree => 14
    case DataRelocationTree => 15
    case ExtentChecksum => 16
    case FreeSpace => 17
    case FreeInode => 18
    case MultipleObjectIds => 19
  }

  /** Iteration visits every reserved id exactly once, and no two of them
      stand for the same id. */
  lemma AllReservedEnumerates()
    ensures |ALL_RESERVED| == 20
    ensures forall t :: t in ALL_RESERVED
    ensures forall i, j :: 0 <= i < j < |ALL_RESERVED| ==> Value(ALL_RESERVED[i]) != Value(ALL_RESERVED[j])
  {
    forall t: ReservedObjectId
      ensures t in ALL_RESERVED
    {
      var i := Position(t);
    }
  }

  /** Whether some reserved id stands for x. */
  predicate IsReservedValue(x: u64)
  {
    exists t :: Value(t) == x
  }

  /** The checked conversion from a u64: the reserved id that stands for x,
      and none when no reserved id does. */
  function TryFromPrimitive(x: u64): (r: Option<ReservedObjectId>)
    ensures r.Some? <==> IsReservedValue(x)
    ensures r.Some? ==> Value(r.value) == x
  {
    var r :=
      if x == 0 then Some(DevStats)
      else if x == 1 then Some(RootTree)
      else if x == 2 then Some(ExtentTree)
      else if x == 3 then Some(ChunkTree)
      else if x == 4 then Some(DevTree)
      else if x == 5 then Some(FsTree)
      else if x == 6 then Some(RootTreeDirectory)
      else if x == 7 then Some(ChecksumTree)
      else if x == 8 then Some(QuotaTree)
      else if x == 9 then Some(UuidTree)
      else if x == 10 then Some(FreeSpaceTree)
      else if x == CastToU64(-4) then Some(Balance)
      else if x == CastToU64(-5) then Some(Orphan)
      else if x == CastToU64(-7) then Some(TreeLogTree)
      else if x == CastToU64(-8) then Some(TreeRelocationTree)
      else if x == CastToU64(-9) then Some(DataRelocationTree)
      else if x == CastToU64(-10) then Some(ExtentChecksum)
      else if x == CastToU64(-11) then Some(FreeSpace)
      else if x == CastToU64(-12) then Some(FreeInode)
      else if x == CastToU64(-255) then Some(MultipleObjectIds)
      else None;
    // the id found is the witness that x is reserved
    assert r.Some? ==> Value(r.value) == x;
    r
  }

  /** Converting a reserved id to its u64 and back gives it again. */
  lemma TryFromPrimitiveOfValue(t: ReservedObjectId)
    ensures TryFromPrimitive(Value(t)) == Some(t)
  {
    AllReservedEnumerates();
  }

  /** The derived ordering of reserved ids, which compares the ids they stand
      for. */
  predicate ReservedLess(a: ReservedObjectId, b: ReservedObjectId)
  {
    Value(a) < Value(b)
  }

  /** Iteration order is not that ordering: the special objects count down, so
      Orphan, visited after Balance, is the smaller. */
  lemma IterationOrderIsNotValueOrder()
    ensures ALL_RESERVED[11] == Balance && ALL_RESERVED[12] == Orphan
    ensures ReservedLess(Orphan, Balance)
    ensures forall i, j :: 0 <= i < j <= 10 ==> ReservedLess(ALL_RESERVED[i], ALL_RESERVED[j])
  {
  }

  /** The id of an object: a u64 wrapped for type safety, ordered as the u64. */
  datatype ObjectId = ObjectId(id: u64)

  predicate LessOrEqual(a: ObjectId, b: ObjectId)
  {
    a.id <= b.id
  }

  const FIRST_FREE: ObjectId := ObjectId(256)
  const LAST_FREE: ObjectId := ObjectId(CastToU64(-256))

  function FromU64(x: u64): ObjectId
  {
    ObjectId(x)
  }

  function ToU64(o: ObjectId): u64
  {
    o.id
  }

  /** The two conversions are inverse, and the ordering of ids is the ordering
      of their u64 values. */
  lemma ConversionsInverse(x: u64, o: ObjectId)
    ensures ToU64(FromU64(x)) == x && FromU64(ToU64(o)) == o
    ensures forall y :: LessOrEqual(FromU64(x), FromU64(y)) <==> x <= y
  {
  }

  /** Whether o is one of the reserved ids, found by visiting them in
      iteration order and stopping at the first match. */
  method IsValidReserved(o: ObjectId) returns (valid: bool)
    ensures valid <==> IsReservedValue(o.id)
    ensures valid <==> TryFromPrimitive(o.id).Some?
  {
    var i := 0;
    while i < |ALL_RESERVED|
      invariant 0 <= i <= |ALL_RESERVED|
      invariant forall k :: 0 <= k < i ==> Value(ALL_RESERVED[k]) != o.id
    {
      if o.id == Value(ALL_RESERVED[i]) {
        return true;
      }
      i := i + 1;
    }
    forall t: ReservedObjectId
      ensures Value(t) != o.id
    {
      var k := Position(t);
    }
    return false;
  }

  /** Whether o lies between the first and the last free id, inclusive. */
  predicate IsInFreeRange(o: ObjectId)
  {
    LessOrEqual(FIRST_FREE, o) && LessOrEqual(o, LAST_FREE)
  }

  /** The free range is 256 ..= 2^64 - 256. */
  lemma FreeRangeBounds(o: ObjectId)
    ensures IsInFreeRange(o) <==> 256 <= o.id <= 0x1_0000_0000_0000_0000 - 256
  {
  }

  /** No reserved id is free: the low ones lie below the range and the special
      objects above it. */
  lemma ReservedNotFree(x: u64)
    requires IsReservedValue(x)
    ensures !IsInFreeRange(ObjectId(x))
    ensures x <= 10 || x >= 0x1_0000_0000_0000_0000 - 255
  {
  }

  /** Worked values: the root tree id 1 is reserved and not free, 255 is
      neither, 256 is free and not reserved, and the special objects sit just
      below 2^64. */
  lemma WorkedValues()
    ensures TryFromPrimitive(1) == Some(RootTree) && !IsInFreeRange(ObjectId(1))
    ensures !IsReservedValue(255) && !IsInFreeRange(ObjectId(255))
    ensures !IsReservedValue(256) && IsInFreeRange(ObjectId(256))
    ensures Value(Balance) == 0xFFFF_FFFF_FFFF_FFFC
    ensures Value(MultipleObjectIds) == 0x1_0000_0000_0000_0000 - 255
    ensures LAST_FREE.id == 0xFFFF_FFFF_FFFF_FF00
  {
  }
}
