/**
  The inline back references of src/extent/extent_inline_ref.rs, stored inside
  extent and metadata items: a type byte followed by data whose layout the type
  decides. The type alone selects which fields exist; reading a field of
  another type yields nothing.
 */
module ExtentInlineRefs {
  import opened Primitives
  import ExtentDataRefs
  import SharedDataRefs

  const HEADER_SIZE: nat := 9
  const SHARED_DATA_TAIL_SIZE: nat := 12
  const FULL_SIZE: nat := 29
  const TREE_BLOCK_REF_SIZE: nat := 9
  const SHARED_BLOCK_REF_SIZE: nat := 9
  const EXTENT_DATA_REF_VIEW_SIZE: nat := 29
  const SHARED_DATA_REF_VIEW_SIZE: nat := 13

  /** The 28 bytes of the tail union, read through whichever member the tag selects. */
  type RefTail = s: seq<byte> | |s| == 28 witness Zeros(28)


  /** The kind of an inline back reference, stored as its first byte. */
  datatype ExtentInlineRefType = TreeBlockRef | SharedBlockRef | ExtentDataRef | SharedDataRef

  function TypeValue(t: ExtentInlineRefType): byte
  {
    match t
    case TreeBlockRef => 176
    case SharedBlockRef => 182
    case ExtentDataRef => 178
    case SharedDataRef => 184
  }

  /** The bytes that name a reference type. */
  predicate IsRefTypeByte(b: byte)
  {
    b == 176 || b == 178 || b == 182 || b == 184
  }

  /** The type a byte names, and no type for any other byte. */
  function TypeFromByte(b: byte): (r: Option<ExtentInlineRefType>)
    ensures r.Some? <==> IsRefTypeByte(b)
    ensures r.Some? ==> TypeValue(r.value) == b
  {
    if b == 176 then Some(TreeBlockRef)
    else if b == 182 then Some(SharedBlockRef)
    else if b == 178 then Some(ExtentDataRef)
    else if b == 184 then Some(SharedDataRef)
    else None
  }

  /** Distinct types have distinct bytes, and each byte reads back as its type. */
  lemma TypeRoundTrip(t: ExtentInlineRefType)
    ensures TypeFromByte(TypeValue(t)) == Some(t)
    ensures forall u :: TypeValue(u) == TypeValue(t) ==> u == t
  {
  }

  /** The 9-byte header of every inline back reference: the type, and an offset whose meaning the type decides. */
  datatype ExtentInlineRefHeader = ExtentInlineRefHeader(
    refType: ExtentInlineRefType,
    offset: u64)

  /** Reads a header from exactly HEADER_SIZE bytes; the first byte must name a reference type. */
  function HeaderFromBytes(b: seq<byte>): (r: Result<ExtentInlineRefHeader>)
    ensures r.Ok? <==> |b| == HEADER_SIZE && IsRefTypeByte(b[0])
    ensures r.Err? && |b| == HEADER_SIZE ==> r.error == UnknownTag
  {
    if |b| != HEADER_SIZE then Err(SizeMismatch)
    else match TypeFromByte(b[0])
      case None => Err(UnknownTag)
      case Some(refType) =>
        Ok(ExtentInlineRefHeader(
          refType,
          U64At(b, 1)))
  }

  /** Writes the fields back at the offsets HeaderFromBytes reads them from. */
  function HeaderToBytes(x: ExtentInlineRefHeader): (r: seq<byte>)
    ensures |r| == HEADER_SIZE
  {
    [TypeValue(x.refType)] + U64Bytes(x.offset)
  }

  lemma HeaderFromBytesToBytes(x: ExtentInlineRefHeader)
    ensures HeaderFromBytes(HeaderToBytes(x)) == Ok(x)
  {
    TypeRoundTrip(x.refType);
    var b := HeaderToBytes(x);
    var q0 := [TypeValue(x.refType)];
    var q1 := q0 + U64Bytes(x.offset);
    assert b[..HEADER_SIZE] == q1;
    SplitPrefix(b, q0, U64Bytes(x.offset));
    assert b[0..1] == [TypeValue(x.refType)];
    assert b[0] == TypeValue(x.refType);
    assert b[1..9] == U64Bytes(x.offset);
    U64DecodeEncode(x.offset);
  }

  lemma HeaderToBytesFromBytes(b: seq<byte>)
    requires HeaderFromBytes(b).Ok?
    ensures HeaderToBytes(HeaderFromBytes(b).value) == b
  {
    assert b[0..1] == [b[0]];
    U64EncodeDecode(b[1..9]);
    PrefixAppend(b, 1, 9);
    assert b[..HEADER_SIZE] == b;
  }

  /** What follows the type byte of a shared data reference: the address of the metadata holding the referencing item, then the reference count. */
  datatype ExtentInlineRefSharedDataTail = ExtentInlineRefSharedDataTail(
    offset: u64,
    sharedDataRef: SharedDataRefs.SharedDataRef)

  /** Reads the record from exactly SHARED_DATA_TAIL_SIZE bytes; every sequence of that length decodes. */
  function SharedDataTailFromBytes(b: seq<byte>): (r: Result<ExtentInlineRefSharedDataTail>)
    ensures r.Ok? <==> |b| == SHARED_DATA_TAIL_SIZE
  {
    if |b| != SHARED_DATA_TAIL_SIZE then Err(SizeMismatch)
    else
      Ok(ExtentInlineRefSharedDataTail(
        U64At(b, 0),
        SharedDataRefs.FromBytes(b[8..12]).value))
  }

  /** Writes the fields back at the offsets SharedDataTailFromBytes reads them from. */
  function SharedDataTailToBytes(x: ExtentInlineRefSharedDataTail): (r: seq<byte>)
    ensures |r| == SHARED_DATA_TAIL_SIZE
  {
    U64Bytes(x.offset) + SharedDataRefs.ToBytes(x.sharedDataRef)
  }

  lemma SharedDataTailFromBytesToBytes(x: ExtentInlineRefSharedDataTail)
    ensures SharedDataTailFromBytes(SharedDataTailToBytes(x)) == Ok(x)
  {
    var b := SharedDataTailToBytes(x);
    var q0 := U64Bytes(x.offset);
    var q1 := q0 + SharedDataRefs.ToBytes(x.sharedDataRef);
    assert b[..SHARED_DATA_TAIL_SIZE] == q1;
    SplitPrefix(b, q0, SharedDataRefs.ToBytes(x.sharedDataRef));
    assert b[0..8] == U64Bytes(x.offset);
    U64DecodeEncode(x.offset);
    assert b[8..12] == SharedDataRefs.ToBytes(x.sharedDataRef);
    SharedDataRefs.FromBytesToBytes(x.sharedDataRef);
  }

  lemma SharedDataTailToBytesFromBytes(b: seq<byte>)
    requires |b| == SHARED_DATA_TAIL_SIZE
    ensures SharedDataTailToBytes(SharedDataTailFromBytes(b).value) == b
  {
    U64EncodeDecode(b[0..8]);
    SharedDataRefs.ToBytesFromBytes(b[8..12]);
    PrefixAppend(b, 8, 12);
    assert b[..SHARED_DATA_TAIL_SIZE] == b;
  }

  /** A whole inline reference read at once: the type and the 28-byte tail union, long enough for every reference type. */
  datatype ExtentInlineRefFull = ExtentInlineRefFull(
    refType: ExtentInlineRefType,
    tail: RefTail)

  /** Reads a full reference from exactly FULL_SIZE bytes; the first byte must name a reference type and any tail is accepted. */
  function FullFromBytes(b: seq<byte>): (r: Result<ExtentInlineRefFull>)
    ensures r.Ok? <==> |b| == FULL_SIZE && IsRefTypeByte(b[0])
    ensures r.Err? && |b| == FULL_SIZE ==> r.error == UnknownTag
  {
    if |b| != FULL_SIZE then Err(SizeMismatch)
    else match TypeFromByte(b[0])
      case None => Err(UnknownTag)
      case Some(refType) =>
        Ok(ExtentInlineRefFull(
          refType,
          b[1..29]))
  }

  /** Writes the fields back at the offsets FullFromBytes reads them from. */
  function FullToBytes(x: ExtentInlineRefFull): (r: seq<byte>)
    ensures |r| == FULL_SIZE
  {
    [TypeValue(x.refType)] + x.tail
  }

  lemma FullFromBytesToBytes(x: ExtentInlineRefFull)
    ensures FullFromBytes(FullToBytes(x)) == Ok(x)
  {
    TypeRoundTrip(x.refType);
    var b := FullToBytes(x);
    var q0 := [TypeValue(x.refType)];
    var q1 := q0 + x.tail;
    assert b[..FULL_SIZE] == q1;
    SplitPrefix(b, q0, x.tail);
    assert b[0..1] == [TypeValue(x.refType)];
    assert b[0] == TypeValue(x.refType);
    assert b[1..29] == x.tail;
  }

  lemma FullToBytesFromBytes(b: seq<byte>)
    requires FullFromBytes(b).Ok?
    ensures FullToBytes(FullFromBytes(b).value) == b
  {
    assert b[0..1] == [b[0]];
    PrefixAppend(b, 1, 29);
    assert b[..FULL_SIZE] == b;
  }

  /** A reference known to be a tree block reference: the id of the tree root that allocated the block. */
  datatype ExtentInlineTreeBlockRef = ExtentInlineTreeBlockRef(
    offset: u64)

  /** Reads the view from exactly TREE_BLOCK_REF_SIZE bytes; the first byte must be 176, the one type the view admits. */
  function InlineTreeBlockRefFromBytes(b: seq<byte>): (r: Result<ExtentInlineTreeBlockRef>)
    ensures r.Ok? <==> |b| == TREE_BLOCK_REF_SIZE && b[0] == 176
    ensures r.Err? && |b| == TREE_BLOCK_REF_SIZE ==> r.error == UnknownTag
  {
    if |b| != TREE_BLOCK_REF_SIZE then Err(SizeMismatch)
    else if b[0] != 176 then Err(UnknownTag)
    else
      Ok(ExtentInlineTreeBlockRef(
        U64At(b, 1)))
  }

  /** Writes the fields back at the offsets InlineTreeBlockRefFromBytes reads them from. */
  function InlineTreeBlockRefToBytes(x: ExtentInlineTreeBlockRef): (r: seq<byte>)
    ensures |r| == TREE_BLOCK_REF_SIZE
  {
    [176] + U64Bytes(x.offset)
  }

  lemma InlineTreeBlockRefFromBytesToBytes(x: ExtentInlineTreeBlockRef)
    ensures InlineTreeBlockRefFromBytes(InlineTreeBlockRefToBytes(x)) == Ok(x)
  {
    var b := InlineTreeBlockRefToBytes(x);
    var q0 := [176];
    var q1 := q0 + U64Bytes(x.offset);
    assert b[..TREE_BLOCK_REF_SIZE] == q1;
    SplitPrefix(b, q0, U64Bytes(x.offset));
    assert b[0..1] == [176];
    assert b[0] == 176;
    assert b[1..9] == U64Bytes(x.offset);
    U64DecodeEncode(x.offset);
  }

  lemma InlineTreeBlockRefToBytesFromBytes(b: seq<byte>)
    requires InlineTreeBlockRefFromBytes(b).Ok?
    ensures InlineTreeBlockRefToBytes(InlineTreeBlockRefFromBytes(b).value) == b
  {
    assert b[0..1] == [b[0]];
    U64EncodeDecode(b[1..9]);
    PrefixAppend(b, 1, 9);
    assert b[..TREE_BLOCK_REF_SIZE] == b;
  }

  /** A reference known to be a shared block reference: the address of the parent node. */
  datatype ExtentInlineSharedBlockRef = ExtentInlineSharedBlockRef(
    offset: u64)

  /** Reads the view from exactly SHARED_BLOCK_REF_SIZE bytes; the first byte must be 182, the one type the view admits. */
  function InlineSharedBlockRefFromBytes(b: seq<byte>): (r: Result<ExtentInlineSharedBlockRef>)
    ensures r.Ok? <==> |b| == SHARED_BLOCK_REF_SIZE && b[0] == 182
    ensures r.Err? && |b| == SHARED_BLOCK_REF_SIZE ==> r.error == UnknownTag
  {
    if |b| != SHARED_BLOCK_REF_SIZE then Err(SizeMismatch)
    else if b[0] != 182 then Err(UnknownTag)
    else
      Ok(ExtentInlineSharedBlockRef(
        U64At(b, 1)))
  }

  /** Writes the fields back at the offsets InlineSharedBlockRefFromBytes reads them from. */
  function InlineSharedBlockRefToBytes(x: ExtentInlineSharedBlockRef): (r: seq<byte>)
    ensures |r| == SHARED_BLOCK_REF_SIZE
  {
    [182] + U64Bytes(x.offset)
  }

  lemma InlineSharedBlockRefFromBytesToBytes(x: ExtentInlineSharedBlockRef)
    ensures InlineSharedBlockRefFromBytes(InlineSharedBlockRefToBytes(x)) == Ok(x)
  {
    var b := InlineSharedBlockRefToBytes(x);
    var q0 := [182];
    var q1 := q0 + U64Bytes(x.offset);
    assert b[..SHARED_BLOCK_REF_SIZE] == q1;
    SplitPrefix(b, q0, U64Bytes(x.offset));
    assert b[0..1] == [182];
    assert b[0] == 182;
    assert b[1..9] == U64Bytes(x.offset);
    U64DecodeEncode(x.offset);
  }

  lemma InlineSharedBlockRefToBytesFromBytes(b: seq<byte>)
    requires InlineSharedBlockRefFromBytes(b).Ok?
    ensures InlineSharedBlockRefToBytes(InlineSharedBlockRefFromBytes(b).value) == b
  {
    assert b[0..1] == [b[0]];
    U64EncodeDecode(b[1..9]);
    PrefixAppend(b, 1, 9);
    assert b[..SHARED_BLOCK_REF_SIZE] == b;
  }

  /** A reference known to be an extent data reference, which overlaps the unused offset. */
  datatype ExtentInlineExtentDataRef = ExtentInlineExtentDataRef(
    extentDataRef: ExtentDataRefs.ExtentDataRef)

  /** Reads the view from exactly EXTENT_DATA_REF_VIEW_SIZE bytes; the first byte must be 178, the one type the view admits. */
  function InlineExtentDataRefFromBytes(b: seq<byte>): (r: Result<ExtentInlineExtentDataRef>)
    ensures r.Ok? <==> |b| == EXTENT_DATA_REF_VIEW_SIZE && b[0] == 178
    ensures r.Err? && |b| == EXTENT_DATA_REF_VIEW_SIZE ==> r.error == UnknownTag
  {
    if |b| != EXTENT_DATA_REF_VIEW_SIZE then Err(SizeMismatch)
    else if b[0] != 178 then Err(UnknownTag)
    else
      Ok(ExtentInlineExtentDataRef(
        ExtentDataRefs.FromBytes(b[1..29]).value))
  }

  /** Writes the fields back at the offsets InlineExtentDataRefFromBytes reads them from. */
  function InlineExtentDataRefToBytes(x: ExtentInlineExtentDataRef): (r: seq<byte>)
    ensures |r| == EXTENT_DATA_REF_VIEW_SIZE
  {
    [178] + ExtentDataRefs.ToBytes(x.extentDataRef)
  }

  lemma InlineExtentDataRefFromBytesToBytes(x: ExtentInlineExtentDataRef)
    ensures InlineExtentDataRefFromBytes(InlineExtentDataRefToBytes(x)) == Ok(x)
  {
    var b := InlineExtentDataRefToBytes(x);
    var q0 := [178];
    var q1 := q0 + ExtentDataRefs.ToBytes(x.extentDataRef);
    assert b[..EXTENT_DATA_REF_VIEW_SIZE] == q1;
    SplitPrefix(b, q0, ExtentDataRefs.ToBytes(x.extentDataRef));
    assert b[0..1] == [178];
    assert b[0] == 178;
    assert b[1..29] == ExtentDataRefs.ToBytes(x.extentDataRef);
    ExtentDataRefs.FromBytesToBytes(x.extentDataRef);
  }

  lemma InlineExtentDataRefToBytesFromBytes(b: seq<byte>)
    requires InlineExtentDataRefFromBytes(b).Ok?
    ensures InlineExtentDataRefToBytes(InlineExtentDataRefFromBytes(b).value) == b
  {
    assert b[0..1] == [b[0]];
    ExtentDataRefs.ToBytesFromBytes(b[1..29]);
    PrefixAppend(b, 1, 29);
    assert b[..EXTENT_DATA_REF_VIEW_SIZE] == b;
  }

  /** A reference known to be a shared data reference: the shared data tail. */
  datatype ExtentInlineSharedDataRef = ExtentInlineSharedDataRef(
    sharedDataTail: ExtentInlineRefSharedDataTail)

  /** Reads the view from exactly SHARED_DATA_REF_VIEW_SIZE bytes; the first byte must be 184, the one type the view admits. */
  function InlineSharedDataRefFromBytes(b: seq<byte>): (r: Result<ExtentInlineSharedDataRef>)
    ensures r.Ok? <==> |b| == SHARED_DATA_REF_VIEW_SIZE && b[0] == 184
    ensures r.Err? && |b| == SHARED_DATA_REF_VIEW_SIZE ==> r.error == UnknownTag
  {
    if |b| != SHARED_DATA_REF_VIEW_SIZE then Err(SizeMismatch)
    else if b[0] != 184 then Err(UnknownTag)
    else
      Ok(ExtentInlineSharedDataRef(
        SharedDataTailFromBytes(b[1..13]).value))
  }

  /** Writes the fields back at the offsets InlineSharedDataRefFromBytes reads them from. */
  function InlineSharedDataRefToBytes(x: ExtentInlineSharedDataRef): (r: seq<byte>)
    ensures |r| == SHARED_DATA_REF_VIEW_SIZE
  {
    [184] + SharedDataTailToBytes(x.sharedDataTail)
  }

  lemma InlineSharedDataRefFromBytesToBytes(x: ExtentInlineSharedDataRef)
    ensures InlineSharedDataRefFromBytes(InlineSharedDataRefToBytes(x)) == Ok(x)
  {
    var b := InlineSharedDataRefToBytes(x);
    var q0 := [184];
    var q1 := q0 + SharedDataTailToBytes(x.sharedDataTail);
    assert b[..SHARED_DATA_REF_VIEW_SIZE] == q1;
    SplitPrefix(b, q0, SharedDataTailToBytes(x.sharedDataTail));
    assert b[0..1] == [184];
    assert b[0] == 184;
    assert b[1..13] == SharedDataTailToBytes(x.sharedDataTail);
    SharedDataTailFromBytesToBytes(x.sharedDataTail);
  }

  lemma InlineSharedDataRefToBytesFromBytes(b: seq<byte>)
    requires InlineSharedDataRefFromBytes(b).Ok?
    ensures InlineSharedDataRefToBytes(InlineSharedDataRefFromBytes(b).value) == b
  {
    assert b[0..1] == [b[0]];
    SharedDataTailToBytesFromBytes(b[1..13]);
    PrefixAppend(b, 1, 13);
    assert b[..SHARED_DATA_REF_VIEW_SIZE] == b;
  }


  // The accessors of a full reference: each reads the tail through the union
  // member its type selects, and reports nothing for any other type.

  /** The offset, for the three types that have one. A shared data reference
      reads it through its shared data tail, which starts at the same byte. */
  function Offset(f: ExtentInlineRefFull): (r: Option<u64>)
    ensures r.None? <==> f.refType == ExtentDataRef
    ensures r.Some? ==> r.value == LeU64(f.tail[..8])
  {
    match f.refType
    case TreeBlockRef => Some(LeU64(f.tail[..8]))
    case SharedBlockRef => Some(LeU64(f.tail[..8]))
    case SharedDataRef =>
      assert f.tail[..SHARED_DATA_TAIL_SIZE][0..8] == f.tail[..8];
      Some(SharedDataTailFromBytes(f.tail[..SHARED_DATA_TAIL_SIZE]).value.offset)
    case ExtentDataRef => None
  }

  /** The extent data reference, for an extent data reference only; it is the
      whole tail. */
  function ExtentDataRefOf(f: ExtentInlineRefFull): (r: Option<ExtentDataRefs.ExtentDataRef>)
    ensures r.Some? <==> f.refType == ExtentDataRef
    ensures r.Some? ==> ExtentDataRefs.ToBytes(r.value) == f.tail
  {
    if f.refType == ExtentDataRef then
      ExtentDataRefs.ToBytesFromBytes(f.tail);
      Some(ExtentDataRefs.FromBytes(f.tail).value)
    else None
  }

  /** The shared data tail, for a shared data reference only; it is the first
      12 bytes of the tail. */
  function SharedDataTailOf(f: ExtentInlineRefFull): (r: Option<ExtentInlineRefSharedDataTail>)
    ensures r.Some? <==> f.refType == SharedDataRef
    ensures r.Some? ==> SharedDataTailToBytes(r.value) == f.tail[..SHARED_DATA_TAIL_SIZE]
  {
    if f.refType == SharedDataRef then
      SharedDataTailToBytesFromBytes(f.tail[..SHARED_DATA_TAIL_SIZE]);
      Some(SharedDataTailFromBytes(f.tail[..SHARED_DATA_TAIL_SIZE]).value)
    else None
  }

  /** On the bytes of a reference: the offset is the u64 at bytes 1..9 unless
      the type byte is 178, the extent data reference is bytes 1..29 when it is
      178, and the shared data tail is the offset at 1..9 and the count at 9..13
      when it is 184. */
  lemma FullAccessorsOnBytes(b: seq<byte>)
    requires FullFromBytes(b).Ok?
    ensures Offset(FullFromBytes(b).value).None? <==> b[0] == 178
    ensures Offset(FullFromBytes(b).value).Some? ==> Offset(FullFromBytes(b).value).value == U64At(b, 1)
    ensures ExtentDataRefOf(FullFromBytes(b).value).Some? <==> b[0] == 178
    ensures ExtentDataRefOf(FullFromBytes(b).value).Some? ==>
      ExtentDataRefOf(FullFromBytes(b).value).value == ExtentDataRefs.FromBytes(b[1..29]).value
    ensures SharedDataTailOf(FullFromBytes(b).value).Some? <==> b[0] == 184
    ensures SharedDataTailOf(FullFromBytes(b).value).Some? ==>
      SharedDataTailOf(FullFromBytes(b).value).value.offset == U64At(b, 1) &&
      SharedDataTailOf(FullFromBytes(b).value).value.sharedDataRef.count == U32At(b, 9)
  {
    var f := FullFromBytes(b).value;
    assert f.tail == b[1..29];
    assert f.tail[..8] == b[1..9];
    var t := f.tail[..SHARED_DATA_TAIL_SIZE];
    assert t == b[1..13];
    SliceShift(b, 1, 13, 8, 12);
    assert t[8..12][0..4] == b[9..13];
    TypeRoundTrip(f.refType);
  }

  /** A full reference starts with its header: the same type and, when the type
      has an offset, the same offset. */
  lemma HeaderIsPrefixOfFull(b: seq<byte>)
    requires FullFromBytes(b).Ok?
    ensures HeaderFromBytes(b[..HEADER_SIZE]).Ok?
    ensures HeaderFromBytes(b[..HEADER_SIZE]).value.refType == FullFromBytes(b).value.refType
    ensures Offset(FullFromBytes(b).value).Some? ==>
      Offset(FullFromBytes(b).value).value == HeaderFromBytes(b[..HEADER_SIZE]).value.offset
  {
    var f := FullFromBytes(b).value;
    assert f.tail[..8] == b[..HEADER_SIZE][1..9];
  }

  // The typed views: the leading bytes of a full reference reinterpreted as the
  // view its type names, and no view for any other type.

  function AsTreeBlockRef(f: ExtentInlineRefFull): (r: Option<ExtentInlineTreeBlockRef>)
    ensures r.Some? <==> f.refType == TreeBlockRef
    ensures r.Some? ==> Some(r.value.offset) == Offset(f)
    ensures r.Some? ==> InlineTreeBlockRefToBytes(r.value) == FullToBytes(f)[..TREE_BLOCK_REF_SIZE]
  {
    if f.refType == TreeBlockRef then
      var v := FullToBytes(f)[..TREE_BLOCK_REF_SIZE];
      assert v[1..9] == f.tail[..8];
      InlineTreeBlockRefToBytesFromBytes(v);
      Some(InlineTreeBlockRefFromBytes(v).value)
    else None
  }

  function AsSharedBlockRef(f: ExtentInlineRefFull): (r: Option<ExtentInlineSharedBlockRef>)
    ensures r.Some? <==> f.refType == SharedBlockRef
    ensures r.Some? ==> Some(r.value.offset) == Offset(f)
    ensures r.Some? ==> InlineSharedBlockRefToBytes(r.value) == FullToBytes(f)[..SHARED_BLOCK_REF_SIZE]
  {
    if f.refType == SharedBlockRef then
      var v := FullToBytes(f)[..SHARED_BLOCK_REF_SIZE];
      assert v[1..9] == f.tail[..8];
      InlineSharedBlockRefToBytesFromBytes(v);
      Some(InlineSharedBlockRefFromBytes(v).value)
    else None
  }

  function AsExtentDataRef(f: ExtentInlineRefFull): (r: Option<ExtentInlineExtentDataRef>)
    ensures r.Some? <==> f.refType == ExtentDataRef
    ensures r.Some? ==> Some(r.value.extentDataRef) == ExtentDataRefOf(f)
    ensures r.Some? ==> InlineExtentDataRefToBytes(r.value) == FullToBytes(f)[..EXTENT_DATA_REF_VIEW_SIZE]
  {
    if f.refType == ExtentDataRef then
      var v := FullToBytes(f)[..EXTENT_DATA_REF_VIEW_SIZE];
      assert v[1..29] == f.tail;
      InlineExtentDataRefToBytesFromBytes(v);
      Some(InlineExtentDataRefFromBytes(v).value)
    else None
  }

  function AsSharedDataRef(f: ExtentInlineRefFull): (r: Option<ExtentInlineSharedDataRef>)
    ensures r.Some? <==> f.refType == SharedDataRef
    ensures r.Some? ==> Some(r.value.sharedDataTail) == SharedDataTailOf(f)
    ensures r.Some? ==> Some(r.value.sharedDataTail.offset) == Offset(f)
    ensures r.Some? ==> InlineSharedDataRefToBytes(r.value) == FullToBytes(f)[..SHARED_DATA_REF_VIEW_SIZE]
  {
    if f.refType == SharedDataRef then
      var v := FullToBytes(f)[..SHARED_DATA_REF_VIEW_SIZE];
      assert v[1..13] == f.tail[..SHARED_DATA_TAIL_SIZE];
      InlineSharedDataRefToBytesFromBytes(v);
      Some(InlineSharedDataRefFromBytes(v).value)
    else None
  }

  function CountSome<T>(o: Option<T>): nat
  {
    if o.Some? then 1 else 0
  }

  /** Every full reference has exactly one typed view. */
  lemma ExactlyOneView(f: ExtentInlineRefFull)
    ensures CountSome(AsTreeBlockRef(f)) + CountSome(AsSharedBlockRef(f))
          + CountSome(AsExtentDataRef(f)) + CountSome(AsSharedDataRef(f)) == 1
  {
  }

  /** A shared data reference's count is the u32 at bytes 9..13 alone: bytes
      that differ only in the type and offset hold the same count. */
  lemma SharedDataCountIgnoresHeader(b: seq<byte>, c: seq<byte>)
    requires FullFromBytes(b).Ok? && FullFromBytes(c).Ok? && b[0] == c[0] == 184
    requires b[9..13] == c[9..13]
    ensures SharedDataTailOf(FullFromBytes(b).value).value.sharedDataRef
         == SharedDataTailOf(FullFromBytes(c).value).value.sharedDataRef
  {
    FullAccessorsOnBytes(b);
    FullAccessorsOnBytes(c);
  }

  /** An inline reference with its type known: one constructor per type, each
      holding the typed view. */
  datatype InlineRef =
    | TreeBlock(treeBlock: ExtentInlineTreeBlockRef)
    | SharedBlock(sharedBlock: ExtentInlineSharedBlockRef)
    | ExtentData(extentData: ExtentInlineExtentDataRef)
    | SharedData(sharedData: ExtentInlineSharedDataRef)

  function RefTypeOf(r: InlineRef): ExtentInlineRefType
  {
    match r
    case TreeBlock(_) => TreeBlockRef
    case SharedBlock(_) => SharedBlockRef
    case ExtentData(_) => ExtentDataRef
    case SharedData(_) => SharedDataRef
  }

  /** The stored size of a reference of each type; none exceeds the full form. */
  function InlineRefSize(t: ExtentInlineRefType): (n: nat)
    ensures HEADER_SIZE <= n <= FULL_SIZE
    ensures n == FULL_SIZE <==> t == ExtentDataRef
  {
    match t
    case TreeBlockRef => TREE_BLOCK_REF_SIZE
    case SharedBlockRef => SHARED_BLOCK_REF_SIZE
    case ExtentDataRef => EXTENT_DATA_REF_VIEW_SIZE
    case SharedDataRef => SHARED_DATA_REF_VIEW_SIZE
  }

  function InlineRefToBytes(r: InlineRef): (s: seq<byte>)
    ensures |s| == InlineRefSize(RefTypeOf(r))
  {
    match r
    case TreeBlock(v) => InlineTreeBlockRefToBytes(v)
    case SharedBlock(v) => InlineSharedBlockRefToBytes(v)
    case ExtentData(v) => InlineExtentDataRefToBytes(v)
    case SharedData(v) => InlineSharedDataRefToBytes(v)
  }

  /** The typed view of a full reference, as the value its type selects. */
  function ViewOf(f: ExtentInlineRefFull): (r: InlineRef)
    ensures RefTypeOf(r) == f.refType
    ensures InlineRefToBytes(r) == FullToBytes(f)[..InlineRefSize(f.refType)]
  {
    match f.refType
    case TreeBlockRef => TreeBlock(AsTreeBlockRef(f).value)
    case SharedBlockRef => SharedBlock(AsSharedBlockRef(f).value)
    case ExtentDataRef => ExtentData(AsExtentDataRef(f).value)
    case SharedDataRef => SharedData(AsSharedDataRef(f).value)
  }

  /** Reads one inline reference from the front of the remaining bytes of an
      item: the type byte decides how many bytes the typed view takes. */
  function InlineRefFromPrefix(b: seq<byte>): (r: Result<InlineRef>)
    ensures r.Ok? <==> |b| > 0 && IsRefTypeByte(b[0]) && |b| >= InlineRefSize(TypeFromByte(b[0]).value)
    ensures |b| > 0 && !IsRefTypeByte(b[0]) ==> r == Err(UnknownTag)
    ensures r.Ok? ==> TypeValue(RefTypeOf(r.value)) == b[0]
    ensures r.Ok? ==> InlineRefToBytes(r.value) == b[..InlineRefSize(RefTypeOf(r.value))]
  {
    if |b| == 0 then Err(TruncatedRecord)
    else match TypeFromByte(b[0])
      case None => Err(UnknownTag)
      case Some(t) =>
        var n := InlineRefSize(t);
        if |b| < n then Err(TruncatedRecord)
        else match t
          case TreeBlockRef =>
            InlineTreeBlockRefToBytesFromBytes(b[..n]);
            Ok(TreeBlock(InlineTreeBlockRefFromBytes(b[..n]).value))
          case SharedBlockRef =>
            InlineSharedBlockRefToBytesFromBytes(b[..n]);
            Ok(SharedBlock(InlineSharedBlockRefFromBytes(b[..n]).value))
          case ExtentDataRef =>
            InlineExtentDataRefToBytesFromBytes(b[..n]);
            Ok(ExtentData(InlineExtentDataRefFromBytes(b[..n]).value))
          case SharedDataRef =>
            InlineSharedDataRefToBytesFromBytes(b[..n]);
            Ok(SharedData(InlineSharedDataRefFromBytes(b[..n]).value))
  }

  /** Writing a reference and reading it back from the front of a longer
      buffer gives the reference, whatever follows it. */
  lemma InlineRefPrefixRoundTrip(r: InlineRef, rest: seq<byte>)
    ensures InlineRefFromPrefix(InlineRefToBytes(r) + rest) == Ok(r)
  {
    var s := InlineRefToBytes(r);
    var b := s + rest;
    assert b[..|s|] == s;
    match r
    case TreeBlock(v) => InlineTreeBlockRefFromBytesToBytes(v);
    case SharedBlock(v) => InlineSharedBlockRefFromBytesToBytes(v);
    case ExtentData(v) => InlineExtentDataRefFromBytesToBytes(v);
    case SharedData(v) => InlineSharedDataRefFromBytesToBytes(v);
  }

  /** Reading the full 29-byte form and taking its view is reading the view
      from the front of the same bytes. */
  lemma ViewOfFullIsPrefixRead(b: seq<byte>)
    requires FullFromBytes(b).Ok?
    ensures InlineRefFromPrefix(b) == Ok(ViewOf(FullFromBytes(b).value))
  {
    var f := FullFromBytes(b).value;
    FullToBytesFromBytes(b);
    var v := ViewOf(f);
    InlineRefPrefixRoundTrip(v, b[InlineRefSize(f.refType)..]);
    assert b == InlineRefToBytes(v) + b[InlineRefSize(f.refType)..];
  }
}
