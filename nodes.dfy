/**
  The tree node layout of src/core/node.rs: a 101-byte header, followed in a
  leaf by 25-byte items and in an internal node by 33-byte key pointers.
 */
module Nodes {
  import opened Primitives
  import Keys

  const HEADER_SIZE: nat := 101
  const KEY_POINTER_SIZE: nat := 33
  const ITEM_SIZE: nat := 25

  /** The seven flag bytes of a node header, kept as bytes. */
  type NodeFlags = s: seq<byte> | |s| == 7 witness Zeros(7)


  /** The back-reference revision byte of a node header. */
  datatype BackrefRevision = Old | Mixed

  function BackrefValue(v: BackrefRevision): byte
  {
    match v
    case Old => 0
    case Mixed => 1
  }

  /** The revision a byte names: only 0 and 1 name one. */
  function BackrefFromByte(b: byte): (r: Option<BackrefRevision>)
    ensures r.Some? <==> b <= 1
    ensures r.Some? ==> BackrefValue(r.value) == b
  {
    if b == 0 then Some(Old) else if b == 1 then Some(Mixed) else None
  }

  lemma BackrefRoundTrip(v: BackrefRevision)
    ensures BackrefFromByte(BackrefValue(v)) == Some(v)
  {
  }

  /** The data at the start of every node. */
  datatype Header = Header(
    csum: Csum,
    fsUuid: Uuid,
    logicalAddress: u64,
    flags: NodeFlags,
    backrefRev: BackrefRevision,
    chunkTreeUuid: Uuid,
    generation: u64,
    treeId: u64,
    numItems: u32,
    level: byte)

  /** Reads a header from exactly HEADER_SIZE bytes; the back-reference revision at byte 63 must name a revision. */
  function HeaderFromBytes(b: seq<byte>): (r: Result<Header>)
    ensures r.Ok? <==> |b| == HEADER_SIZE && b[63] <= 1
    ensures r.Err? && |b| == HEADER_SIZE ==> r.error == UnknownTag
  {
    if |b| != HEADER_SIZE then Err(SizeMismatch)
    else match BackrefFromByte(b[63])
      case None => Err(UnknownTag)
      case Some(backrefRev) =>
        Ok(Header(
          b[0..32],
          b[32..48],
          U64At(b, 48),
          b[56..63],
          backrefRev,
          b[64..80],
          U64At(b, 80),
          U64At(b, 88),
          U32At(b, 96),
          b[100]))
  }

  /** Writes the fields back at the offsets HeaderFromBytes reads them from. */
  function HeaderToBytes(x: Header): (r: seq<byte>)
    ensures |r| == HEADER_SIZE
  {
    x.csum + x.fsUuid + U64Bytes(x.logicalAddress) + x.flags
    + [BackrefValue(x.backrefRev)] + x.chunkTreeUuid + U64Bytes(x.generation)
    + U64Bytes(x.treeId) + U32Bytes(x.numItems) + [x.level]
  }

  lemma HeaderFromBytesToBytes(x: Header)
    ensures HeaderFromBytes(HeaderToBytes(x)) == Ok(x)
  {
    BackrefRoundTrip(x.backrefRev);
    var b := HeaderToBytes(x);
    var q0 := x.csum;
    var q1 := q0 + x.fsUuid;
    var q2 := q1 + U64Bytes(x.logicalAddress);
    var q3 := q2 + x.flags;
    var q4 := q3 + [BackrefValue(x.backrefRev)];
    var q5 := q4 + x.chunkTreeUuid;
    var q6 := q5 + U64Bytes(x.generation);
    var q7 := q6 + U64Bytes(x.treeId);
    var q8 := q7 + U32Bytes(x.numItems);
    var q9 := q8 + [x.level];
    assert b[..HEADER_SIZE] == q9;
    SplitPrefix(b, q8, [x.level]);
    SplitPrefix(b, q7, U32Bytes(x.numItems));
    SplitPrefix(b, q6, U64Bytes(x.treeId));
    SplitPrefix(b, q5, U64Bytes(x.generation));
    SplitPrefix(b, q4, x.chunkTreeUuid);
    SplitPrefix(b, q3, [BackrefValue(x.backrefRev)]);
    SplitPrefix(b, q2, x.flags);
    SplitPrefix(b, q1, U64Bytes(x.logicalAddress));
    SplitPrefix(b, q0, x.fsUuid);
    assert b[0..32] == x.csum;
    assert b[32..48] == x.fsUuid;
    assert b[48..56] == U64Bytes(x.logicalAddress);
    U64DecodeEncode(x.logicalAddress);
    assert b[56..63] == x.flags;
    assert b[63..64] == [BackrefValue(x.backrefRev)];
    assert b[63] == BackrefValue(x.backrefRev);
    assert b[64..80] == x.chunkTreeUuid;
    assert b[80..88] == U64Bytes(x.generation);
    U64DecodeEncode(x.generation);
    assert b[88..96] == U64Bytes(x.treeId);
    U64DecodeEncode(x.treeId);
    assert b[96..100] == U32Bytes(x.numItems);
    U32DecodeEncode(x.numItems);
    assert b[100..101] == [x.level];
    assert b[100] == x.level;
  }

  lemma HeaderToBytesFromBytes(b: seq<byte>)
    requires HeaderFromBytes(b).Ok?
    ensures HeaderToBytes(HeaderFromBytes(b).value) == b
  {
    U64EncodeDecode(b[48..56]);
    assert b[63..64] == [b[63]];
    U64EncodeDecode(b[80..88]);
    U64EncodeDecode(b[88..96]);
    U32EncodeDecode(b[96..100]);
    assert b[100..101] == [b[100]];
    PrefixAppend(b, 32, 48);
    PrefixAppend(b, 48, 56);
    PrefixAppend(b, 56, 63);
    PrefixAppend(b, 63, 64);
    PrefixAppend(b, 64, 80);
    PrefixAppend(b, 80, 88);
    PrefixAppend(b, 88, 96);
    PrefixAppend(b, 96, 100);
    PrefixAppend(b, 100, 101);
    assert b[..HEADER_SIZE] == b;
  }

  /** For internal nodes: the key of a child, its address and its generation. */
  datatype KeyPointer = KeyPointer(
    key: Keys.Key,
    blockPointer: u64,
    generation: u64)

  /** Reads the record from exactly KEY_POINTER_SIZE bytes; every sequence of that length decodes. */
  function KeyPointerFromBytes(b: seq<byte>): (r: Result<KeyPointer>)
    ensures r.Ok? <==> |b| == KEY_POINTER_SIZE
  {
    if |b| != KEY_POINTER_SIZE then Err(SizeMismatch)
    else
      Ok(KeyPointer(
        Keys.FromBytes(b[0..17]).value,
        U64At(b, 17),
        U64At(b, 25)))
  }

  /** Writes the fields back at the offsets KeyPointerFromBytes reads them from. */
  function KeyPointerToBytes(x: KeyPointer): (r: seq<byte>)
    ensures |r| == KEY_POINTER_SIZE
  {
    Keys.ToBytes(x.key) + U64Bytes(x.blockPointer) + U64Bytes(x.generation)
  }

  lemma KeyPointerFromBytesToBytes(x: KeyPointer)
    ensures KeyPointerFromBytes(KeyPointerToBytes(x)) == Ok(x)
  {
    var b := KeyPointerToBytes(x);
    var q0 := Keys.ToBytes(x.key);
    var q1 := q0 + U64Bytes(x.blockPointer);
    var q2 := q1 + U64Bytes(x.generation);
    assert b[..KEY_POINTER_SIZE] == q2;
    SplitPrefix(b, q1, U64Bytes(x.generation));
    SplitPrefix(b, q0, U64Bytes(x.blockPointer));
    assert b[0..17] == Keys.ToBytes(x.key);
    Keys.FromBytesToBytes(x.key);
    assert b[17..25] == U64Bytes(x.blockPointer);
    U64DecodeEncode(x.blockPointer);
    assert b[25..33] == U64Bytes(x.generation);
    U64DecodeEncode(x.generation);
  }

  lemma KeyPointerToBytesFromBytes(b: seq<byte>)
    requires |b| == KEY_POINTER_SIZE
    ensures KeyPointerToBytes(KeyPointerFromBytes(b).value) == b
  {
    Keys.ToBytesFromBytes(b[0..17]);
    U64EncodeDecode(b[17..25]);
    U64EncodeDecode(b[25..33]);
    PrefixAppend(b, 17, 25);
    PrefixAppend(b, 25, 33);
    assert b[..KEY_POINTER_SIZE] == b;
  }

  /** For leaf nodes: the key of an item and where its data lies. */
  datatype Item = Item(
    key: Keys.Key,
    offset: u32,
    size: u32)

  /** Reads the record from exactly ITEM_SIZE bytes; every sequence of that length decodes. */
  function ItemFromBytes(b: seq<byte>): (r: Result<Item>)
    ensures r.Ok? <==> |b| == ITEM_SIZE
  {
    if |b| != ITEM_SIZE then Err(SizeMismatch)
    else
      Ok(Item(
        Keys.FromBytes(b[0..17]).value,
        U32At(b, 17),
        U32At(b, 21)))
  }

  /** Writes the fields back at the offsets ItemFromBytes reads them from. */
  function ItemToBytes(x: Item): (r: seq<byte>)
    ensures |r| == ITEM_SIZE
  {
    Keys.ToBytes(x.key) + U32Bytes(x.offset) + U32Bytes(x.size)
  }

  lemma ItemFromBytesToBytes(x: Item)
    ensures ItemFromBytes(ItemToBytes(x)) == Ok(x)
  {
    var b := ItemToBytes(x);
    var q0 := Keys.ToBytes(x.key);
    var q1 := q0 + U32Bytes(x.offset);
    var q2 := q1 + U32Bytes(x.size);
    assert b[..ITEM_SIZE] == q2;
    SplitPrefix(b, q1, U32Bytes(x.size));
    SplitPrefix(b, q0, U32Bytes(x.offset));
    assert b[0..17] == Keys.ToBytes(x.key);
    Keys.FromBytesToBytes(x.key);
    assert b[17..21] == U32Bytes(x.offset);
    U32DecodeEncode(x.offset);
    assert b[21..25] == U32Bytes(x.size);
    U32DecodeEncode(x.size);
  }

  lemma ItemToBytesFromBytes(b: seq<byte>)
    requires |b| == ITEM_SIZE
    ensures ItemToBytes(ItemFromBytes(b).value) == b
  {
    Keys.ToBytesFromBytes(b[0..17]);
    U32EncodeDecode(b[17..21]);
    U32EncodeDecode(b[21..25]);
    PrefixAppend(b, 17, 21);
    PrefixAppend(b, 21, 25);
    assert b[..ITEM_SIZE] == b;
  }


  /** A node: its header and the elements that follow it, items in a leaf
      (level 0) and key pointers in an internal node. */
  datatype Node =
    | Leaf(header: Header, items: seq<Item>)
    | Internal(header: Header, pointers: seq<KeyPointer>)

  predicate IsLeaf(h: Header)
  {
    h.level == 0
  }

  /** The size of one element following a header. */
  function ElementSize(h: Header): nat
  {
    if IsLeaf(h) then ITEM_SIZE else KEY_POINTER_SIZE
  }

  /** count items read back to back from the front of b. */
  function ItemsFromBytes(b: seq<byte>, count: nat): (r: seq<Item>)
    requires |b| >= count * ITEM_SIZE
    ensures |r| == count
    ensures forall i :: 0 <= i < count ==> r[i] == ItemFromBytes(b[i * ITEM_SIZE..i * ITEM_SIZE + ITEM_SIZE]).value
  {
    if count == 0 then []
    else
      var r := [ItemFromBytes(b[..ITEM_SIZE]).value] + ItemsFromBytes(b[ITEM_SIZE..], count - 1);
      assert forall i :: 1 <= i < count ==>
        b[ITEM_SIZE..][(i - 1) * ITEM_SIZE..(i - 1) * ITEM_SIZE + ITEM_SIZE] == b[i * ITEM_SIZE..i * ITEM_SIZE + ITEM_SIZE];
      r
  }

  function KeyPointersFromBytes(b: seq<byte>, count: nat): (r: seq<KeyPointer>)
    requires |b| >= count * KEY_POINTER_SIZE
    ensures |r| == count
    ensures forall i :: 0 <= i < count ==>
      r[i] == KeyPointerFromBytes(b[i * KEY_POINTER_SIZE..i * KEY_POINTER_SIZE + KEY_POINTER_SIZE]).value
  {
    if count == 0 then []
    else
      var r := [KeyPointerFromBytes(b[..KEY_POINTER_SIZE]).value] + KeyPointersFromBytes(b[KEY_POINTER_SIZE..], count - 1);
      assert forall i :: 1 <= i < count ==>
        b[KEY_POINTER_SIZE..][(i - 1) * KEY_POINTER_SIZE..(i - 1) * KEY_POINTER_SIZE + KEY_POINTER_SIZE]
        == b[i * KEY_POINTER_SIZE..i * KEY_POINTER_SIZE + KEY_POINTER_SIZE];
      r
  }

  /** Item i of a leaf: the 25 bytes at 101 + 25 i. */
  function ItemAt(buf: seq<byte>, i: nat): Item
    requires HEADER_SIZE + ITEM_SIZE * (i + 1) <= |buf|
  {
    ItemFromBytes(buf[HEADER_SIZE + ITEM_SIZE * i..HEADER_SIZE + ITEM_SIZE * i + ITEM_SIZE]).value
  }

  /** Key pointer i of an internal node: the 33 bytes at 101 + 33 i. */
  function KeyPointerAt(buf: seq<byte>, i: nat): KeyPointer
    requires HEADER_SIZE + KEY_POINTER_SIZE * (i + 1) <= |buf|
  {
    KeyPointerFromBytes(buf[HEADER_SIZE + KEY_POINTER_SIZE * i..HEADER_SIZE + KEY_POINTER_SIZE * i + KEY_POINTER_SIZE]).value
  }

  /** A node read from the front of a buffer: the header, then numItems
      elements whose kind the level picks. A buffer too short for the header or
      the elements is refused, and so is an unknown back-reference revision. */
  function NodeFromPrefix(buf: seq<byte>): (r: Result<Node>)
    ensures |buf| < HEADER_SIZE ==> r == Err(TruncatedRecord)
    ensures |buf| >= HEADER_SIZE && buf[63] > 1 ==> r == Err(UnknownTag)
    ensures r.Ok? ==> |buf| >= HEADER_SIZE && r.value.header == HeaderFromBytes(buf[..HEADER_SIZE]).value
    ensures r.Ok? <==> |buf| >= HEADER_SIZE && buf[63] <= 1
                       && |buf| >= HEADER_SIZE + ElementSize(HeaderFromBytes(buf[..HEADER_SIZE]).value) * U32At(buf, 96)
    ensures r.Ok? ==> (r.value.Leaf? <==> buf[100] == 0)
    ensures r.Ok? && r.value.Leaf? ==>
      |r.value.items| == U32At(buf, 96) && forall i :: 0 <= i < |r.value.items| ==> r.value.items[i] == ItemAt(buf, i)
    ensures r.Ok? && r.value.Internal? ==>
      |r.value.pointers| == U32At(buf, 96) && forall i :: 0 <= i < |r.value.pointers| ==> r.value.pointers[i] == KeyPointerAt(buf, i)
  {
    if |buf| < HEADER_SIZE then Err(TruncatedRecord)
    else
      assert buf[..HEADER_SIZE][63] == buf[63] && buf[..HEADER_SIZE][100] == buf[100];
      assert buf[..HEADER_SIZE][96..100] == buf[96..100];
      var h :- HeaderFromBytes(buf[..HEADER_SIZE]);
      var n := h.numItems;
      if |buf| < HEADER_SIZE + ElementSize(h) * n then Err(TruncatedRecord)
      else if IsLeaf(h) then
        var items := ItemsFromBytes(buf[HEADER_SIZE..], n);
        ItemsInBuffer(buf, n, items);
        Ok(Leaf(h, items))
      else
        var pointers := KeyPointersFromBytes(buf[HEADER_SIZE..], n);
        KeyPointersInBuffer(buf, n, pointers);
        Ok(Internal(h, pointers))
  }

  lemma ItemsInBuffer(buf: seq<byte>, n: nat, items: seq<Item>)
    requires |buf| >= HEADER_SIZE + ITEM_SIZE * n && items == ItemsFromBytes(buf[HEADER_SIZE..], n)
    ensures forall i :: 0 <= i < n ==> items[i] == ItemAt(buf, i)
  {
    forall i | 0 <= i < n
      ensures items[i] == ItemAt(buf, i)
    {
      assert buf[HEADER_SIZE..][i * ITEM_SIZE..i * ITEM_SIZE + ITEM_SIZE]
          == buf[HEADER_SIZE + ITEM_SIZE * i..HEADER_SIZE + ITEM_SIZE * i + ITEM_SIZE];
    }
  }

  lemma KeyPointersInBuffer(buf: seq<byte>, n: nat, pointers: seq<KeyPointer>)
    requires |buf| >= HEADER_SIZE + KEY_POINTER_SIZE * n && pointers == KeyPointersFromBytes(buf[HEADER_SIZE..], n)
    ensures forall i :: 0 <= i < n ==> pointers[i] == KeyPointerAt(buf, i)
  {
    forall i | 0 <= i < n
      ensures pointers[i] == KeyPointerAt(buf, i)
    {
      assert buf[HEADER_SIZE..][i * KEY_POINTER_SIZE..i * KEY_POINTER_SIZE + KEY_POINTER_SIZE]
          == buf[HEADER_SIZE + KEY_POINTER_SIZE * i..HEADER_SIZE + KEY_POINTER_SIZE * i + KEY_POINTER_SIZE];
    }
  }

  /** The data of a leaf item: size bytes at offset, counted from the end of
      the header. None when they do not lie inside the node buffer. */
  function ItemData(buf: seq<byte>, item: Item): (r: Option<seq<byte>>)
    ensures r.Some? <==> HEADER_SIZE + item.offset + item.size <= |buf|
    ensures r.Some? ==> |r.value| == item.size
                        && forall k :: 0 <= k < item.size ==> r.value[k] == buf[HEADER_SIZE + item.offset + k]
  {
    var start := HEADER_SIZE + item.offset;
    if start + item.size <= |buf| then Some(buf[start..start + item.size]) else None
  }

  /** Read from the bytes of a leaf: the payload of item i is present exactly
      when its offset (the u32 at 17 within the item) plus its size (the u32
      at 21) reach no further than the end of the buffer, counted from the end
      of the header, and it is then those raw bytes. */
  lemma ItemDataInLeaf(buf: seq<byte>, i: nat)
    requires NodeFromPrefix(buf).Ok? && NodeFromPrefix(buf).value.Leaf?
    requires i < |NodeFromPrefix(buf).value.items|
    ensures HEADER_SIZE + ITEM_SIZE * (i + 1) <= |buf|
    ensures var r := ItemData(buf, NodeFromPrefix(buf).value.items[i]);
            var off := U32At(buf, HEADER_SIZE + ITEM_SIZE * i + 17);
            var size := U32At(buf, HEADER_SIZE + ITEM_SIZE * i + 21);
            (r.Some? <==> HEADER_SIZE + off + size <= |buf|)
            && (r.Some? ==> r.value == buf[HEADER_SIZE + off..HEADER_SIZE + off + size])
  {
    var n := NodeFromPrefix(buf).value;
    var h := HeaderFromBytes(buf[..HEADER_SIZE]).value;
    assert buf[..HEADER_SIZE][100] == buf[100];
    assert ElementSize(h) == ITEM_SIZE;
    assert HEADER_SIZE + ITEM_SIZE * |n.items| <= |buf|;
    var start := HEADER_SIZE + ITEM_SIZE * i;
    assert start + ITEM_SIZE <= |buf|;
    assert n.items[i] == ItemAt(buf, i);
    SliceShift(buf, start, start + ITEM_SIZE, 17, 21);
    SliceShift(buf, start, start + ITEM_SIZE, 21, 25);
  }
}
