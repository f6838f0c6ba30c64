/**
  The 439-byte root item of src/core/root_item.rs: where the root node of one
  tree lives, with an embedded inode item, and the rule that decides whether
  its newer fields are valid.
 */
module RootItems {
  import opened Primitives
  import InodeItems
  import Keys
  import Times

  const ROOT_ITEM_SIZE: nat := 439

  /** Eight host-endian reserved words, kept as opaque bytes. */
  type UnusedWords = s: seq<byte> | |s| == 64 witness Zeros(64)

  /** Location, generations, subvolume identity and timestamps of one tree root. */
  datatype RootItem = RootItem(
    inode: InodeItems.InodeItem,
    generation: u64,
    rootDirid: u64,
    bytenr: u64,
    byteLimit: u64,
    bytesUsed: u64,
    lastSnapshot: u64,
    flags: u64,
    refs: u32,
    dropProgress: Keys.Key,
    dropLevel: byte,
    level: byte,
    generationV2: u64,
    uuid: Uuid,
    parentUuid: Uuid,
    receivedUuid: Uuid,
    ctransid: u64,
    otransid: u64,
    stransid: u64,
    rtransid: u64,
    ctime: Times.Time,
    otime: Times.Time,
    stime: Times.Time,
    rtime: Times.Time,
    unused: UnusedWords)

  /** Reads the record from exactly ROOT_ITEM_SIZE bytes; every sequence of that length decodes. */
  function FromBytes(b: seq<byte>): (r: Result<RootItem>)
    ensures r.Ok? <==> |b| == ROOT_ITEM_SIZE
  {
    if |b| != ROOT_ITEM_SIZE then Err(SizeMismatch)
    else
      Ok(RootItem(
        InodeItems.FromBytes(b[0..160]).value,
        U64At(b, 160),
        U64At(b, 168),
        U64At(b, 176),
        U64At(b, 184),
        U64At(b, 192),
        U64At(b, 200),
        U64At(b, 208),
        U32At(b, 216),
        Keys.FromBytes(b[220..237]).value,
        b[237],
        b[238],
        U64At(b, 239),
        b[247..263],
        b[263..279],
        b[279..295],
        U64At(b, 295),
        U64At(b, 303),
        U64At(b, 311),
        U64At(b, 319),
        Times.FromBytes(b[327..339]).value,
        Times.FromBytes(b[339..351]).value,
        Times.FromBytes(b[351..363]).value,
        Times.FromBytes(b[363..375]).value,
        b[375..439]))
  }

  /** Writes the fields back at the offsets FromBytes reads them from. */
  function ToBytes(x: RootItem): (r: seq<byte>)
    ensures |r| == ROOT_ITEM_SIZE
  {
    InodeItems.ToBytes(x.inode) + U64Bytes(x.generation) + U64Bytes(x.rootDirid)
    + U64Bytes(x.bytenr) + U64Bytes(x.byteLimit) + U64Bytes(x.bytesUsed)
    + U64Bytes(x.lastSnapshot) + U64Bytes(x.flags) + U32Bytes(x.refs)
    + Keys.ToBytes(x.dropProgress) + [x.dropLevel] + [x.level]
    + U64Bytes(x.generationV2) + x.uuid + x.parentUuid + x.receivedUuid
    + U64Bytes(x.ctransid) + U64Bytes(x.otransid) + U64Bytes(x.stransid)
    + U64Bytes(x.rtransid) + Times.ToBytes(x.ctime) + Times.ToBytes(x.otime)
    + Times.ToBytes(x.stime) + Times.ToBytes(x.rtime) + x.unused
  }

  lemma FromBytesToBytes(x: RootItem)
    ensures FromBytes(ToBytes(x)) == Ok(x)
  {
    var b := ToBytes(x);
    var q0 := InodeItems.ToBytes(x.inode);
    var q1 := q0 + U64Bytes(x.generation);
    var q2 := q1 + U64Bytes(x.rootDirid);
    var q3 := q2 + U64Bytes(x.bytenr);
    var q4 := q3 + U64Bytes(x.byteLimit);
    var q5 := q4 + U64Bytes(x.bytesUsed);
    var q6 := q5 + U64Bytes(x.lastSnapshot);
    var q7 := q6 + U64Bytes(x.flags);
    var q8 := q7 + U32Bytes(x.refs);
    var q9 := q8 + Keys.ToBytes(x.dropProgress);
    var q10 := q9 + [x.dropLevel];
    var q11 := q10 + [x.level];
    var q12 := q11 + U64Bytes(x.generationV2);
    var q13 := q12 + x.uuid;
    var q14 := q13 + x.parentUuid;
    var q15 := q14 + x.receivedUuid;
    var q16 := q15 + U64Bytes(x.ctransid);
    var q17 := q16 + U64Bytes(x.otransid);
    var q18 := q17 + U64Bytes(x.stransid);
    var q19 := q18 + U64Bytes(x.rtransid);
    var q20 := q19 + Times.ToBytes(x.ctime);
    var q21 := q20 + Times.ToBytes(x.otime);
    var q22 := q21 + Times.ToBytes(x.stime);
    var q23 := q22 + Times.ToBytes(x.rtime);
    var q24 := q23 + x.unused;
    assert b[..ROOT_ITEM_SIZE] == q24;
    SplitPrefix(b, q23, x.unused);
    SplitPrefix(b, q22, Times.ToBytes(x.rtime));
    SplitPrefix(b, q21, Times.ToBytes(x.stime));
    SplitPrefix(b, q20, Times.ToBytes(x.otime));
    SplitPrefix(b, q19, Times.ToBytes(x.ctime));
    SplitPrefix(b, q18, U64Bytes(x.rtransid));
    SplitPrefix(b, q17, U64Bytes(x.stransid));
    SplitPrefix(b, q16, U64Bytes(x.otransid));
    SplitPrefix(b, q15, U64Bytes(x.ctransid));
    SplitPrefix(b, q14, x.receivedUuid);
    SplitPrefix(b, q13, x.parentUuid);
    SplitPrefix(b, q12, x.uuid);
    SplitPrefix(b, q11, U64Bytes(x.generationV2));
    SplitPrefix(b, q10, [x.level]);
    SplitPrefix(b, q9, [x.dropLevel]);
    SplitPrefix(b, q8, Keys.ToBytes(x.dropProgress));
    SplitPrefix(b, q7, U32Bytes(x.refs));
    SplitPrefix(b, q6, U64Bytes(x.flags));
    SplitPrefix(b, q5, U64Bytes(x.lastSnapshot));
    SplitPrefix(b, q4, U64Bytes(x.bytesUsed));
    SplitPrefix(b, q3, U64Bytes(x.byteLimit));
    SplitPrefix(b, q2, U64Bytes(x.bytenr));
    SplitPrefix(b, q1, U64Bytes(x.rootDirid));
    SplitPrefix(b, q0, U64Bytes(x.generation));
    assert b[0..160] == InodeItems.ToBytes(x.inode);
    InodeItems.FromBytesToBytes(x.inode);
    assert b[160..168] == U64Bytes(x.generation);
    U64DecodeEncode(x.generation);
    assert b[168..176] == U64Bytes(x.rootDirid);
    U64DecodeEncode(x.rootDirid);
    assert b[176..184] == U64Bytes(x.bytenr);
    U64DecodeEncode(x.bytenr);
    assert b[184..192] == U64Bytes(x.byteLimit);
    U64DecodeEncode(x.byteLimit);
    assert b[192..200] == U64Bytes(x.bytesUsed);
    U64DecodeEncode(x.bytesUsed);
    assert b[200..208] == U64Bytes(x.lastSnapshot);
    U64DecodeEncode(x.lastSnapshot);
    assert b[208..216] == U64Bytes(x.flags);
    U64DecodeEncode(x.flags);
    assert b[216..220] == U32Bytes(x.refs);
    U32DecodeEncode(x.refs);
    assert b[220..237] == Keys.ToBytes(x.dropProgress);
    Keys.FromBytesToBytes(x.dropProgress);
    assert b[237..238] == [x.dropLevel];
    assert b[237] == x.dropLevel;
    assert b[238..239] == [x.level];
    assert b[238] == x.level;
    assert b[239..247] == U64Bytes(x.generationV2);
    U64DecodeEncode(x.generationV2);
    assert b[247..263] == x.uuid;
    assert b[263..279] == x.parentUuid;
    assert b[279..295] == x.receivedUuid;
    assert b[295..303] == U64Bytes(x.ctransid);
    U64DecodeEncode(x.ctransid);
    assert b[303..311] == U64Bytes(x.otransid);
    U64DecodeEncode(x.otransid);
    assert b[311..319] == U64Bytes(x.stransid);
    U64DecodeEncode(x.stransid);
    assert b[319..327] == U64Bytes(x.rtransid);
    U64DecodeEncode(x.rtransid);
    assert b[327..339] == Times.ToBytes(x.ctime);
    Times.FromBytesToBytes(x.ctime);
    assert b[339..351] == Times.ToBytes(x.otime);
    Times.FromBytesToBytes(x.otime);
    assert b[351..363] == Times.ToBytes(x.stime);
    Times.FromBytesToBytes(x.stime);
    assert b[363..375] == Times.ToBytes(x.rtime);
    Times.FromBytesToBytes(x.rtime);
    assert b[375..439] == x.unused;
  }

  lemma ToBytesFromBytes(b: seq<byte>)
    requires |b| == ROOT_ITEM_SIZE
    ensures ToBytes(FromBytes(b).value) == b
  {
    InodeItems.ToBytesFromBytes(b[0..160]);
    U64EncodeDecode(b[160..168]);
    U64EncodeDecode(b[168..176]);
    U64EncodeDecode(b[176..184]);
    U64EncodeDecode(b[184..192]);
    U64EncodeDecode(b[192..200]);
    U64EncodeDecode(b[200..208]);
    U64EncodeDecode(b[208..216]);
    U32EncodeDecode(b[216..220]);
    Keys.ToBytesFromBytes(b[220..237]);
    assert b[237..238] == [b[237]];
    assert b[238..239] == [b[238]];
    U64EncodeDecode(b[239..247]);
    U64EncodeDecode(b[295..303]);
    U64EncodeDecode(b[303..311]);
    U64EncodeDecode(b[311..319]);
    U64EncodeDecode(b[319..327]);
    Times.ToBytesFromBytes(b[327..339]);
    Times.ToBytesFromBytes(b[339..351]);
    Times.ToBytesFromBytes(b[351..363]);
    Times.ToBytesFromBytes(b[363..375]);
    PrefixAppend(b, 160, 168);
    PrefixAppend(b, 168, 176);
    PrefixAppend(b, 176, 184);
    PrefixAppend(b, 184, 192);
    PrefixAppend(b, 192, 200);
    PrefixAppend(b, 200, 208);
    PrefixAppend(b, 208, 216);
    PrefixAppend(b, 216, 220);
    PrefixAppend(b, 220, 237);
    PrefixAppend(b, 237, 238);
    PrefixAppend(b, 238, 239);
    PrefixAppend(b, 239, 247);
    PrefixAppend(b, 247, 263);
    PrefixAppend(b, 263, 279);
    PrefixAppend(b, 279, 295);
    PrefixAppend(b, 295, 303);
    PrefixAppend(b, 303, 311);
    PrefixAppend(b, 311, 319);
    PrefixAppend(b, 319, 327);
    PrefixAppend(b, 327, 339);
    PrefixAppend(b, 339, 351);
    PrefixAppend(b, 351, 363);
    PrefixAppend(b, 363, 375);
    PrefixAppend(b, 375, 439);
    assert b[..ROOT_ITEM_SIZE] == b;
  }


  /** The fields after generation_v2 are valid only when it equals generation;
      otherwise an older implementation modified the root. */
  predicate V2FieldsValid(r: RootItem)
  {
    r.generationV2 == r.generation
  }

  /** On disk: the eight bytes at 239 repeat the eight bytes at 160. */
  lemma V2FieldsValidFromBytes(b: seq<byte>)
    requires |b| == ROOT_ITEM_SIZE
    ensures V2FieldsValid(FromBytes(b).value) <==> b[239..247] == b[160..168]
  {
    FromLEInjective(b[239..247], b[160..168]);
  }

  /** refs only holds 0 or 1, and byte_limit is always 0. */
  predicate WellFormed(r: RootItem)
  {
    r.refs <= 1 && r.byteLimit == 0
  }

  lemma WellFormedFromBytes(b: seq<byte>)
    requires |b| == ROOT_ITEM_SIZE
    ensures WellFormed(FromBytes(b).value) <==>
      (b[216..220] == [0, 0, 0, 0] || b[216..220] == [1, 0, 0, 0]) && b[184..192] == Zeros(8)
  {
    AtMostOne(b[216..220]);
    IsZero(b[184..192]);
  }

  lemma AtMostOne(s: seq<byte>)
    requires |s| == 4
    ensures LeU32(s) <= 1 <==> s == [0, 0, 0, 0] || s == [1, 0, 0, 0]
  {
    ToLEFromLE(s);
    FromLEToLE(0, 4);
    FromLEToLE(1, 4);
    assert ToLE(0, 4) == [0, 0, 0, 0];
    assert ToLE(1, 4) == [1, 0, 0, 0];
    if LeU32(s) == 0 {
      assert s == ToLE(0, 4);
    } else if LeU32(s) == 1 {
      assert s == ToLE(1, 4);
    }
  }

  lemma IsZero(s: seq<byte>)
    requires |s| == 8
    ensures LeU64(s) == 0 <==> s == Zeros(8)
  {
    ToLEFromLE(s);
    FromLEToLE(0, 8);
    assert ToLE(0, 8) == Zeros(8);
    if LeU64(s) == 0 {
      assert s == ToLE(0, 8);
    }
  }
}
