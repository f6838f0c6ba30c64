/**
  The chunk item of src/chunk/chunk.rs: the mapping of a logical byte range
  onto stripes on the devices. The fixed part is 48 bytes; on disk it is
  followed by its stripes.
 */
module Chunks {
  import opened Primitives
  import opened BitFlags
  import Stripes
  import BlockGroupItems

  const CHUNK_SIZE: nat := 48
  const STRIPE_SIZE: nat := Stripes.STRIPE_SIZE

  type Stripe = Stripes.Stripe

  /** The logical size, owner, stripe length, type flags, I/O hints and stripe counts. */
  datatype Chunk = Chunk(
    length: u64,
    owner: u64,
    stripeLen: u64,
    chunkType: u64,
    ioAlign: u32,
    ioWidth: u32,
    sectorSize: u32,
    numStripes: u16,
    subStripes: u16)

  /** Reads the record from exactly CHUNK_SIZE bytes; every sequence of that length decodes. */
  function FromBytes(b: seq<byte>): (r: Result<Chunk>)
    ensures r.Ok? <==> |b| == CHUNK_SIZE
  {
    if |b| != CHUNK_SIZE then Err(SizeMismatch)
    else
      Ok(Chunk(
        U64At(b, 0),
        U64At(b, 8),
        U64At(b, 16),
        U64At(b, 24),
        U32At(b, 32),
        U32At(b, 36),
        U32At(b, 40),
        U16At(b, 44),
        U16At(b, 46)))
  }

  /** Writes the fields back at the offsets FromBytes reads them from. */
  function ToBytes(x: Chunk): (r: seq<byte>)
    ensures |r| == CHUNK_SIZE
  {
    U64Bytes(x.length) + U64Bytes(x.owner) + U64Bytes(x.stripeLen)
    + U64Bytes(x.chunkType) + U32Bytes(x.ioAlign) + U32Bytes(x.ioWidth)
    + U32Bytes(x.sectorSize) + U16Bytes(x.numStripes) + U16Bytes(x.subStripes)
  }

  lemma FromBytesToBytes(x: Chunk)
    ensures FromBytes(ToBytes(x)) == Ok(x)
  {
    var b := ToBytes(x);
    var q0 := U64Bytes(x.length);
    var q1 := q0 + U64Bytes(x.owner);
    var q2 := q1 + U64Bytes(x.stripeLen);
    var q3 := q2 + U64Bytes(x.chunkType);
    var q4 := q3 + U32Bytes(x.ioAlign);
    var q5 := q4 + U32Bytes(x.ioWidth);
    var q6 := q5 + U32Bytes(x.sectorSize);
    var q7 := q6 + U16Bytes(x.numStripes);
    var q8 := q7 + U16Bytes(x.subStripes);
    assert b[..CHUNK_SIZE] == q8;
    SplitPrefix(b, q7, U16Bytes(x.subStripes));
    SplitPrefix(b, q6, U16Bytes(x.numStripes));
    SplitPrefix(b, q5, U32Bytes(x.sectorSize));
    SplitPrefix(b, q4, U32Bytes(x.ioWidth));
    SplitPrefix(b, q3, U32Bytes(x.ioAlign));
    SplitPrefix(b, q2, U64Bytes(x.chunkType));
    SplitPrefix(b, q1, U64Bytes(x.stripeLen));
    SplitPrefix(b, q0, U64Bytes(x.owner));
    assert b[0..8] == U64Bytes(x.length);
    U64DecodeEncode(x.length);
    assert b[8..16] == U64Bytes(x.owner);
    U64DecodeEncode(x.owner);
    assert b[16..24] == U64Bytes(x.stripeLen);
    U64DecodeEncode(x.stripeLen);
    assert b[24..32] == U64Bytes(x.chunkType);
    U64DecodeEncode(x.chunkType);
    assert b[32..36] == U32Bytes(x.ioAlign);
    U32DecodeEncode(x.ioAlign);
    assert b[36..40] == U32Bytes(x.ioWidth);
    U32DecodeEncode(x.ioWidth);
    assert b[40..44] == U32Bytes(x.sectorSize);
    U32DecodeEncode(x.sectorSize);
    assert b[44..46] == U16Bytes(x.numStripes);
    U16DecodeEncode(x.numStripes);
    assert b[46..48] == U16Bytes(x.subStripes);
    U16DecodeEncode(x.subStripes);
  }

  lemma ToBytesFromBytes(b: seq<byte>)
    requires |b| == CHUNK_SIZE
    ensures ToBytes(FromBytes(b).value) == b
  {
    U64EncodeDecode(b[0..8]);
    U64EncodeDecode(b[8..16]);
    U64EncodeDecode(b[16..24]);
    U64EncodeDecode(b[24..32]);
    U32EncodeDecode(b[32..36]);
    U32EncodeDecode(b[36..40]);
    U32EncodeDecode(b[40..44]);
    U16EncodeDecode(b[44..46]);
    U16EncodeDecode(b[46..48]);
    PrefixAppend(b, 8, 16);
    PrefixAppend(b, 16, 24);
    PrefixAppend(b, 24, 32);
    PrefixAppend(b, 32, 36);
    PrefixAppend(b, 36, 40);
    PrefixAppend(b, 40, 44);
    PrefixAppend(b, 44, 46);
    PrefixAppend(b, 46, 48);
    assert b[..CHUNK_SIZE] == b;
  }


  /** A chunk together with the stripes that follow it. The fixed fields are
      grouped as a Chunk value; the stripe array has as many elements as the
      count the view was made with. */
  datatype ChunkDynamic = ChunkDynamic(fixed: Chunk, stripes: seq<Stripe>)

  /** The byte size of a chunk followed by n stripes. */
  function DynamicSize(n: nat): nat
  {
    CHUNK_SIZE + n * STRIPE_SIZE
  }

  /** n stripes read back to back from the front of b. */
  function StripesFromBytes(b: seq<byte>, n: nat): (r: seq<Stripe>)
    requires |b| >= n * STRIPE_SIZE
    ensures |r| == n
    ensures forall i :: 0 <= i < n ==> r[i] == Stripes.FromBytes(b[i * STRIPE_SIZE..i * STRIPE_SIZE + STRIPE_SIZE]).value
  {
    if n == 0 then []
    else
      var r := [Stripes.FromBytes(b[..STRIPE_SIZE]).value] + StripesFromBytes(b[STRIPE_SIZE..], n - 1);
      assert forall i :: 1 <= i < n ==>
        b[STRIPE_SIZE..][(i - 1) * STRIPE_SIZE..(i - 1) * STRIPE_SIZE + STRIPE_SIZE] == b[i * STRIPE_SIZE..i * STRIPE_SIZE + STRIPE_SIZE];
      r
  }

  /** The stripes written back to back. */
  function StripesToBytes(ss: seq<Stripe>): (r: seq<byte>)
    ensures |r| == |ss| * STRIPE_SIZE
    ensures forall i :: 0 <= i < |ss| ==> r[i * STRIPE_SIZE..i * STRIPE_SIZE + STRIPE_SIZE] == Stripes.ToBytes(ss[i])
  {
    if |ss| == 0 then []
    else
      var r := Stripes.ToBytes(ss[0]) + StripesToBytes(ss[1..]);
      assert forall i :: 1 <= i < |ss| ==>
        r[i * STRIPE_SIZE..i * STRIPE_SIZE + STRIPE_SIZE] == StripesToBytes(ss[1..])[(i - 1) * STRIPE_SIZE..(i - 1) * STRIPE_SIZE + STRIPE_SIZE];
      r
  }

  /** The safe dynamic view: a chunk and n stripes read from the front of buf,
      and the bytes after them. A buffer shorter than 48 + 32 n bytes is
      refused. */
  function RefFromPrefixWithElems(buf: seq<byte>, n: nat): (r: Result<(ChunkDynamic, seq<byte>)>)
    ensures r.Ok? <==> |buf| >= CHUNK_SIZE + STRIPE_SIZE * n
    ensures r.Err? ==> r.error == TruncatedRecord
    ensures r.Ok? ==> r.value.0.fixed == FromBytes(buf[..CHUNK_SIZE]).value
    ensures r.Ok? ==> |r.value.0.stripes| == n
                      && (forall i :: 0 <= i < n ==> r.value.0.stripes[i] == StripeAt(buf, i))
    ensures r.Ok? ==> r.value.1 == buf[CHUNK_SIZE + STRIPE_SIZE * n..]
  {
    if |buf| < DynamicSize(n) then Err(TruncatedRecord)
    else
      var stripes := StripesFromBytes(buf[CHUNK_SIZE..], n);
      StripesInBuffer(buf, n, stripes);
      Ok((ChunkDynamic(FromBytes(buf[..CHUNK_SIZE]).value, stripes), buf[DynamicSize(n)..]))
  }

  /** Stripe i of a dynamic chunk: the 32 bytes at 48 + 32 i. */
  function StripeAt(buf: seq<byte>, i: nat): Stripe
    requires CHUNK_SIZE + STRIPE_SIZE * (i + 1) <= |buf|
  {
    Stripes.FromBytes(buf[CHUNK_SIZE + STRIPE_SIZE * i..CHUNK_SIZE + STRIPE_SIZE * i + STRIPE_SIZE]).value
  }

  lemma StripesInBuffer(buf: seq<byte>, n: nat, stripes: seq<Stripe>)
    requires |buf| >= DynamicSize(n) && stripes == StripesFromBytes(buf[CHUNK_SIZE..], n)
    ensures forall i :: 0 <= i < n ==> stripes[i] == StripeAt(buf, i)
  {
    forall i | 0 <= i < n
      ensures stripes[i] == StripeAt(buf, i)
    {
      var b := buf[CHUNK_SIZE..];
      assert b[i * STRIPE_SIZE..i * STRIPE_SIZE + STRIPE_SIZE]
          == buf[CHUNK_SIZE + STRIPE_SIZE * i..CHUNK_SIZE + STRIPE_SIZE * i + STRIPE_SIZE];
    }
  }

  /** The unchecked conversion of a chunk into its dynamic view: the chunk's
      bytes and the following memory are read as a chunk with n stripes, n
      being the caller's count and not the stored numStripes. Callers promise
      that n stripes follow the chunk. */
  function IntoDynamic(c: Chunk, following: seq<byte>, n: nat): (r: Result<ChunkDynamic>)
    requires |following| >= STRIPE_SIZE * n
    ensures r.Ok?
    ensures r.value.fixed == c
    ensures |r.value.stripes| == n
    ensures forall i :: 0 <= i < n ==>
      r.value.stripes[i] == Stripes.FromBytes(following[STRIPE_SIZE * i..STRIPE_SIZE * i + STRIPE_SIZE]).value
  {
    var memory := ToBytes(c) + following;
    var bytes := memory[..DynamicSize(n)];
    FromBytesToBytes(c);
    assert bytes[..CHUNK_SIZE] == ToBytes(c);
    forall i | 0 <= i < n
      ensures bytes[CHUNK_SIZE + STRIPE_SIZE * i..CHUNK_SIZE + STRIPE_SIZE * i + STRIPE_SIZE]
           == following[STRIPE_SIZE * i..STRIPE_SIZE * i + STRIPE_SIZE]
    {
    }
    match RefFromPrefixWithElems(bytes, n)
    case Ok((d, _)) => Ok(d)
    case Err(e) => Err(e)
  }

  /** With no stripes the view needs only the fixed part and its array is empty. */
  lemma NoStripes(buf: seq<byte>)
    requires |buf| >= CHUNK_SIZE
    ensures RefFromPrefixWithElems(buf, 0).Ok?
    ensures RefFromPrefixWithElems(buf, 0).value.0.stripes == []
  {
  }

  function DynamicToBytes(d: ChunkDynamic): (r: seq<byte>)
    ensures |r| == DynamicSize(|d.stripes|)
  {
    ToBytes(d.fixed) + StripesToBytes(d.stripes)
  }

  /** Writing a dynamic chunk and then anything else reads back the same chunk
      and stripes, when read with its own stripe count. */
  lemma DynamicRoundTrip(d: ChunkDynamic, rest: seq<byte>)
    ensures RefFromPrefixWithElems(DynamicToBytes(d) + rest, |d.stripes|) == Ok((d, rest))
  {
    var n := |d.stripes|;
    var buf := DynamicToBytes(d) + rest;
    var st := StripesToBytes(d.stripes);
    assert buf[..CHUNK_SIZE] == ToBytes(d.fixed);
    FromBytesToBytes(d.fixed);
    var r := RefFromPrefixWithElems(buf, n).value.0;
    forall i | 0 <= i < n
      ensures r.stripes[i] == d.stripes[i]
    {
      assert buf[CHUNK_SIZE + STRIPE_SIZE * i..CHUNK_SIZE + STRIPE_SIZE * i + STRIPE_SIZE]
          == st[i * STRIPE_SIZE..i * STRIPE_SIZE + STRIPE_SIZE];
      Stripes.FromBytesToBytes(d.stripes[i]);
    }
    assert r.stripes == d.stripes;
    assert buf[DynamicSize(n)..] == rest;
  }

  /** Reading n stripes and writing them again gives back their bytes. */
  lemma {:induction false} StripesBytesRoundTrip(b: seq<byte>, n: nat)
    requires |b| >= n * STRIPE_SIZE
    ensures StripesToBytes(StripesFromBytes(b, n)) == b[..n * STRIPE_SIZE]
  {
    if n > 0 {
      var ss := StripesFromBytes(b, n);
      assert ss[1..] == StripesFromBytes(b[STRIPE_SIZE..], n - 1);
      StripesBytesRoundTrip(b[STRIPE_SIZE..], n - 1);
      Stripes.ToBytesFromBytes(b[..STRIPE_SIZE]);
      assert b[..n * STRIPE_SIZE] == b[..STRIPE_SIZE] + b[STRIPE_SIZE..][..(n - 1) * STRIPE_SIZE];
    }
  }

  /** Whatever a buffer holds, the dynamic view and its remainder write back
      to exactly that buffer. */
  lemma DynamicBytesRoundTrip(buf: seq<byte>, n: nat)
    requires |buf| >= DynamicSize(n)
    ensures RefFromPrefixWithElems(buf, n).Ok?
    ensures DynamicToBytes(RefFromPrefixWithElems(buf, n).value.0) + RefFromPrefixWithElems(buf, n).value.1 == buf
  {
    ToBytesFromBytes(buf[..CHUNK_SIZE]);
    StripesBytesRoundTrip(buf[CHUNK_SIZE..], n);
    assert buf[CHUNK_SIZE..][..n * STRIPE_SIZE] == buf[CHUNK_SIZE..DynamicSize(n)];
    assert buf == buf[..CHUNK_SIZE] + buf[CHUNK_SIZE..DynamicSize(n)] + buf[DynamicSize(n)..];
  }

  /** sub_stripes is 2 for a RAID-10 chunk and 1 for every other chunk type. */
  predicate SubStripesWellFormed(c: Chunk)
  {
    c.subStripes == if Contains(Bits(c.chunkType), BlockGroupItems.RAID10) then 2 else 1
  }
}
