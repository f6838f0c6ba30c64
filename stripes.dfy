/**
  The 32-byte stripe of src/chunk/stripe.rs: where one copy of a chunk lives
  on one device.
 */
module Stripes {
  import opened Primitives

  const STRIPE_SIZE: nat := 32

  /** A device id, the byte offset of the stripe on it, and the device UUID. */
  datatype Stripe = Stripe(
    devid: u64,
    offset: u64,
    devUuid: Uuid)

  /** Reads the record from exactly STRIPE_SIZE bytes; every sequence of that length decodes. */
  function FromBytes(b: seq<byte>): (r: Result<Stripe>)
    ensures r.Ok? <==> |b| == STRIPE_SIZE
  {
    if |b| != STRIPE_SIZE then Err(SizeMismatch)
    else
      Ok(Stripe(
        U64At(b, 0),
        U64At(b, 8),
        b[16..32]))
  }

  /** Writes the fields back at the offsets FromBytes reads them from. */
  function ToBytes(x: Stripe): (r: seq<byte>)
    ensures |r| == STRIPE_SIZE
  {
    U64Bytes(x.devid) + U64Bytes(x.offset) + x.devUuid
  }

  lemma FromBytesToBytes(x: Stripe)
    ensures FromBytes(ToBytes(x)) == Ok(x)
  {
    var b := ToBytes(x);
    var q0 := U64Bytes(x.devid);
    var q1 := q0 + U64Bytes(x.offset);
    var q2 := q1 + x.devUuid;
    assert b[..STRIPE_SIZE] == q2;
    SplitPrefix(b, q1, x.devUuid);
    SplitPrefix(b, q0, U64Bytes(x.offset));
    assert b[0..8] == U64Bytes(x.devid);
    U64DecodeEncode(x.devid);
    assert b[8..16] == U64Bytes(x.offset);
    U64DecodeEncode(x.offset);
    assert b[16..32] == x.devUuid;
  }

  lemma ToBytesFromBytes(b: seq<byte>)
    requires |b| == STRIPE_SIZE
    ensures ToBytes(FromBytes(b).value) == b
  {
    U64EncodeDecode(b[0..8]);
    U64EncodeDecode(b[8..16]);
    PrefixAppend(b, 8, 16);
    PrefixAppend(b, 16, 32);
    assert b[..STRIPE_SIZE] == b;
  }


  /** The derived equality: two stripes are equal iff all three fields are,
      that is iff their 32 encoded bytes are. */
  lemma EqualIffBytesEqual(a: Stripe, b: Stripe)
    ensures a == b <==> ToBytes(a) == ToBytes(b)
  {
    if ToBytes(a) == ToBytes(b) {
      FromBytesToBytes(a);
      FromBytesToBytes(b);
    }
  }
}
