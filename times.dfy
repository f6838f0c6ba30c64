/**
  The 12-byte timestamp record of src/core/time.rs: signed seconds since the
  Unix epoch and the nanoseconds past that second.
 */
module Times {
  import opened Primitives

  const TIME_SIZE: nat := 12

  /** A point in time as stored on disk. */
  datatype Time = Time(
    timestamp: i64,
    nanoseconds: u32)

  /** Reads the record from exactly TIME_SIZE bytes; every sequence of that length decodes. */
  function FromBytes(b: seq<byte>): (r: Result<Time>)
    ensures r.Ok? <==> |b| == TIME_SIZE
  {
    if |b| != TIME_SIZE then Err(SizeMismatch)
    else
      Ok(Time(
        I64At(b, 0),
        U32At(b, 8)))
  }

  /** Writes the fields back at the offsets FromBytes reads them from. */
  function ToBytes(x: Time): (r: seq<byte>)
    ensures |r| == TIME_SIZE
  {
    I64Bytes(x.timestamp) + U32Bytes(x.nanoseconds)
  }

  lemma FromBytesToBytes(x: Time)
    ensures FromBytes(ToBytes(x)) == Ok(x)
  {
    var b := ToBytes(x);
    var q0 := I64Bytes(x.timestamp);
    var q1 := q0 + U32Bytes(x.nanoseconds);
    assert b[..TIME_SIZE] == q1;
    SplitPrefix(b, q0, U32Bytes(x.nanoseconds));
    assert b[0..8] == I64Bytes(x.timestamp);
    I64DecodeEncode(x.timestamp);
    assert b[8..12] == U32Bytes(x.nanoseconds);
    U32DecodeEncode(x.nanoseconds);
  }

  lemma ToBytesFromBytes(b: seq<byte>)
    requires |b| == TIME_SIZE
    ensures ToBytes(FromBytes(b).value) == b
  {
    I64EncodeDecode(b[0..8]);
    U32EncodeDecode(b[8..12]);
    PrefixAppend(b, 8, 12);
    assert b[..TIME_SIZE] == b;
  }


  /** The three outcomes of the derived comparison. */
  datatype Ordering = Less | Equal | Greater

  /** The derived ordering of src/core/time.rs: fields compared in declaration
      order, the timestamp as a signed and the nanoseconds as an unsigned
      integer. It agrees with the derived equality. */
  function Compare(a: Time, b: Time): (c: Ordering)
    ensures c == Equal <==> a == b
  {
    if a.timestamp < b.timestamp then Less
    else if a.timestamp > b.timestamp then Greater
    else if a.nanoseconds < b.nanoseconds then Less
    else if a.nanoseconds > b.nanoseconds then Greater
    else Equal
  }

  /** A time is well formed when its nanoseconds lie inside one second. */
  predicate WellFormed(t: Time)
  {
    t.nanoseconds < 1_000_000_000
  }

  /** The instant a well-formed time denotes, in nanoseconds since the epoch. */
  function TotalNanoseconds(t: Time): int
  {
    t.timestamp * 1_000_000_000 + t.nanoseconds
  }

  lemma CompareAntisymmetric(a: Time, b: Time)
    ensures Compare(a, b) == Less <==> Compare(b, a) == Greater
  {
  }

  lemma CompareTransitive(a: Time, b: Time, c: Time)
    requires Compare(a, b) == Less && Compare(b, c) == Less
    ensures Compare(a, c) == Less
  {
  }

  /** On well-formed times the derived ordering is the order of the instants
      they denote. */
  lemma CompareIsInstantOrder(a: Time, b: Time)
    requires WellFormed(a) && WellFormed(b)
    ensures Compare(a, b) == Less <==> TotalNanoseconds(a) < TotalNanoseconds(b)
    ensures Compare(a, b) == Equal <==> TotalNanoseconds(a) == TotalNanoseconds(b)
  {
    if a.timestamp < b.timestamp {
      assert (a.timestamp + 1) * 1_000_000_000 <= b.timestamp * 1_000_000_000;
    } else if a.timestamp > b.timestamp {
      assert (b.timestamp + 1) * 1_000_000_000 <= a.timestamp * 1_000_000_000;
    }
  }
}
