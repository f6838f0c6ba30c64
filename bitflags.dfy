/**
  Sets of single-bit flags packed in a 64-bit word, with the semantics of the
  generated flag-set types the record modules use: a declared set of known
  bits, a strict conversion that refuses unknown bits and a truncating one
  that drops them. The properties of each concrete flag set are proved in
  the module that declares it.
 */
module BitFlags {
  import opened Primitives

  /** The flag word of a record field. */
  function Bits(x: u64): bv64
  {
    x as bv64
  }

  predicate IsSingleBit(f: bv64)
  {
    f != 0 && f & (f - 1) == 0
  }

  /** Whether every bit of flag is set in flags. */
  predicate Contains(flags: bv64, flag: bv64)
  {
    flags & flag == flag
  }

  /** The flag set of a raw word when it holds no bit outside known. */
  function FromBits(known: bv64, bits: bv64): (r: Option<bv64>)
    ensures r.Some? ==> r.value == bits
  {
    if bits & !known == 0 then Some(bits) else None
  }

  /** The known flags of a raw word, with every other bit dropped. */
  function FromBitsTruncate(known: bv64, bits: bv64): bv64
  {
    bits & known
  }
}
