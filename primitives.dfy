/**
  The primitive codec: fixed-width little-endian integers and opaque byte
  arrays read from and written to unaligned byte sequences.

  Every on-disk record of the filesystem is a packed struct, so a field may
  start at any byte offset; integers are always stored least significant
  byte first, whatever the host byte order.
 */
module Primitives {

  type byte = x: int | 0 <= x < 0x100
  type u16 = x: int | 0 <= x < 0x1_0000
  type u32 = x: int | 0 <= x < 0x1_0000_0000
  type u64 = x: int | 0 <= x < 0x1_0000_0000_0000_0000
  type i64 = x: int | -0x8000_0000_0000_0000 <= x < 0x8000_0000_0000_0000

  /** Why a byte sequence was not accepted as a record. */
  datatype DecodeError =
    | SizeMismatch    // an exact-size read got a sequence of another length
    | TruncatedRecord // a prefix read needs more bytes than the buffer holds
    | UnknownTag      // an embedded enumeration byte holds no declared value

  datatype Result<+T> = Ok(value: T) | Err(error: DecodeError) {
    predicate IsFailure() { Err? }

    function PropagateFailure<U>(): Result<U>
      requires Err?
    {
      Err(error)
    }

    function Extract(): T
      requires Ok?
    {
      value
    }
  }

  datatype Option<+T> = None | Some(value: T)

  function ToOption<T>(r: Result<T>): (o: Option<T>)
    ensures o.Some? <==> r.Ok?
    ensures o.Some? ==> o.value == r.value
  {
    if r.Ok? then Some(r.value) else None
  }

  /** n zero bytes: the witness of the fixed-size byte array types. */
  function Zeros(n: nat): (r: seq<byte>)
    ensures |r| == n
    ensures forall i :: 0 <= i < n ==> r[i] == 0
  {
    seq(n, _ => 0)
  }

  type Uuid = s: seq<byte> | |s| == 16 witness Zeros(16)
  type Csum = s: seq<byte> | |s| == 32 witness Zeros(32)

  function Pow256(n: nat): (r: nat)
    ensures r > 0
  {
    if n == 0 then 1 else 256 * Pow256(n - 1)
  }

  /** The unsigned value of b, least significant byte first. */
  function FromLE(b: seq<byte>): (r: nat)
    ensures r < Pow256(|b|)
  {
    if |b| == 0 then 0 else b[0] + 256 * FromLE(b[1..])
  }

  /** The n-byte little-endian representation of x. */
  function ToLE(x: nat, n: nat): (r: seq<byte>)
    requires x < Pow256(n)
    ensures |r| == n
  {
    if n == 0 then [] else [x % 256] + ToLE(x / 256, n - 1)
  }

  lemma {:induction false} FromLEToLE(x: nat, n: nat)
    requires x < Pow256(n)
    ensures FromLE(ToLE(x, n)) == x
  {
    if n > 0 {
      var t := ToLE(x, n);
      assert t[1..] == ToLE(x / 256, n - 1);
      FromLEToLE(x / 256, n - 1);
    }
  }

  lemma {:induction false} ToLEFromLE(b: seq<byte>)
    ensures ToLE(FromLE(b), |b|) == b
  {
    if |b| > 0 {
      var x := FromLE(b);
      assert x % 256 == b[0] && x / 256 == FromLE(b[1..]);
      ToLEFromLE(b[1..]);
    }
  }

  /** Two byte sequences of one length are equal iff their values are. */
  lemma FromLEInjective(a: seq<byte>, b: seq<byte>)
    requires |a| == |b|
    ensures FromLE(a) == FromLE(b) <==> a == b
  {
    if FromLE(a) == FromLE(b) {
      ToLEFromLE(a);
      ToLEFromLE(b);
    }
  }

  /** The value of a concatenation: the high part is shifted by the low part's width. */
  lemma MulByteShift(p: nat, f: nat)
    ensures (256 * p) * f == 256 * (p * f)
  {
  }

  lemma {:induction false} FromLEAppend(a: seq<byte>, c: seq<byte>)
    ensures FromLE(a + c) == FromLE(a) + Pow256(|a|) * FromLE(c)
  {
    if |a| == 0 {
      assert a + c == c;
    } else {
      assert (a + c)[1..] == a[1..] + c;
      FromLEAppend(a[1..], c);
      var t, p, f := FromLE(a[1..]), Pow256(|a| - 1), FromLE(c);
      var q := p * f;
      assert FromLE(a + c) == a[0] + 256 * (t + q);
      MulByteShift(p, f);
    }
  }

  function LeU16(b: seq<byte>): u16
    requires |b| == 2
  {
    assert Pow256(2) == 0x1_0000;
    FromLE(b)
  }

  function LeU32(b: seq<byte>): u32
    requires |b| == 4
  {
    assert Pow256(4) == 0x1_0000_0000;
    FromLE(b)
  }

  function LeU64(b: seq<byte>): u64
    requires |b| == 8
  {
    assert Pow256(8) == 0x1_0000_0000_0000_0000;
    FromLE(b)
  }

  /** A two's-complement 64-bit integer, least significant byte first:
      the one i64 congruent to the unsigned reading modulo 2^64. */
  function LeI64(b: seq<byte>): (r: i64)
    requires |b| == 8
    ensures (LeU64(b) - r) % 0x1_0000_0000_0000_0000 == 0
    ensures r < 0 <==> b[7] >= 0x80
  {
    var u := LeU64(b);
    FromLEAppend(b[..7], [b[7]]);
    assert b[..7] + [b[7]] == b;
    assert Pow256(7) == 0x100_0000_0000_0000;
    assert FromLE([b[7]]) == b[7];
    if u < 0x8000_0000_0000_0000 then u else u - 0x1_0000_0000_0000_0000
  }

  function U16Bytes(x: u16): (r: seq<byte>)
    ensures |r| == 2
  {
    assert Pow256(2) == 0x1_0000;
    ToLE(x, 2)
  }

  function U32Bytes(x: u32): (r: seq<byte>)
    ensures |r| == 4
  {
    assert Pow256(4) == 0x1_0000_0000;
    ToLE(x, 4)
  }

  function U64Bytes(x: u64): (r: seq<byte>)
    ensures |r| == 8
  {
    assert Pow256(8) == 0x1_0000_0000_0000_0000;
    ToLE(x, 8)
  }

  /** Two's complement: a negative value is written as its sum with 2^64. */
  function I64Bytes(x: i64): (r: seq<byte>)
    ensures |r| == 8
  {
    U64Bytes(if x < 0 then x + 0x1_0000_0000_0000_0000 else x)
  }

  // Reading back what was written gives the value.

  lemma U16DecodeEncode(x: u16)
    ensures LeU16(U16Bytes(x)) == x
  {
    assert Pow256(2) == 0x1_0000;
    FromLEToLE(x, 2);
  }

  lemma U32DecodeEncode(x: u32)
    ensures LeU32(U32Bytes(x)) == x
  {
    assert Pow256(4) == 0x1_0000_0000;
    FromLEToLE(x, 4);
  }

  lemma U64DecodeEncode(x: u64)
    ensures LeU64(U64Bytes(x)) == x
  {
    assert Pow256(8) == 0x1_0000_0000_0000_0000;
    FromLEToLE(x, 8);
  }

  lemma I64DecodeEncode(x: i64)
    ensures LeI64(I64Bytes(x)) == x
  {
    U64DecodeEncode(if x < 0 then x + 0x1_0000_0000_0000_0000 else x);
  }

  // Writing what was read gives the bytes.

  lemma U16EncodeDecode(b: seq<byte>)
    requires |b| == 2
    ensures U16Bytes(LeU16(b)) == b
  {
    ToLEFromLE(b);
  }

  lemma U32EncodeDecode(b: seq<byte>)
    requires |b| == 4
    ensures U32Bytes(LeU32(b)) == b
  {
    ToLEFromLE(b);
  }

  lemma U64EncodeDecode(b: seq<byte>)
    requires |b| == 8
    ensures U64Bytes(LeU64(b)) == b
  {
    ToLEFromLE(b);
  }

  lemma I64EncodeDecode(b: seq<byte>)
    requires |b| == 8
    ensures I64Bytes(LeI64(b)) == b
  {
    ToLEFromLE(b);
  }

  /** A prefix of b splits at any point into two consecutive slices. */
  lemma PrefixAppend(b: seq<byte>, i: nat, j: nat)
    requires i <= j <= |b|
    ensures b[..j] == b[..i] + b[i..j]
  {
  }

  /** A prefix of b that is a known concatenation splits into its two parts. */
  lemma SplitPrefix(b: seq<byte>, front: seq<byte>, last: seq<byte>)
    requires |front| + |last| <= |b| && b[..|front| + |last|] == front + last
    ensures b[..|front|] == front && b[|front|..|front| + |last|] == last
  {
    assert b[..|front|] == b[..|front| + |last|][..|front|];
  }

  /** A slice of a slice is a slice of the whole, shifted by the outer start. */
  lemma SliceShift(b: seq<byte>, lo: nat, hi: nat, i: nat, j: nat)
    requires lo <= hi <= |b| && i <= j <= hi - lo
    ensures b[lo..hi][i..j] == b[lo + i..lo + j]
  {
    assert forall k :: 0 <= k < j - i ==> b[lo..hi][i..j][k] == b[lo + i..lo + j][k];
  }

  // Readers at a byte offset of a larger buffer.

  function U16At(b: seq<byte>, off: nat): u16
    requires off + 2 <= |b|
  {
    LeU16(b[off..off + 2])
  }

  function U32At(b: seq<byte>, off: nat): u32
    requires off + 4 <= |b|
  {
    LeU32(b[off..off + 4])
  }

  function U64At(b: seq<byte>, off: nat): u64
    requires off + 8 <= |b|
  {
    LeU64(b[off..off + 8])
  }

  function I64At(b: seq<byte>, off: nat): i64
    requires off + 8 <= |b|
  {
    LeI64(b[off..off + 8])
  }
}
