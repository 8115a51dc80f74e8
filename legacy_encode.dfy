/**
 * `KeyEncoder::encode_key` of the earlier key codec: tag 0x01 and a 4-byte
 * big-endian length for strings, tag 0x02 for unsigned and 0x03 for signed
 * integers (widened to 64 bits first), tag 0x05 for bool. Every encoder only
 * appends to the caller's buffer.
 */
module LegacyEncode {
  import opened Bytes
  import opened BigEndian
  import opened Utf8
  import opened KvKeys

  const TAG_STR: byte := 0x01
  const TAG_U64: byte := 0x02
  const TAG_I64: byte := 0x03
  const TAG_BOOL: byte := 0x05

  /** The bit width of an integer type: `u8`/`i8` up to `u64`/`i64`. */
  datatype Width = W8 | W16 | W32 | W64

  /** Number of values of an unsigned type of width `w`. */
  function ULimit(w: Width): nat {
    match w
    case W8 => 0x100
    case W16 => 0x1_0000
    case W32 => 0x1_0000_0000
    case W64 => U64_LIMIT
  }

  /** Half of `ULimit(w)`: the signed type of width `w` holds `[-SHalf(w), SHalf(w))`. */
  function SHalf(w: Width): int {
    match w
    case W8 => 0x80
    case W16 => 0x8000
    case W32 => 0x8000_0000
    case W64 => I64_MAX + 1
  }

  /** A value of one of the primitive types that implement `KeyEncoder`. */
  datatype Prim = UInt(uw: Width, n: u64) | SInt(sw: Width, i: i64) | Bool(b: bool) | Str(s: seq<byte>)

  /** The value fits its type, and a string holds UTF-8 whose length fits `usize`. */
  predicate WellFormed(p: Prim) {
    match p
    case UInt(w, n) => n < ULimit(w)
    case SInt(w, i) => -SHalf(w) <= i < SHalf(w)
    case Bool(_) => true
    case Str(s) => ValidUtf8(s) && |s| < U64_LIMIT
  }

  /** `u64::from(v)` then tag 0x02 and the 8 big-endian bytes. */
  function UIntBytes(n: u64): (r: seq<byte>)
    ensures |r| == 9 && r[0] == TAG_U64 && FromBE(r[1..]) == n
  {
    assert ([TAG_U64] + U64ToBE(n))[1..] == U64ToBE(n);
    [TAG_U64] + U64ToBE(n)
  }

  /** `i64::from(v)` then tag 0x03 and the 8 big-endian two's-complement bytes. */
  function SIntBytes(i: i64): (r: seq<byte>)
    ensures |r| == 9 && r[0] == TAG_I64 && BitsToI64(FromBE(r[1..])) == i
  {
    assert ([TAG_I64] + I64ToBE(i))[1..] == I64ToBE(i);
    [TAG_I64] + I64ToBE(i)
  }

  function BoolBytes(b: bool): seq<byte> {
    [TAG_BOOL, if b then 1 else 0]
  }

  /**
   * Tag 0x01, `(len as u32).to_be_bytes()`, then the bytes: the length field
   * holds the length only when it is below 2^32, and is truncated otherwise.
   */
  function StrBytes(s: seq<byte>): (r: seq<byte>)
    ensures |r| == 5 + |s| && r[0] == TAG_STR && r[5..] == s
    ensures r[1..5] == ToBE(|s|, 4)
    ensures |s| < U32_LIMIT ==> FromBE(r[1..5]) == |s|
  {
    Pow256Eight();
    var r := [TAG_STR] + ToBE(|s|, 4) + s;
    assert r[1..5] == ToBE(|s|, 4);
    if |s| < U32_LIMIT then FromToBE(|s|, 4); r else r
  }

  /** The bytes `encode_key` appends for one primitive: 9 for integers, 2 for bool, 5 + len for strings. */
  function PrimBytes(p: Prim): (r: seq<byte>)
    ensures |r| == match p
      case UInt(_, _) => 9
      case SInt(_, _) => 9
      case Bool(_) => 2
      case Str(s) => 5 + |s|
  {
    match p
    case UInt(_, n) => UIntBytes(n)
    case SInt(_, i) => SIntBytes(i)
    case Bool(b) => BoolBytes(b)
    case Str(s) => StrBytes(s)
  }

  /** The encoding depends on the value only: narrower integers are widened, not tagged apart. */
  lemma WideningKeepsBytes(w: Width, x: int)
    requires 0 <= x < ULimit(w) || -SHalf(w) <= x < SHalf(w)
    ensures 0 <= x < ULimit(w) ==> PrimBytes(UInt(w, x)) == PrimBytes(UInt(W64, x))
    ensures -SHalf(w) <= x < SHalf(w) ==> PrimBytes(SInt(w, x)) == PrimBytes(SInt(W64, x))
  {
  }

  /** `-1i8` is sign-extended: its encoding is tag 0x03 followed by eight 0xFF bytes, the same as `-1i64`. */
  lemma MinusOneSignExtends()
    ensures PrimBytes(SInt(W8, -1)) == [TAG_I64, 0xFF, 0xFF, 0xFF, 0xFF, 0xFF, 0xFF, 0xFF, 0xFF]
    ensures PrimBytes(SInt(W8, -1)) == PrimBytes(SInt(W64, -1))
  {
    assert I64ToBits(-1) == U64_MAX;
    AllOnes(8);
  }

  /** `255u8` is zero-extended: seven zero bytes, then 0xFF. */
  lemma MaxU8ZeroExtends()
    ensures PrimBytes(UInt(W8, 255)) == [TAG_U64, 0, 0, 0, 0, 0, 0, 0, 0xFF]
  {
    assert ToBE(255, 8) == ToBE(0, 7) + [255];
    Zeros(7);
  }

  lemma {:induction false} AllOnes(width: nat)
    ensures ToBE(Pow256(width) - 1, width) == seq(width, _ => 0xFF)
  {
    if width > 0 {
      var v := Pow256(width) - 1;
      assert v / 256 == Pow256(width - 1) - 1 && v % 256 == 0xFF;
      AllOnes(width - 1);
    }
  }

  lemma {:induction false} Zeros(width: nat)
    ensures ToBE(0, width) == seq(width, _ => 0)
  {
    if width > 0 {
      Zeros(width - 1);
    }
  }

  /** A string of exactly 2^32 bytes gets the length field zero: `as u32` truncates. */
  lemma LongStringLengthWraps(s: seq<byte>)
    requires |s| == U32_LIMIT
    ensures StrBytes(s)[1..5] == [0, 0, 0, 0]
  {
    var v := U32_LIMIT;
    assert ToBE(v, 4) == ToBE(v / 256, 3) + [0];
    assert ToBE(v / 256, 3) == ToBE(v / 0x1_0000, 2) + [0];
    assert ToBE(v / 0x1_0000, 2) == ToBE(v / 0x100_0000, 1) + [0];
    assert ToBE(v / 0x100_0000, 1) == ToBE(1, 0) + [0];
  }

  method EncodeUIntInto(n: u64, out: ByteBuf)
    modifies out
    ensures out.bytes == old(out.bytes) + UIntBytes(n)
  {
    out.Push(TAG_U64);
    out.ExtendFromSlice(ToBE(n, 8));
  }

  method EncodeSIntInto(i: i64, out: ByteBuf)
    modifies out
    ensures out.bytes == old(out.bytes) + SIntBytes(i)
  {
    out.Push(TAG_I64);
    out.ExtendFromSlice(ToBE(I64ToBits(i), 8));
  }

  method EncodeStrInto(s: seq<byte>, out: ByteBuf)
    modifies out
    ensures out.bytes == old(out.bytes) + StrBytes(s)
  {
    out.Push(TAG_STR);
    out.ExtendFromSlice(ToBE(|s|, 4));
    out.ExtendFromSlice(s);
  }

  /** `encode_key` of one primitive: appends its bytes to `out` and changes nothing else. */
  method EncodeKeyInto(p: Prim, out: ByteBuf)
    modifies out
    ensures out.bytes == old(out.bytes) + PrimBytes(p)
  {
    match p
    case UInt(_, n) => EncodeUIntInto(n, out);
    case SInt(_, i) => EncodeSIntInto(i, out);
    case Bool(b) =>
      out.Push(TAG_BOOL);
      out.Push(if b then 1 else 0);
    case Str(s) => EncodeStrInto(s, out);
  }
}
