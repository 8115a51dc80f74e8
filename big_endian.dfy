/**
 * `to_be_bytes` / `from_be_bytes` of fixed-width unsigned integers, and the
 * two's-complement view of `i64` that `i64::to_be_bytes` writes.
 */
module BigEndian {
  import opened Bytes
  import opened LexOrder

  function Pow256(n: nat): (r: nat)
    ensures r >= 1
  {
    if n == 0 then 1 else 256 * Pow256(n - 1)
  }

  /**
   * The `width` low-order bytes of `v`, most significant first: what
   * `(v as uN).to_be_bytes()` writes, so a value that does not fit is truncated.
   */
  function ToBE(v: nat, width: nat): (r: seq<byte>)
    ensures |r| == width
  {
    if width == 0 then [] else ToBE(v / 256, width - 1) + [v % 256]
  }

  /** `uN::from_be_bytes`: the value of a big-endian byte string. */
  function FromBE(s: seq<byte>): (r: nat)
    ensures r < Pow256(|s|)
  {
    if s == [] then 0 else 256 * FromBE(s[..|s| - 1]) + s[|s| - 1]
  }

  /** `from_be_bytes` undoes `to_be_bytes` for every value that fits. */
  lemma {:induction false} FromToBE(v: nat, width: nat)
    requires v < Pow256(width)
    ensures FromBE(ToBE(v, width)) == v
  {
    if width > 0 {
      var s := ToBE(v, width);
      assert s[..width - 1] == ToBE(v / 256, width - 1);
      FromToBE(v / 256, width - 1);
    }
  }

  /** `to_be_bytes` undoes `from_be_bytes`: a big-endian string is determined by its value. */
  lemma {:induction false} ToFromBE(s: seq<byte>)
    ensures ToBE(FromBE(s), |s|) == s
  {
    if s != [] {
      var init := s[..|s| - 1];
      assert FromBE(s) / 256 == FromBE(init);
      ToFromBE(init);
      assert s == init + [s[|s| - 1]];
    }
  }

  /** Comparing two strings of one width by their last byte once the rest is known. */
  lemma {:induction false} LessByLast(a: seq<byte>, b: seq<byte>)
    requires |a| == |b| > 0
    ensures Less(a, b) <==> Less(a[..|a| - 1], b[..|b| - 1]) || (a[..|a| - 1] == b[..|b| - 1] && a[|a| - 1] < b[|b| - 1])
    decreases |a|
  {
    if |a| > 1 && a[0] == b[0] {
      assert a[1..][..|a| - 2] == a[..|a| - 1][1..];
      assert b[1..][..|b| - 2] == b[..|b| - 1][1..];
      LessByLast(a[1..], b[1..]);
      if a[1..][..|a| - 2] == b[1..][..|b| - 2] {
        assert a[..|a| - 1] == [a[0]] + a[1..][..|a| - 2];
        assert b[..|b| - 1] == [b[0]] + b[1..][..|b| - 2];
      }
      if a[..|a| - 1] == b[..|b| - 1] {
        assert a[1..][..|a| - 2] == b[1..][..|b| - 2];
      }
    }
  }

  /** On strings of one width, byte order is numeric order. */
  lemma {:induction false} LessIsNumeric(a: seq<byte>, b: seq<byte>)
    requires |a| == |b|
    ensures Less(a, b) <==> FromBE(a) < FromBE(b)
    decreases |a|
  {
    if |a| > 0 {
      var a', b' := a[..|a| - 1], b[..|b| - 1];
      LessByLast(a, b);
      LessIsNumeric(a', b');
      LessIrreflexive(a');
      if FromBE(a') == FromBE(b') {
        ToFromBE(a');
        ToFromBE(b');
      }
    }
  }

  /** Fixed-width big-endian encoding preserves numeric order in both directions. */
  lemma ToBEOrder(x: nat, y: nat, width: nat)
    requires x < Pow256(width) && y < Pow256(width)
    ensures Less(ToBE(x, width), ToBE(y, width)) <==> x < y
  {
    FromToBE(x, width);
    FromToBE(y, width);
    LessIsNumeric(ToBE(x, width), ToBE(y, width));
  }

  lemma ToBEInjective(x: nat, y: nat, width: nat)
    requires x < Pow256(width) && y < Pow256(width)
    ensures ToBE(x, width) == ToBE(y, width) <==> x == y
  {
    FromToBE(x, width);
    FromToBE(y, width);
  }

  lemma Pow256Eight()
    ensures Pow256(8) == U64_LIMIT
    ensures Pow256(4) == U32_LIMIT
  {
  }

  /** The bit pattern `i64::to_be_bytes` writes: two's complement on 64 bits. */
  function I64ToBits(i: i64): (r: u64)
    ensures i >= 0 <==> r <= I64_MAX
    ensures (r - i) % U64_LIMIT == 0
  {
    if i >= 0 then i else i + U64_LIMIT
  }

  /** `i64::from_be_bytes` applied to the bit pattern. */
  function BitsToI64(u: u64): (r: i64)
    ensures (u - r) % U64_LIMIT == 0
  {
    if u <= I64_MAX then u else u - U64_LIMIT
  }

  lemma BitsRoundTrip(i: i64, u: u64)
    ensures BitsToI64(I64ToBits(i)) == i
    ensures I64ToBits(BitsToI64(u)) == u
  {
  }

  /** `u64::to_be_bytes`: the 8 bytes both key layouts write after a u64 tag. */
  function U64ToBE(v: u64): (r: seq<byte>)
    ensures r == ToBE(v, 8)
    ensures |r| == 8 && FromBE(r) == v
  {
    Pow256Eight();
    FromToBE(v, 8);
    ToBE(v, 8)
  }

  /** `i64::to_be_bytes`: the two's-complement bits in 8 big-endian bytes. */
  function I64ToBE(v: i64): (r: seq<byte>)
    ensures r == ToBE(I64ToBits(v), 8)
    ensures |r| == 8 && BitsToI64(FromBE(r)) == v
  {
    BitsRoundTrip(v, 0);
    U64ToBE(I64ToBits(v))
  }
}
