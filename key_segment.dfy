/**
 * Segment encoder of the current iteration: every segment is a one-byte tag
 * followed by its payload, and a tuple key is its segments in field order.
 */
module KeySegment {
  import opened Bytes
  import opened BigEndian
  import opened LexOrder
  import opened Utf8
  import opened KvKeys

  const TAG_U64: byte := 0x01
  const TAG_I64: byte := 0x02
  const TAG_BOOL: byte := 0x03
  const TAG_STRING: byte := 0x04

  /** One typed key component; tuples of every arity are sequences of these. */
  datatype Segment = U64(u: u64) | I64(i: i64) | Bool(b: bool) | Str(s: seq<byte>)

  datatype SegType = U64Type | I64Type | BoolType | StrType

  function TypeOf(seg: Segment): SegType {
    match seg
    case U64(_) => U64Type
    case I64(_) => I64Type
    case Bool(_) => BoolType
    case Str(_) => StrType
  }

  function TypesOf(segs: seq<Segment>): (r: seq<SegType>)
    ensures |r| == |segs| && forall i :: 0 <= i < |segs| ==> r[i] == TypeOf(segs[i])
  {
    seq(|segs|, i requires 0 <= i < |segs| => TypeOf(segs[i]))
  }

  /** The tag byte of each segment type. */
  function TagOf(t: SegType): byte {
    match t
    case U64Type => TAG_U64
    case I64Type => TAG_I64
    case BoolType => TAG_BOOL
    case StrType => TAG_STRING
  }

  /** A Rust `String` holds UTF-8, and its length fits in `usize` (a 64-bit target). */
  predicate WellFormed(seg: Segment) {
    seg.Str? ==> ValidUtf8(seg.s) && |seg.s| < U64_LIMIT
  }

  predicate AllWellFormed(segs: seq<Segment>) {
    forall i :: 0 <= i < |segs| ==> WellFormed(segs[i])
  }

  /** `u64::encode_into`: the tag, then the value as 8 big-endian bytes. */
  function U64Bytes(v: u64): (r: seq<byte>)
    ensures |r| == 9 && r[0] == TAG_U64 && FromBE(r[1..]) == v
  {
    assert ([TAG_U64] + U64ToBE(v))[1..] == U64ToBE(v);
    [TAG_U64] + U64ToBE(v)
  }

  /** `i64::encode_into`: the tag, then the 8 big-endian two's-complement bytes. */
  function I64Bytes(v: i64): (r: seq<byte>)
    ensures |r| == 9 && r[0] == TAG_I64 && BitsToI64(FromBE(r[1..])) == v
  {
    assert ([TAG_I64] + I64ToBE(v))[1..] == I64ToBE(v);
    [TAG_I64] + I64ToBE(v)
  }

  /** `bool::encode_into`: the tag, then `b as u8`. */
  function BoolBytes(b: bool): seq<byte> {
    [TAG_BOOL, if b then 1 else 0]
  }

  /**
   * `String::encode_into` and `&str::encode_into` (identical): the tag, the
   * byte length as 8 big-endian bytes, then the bytes themselves.
   */
  function StrBytes(s: seq<byte>): (r: seq<byte>)
    ensures |r| == 9 + |s| && r[0] == TAG_STRING && r[9..] == s
    ensures |s| < U64_LIMIT ==> FromBE(r[1..9]) == |s|
  {
    Pow256Eight();
    var r := [TAG_STRING] + ToBE(|s|, 8) + s;
    assert r[1..9] == ToBE(|s|, 8);
    if |s| < U64_LIMIT then FromToBE(|s|, 8); r else r
  }

  function SegmentBytes(seg: Segment): (r: seq<byte>)
    ensures |r| >= 2 && r[0] == TagOf(TypeOf(seg))
  {
    match seg
    case U64(v) => U64Bytes(v)
    case I64(v) => I64Bytes(v)
    case Bool(b) => BoolBytes(b)
    case Str(s) => StrBytes(s)
  }

  /** The key a tuple converts to: its segments' bytes in field order. */
  function EncodeKey(segs: seq<Segment>): KvKey {
    if segs == [] then [] else EncodeKey(segs[..|segs| - 1]) + SegmentBytes(segs[|segs| - 1])
  }

  lemma AppendWellFormed(a: seq<Segment>, b: seq<Segment>)
    requires AllWellFormed(a) && AllWellFormed(b)
    ensures AllWellFormed(a + b)
  {
    forall i | 0 <= i < |a + b|
      ensures WellFormed((a + b)[i])
    {
      if i < |a| { assert (a + b)[i] == a[i]; } else { assert (a + b)[i] == b[i - |a|]; }
    }
  }

  /** A tuple's key is the concatenation of the keys of its parts. */
  lemma {:induction false} EncodeKeyAppend(a: seq<Segment>, b: seq<Segment>)
    ensures EncodeKey(a + b) == EncodeKey(a) + EncodeKey(b)
    decreases |b|
  {
    if b == [] {
      assert a + b == a;
    } else {
      var b', last := b[..|b| - 1], b[|b| - 1];
      assert b == b' + [last];
      EncodeKeyAppend(a, b');
      EncodeKeyAppendStep(a, b', last);
    }
  }

  lemma EncodeKeyAppendStep(a: seq<Segment>, b: seq<Segment>, last: Segment)
    requires EncodeKey(a + b) == EncodeKey(a) + EncodeKey(b)
    ensures EncodeKey(a + (b + [last])) == EncodeKey(a) + EncodeKey(b + [last])
  {
    var ab, bl := a + b, b + [last];
    assert a + bl == ab + [last];
    EncodeKeySnoc(ab, last);
    EncodeKeySnoc(b, last);
    ConcatAssoc(EncodeKey(a), EncodeKey(b), SegmentBytes(last));
  }

  lemma EncodeKeyFront(segs: seq<Segment>)
    requires |segs| > 0
    ensures EncodeKey(segs) == SegmentBytes(segs[0]) + EncodeKey(segs[1..])
  {
    var head, tail := [segs[0]], segs[1..];
    assert segs == head + tail;
    EncodeKeyAppend(head, tail);
    EncodeKeySingle(segs[0]);
  }

  lemma ConcatAssoc(x: seq<byte>, y: seq<byte>, z: seq<byte>)
    ensures (x + y) + z == x + (y + z)
  {
  }

  lemma EncodeKeySnoc(segs: seq<Segment>, seg: Segment)
    ensures EncodeKey(segs + [seg]) == EncodeKey(segs) + SegmentBytes(seg)
  {
    var t := segs + [seg];
    assert t[..|t| - 1] == segs;
  }

  lemma EncodeKeySingle(seg: Segment)
    ensures EncodeKey([seg]) == SegmentBytes(seg)
  {
    assert [seg][..0] == [];
  }

  /**
   * The first byte of an encoded segment fixes its type: the four tags are
   * pairwise distinct.
   */
  lemma FirstByteFixesType(a: Segment, b: Segment)
    ensures SegmentBytes(a)[0] == SegmentBytes(b)[0] <==> TypeOf(a) == TypeOf(b)
  {
  }

  /** `encode_into` for each primitive: only appends, and appends exactly the segment. */
  method EncodeU64Into(v: u64, out: ByteBuf)
    modifies out
    ensures out.bytes == old(out.bytes) + U64Bytes(v)
  {
    out.Push(TAG_U64);
    out.ExtendFromSlice(ToBE(v, 8));
  }

  method EncodeI64Into(v: i64, out: ByteBuf)
    modifies out
    ensures out.bytes == old(out.bytes) + I64Bytes(v)
  {
    out.Push(TAG_I64);
    out.ExtendFromSlice(ToBE(I64ToBits(v), 8));
  }

  method EncodeBoolInto(b: bool, out: ByteBuf)
    modifies out
    ensures out.bytes == old(out.bytes) + [TAG_BOOL, if b then 1 else 0]
  {
    out.Push(TAG_BOOL);
    out.Push(if b then 1 else 0);
  }

  method EncodeStrInto(s: seq<byte>, out: ByteBuf)
    modifies out
    ensures out.bytes == old(out.bytes) + StrBytes(s)
  {
    out.Push(TAG_STRING);
    out.ExtendFromSlice(ToBE(|s|, 8));
    out.ExtendFromSlice(s);
  }

  /** `KvKey::push` of one component: dispatches to the component's `encode_into`. */
  method EncodeInto(seg: Segment, out: ByteBuf)
    modifies out
    ensures out.bytes == old(out.bytes) + SegmentBytes(seg)
  {
    match seg
    case U64(v) => EncodeU64Into(v, out);
    case I64(v) => EncodeI64Into(v, out);
    case Bool(b) => EncodeBoolInto(b, out);
    case Str(s) => EncodeStrInto(s, out);
  }

  /** Tuple `to_key`: a fresh key with each component pushed in field order. */
  method ToKey(segs: seq<Segment>) returns (key: KvKey)
    ensures key == EncodeKey(segs)
  {
    var buf := new ByteBuf();
    var i := 0;
    while i < |segs|
      invariant 0 <= i <= |segs|
      invariant buf.bytes == EncodeKey(segs[..i])
    {
      EncodeInto(segs[i], buf);
      assert segs[..i + 1][..i] == segs[..i];
      i := i + 1;
    }
    assert segs[..i] == segs;
    key := buf.bytes;
  }
}
