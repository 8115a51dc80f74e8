/**
 * How far the byte order of current-iteration keys agrees with the natural
 * order of the tuples they encode ("order-preserving tuple-style keys").
 * It does for u64 and bool components, for i64 components of one sign and for
 * strings of one length; negative i64 values sort after non-negative ones and
 * a shorter string sorts before every longer one.
 */
module KeyOrder {
  import opened Bytes
  import opened BigEndian
  import opened LexOrder
  import opened KeySegment

  /** The natural order of two components of the same type. */
  predicate SegLess(a: Segment, b: Segment)
    requires TypeOf(a) == TypeOf(b)
  {
    match a
    case U64(x) => x < b.u
    case I64(x) => x < b.i
    case Bool(x) => !x && b.b
    case Str(x) => Less(x, b.s)
  }

  /**
   * Two components at the same tuple position whose byte order is meant to
   * follow their natural order: same type, i64 values of one sign, strings of
   * one length.
   */
  predicate Comparable(a: Segment, b: Segment) {
    TypeOf(a) == TypeOf(b)
    && (a.I64? ==> (a.i < 0 <==> b.i < 0))
    && (a.Str? ==> |a.s| == |b.s| < U64_LIMIT)
  }

  predicate AllComparable(s: seq<Segment>, t: seq<Segment>)
    requires |s| == |t|
  {
    forall i :: 0 <= i < |s| ==> Comparable(s[i], t[i])
  }

  /** Lexicographic order of tuples of the same shape, component by component. */
  predicate TupleLess(s: seq<Segment>, t: seq<Segment>)
    requires |s| == |t| && forall i :: 0 <= i < |s| ==> TypeOf(s[i]) == TypeOf(t[i])
    decreases |s|
  {
    |s| > 0 && (SegLess(s[0], t[0]) || (s[0] == t[0] && TupleLess(s[1..], t[1..])))
  }

  /** u64 segments: byte order is numeric order. */
  lemma U64Order(x: u64, y: u64)
    ensures Less(U64Bytes(x), U64Bytes(y)) <==> x < y
  {
    Pow256Eight();
    CommonPrefix([TAG_U64], ToBE(x, 8), ToBE(y, 8));
    ToBEOrder(x, y, 8);
  }

  /** bool segments: false sorts before true. */
  lemma BoolOrder(x: bool, y: bool)
    ensures Less(BoolBytes(x), BoolBytes(y)) <==> !x && y
  {
    var vx: byte, vy: byte := if x then 1 else 0, if y then 1 else 0;
    assert BoolBytes(x) == [TAG_BOOL] + [vx] && BoolBytes(y) == [TAG_BOOL] + [vy];
    CommonPrefix([TAG_BOOL], [vx], [vy]);
    assert [vx][1..] == [] && [vy][1..] == [];
  }

  /** i64 segments of one sign: byte order is numeric order. */
  lemma I64OrderSameSign(x: i64, y: i64)
    requires x < 0 <==> y < 0
    ensures Less(I64Bytes(x), I64Bytes(y)) <==> x < y
  {
    Pow256Eight();
    CommonPrefix([TAG_I64], ToBE(I64ToBits(x), 8), ToBE(I64ToBits(y), 8));
    ToBEOrder(I64ToBits(x), I64ToBits(y), 8);
  }

  /** The limit for i64: every negative value sorts after every non-negative one. */
  lemma NegativeSortsAfterNonNegative(x: i64, y: i64)
    requires x < 0 <= y
    ensures Less(I64Bytes(y), I64Bytes(x))
  {
    Pow256Eight();
    CommonPrefix([TAG_I64], ToBE(I64ToBits(y), 8), ToBE(I64ToBits(x), 8));
    ToBEOrder(I64ToBits(y), I64ToBits(x), 8);
  }

  /** Concretely, the key of -1 sorts after the key of 0. */
  lemma MinusOneAfterZero()
    ensures Less(I64Bytes(0), I64Bytes(-1))
  {
    NegativeSortsAfterNonNegative(-1, 0);
  }

  /** Strings of one length: byte order is lexicographic order of the bytes. */
  lemma StrOrderEqualLength(s: seq<byte>, t: seq<byte>)
    requires |s| == |t|
    ensures Less(StrBytes(s), StrBytes(t)) <==> Less(s, t)
  {
    var h := [TAG_STRING] + ToBE(|s|, 8);
    assert StrBytes(s) == h + s && StrBytes(t) == h + t;
    CommonPrefix(h, s, t);
  }

  /**
   * The limit for strings: the length is written first, so a shorter string
   * sorts before every longer one whatever its bytes.
   */
  lemma ShorterStringFirst(s: seq<byte>, t: seq<byte>)
    requires |s| < |t| < U64_LIMIT
    ensures Less(StrBytes(s), StrBytes(t))
  {
    Pow256Eight();
    var hs, ht := [TAG_STRING] + ToBE(|s|, 8), [TAG_STRING] + ToBE(|t|, 8);
    assert StrBytes(s) == hs + s && StrBytes(t) == ht + t;
    CommonPrefix([TAG_STRING], ToBE(|s|, 8), ToBE(|t|, 8));
    ToBEOrder(|s|, |t|, 8);
    EqualLengthHead(hs, ht, s, t);
  }

  /** So "b" sorts before "aa" although "aa" is lexicographically smaller. */
  lemma ShortStringExample()
    ensures Less(StrBytes([0x62]), StrBytes([0x61, 0x61])) && Less([0x61, 0x61], [0x62])
  {
    ShorterStringFirst([0x62], [0x61, 0x61]);
  }

  /** Components of different types order by their tags, whatever follows. */
  lemma DifferentTypesOrderByTag(a: Segment, b: Segment, x: seq<byte>, y: seq<byte>)
    requires TypeOf(a) != TypeOf(b)
    ensures Less(SegmentBytes(a) + x, SegmentBytes(b) + y) <==> TagOf(TypeOf(a)) < TagOf(TypeOf(b))
  {
    FirstByteFixesType(a, b);
    var p, q := SegmentBytes(a) + x, SegmentBytes(b) + y;
    assert p[0] == SegmentBytes(a)[0] && q[0] == SegmentBytes(b)[0];
  }

  /**
   * Comparable components: their segments have one length, are equal exactly
   * when the components are, and compare as the components do.
   */
  lemma SegmentOrder(a: Segment, b: Segment)
    requires Comparable(a, b)
    ensures |SegmentBytes(a)| == |SegmentBytes(b)|
    ensures SegmentBytes(a) == SegmentBytes(b) <==> a == b
    ensures Less(SegmentBytes(a), SegmentBytes(b)) <==> SegLess(a, b)
  {
    Pow256Eight();
    match a
    case U64(x) =>
      U64Order(x, b.u);
      ToBEInjective(x, b.u, 8);
      assert U64Bytes(x) == [TAG_U64] + ToBE(x, 8) && U64Bytes(b.u) == [TAG_U64] + ToBE(b.u, 8);
      assert U64Bytes(x)[1..] == ToBE(x, 8) && U64Bytes(b.u)[1..] == ToBE(b.u, 8);
    case I64(x) =>
      I64OrderSameSign(x, b.i);
      ToBEInjective(I64ToBits(x), I64ToBits(b.i), 8);
      BitsRoundTrip(x, 0);
      BitsRoundTrip(b.i, 0);
      assert I64Bytes(x)[1..] == ToBE(I64ToBits(x), 8) && I64Bytes(b.i)[1..] == ToBE(I64ToBits(b.i), 8);
    case Bool(x) =>
      BoolOrder(x, b.b);
    case Str(x) =>
      StrOrderEqualLength(x, b.s);
      assert StrBytes(x)[9..] == x && StrBytes(b.s)[9..] == b.s;
      assert StrBytes(x) == [TAG_STRING] + ToBE(|x|, 8) + x;
  }

  /**
   * The order-preservation claim for tuples of one shape: when every position
   * holds comparable components, the byte order of the keys is the
   * lexicographic order of the tuples.
   */
  lemma {:induction false} TupleOrder(s: seq<Segment>, t: seq<Segment>)
    requires |s| == |t| && AllComparable(s, t)
    ensures Less(EncodeKey(s), EncodeKey(t)) <==> TupleLess(s, t)
    decreases |s|
  {
    if s == [] {
      LessIrreflexive([]);
    } else {
      EncodeKeyFront(s);
      EncodeKeyFront(t);
      assert Comparable(s[0], t[0]);
      SegmentOrder(s[0], t[0]);
      var a, b := SegmentBytes(s[0]), SegmentBytes(t[0]);
      var s', t' := s[1..], t[1..];
      assert AllComparable(s', t') by {
        forall i | 0 <= i < |s'| ensures Comparable(s'[i], t'[i]) {
          assert s'[i] == s[i + 1] && t'[i] == t[i + 1];
        }
      }
      TupleOrder(s', t');
      if s[0] == t[0] {
        CommonPrefix(a, EncodeKey(s'), EncodeKey(t'));
        LessIrreflexive([]);
        assert !SegLess(s[0], t[0]) by { LessIrreflexive(a); }
      } else {
        EqualLengthHead(a, b, EncodeKey(s'), EncodeKey(t'));
      }
    }
  }
}
