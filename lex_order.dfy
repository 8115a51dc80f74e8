/**
 * The order of keys: the derived `Ord` of `Vec<u8>`, byte-wise lexicographic,
 * where a proper prefix sorts before each of its extensions.
 */
module LexOrder {
  import opened Bytes

  /** Strict lexicographic order on byte strings. */
  predicate Less(a: seq<byte>, b: seq<byte>)
    decreases |a|
  {
    if |a| == 0 then |b| > 0
    else if |b| == 0 then false
    else if a[0] != b[0] then a[0] < b[0]
    else Less(a[1..], b[1..])
  }

  predicate LessEq(a: seq<byte>, b: seq<byte>) {
    a == b || Less(a, b)
  }

  predicate IsPrefix(p: seq<byte>, k: seq<byte>) {
    |p| <= |k| && k[..|p|] == p
  }

  lemma {:induction false} LessIrreflexive(a: seq<byte>)
    ensures !Less(a, a)
  {
    if |a| > 0 {
      LessIrreflexive(a[1..]);
    }
  }

  lemma {:induction false} LessAsymmetric(a: seq<byte>, b: seq<byte>)
    ensures !(Less(a, b) && Less(b, a))
    decreases |a|
  {
    if |a| > 0 && |b| > 0 && a[0] == b[0] {
      LessAsymmetric(a[1..], b[1..]);
    }
  }

  lemma {:induction false} LessTransitive(a: seq<byte>, b: seq<byte>, c: seq<byte>)
    requires Less(a, b) && Less(b, c)
    ensures Less(a, c)
    decreases |a|
  {
    if |a| > 0 && a[0] == b[0] && b[0] == c[0] {
      LessTransitive(a[1..], b[1..], c[1..]);
    }
  }

  /** The order is total: any two keys are equal or one is below the other. */
  lemma {:induction false} LessTotal(a: seq<byte>, b: seq<byte>)
    ensures Less(a, b) || a == b || Less(b, a)
    decreases |a|
  {
    if |a| > 0 && |b| > 0 && a[0] == b[0] {
      LessTotal(a[1..], b[1..]);
      if a[1..] == b[1..] {
        assert a == [a[0]] + a[1..] && b == [b[0]] + b[1..];
      }
    }
  }

  lemma LessEqTransitive(a: seq<byte>, b: seq<byte>, c: seq<byte>)
    requires LessEq(a, b) && LessEq(b, c)
    ensures LessEq(a, c)
  {
    if a != b && b != c {
      LessTransitive(a, b, c);
    }
  }

  /** Less and its mirror image partition the pairs of distinct keys. */
  lemma NotLessIsGreaterEq(a: seq<byte>, b: seq<byte>)
    ensures !Less(a, b) <==> LessEq(b, a)
  {
    LessTotal(a, b);
    LessAsymmetric(a, b);
    LessIrreflexive(a);
  }

  /** A proper prefix compares less than every one of its extensions. */
  lemma {:induction false} PrefixIsLess(p: seq<byte>, k: seq<byte>)
    requires IsPrefix(p, k) && p != k
    ensures Less(p, k)
    decreases |p|
  {
    if |p| > 0 {
      assert k[1..][..|p| - 1] == p[1..];
      PrefixIsLess(p[1..], k[1..]);
    }
  }

  lemma PrefixIsLessEq(p: seq<byte>, k: seq<byte>)
    requires IsPrefix(p, k)
    ensures LessEq(p, k)
  {
    if p != k {
      PrefixIsLess(p, k);
    }
  }

  /** A shared prefix does not change how two keys compare. */
  lemma {:induction false} CommonPrefix(p: seq<byte>, a: seq<byte>, b: seq<byte>)
    ensures Less(p + a, p + b) <==> Less(a, b)
    decreases |p|
  {
    if |p| > 0 {
      assert (p + a)[0] == (p + b)[0] == p[0];
      assert (p + a)[1..] == p[1..] + a;
      assert (p + b)[1..] == p[1..] + b;
      CommonPrefix(p[1..], a, b);
    } else {
      assert p + a == a && p + b == b;
    }
  }

  /** When two different keys of equal length are extended, the extensions compare as the keys do. */
  lemma {:induction false} EqualLengthHead(a: seq<byte>, b: seq<byte>, x: seq<byte>, y: seq<byte>)
    requires |a| == |b| && a != b
    ensures Less(a + x, b + y) <==> Less(a, b)
    decreases |a|
  {
    assert |a| > 0;
    if a[0] == b[0] {
      assert a[1..] != b[1..];
      assert (a + x)[1..] == a[1..] + x;
      assert (b + y)[1..] == b[1..] + y;
      EqualLengthHead(a[1..], b[1..], x, y);
    }
  }

  lemma PrefixOfConcat(p: seq<byte>, r: seq<byte>)
    ensures IsPrefix(p, p + r)
  {
    assert (p + r)[..|p|] == p;
  }

  lemma PrefixTransitive(p: seq<byte>, q: seq<byte>, k: seq<byte>)
    requires IsPrefix(p, q) && IsPrefix(q, k)
    ensures IsPrefix(p, k)
  {
    assert k[..|p|] == k[..|q|][..|p|];
  }
}
