/**
 * `KvKey` of the current iteration: an owned byte string ordered
 * lexicographically, built by appending segment bytes, with `successor`,
 * which turns a prefix into an exclusive upper bound.
 */
module KvKeys {
  import opened Bytes
  import opened Wrappers
  import opened LexOrder

  type KvKey = seq<byte>

  predicate AllMax(k: KvKey) {
    forall i :: 0 <= i < |k| ==> k[i] == 0xFF
  }

  /**
   * `KvKey::successor`: increment the last byte that is not 0xFF and drop
   * everything after it; there is none when every byte is 0xFF (the empty key
   * included). The result is above the key and above every extension of it.
   */
  function Successor(k: KvKey): (r: Option<KvKey>)
    ensures r.None? <==> AllMax(k)
    ensures r.Some? ==> forall x :: IsPrefix(k, x) ==> Less(x, r.value)
    decreases |k|
  {
    if |k| == 0 then None
    else
      var init, last := k[..|k| - 1], k[|k| - 1];
      if last == 0xFF then
        assert forall x :: IsPrefix(k, x) ==> IsPrefix(init, x);
        assert AllMax(k) <==> AllMax(init);
        Successor(init)
      else
        var s := init + [last + 1];
        ExtensionsBelowBump(init, last, s);
        Some(s)
  }

  lemma ExtensionsBelowBump(q: KvKey, b: byte, s: KvKey)
    requires b < 0xFF && s == q + [b + 1]
    ensures forall x :: IsPrefix(q + [b], x) ==> Less(x, s)
  {
    forall x | IsPrefix(q + [b], x)
      ensures Less(x, s)
    {
      var r := x[|q| + 1..];
      assert x == q + ([b] + r);
      CommonPrefix(q, [b] + r, [b + 1]);
    }
  }

  /** A key between `q + [b]` and `q + [b + 1]` extends `q + [b]`. */
  lemma {:induction false} BetweenIsExtension(q: KvKey, b: byte, x: KvKey)
    requires b < 0xFF
    requires LessEq(q + [b], x) && Less(x, q + [b + 1])
    ensures IsPrefix(q + [b], x)
    decreases |q|
  {
    if |q| == 0 {
      assert [] + [b] == [b] && [] + [b + 1] == [b + 1];
    } else {
      assert (q + [b])[0] == q[0] && (q + [b + 1])[0] == q[0];
      assert (q + [b])[1..] == q[1..] + [b];
      assert (q + [b + 1])[1..] == q[1..] + [b + 1];
      assert |x| > 0 && x[0] == q[0];
      BetweenIsExtension(q[1..], b, x[1..]);
      assert x == [x[0]] + x[1..];
    }
  }

  /**
   * The scan `[k, successor(k))` (unbounded above when there is no successor)
   * holds exactly the keys that have `k` as a prefix.
   */
  lemma {:induction false} PrefixRangeIsExact(k: KvKey, x: KvKey)
    ensures (LessEq(k, x) && (Successor(k).None? || Less(x, Successor(k).value))) <==> IsPrefix(k, x)
    decreases |k|
  {
    if IsPrefix(k, x) {
      PrefixIsLessEq(k, x);
    }
    if |k| > 0 && LessEq(k, x) && (Successor(k).None? || Less(x, Successor(k).value)) {
      var init, last := k[..|k| - 1], k[|k| - 1];
      assert k == init + [last];
      if last == 0xFF {
        PrefixIsLess(init, k);
        LessEqTransitive(init, k, x);
        PrefixRangeIsExact(init, x);
        var r := x[|init|..];
        assert x == init + r;
        CommonPrefix(init, [last], r);
      } else {
        BetweenIsExtension(init, last, x);
      }
    }
  }

  /** The successor is the least key above `k` that does not extend it. */
  lemma SuccessorIsLeast(k: KvKey, y: KvKey)
    requires Successor(k).Some? && Less(k, y) && !IsPrefix(k, y)
    ensures LessEq(Successor(k).value, y)
  {
    PrefixRangeIsExact(k, y);
    NotLessIsGreaterEq(y, Successor(k).value);
  }

  /** A growable byte buffer: the `Vec<u8>` that encoders append to, and the bytes of a `KvKey` under construction. */
  class ByteBuf {
    var bytes: seq<byte>

    constructor ()
      ensures bytes == []
    {
      bytes := [];
    }

    method Push(b: byte)
      modifies this
      ensures bytes == old(bytes) + [b]
    {
      bytes := bytes + [b];
    }

    method ExtendFromSlice(s: seq<byte>)
      modifies this
      ensures bytes == old(bytes) + s
    {
      bytes := bytes + s;
    }
  }
}
