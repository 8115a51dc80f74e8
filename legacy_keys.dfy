/**
 * `Key` and `DecodeError` of the earlier key codec. A `Key` wraps its bytes;
 * `Deref` and `AsRef` expose them as the field `bytes`, and the derived
 * `Ord` is the lexicographic order of those bytes.
 */
module LegacyKeys {
  import opened Bytes
  import opened LexOrder

  datatype Key = Key(bytes: seq<byte>)

  datatype DecodeError = Msg(msg: string) | UnexpectedEof | Invalid

  /** The derived `<` of `Key`: the order of its `Vec<u8>`. */
  predicate KeyLess(a: Key, b: Key) {
    Less(a.bytes, b.bytes)
  }

  predicate KeyLessEq(a: Key, b: Key) {
    LessEq(a.bytes, b.bytes)
  }

  /** The derived order is a strict total order whose equality is byte equality. */
  lemma KeyOrderIsTotal(a: Key, b: Key)
    ensures !KeyLess(a, a)
    ensures !(KeyLess(a, b) && KeyLess(b, a))
    ensures KeyLess(a, b) || a == b || KeyLess(b, a)
  {
    LessIrreflexive(a.bytes);
    LessAsymmetric(a.bytes, b.bytes);
    LessTotal(a.bytes, b.bytes);
  }

  lemma KeyLessTransitive(a: Key, b: Key, c: Key)
    requires KeyLess(a, b) && KeyLess(b, c)
    ensures KeyLess(a, c)
  {
    LessTransitive(a.bytes, b.bytes, c.bytes);
  }

  /** A proper prefix sorts before each of its extensions. */
  lemma PrefixKeyIsLess(p: Key, k: Key)
    requires IsPrefix(p.bytes, k.bytes) && p != k
    ensures KeyLess(p, k)
  {
    PrefixIsLess(p.bytes, k.bytes);
  }
}
