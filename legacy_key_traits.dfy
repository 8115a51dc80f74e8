/**
 * `IntoKey` of key_traits.rs: a primitive's key is its `encode_key` bytes in
 * an empty buffer, `Key` and `&Key` give their own bytes, and a tuple's key
 * is its components' `into_key` bytes extended one after another, so tuples
 * may nest. Decoding (`FromKey`, `FromKeySeg`) is the one of `LegacyEncoding`.
 */
module LegacyKeyTraits {
  import opened Bytes
  import opened KvKeys
  import opened LegacyKeys
  import opened LegacyEncode
  import opened LegacyEncoding

  /** A value implementing `IntoKey`: a primitive or key, or a tuple of such values. */
  datatype KeyValue = Leaf(c: Component) | Tuple(items: seq<KeyValue>)

  /** The bytes of `v.into_key()`. */
  function IntoKeyBytes(v: KeyValue): seq<byte>
    decreases v
  {
    match v
    case Leaf(c) => ComponentBytes(c)
    case Tuple(items) => ItemsBytes(items)
  }

  /** The bytes of a tuple's components, each one's `into_key` appended in field order. */
  function ItemsBytes(items: seq<KeyValue>): seq<byte>
    decreases items
  {
    if items == [] then [] else ItemsBytes(items[..|items| - 1]) + IntoKeyBytes(items[|items| - 1])
  }

  /** The primitive and key components of `v`, left to right, with nesting removed. */
  function Flatten(v: KeyValue): seq<Component>
    decreases v
  {
    match v
    case Leaf(c) => [c]
    case Tuple(items) => FlattenItems(items)
  }

  function FlattenItems(items: seq<KeyValue>): seq<Component>
    decreases items
  {
    if items == [] then [] else FlattenItems(items[..|items| - 1]) + Flatten(items[|items| - 1])
  }

  /** The key of any value, nested or not, is the flat tuple key of its components in order. */
  lemma {:induction false} IntoKeyIsFlat(v: KeyValue)
    ensures IntoKeyBytes(v) == TupleBytes(Flatten(v))
    decreases v
  {
    match v
    case Leaf(c) => KeyBytesSingle(c);
    case Tuple(items) => ItemsAreFlat(items);
  }

  lemma {:induction false} ItemsAreFlat(items: seq<KeyValue>)
    ensures ItemsBytes(items) == TupleBytes(FlattenItems(items))
    decreases items
  {
    if items != [] {
      var init, last := items[..|items| - 1], items[|items| - 1];
      ItemsAreFlat(init);
      IntoKeyIsFlat(last);
      TupleBytesAppend(FlattenItems(init), Flatten(last));
    }
  }

  /** `(a, (b, c))` and `(a, b, c)` give the same key. */
  lemma NestedTupleFlattens(a: Component, b: Component, c: Component)
    ensures IntoKeyBytes(Tuple([Leaf(a), Tuple([Leaf(b), Leaf(c)])])) == IntoKeyBytes(Tuple([Leaf(a), Leaf(b), Leaf(c)]))
  {
    IntoKeyIsFlat(Tuple([Leaf(a), Tuple([Leaf(b), Leaf(c)])]));
    IntoKeyIsFlat(Tuple([Leaf(a), Leaf(b), Leaf(c)]));
    NestedAndFlatComponents(a, b, c);
  }

  lemma NestedAndFlatComponents(a: Component, b: Component, c: Component)
    ensures Flatten(Tuple([Leaf(a), Tuple([Leaf(b), Leaf(c)])])) == [a, b, c]
    ensures Flatten(Tuple([Leaf(a), Leaf(b), Leaf(c)])) == [a, b, c]
  {
    LeafPairComponents(a, b);
    LeafPairComponents(b, c);
    assert [Leaf(a), Tuple([Leaf(b), Leaf(c)])][..1] == [Leaf(a)];
    assert [Leaf(a), Leaf(b), Leaf(c)][..2] == [Leaf(a), Leaf(b)];
    assert [Leaf(a)][..0] == [];
    assert FlattenItems([Leaf(a)]) == [a];
    assert Flatten(Tuple([Leaf(b), Leaf(c)])) == [b, c];
    assert FlattenItems([Leaf(a), Tuple([Leaf(b), Leaf(c)])]) == [a] + [b, c];
    assert FlattenItems([Leaf(a), Leaf(b), Leaf(c)]) == [a, b] + [c];
  }

  lemma LeafPairComponents(a: Component, b: Component)
    ensures FlattenItems([Leaf(a), Leaf(b)]) == [a, b]
  {
    assert [Leaf(a), Leaf(b)][..1] == [Leaf(a)];
    assert [Leaf(a)][..0] == [];
    assert FlattenItems([Leaf(a)]) == [a];
  }

  /** `into_key` of a one-tuple holding a `Key` is that key. */
  lemma KeyTupleIsKey(k: Key)
    ensures IntoKeyBytes(Tuple([Leaf(KeyRef(k))])) == k.bytes
  {
    var items := [Leaf(KeyRef(k))];
    assert items[..0] == [];
    assert IntoKeyBytes(items[0]) == k.bytes;
    assert ItemsBytes(items) == ItemsBytes([]) + k.bytes;
  }

  /** `into_key`: a primitive or key directly, a tuple by extending one buffer with each component's key. */
  method IntoKey(v: KeyValue) returns (k: Key)
    ensures k.bytes == IntoKeyBytes(v)
    decreases v
  {
    match v
    case Leaf(c) =>
      if c.Value? {
        k := PrimIntoKey(c.p);
      } else {
        k := c.key;
      }
    case Tuple(items) =>
      var out := new ByteBuf();
      var i := 0;
      while i < |items|
        invariant 0 <= i <= |items|
        invariant out.bytes == ItemsBytes(items[..i])
      {
        var part := IntoKey(items[i]);
        out.ExtendFromSlice(part.bytes);
        assert items[..i + 1][..i] == items[..i];
        i := i + 1;
      }
      assert items[..i] == items;
      k := Key(out.bytes);
  }
}
