/**
 * `KvListBuilder` of the current iteration: optional prefix, start and end
 * keys, resolved into one backend range whose entries are decoded in the
 * backend's order.
 */
module ListBuilder {
  import opened Wrappers
  import opened Bytes
  import opened LexOrder
  import opened KvKeys
  import opened KvErrors
  import KvValues
  import opened ValueCodec
  import opened Backend
  import opened MemoryBackends
  import opened KeySegment
  import opened KeyOrder
  import opened BigEndian

  /** The `(range_start, range_end)` pair handed to `get_range`. */
  type Bounds = (Option<KvKey>, Option<KvKey>)

  /** One listed `(KvKey, KvValue)`. */
  type Listed = (KvKey, KvValues.KvValue)

  /** The selector match of `entries` alone, catch-all arm included. */
  function SelectorMatch(prefix: Option<KvKey>, start: Option<KvKey>, end: Option<KvKey>): (r: KvResult<Bounds>)
    ensures r.Err? <==> prefix.Some? && start.Some? && end.Some?
    ensures r.Err? ==> r.error == InvalidSelector
  {
    match (prefix, start, end)
    case (Some(p), None, None) => Ok((Some(p), Successor(p)))
    case (None, Some(s), None) => Ok((Some(s), None))
    case (None, None, Some(e)) => Ok((None, Some(e)))
    case (Some(_), Some(s), None) => Ok((Some(s), None))
    case (Some(p), None, Some(e)) => Ok((Some(p), Some(e)))
    case (None, Some(s), Some(e)) => Ok((Some(s), Some(e)))
    case (None, None, None) => Ok((None, None))
    case _ => Err(InvalidSelector)
  }

  /** Selector resolution: the all-three check first, then the match. */
  function Resolve(prefix: Option<KvKey>, start: Option<KvKey>, end: Option<KvKey>): KvResult<Bounds> {
    if prefix.Some? && start.Some? && end.Some? then Err(InvalidSelector)
    else SelectorMatch(prefix, start, end)
  }

  /**
   * The keys each selector combination asks for: a prefix alone selects its
   * extensions, a start wins over a prefix, a prefix with an end is a plain
   * lower bound, and no selector selects everything.
   */
  predicate Selected(prefix: Option<KvKey>, start: Option<KvKey>, end: Option<KvKey>, k: KvKey) {
    match (prefix, start, end)
    case (Some(p), None, None) => IsPrefix(p, k)
    case (_, Some(s), None) => LessEq(s, k)
    case (None, None, Some(e)) => Less(k, e)
    case (Some(p), None, Some(e)) => LessEq(p, k) && Less(k, e)
    case (None, Some(s), Some(e)) => LessEq(s, k) && Less(k, e)
    case (None, None, None) => true
    case _ => false
  }

  /** The early all-three check and the catch-all arm reject the same selectors. */
  lemma CatchAllOnlyForAllThree(prefix: Option<KvKey>, start: Option<KvKey>, end: Option<KvKey>)
    ensures Resolve(prefix, start, end) == SelectorMatch(prefix, start, end)
    ensures Resolve(prefix, start, end) == Err(InvalidSelector) <==> prefix.Some? && start.Some? && end.Some?
  {
  }

  /** The resolved range holds exactly the selected keys. */
  lemma ResolvedRangeIsSelection(prefix: Option<KvKey>, start: Option<KvKey>, end: Option<KvKey>, k: KvKey)
    requires Resolve(prefix, start, end).Ok?
    ensures var (lo, hi) := Resolve(prefix, start, end).value;
      InRange(k, lo, hi) <==> Selected(prefix, start, end, k)
  {
    if prefix.Some? && start.None? && end.None? {
      PrefixRangeIsExact(prefix.value, k);
    }
  }

  /** When a prefix and a start are both given, the prefix is dropped. */
  lemma StartWinsOverPrefix(p: KvKey, s: KvKey)
    ensures Resolve(Some(p), Some(s), None) == Resolve(None, Some(s), None) == Ok((Some(s), None))
  {
  }

  /** With a prefix and an end the prefix is only a lower bound: keys outside it are listed. */
  lemma PrefixWithEndIsNotAFilter()
    ensures Resolve(Some([1]), None, Some([3])) == Ok((Some([1]), Some([3])))
    ensures InRange([2], Some([1]), Some([3])) && !IsPrefix([1], [2])
  {
    assert [2][..1] == [2];
  }

  /** A prefix alone never yields a reversed or empty-by-equality range. */
  lemma PrefixBoundsAscend(p: KvKey)
    ensures var (lo, hi) := Resolve(Some(p), None, None).value;
      lo == Some(p) && (hi.None? || Less(p, hi.value))
  {
    PrefixOfConcat(p, []);
    assert p + [] == p;
  }

  /**
   * Start-with-end and prefix-with-end pass the caller's bounds through
   * unchecked, so reversed bounds reach the backend: `get_range` as written
   * panics on them, where the contract's answer is empty.
   */
  lemma ReversedSelectorsPanicAsWritten(es: seq<Entry>, lower: KvKey, e: KvKey)
    requires Less(e, lower)
    ensures Resolve(None, Some(lower), Some(e)) == Ok((Some(lower), Some(e)))
    ensures Resolve(Some(lower), None, Some(e)) == Ok((Some(lower), Some(e)))
    ensures RangeAsWritten(es, Some(lower), Some(e)).Panicked? && Range(es, Some(lower), Some(e)) == []
  {
    ReversedBoundsPanic(es, lower, e);
  }

  /** Decodes every value in order; any failure is `ValDecodeError`. */
  function DecodeAll(c: Codec, items: seq<Entry>): (r: KvResult<seq<Listed>>)
    ensures r.Ok? <==> forall i :: 0 <= i < |items| ==> DecodeValue(c, items[i].value).Ok?
    ensures r.Err? ==> r.error == ValDecodeError
    ensures r.Ok? ==> |r.value| == |items|
    ensures r.Ok? ==> forall i :: 0 <= i < |items| ==>
      r.value[i] == (items[i].key, DecodeValue(c, items[i].value).value)
  {
    if items == [] then Ok([])
    else
      var init, last := items[..|items| - 1], items[|items| - 1];
      assert forall i :: 0 <= i < |init| ==> init[i] == items[i];
      match DecodeAll(c, init)
      case Err(e) => Err(e)
      case Ok(done) =>
        match DecodeValue(c, last.value)
        case Err(_) => Err(ValDecodeError)
        case Ok(v) => Ok(done + [(last.key, v)])
  }

  lemma DecodeAllStep(c: Codec, items: seq<Entry>, i: nat, done: seq<Listed>)
    requires i < |items| && DecodeAll(c, items[..i]) == Ok(done) && DecodeValue(c, items[i].value).Ok?
    ensures DecodeAll(c, items[..i + 1]) == Ok(done + [(items[i].key, DecodeValue(c, items[i].value).value)])
  {
    assert items[..i + 1][..i] == items[..i];
  }

  lemma DecodeAllFails(c: Codec, items: seq<Entry>, i: nat)
    requires i < |items| && DecodeValue(c, items[i].value).Err?
    ensures DecodeAll(c, items) == Err(ValDecodeError)
  {
  }

  /** What `entries` answers over a store holding `es`. */
  function ListSpec(c: Codec, es: seq<Entry>, prefix: Option<KvKey>, start: Option<KvKey>, end: Option<KvKey>): (r: KvResult<seq<Listed>>)
    ensures r.Err? ==> r.error == InvalidSelector || r.error == ValDecodeError
    ensures r == Err(InvalidSelector) <==> prefix.Some? && start.Some? && end.Some?
  {
    match Resolve(prefix, start, end)
    case Err(e) => Err(e)
    case Ok((lo, hi)) => DecodeAll(c, Range(es, lo, hi))
  }

  /**
   * A successful listing holds the selected stored keys, each once, in
   * ascending order, each paired with its decoded value, and misses none.
   */
  lemma ListedEntries(c: Codec, es: seq<Entry>, prefix: Option<KvKey>, start: Option<KvKey>, end: Option<KvKey>)
    requires Ascending(es) && ListSpec(c, es, prefix, start, end).Ok?
    ensures var out := ListSpec(c, es, prefix, start, end).value;
      (forall i, j :: 0 <= i < j < |out| ==> Less(out[i].0, out[j].0))
      && (forall i :: 0 <= i < |out| ==>
            out[i].0 in AsMap(es) && Selected(prefix, start, end, out[i].0)
            && DecodeValue(c, AsMap(es)[out[i].0]) == Ok(out[i].1))
      && (forall k :: k in AsMap(es) && Selected(prefix, start, end, k) ==>
            exists i :: 0 <= i < |out| && out[i].0 == k)
  {
    var (lo, hi) := Resolve(prefix, start, end).value;
    var items := Range(es, lo, hi);
    var out := ListSpec(c, es, prefix, start, end).value;
    RangeMeetsContract(es, lo, hi);
    forall i | 0 <= i < |out|
      ensures out[i].0 in AsMap(es) && Selected(prefix, start, end, out[i].0)
      ensures DecodeValue(c, AsMap(es)[out[i].0]) == Ok(out[i].1)
    {
      assert items[i] in items;
      ResolvedRangeIsSelection(prefix, start, end, items[i].key);
    }
    forall k | k in AsMap(es) && Selected(prefix, start, end, k)
      ensures exists i :: 0 <= i < |out| && out[i].0 == k
    {
      ResolvedRangeIsSelection(prefix, start, end, k);
      var e := Entry(k, AsMap(es)[k]);
      assert e in items;
      var i :| 0 <= i < |items| && items[i] == e;
      assert out[i].0 == k;
    }
  }

  /** The listing fails on a value exactly when some selected stored value does not decode. */
  lemma ListFailsOnUndecodable(c: Codec, es: seq<Entry>, prefix: Option<KvKey>, start: Option<KvKey>, end: Option<KvKey>, k: KvKey)
    requires Ascending(es) && Resolve(prefix, start, end).Ok?
    requires k in AsMap(es) && Selected(prefix, start, end, k) && DecodeValue(c, AsMap(es)[k]).Err?
    ensures ListSpec(c, es, prefix, start, end) == Err(ValDecodeError)
  {
    var (lo, hi) := Resolve(prefix, start, end).value;
    RangeMeetsContract(es, lo, hi);
    ResolvedRangeIsSelection(prefix, start, end, k);
    var items := Range(es, lo, hi);
    assert Entry(k, AsMap(es)[k]) in items;
  }

  /** A two-component key is its two segments. */
  lemma PairKey(a: Segment, b: Segment)
    ensures EncodeKey([a, b]) == SegmentBytes(a) + SegmentBytes(b)
  {
    assert [a] + [b] == [a, b];
    EncodeKeySnoc([a], b);
    EncodeKeySingle(a);
  }

  /** An extension of one key is not an extension of a different key of the same length. */
  lemma OtherHeadNotPrefix(p: seq<byte>, q: seq<byte>, x: seq<byte>)
    requires |p| == |q| && p != q
    ensures !IsPrefix(q, p + x)
  {
    assert (p + x)[..|p|] == p;
  }

  /**
   * The keys of the prefix test: `(1, i)` extends the prefix `(1,)` and
   * `(2, j)` does not, so a prefix listing returns exactly the `(1, _)` entries.
   */
  lemma PrefixListingScenario(i: i64, j: i64)
    ensures Selected(Some(EncodeKey([U64(1)])), None, None, EncodeKey([U64(1), I64(i)]))
    ensures !Selected(Some(EncodeKey([U64(1)])), None, None, EncodeKey([U64(2), I64(j)]))
  {
    PairKey(U64(1), I64(i));
    PairKey(U64(2), I64(j));
    EncodeKeySingle(U64(1));
    PrefixOfConcat(U64Bytes(1), I64Bytes(i));
    var one, two := U64Bytes(1), U64Bytes(2);
    assert one != two by {
      assert FromBE(one[1..]) == 1 && FromBE(two[1..]) == 2;
    }
    OtherHeadNotPrefix(two, one, I64Bytes(j));
  }

  /** Keys `(x, a)` and `(x, b)` with `a`, `b` of one sign compare as `a` and `b`. */
  lemma PairKeyOrder(x: u64, a: i64, b: i64)
    requires a < 0 <==> b < 0
    ensures Less(EncodeKey([U64(x), I64(a)]), EncodeKey([U64(x), I64(b)])) <==> a < b
  {
    var s, t := [U64(x), I64(a)], [U64(x), I64(b)];
    assert Comparable(s[0], t[0]) && Comparable(s[1], t[1]);
    assert AllComparable(s, t);
    TupleOrder(s, t);
    assert TupleLess(s, t) <==> TupleLess([I64(a)], [I64(b)]) by {
      assert s[1..] == [I64(a)] && t[1..] == [I64(b)];
    }
    assert TupleLess([I64(a)], [I64(b)]) <==> a < b by {
      assert [I64(a)][1..] == [] && [I64(b)][1..] == [];
    }
  }

  /**
   * The keys of the range test: with start `(99, 2)` and end `(99, 5)`, of the
   * stored `(99, i)` for `i` in 1..=5 exactly `i` in 2..5 are selected.
   */
  lemma RangeListingScenario(i: i64)
    requires 1 <= i <= 5
    ensures var s, e := EncodeKey([U64(99), I64(2)]), EncodeKey([U64(99), I64(5)]);
      Selected(None, Some(s), Some(e), EncodeKey([U64(99), I64(i)])) <==> 2 <= i < 5
  {
    var k, s, e := EncodeKey([U64(99), I64(i)]), EncodeKey([U64(99), I64(2)]), EncodeKey([U64(99), I64(5)]);
    PairKeyOrder(99, i, 2);
    PairKeyOrder(99, i, 5);
    NotLessIsGreaterEq(k, s);
  }

  class KvListBuilder {
    const backend: MemoryBackend
    const codec: Codec
    var prefix: Option<KvKey>
    var start: Option<KvKey>
    var end: Option<KvKey>

    /** `KvListBuilder::new`: no selector set. */
    constructor (backend: MemoryBackend, codec: Codec)
      ensures this.backend == backend && this.codec == codec
      ensures prefix.None? && start.None? && end.None?
    {
      this.backend := backend;
      this.codec := codec;
      prefix, start, end := None, None, None;
    }

    /** Each setter replaces its own selector and no other. */
    method Prefix(p: KvKey)
      modifies this
      ensures prefix == Some(p) && start == old(start) && end == old(end)
    {
      prefix := Some(p);
    }

    method Start(s: KvKey)
      modifies this
      ensures start == Some(s) && prefix == old(prefix) && end == old(end)
    {
      start := Some(s);
    }

    method End(e: KvKey)
      modifies this
      ensures end == Some(e) && prefix == old(prefix) && start == old(start)
    {
      end := Some(e);
    }

    /** `entries`: resolve the selectors, fetch the range, decode each value in order. */
    method Entries() returns (r: KvResult<seq<Listed>>)
      requires backend.Valid()
      ensures r == ListSpec(codec, backend.entries, prefix, start, end)
    {
      if prefix.Some? && start.Some? && end.Some? {
        return Err(InvalidSelector);
      }
      var bounds := SelectorMatch(prefix, start, end);
      var lo, hi := bounds.value.0, bounds.value.1;
      var items := backend.GetRange(lo, hi);
      var its := items.value;
      var result: seq<Listed> := [];
      var i := 0;
      while i < |its|
        invariant 0 <= i <= |its|
        invariant DecodeAll(codec, its[..i]) == Ok(result)
      {
        var decoded := DecodeValue(codec, its[i].value);
        if decoded.Err? {
          DecodeAllFails(codec, its, i);
          return Err(ValDecodeError);
        }
        DecodeAllStep(codec, its, i, result);
        result := result + [(its[i].key, decoded.value)];
        i := i + 1;
      }
      assert its[..i] == its;
      r := Ok(result);
    }
  }
}
