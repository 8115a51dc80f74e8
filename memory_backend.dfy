/**
 * `MemoryBackend`: the in-memory backend of the current iteration. Its
 * `BTreeMap<KvKey, Vec<u8>>` is an entry list kept in strictly ascending key
 * order, which `set` and `clear` replace and `get_range` reads.
 */
module MemoryBackends {
  import opened Wrappers
  import opened Bytes
  import opened LexOrder
  import opened KvKeys
  import opened KvErrors
  import opened Backend

  /** `BTreeMap::insert`: replaces the entry of `k`, or adds one in key order. */
  function Insert(es: seq<Entry>, k: KvKey, v: seq<byte>): (r: seq<Entry>)
    ensures forall e :: e in r ==> e.key == k || e in es
  {
    if es == [] then [Entry(k, v)]
    else if es[0].key == k then [Entry(k, v)] + es[1..]
    else if Less(k, es[0].key) then [Entry(k, v)] + es
    else [es[0]] + Insert(es[1..], k, v)
  }

  /** `BTreeMap::remove`: drops the entry of `k`, if there is one. */
  function Remove(es: seq<Entry>, k: KvKey): (r: seq<Entry>)
    ensures forall e :: e in r ==> e in es && e.key != k
    ensures forall e :: e in es && e.key != k ==> e in r
  {
    if es == [] then []
    else if es[0].key == k then Remove(es[1..], k)
    else [es[0]] + Remove(es[1..], k)
  }

  /** The entries of `[start, end)` in list order: the contract's answer. */
  function Range(es: seq<Entry>, start: Option<KvKey>, end: Option<KvKey>): (r: seq<Entry>)
    ensures forall e :: e in r <==> e in es && InRange(e.key, start, end)
  {
    if es == [] then []
    else (if InRange(es[0].key, start, end) then [es[0]] else []) + Range(es[1..], start, end)
  }

  /** The entries of the closed range `[lo, hi]`: `Bound::Included` at both ends. */
  function ClosedRange(es: seq<Entry>, lo: KvKey, hi: KvKey): (r: seq<Entry>)
    ensures forall e :: e in r <==> e in es && LessEq(lo, e.key) && LessEq(e.key, hi)
  {
    if es == [] then []
    else (if LessEq(lo, es[0].key) && LessEq(es[0].key, hi) then [es[0]] else []) + ClosedRange(es[1..], lo, hi)
  }

  /**
   * `get_range` as written: a closed range when start and end are equal, and
   * `BTreeMap::range`'s panic when start lies above end.
   */
  function RangeAsWritten(es: seq<Entry>, start: Option<KvKey>, end: Option<KvKey>): (r: Outcome<seq<Entry>>)
    ensures r.Panicked? <==> start.Some? && end.Some? && Less(end.value, start.value)
  {
    match (start, end)
    case (Some(s), Some(e)) =>
      if s == e then LessIrreflexive(s); Returned(ClosedRange(es, s, e))
      else if Less(e, s) then Panicked
      else Returned(Range(es, start, end))
    case _ => Returned(Range(es, start, end))
  }

  lemma {:induction false} InsertAscending(es: seq<Entry>, k: KvKey, v: seq<byte>)
    requires Ascending(es)
    ensures Ascending(Insert(es, k, v))
    decreases |es|
  {
    if es != [] {
      AscendingTail(es);
      if es[0].key == k {
        AscendingCons(Entry(k, v), es[1..]);
      } else if Less(k, es[0].key) {
        forall e | e in es
          ensures Less(k, e.key)
        {
          if e != es[0] {
            assert es == [es[0]] + es[1..];
            LessTransitive(k, es[0].key, e.key);
          }
        }
        AscendingCons(Entry(k, v), es);
      } else {
        LessTotal(k, es[0].key);
        InsertAscending(es[1..], k, v);
        AscendingCons(es[0], Insert(es[1..], k, v));
      }
    }
  }

  /** Inserting updates exactly one key of the map view. */
  lemma {:induction false} InsertAsMap(es: seq<Entry>, k: KvKey, v: seq<byte>)
    ensures AsMap(Insert(es, k, v)) == AsMap(es)[k := v]
    decreases |es|
  {
    if es != [] {
      if es[0].key == k {
        assert ([Entry(k, v)] + es[1..])[1..] == es[1..];
      } else if Less(k, es[0].key) {
        assert ([Entry(k, v)] + es)[1..] == es;
      } else {
        var rest := Insert(es[1..], k, v);
        assert ([es[0]] + rest)[1..] == rest;
        InsertAsMap(es[1..], k, v);
      }
    }
  }

  lemma {:induction false} RemoveAscending(es: seq<Entry>, k: KvKey)
    requires Ascending(es)
    ensures Ascending(Remove(es, k))
    decreases |es|
  {
    if es != [] {
      AscendingTail(es);
      RemoveAscending(es[1..], k);
      if es[0].key != k {
        AscendingCons(es[0], Remove(es[1..], k));
      }
    }
  }

  /** Removing drops exactly one key of the map view; an absent key leaves it as it was. */
  lemma {:induction false} RemoveAsMap(es: seq<Entry>, k: KvKey)
    requires Ascending(es)
    ensures AsMap(Remove(es, k)) == AsMap(es) - {k}
    decreases |es|
  {
    if es != [] {
      AscendingTail(es);
      RemoveAsMap(es[1..], k);
      var t := es[1..];
      if es[0].key == k {
        assert k !in AsMap(t) by {
          if k in AsMap(t) {
            EntryInAsMap(t, Entry(k, AsMap(t)[k]));
            LessIrreflexive(k);
          }
        }
        assert AsMap(t) - {k} == AsMap(t);
        assert AsMap(es) - {k} == AsMap(t) - {k};
      } else {
        var rest := Remove(t, k);
        assert ([es[0]] + rest)[1..] == rest;
        UpdateThenDrop(AsMap(t), es[0].key, es[0].value, k);
      }
    }
  }

  lemma UpdateThenDrop(m: map<KvKey, seq<byte>>, a: KvKey, v: seq<byte>, k: KvKey)
    requires a != k
    ensures m[a := v] - {k} == (m - {k})[a := v]
  {
  }

  /** Removing a key that is not stored changes nothing. */
  lemma {:induction false} RemoveAbsent(es: seq<Entry>, k: KvKey)
    requires k !in AsMap(es)
    ensures Remove(es, k) == es
    decreases |es|
  {
    if es != [] {
      RemoveAbsent(es[1..], k);
      assert es == [es[0]] + es[1..];
    }
  }

  lemma {:induction false} RangeAscending(es: seq<Entry>, start: Option<KvKey>, end: Option<KvKey>)
    requires Ascending(es)
    ensures Ascending(Range(es, start, end))
    decreases |es|
  {
    if es != [] {
      AscendingTail(es);
      RangeAscending(es[1..], start, end);
      if InRange(es[0].key, start, end) {
        AscendingCons(es[0], Range(es[1..], start, end));
      }
    }
  }

  /** Over an ascending entry list, `Range` meets the backend contract. */
  lemma RangeMeetsContract(es: seq<Entry>, start: Option<KvKey>, end: Option<KvKey>)
    requires Ascending(es)
    ensures RangeContract(AsMap(es), start, end, Range(es, start, end))
  {
    RangeAscending(es, start, end);
    forall e
      ensures e in Range(es, start, end) <==> e.key in AsMap(es) && AsMap(es)[e.key] == e.value && InRange(e.key, start, end)
    {
      EntryInAsMap(es, e);
    }
  }

  /** Without bounds the range is the whole store. */
  lemma {:induction false} RangeUnbounded(es: seq<Entry>)
    ensures Range(es, None, None) == es
    decreases |es|
  {
    if es != [] {
      RangeUnbounded(es[1..]);
      assert es == [es[0]] + es[1..];
    }
  }

  /** With start and end equal the half-open range is empty. */
  lemma EqualBoundsEmpty(es: seq<Entry>, k: KvKey)
    ensures Range(es, Some(k), Some(k)) == []
  {
    if Range(es, Some(k), Some(k)) != [] {
      var e := Range(es, Some(k), Some(k))[0];
      assert e in Range(es, Some(k), Some(k));
      NotLessIsGreaterEq(e.key, k);
    }
  }

  /**
   * As written, `get_range(Some(k), Some(k))` returns the entry stored at `k`,
   * while the backend contract demands the empty answer for the empty range.
   */
  lemma ClosedRangeBreaksContract(es: seq<Entry>, k: KvKey, v: seq<byte>)
    requires Ascending(es) && Entry(k, v) in es
    ensures RangeAsWritten(es, Some(k), Some(k)).Returned?
    ensures Entry(k, v) in RangeAsWritten(es, Some(k), Some(k)).value
    ensures !RangeContract(AsMap(es), Some(k), Some(k), RangeAsWritten(es, Some(k), Some(k)).value)
  {
    LessIrreflexive(k);
    assert !InRange(k, Some(k), Some(k));
  }

  /** As written, reversed bounds panic; the contract asks for the empty answer. */
  lemma ReversedBoundsPanic(es: seq<Entry>, s: KvKey, e: KvKey)
    requires Less(e, s)
    ensures RangeAsWritten(es, Some(s), Some(e)).Panicked?
    ensures Range(es, Some(s), Some(e)) == []
  {
    if Range(es, Some(s), Some(e)) != [] {
      var x := Range(es, Some(s), Some(e))[0];
      assert x in Range(es, Some(s), Some(e));
      if s != x.key { LessTransitive(s, x.key, e); }
      LessAsymmetric(s, e);
    }
  }

  /** Away from equal and reversed bounds the source's range is the contract's. */
  lemma AsWrittenAgreesElsewhere(es: seq<Entry>, start: Option<KvKey>, end: Option<KvKey>)
    requires !(start.Some? && end.Some? && LessEq(end.value, start.value))
    ensures RangeAsWritten(es, start, end) == Returned(Range(es, start, end))
  {
  }

  class MemoryBackend {
    var entries: seq<Entry>

    ghost predicate Valid()
      reads this
    {
      Ascending(entries)
    }

    /** The stored map. */
    function Contents(): map<KvKey, seq<byte>>
      reads this
    {
      AsMap(entries)
    }

    /** `MemoryBackend::new`: an empty map. */
    constructor ()
      ensures Valid() && entries == []
    {
      entries := [];
    }

    /** `get_range`, with the half-open range the backend contract asks for. */
    method GetRange(start: Option<KvKey>, end: Option<KvKey>) returns (r: KvResult<seq<Entry>>)
      requires Valid()
      ensures r.Ok? && r.value == Range(entries, start, end)
      ensures RangeContract(Contents(), start, end, r.value)
    {
      RangeMeetsContract(entries, start, end);
      r := Ok(Range(entries, start, end));
    }

    /** `set`: `Some(v)` stores `v` at `key`, `None` removes `key`; nothing else changes. */
    method Set(key: KvKey, value: Option<seq<byte>>) returns (r: KvResult<()>)
      requires Valid()
      modifies this
      ensures Valid() && r == Ok(())
      ensures value.Some? ==> entries == Insert(old(entries), key, value.value)
      ensures value.None? ==> entries == Remove(old(entries), key)
      ensures value.Some? ==> Contents() == old(Contents())[key := value.value]
      ensures value.None? ==> Contents() == old(Contents()) - {key}
    {
      if value.Some? {
        InsertAscending(entries, key, value.value);
        InsertAsMap(entries, key, value.value);
        entries := Insert(entries, key, value.value);
      } else {
        RemoveAscending(entries, key);
        RemoveAsMap(entries, key);
        entries := Remove(entries, key);
      }
      r := Ok(());
    }

    /** `clear`: afterwards the map is empty. */
    method Clear() returns (r: KvResult<()>)
      modifies this
      ensures Valid() && r == Ok(())
      ensures entries == [] && Contents() == map[]
    {
      entries := [];
      r := Ok(());
    }
  }
}
