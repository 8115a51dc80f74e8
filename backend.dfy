/**
 * The contract every `KvBackend` promises: keys are ordered byte strings,
 * values opaque blobs, and `get_range` returns the stored entries of the
 * half-open range `[start, end)` in ascending key order (no upper bound when
 * `end` is absent). The contract pins the output down completely.
 */
module Backend {
  import opened Wrappers
  import opened Bytes
  import opened LexOrder
  import opened KvKeys

  /** One `(KvKey, Vec<u8>)` pair. */
  datatype Entry = Entry(key: KvKey, value: seq<byte>)

  /** Strictly ascending keys: the order of a `BTreeMap` and of every `get_range` answer. */
  predicate Ascending(es: seq<Entry>) {
    forall i, j :: 0 <= i < j < |es| ==> Less(es[i].key, es[j].key)
  }

  /** `start <= k` when there is a start, `k < end` when there is an end. */
  predicate InRange(k: KvKey, start: Option<KvKey>, end: Option<KvKey>) {
    (start.None? || LessEq(start.value, k)) && (end.None? || Less(k, end.value))
  }

  /** The key-value map an entry list stands for (the first entry of a key wins). */
  function AsMap(es: seq<Entry>): map<KvKey, seq<byte>> {
    if es == [] then map[] else AsMap(es[1..])[es[0].key := es[0].value]
  }

  /**
   * `get_range(start, end)` over a store holding `stored` may answer `out`:
   * ascending, and holding exactly the stored entries whose key is in range.
   */
  ghost predicate RangeContract(stored: map<KvKey, seq<byte>>, start: Option<KvKey>, end: Option<KvKey>, out: seq<Entry>)
    ensures RangeContract(stored, start, end, out) ==>
      forall i :: 0 <= i < |out| ==> out[i].key in stored && stored[out[i].key] == out[i].value && InRange(out[i].key, start, end)
  {
    Ascending(out)
    && forall e :: e in out <==> e.key in stored && stored[e.key] == e.value && InRange(e.key, start, end)
  }

  lemma AscendingTail(es: seq<Entry>)
    requires Ascending(es) && |es| > 0
    ensures Ascending(es[1..])
    ensures forall e :: e in es[1..] ==> Less(es[0].key, e.key)
  {
    forall e | e in es[1..]
      ensures Less(es[0].key, e.key)
    {
      var j :| 0 <= j < |es[1..]| && es[1..][j] == e;
      assert es[j + 1] == e;
    }
  }

  lemma AscendingCons(x: Entry, es: seq<Entry>)
    requires Ascending(es)
    requires forall e :: e in es ==> Less(x.key, e.key)
    ensures Ascending([x] + es)
  {
    var r := [x] + es;
    forall i, j | 0 <= i < j < |r|
      ensures Less(r[i].key, r[j].key)
    {
      assert r[j] == es[j - 1];
      if i > 0 {
        assert r[i] == es[i - 1];
      }
    }
  }

  /** In an ascending list an entry is present exactly when the map view holds its value. */
  lemma {:induction false} EntryInAsMap(es: seq<Entry>, e: Entry)
    requires Ascending(es)
    ensures e in es <==> e.key in AsMap(es) && AsMap(es)[e.key] == e.value
    decreases |es|
  {
    if es != [] {
      var h, t := es[0], es[1..];
      assert es == [h] + t;
      AscendingTail(es);
      EntryInAsMap(t, e);
      if e.key == h.key {
        if e in t {
          LessIrreflexive(h.key);
        }
      }
    }
  }

  /** Two ascending lists with the same members are equal. */
  lemma {:induction false} AscendingSameMembers(a: seq<Entry>, b: seq<Entry>)
    requires Ascending(a) && Ascending(b)
    requires forall e :: e in a <==> e in b
    ensures a == b
    decreases |a|
  {
    if b != [] {
      assert b[0] in b;
      assert b[0] in a;
    }
    if a != [] {
      assert a[0] in a;
      assert b != [];
      assert b[0] in b;
      AscendingTail(a);
      AscendingTail(b);
      if a[0] != b[0] {
        assert a[0] in b[1..] && b[0] in a[1..];
        LessAsymmetric(a[0].key, b[0].key);
      }
      var h := a[0];
      assert a == [h] + a[1..] && b == [h] + b[1..];
      forall e
        ensures e in a[1..] <==> e in b[1..]
      {
        if e == h {
          if e in a[1..] || e in b[1..] { LessIrreflexive(e.key); }
        } else {
          assert e in a <==> e in a[1..];
          assert e in b <==> e in b[1..];
        }
      }
      AscendingSameMembers(a[1..], b[1..]);
    }
  }

  /**
   * The backend contract determines `get_range`'s answer: two answers that
   * both meet it are the same list.
   */
  lemma ContractDeterminesRange(stored: map<KvKey, seq<byte>>, start: Option<KvKey>, end: Option<KvKey>, out1: seq<Entry>, out2: seq<Entry>)
    requires RangeContract(stored, start, end, out1) && RangeContract(stored, start, end, out2)
    ensures out1 == out2
  {
    AscendingSameMembers(out1, out2);
  }
}
