/**
 * The list builder of the earlier iteration. Its setters return an updated
 * copy; `iter` takes every backend key, keeps those that pass the prefix,
 * start and end filters (the end is inclusive here), sorts them, and yields
 * each key with its decoded value, silently skipping keys whose value is
 * missing or does not decode.
 */
module LegacyListBuilder {
  import opened Wrappers
  import opened Bytes
  import opened LexOrder
  import opened LegacyKeys
  import opened LegacyStorage

  datatype KvListBuilder = KvListBuilder(start: Option<Key>, end: Option<Key>, prefix: Option<Key>)

  /** `KvListBuilder::new`: no selector set. */
  function New(): (b: KvListBuilder)
    ensures b.start.None? && b.end.None? && b.prefix.None?
  {
    KvListBuilder(None, None, None)
  }

  /** `start`, `end` and `prefix` each replace their own field and keep the other two. */
  function Start(b: KvListBuilder, key: Key): (r: KvListBuilder)
    ensures r.start == Some(key) && r.end == b.end && r.prefix == b.prefix
  {
    b.(start := Some(key))
  }

  function End(b: KvListBuilder, key: Key): (r: KvListBuilder)
    ensures r.end == Some(key) && r.start == b.start && r.prefix == b.prefix
  {
    b.(end := Some(key))
  }

  function Prefix(b: KvListBuilder, key: Key): (r: KvListBuilder)
    ensures r.prefix == Some(key) && r.start == b.start && r.end == b.end
  {
    b.(prefix := Some(key))
  }

  /** The filter of `iter`: the key starts with the prefix, and `start <= k <= end`. */
  predicate Passes(b: KvListBuilder, k: Key) {
    (b.prefix.None? || IsPrefix(b.prefix.value.bytes, k.bytes))
    && (b.start.None? || KeyLessEq(b.start.value, k))
    && (b.end.None? || KeyLessEq(k, b.end.value))
  }

  predicate KeysAscending(s: seq<Key>) {
    forall i, j :: 0 <= i < j < |s| ==> KeyLess(s[i], s[j])
  }

  /** Pairs whose keys are strictly ascending. */
  predicate PairsAscending<T(!new)>(s: seq<(Key, T)>) {
    forall i, j :: 0 <= i < j < |s| ==> KeyLess(s[i].0, s[j].0)
  }

  /**
   * What `iter` may yield over a backend holding `table`: in ascending key
   * order, exactly the stored keys that pass the filter and whose bytes
   * decode, each with its decoded value.
   */
  ghost predicate IterContract<T(!new)>(b: KvListBuilder, table: map<seq<byte>, seq<byte>>, decode: seq<byte> -> Option<T>, out: seq<(Key, T)>) {
    PairsAscending(out)
    && forall p :: p in out <==> Passes(b, p.0) && p.0.bytes in table && decode(table[p.0.bytes]) == Some(p.1)
  }

  /** Insertion of a key into a strictly ascending list that does not hold it. */
  function InsertKey(s: seq<Key>, k: Key): (r: seq<Key>)
    ensures |r| == |s| + 1
    ensures forall x :: x in r <==> x == k || x in s
  {
    if s == [] then [k]
    else if KeyLess(k, s[0]) then [k] + s
    else [s[0]] + InsertKey(s[1..], k)
  }

  lemma KeysAscendingTail(s: seq<Key>)
    requires KeysAscending(s) && |s| > 0
    ensures KeysAscending(s[1..])
    ensures forall x :: x in s[1..] ==> KeyLess(s[0], x)
  {
    forall x | x in s[1..]
      ensures KeyLess(s[0], x)
    {
      var j :| 0 <= j < |s[1..]| && s[1..][j] == x;
      assert s[j + 1] == x;
    }
  }

  lemma KeysAscendingCons(x: Key, s: seq<Key>)
    requires KeysAscending(s)
    requires forall y :: y in s ==> KeyLess(x, y)
    ensures KeysAscending([x] + s)
  {
    var r := [x] + s;
    forall i, j | 0 <= i < j < |r|
      ensures KeyLess(r[i], r[j])
    {
      assert r[j] == s[j - 1];
      if i > 0 {
        assert r[i] == s[i - 1];
      }
    }
  }

  lemma {:induction false} InsertKeyAscending(s: seq<Key>, k: Key)
    requires KeysAscending(s) && k !in s
    ensures KeysAscending(InsertKey(s, k))
    decreases |s|
  {
    if s != [] {
      KeysAscendingTail(s);
      if KeyLess(k, s[0]) {
        forall y | y in s
          ensures KeyLess(k, y)
        {
          if y != s[0] {
            assert s == [s[0]] + s[1..];
            KeyLessTransitive(k, s[0], y);
          }
        }
        KeysAscendingCons(k, s);
      } else {
        KeyOrderIsTotal(k, s[0]);
        InsertKeyAscending(s[1..], k);
        KeysAscendingCons(s[0], InsertKey(s[1..], k));
      }
    }
  }

  /**
   * `keys.sort()` on the filtered keys, which are pairwise distinct because
   * they come from one map: the same keys, strictly ascending.
   */
  method SortKeys(keys: seq<Key>) returns (r: seq<Key>)
    requires Distinct(keys)
    ensures KeysAscending(r) && |r| == |keys|
    ensures forall x :: x in r <==> x in keys
  {
    r := [];
    var i := 0;
    while i < |keys|
      invariant 0 <= i <= |keys| && |r| == i
      invariant KeysAscending(r)
      invariant forall x :: x in r <==> x in keys[..i]
    {
      assert keys[i] !in keys[..i];
      InsertKeyAscending(r, keys[i]);
      r := InsertKey(r, keys[i]);
      assert keys[..i + 1] == keys[..i] + [keys[i]];
      i := i + 1;
    }
    assert keys[..i] == keys;
  }

  /** The keys of the backend that pass the filter, in the backend's order. */
  method FilterKeys(b: KvListBuilder, all: seq<seq<byte>>) returns (kept: seq<Key>)
    requires Distinct(all)
    ensures Distinct(kept)
    ensures forall k :: k in kept <==> k.bytes in all && Passes(b, k)
  {
    kept := [];
    var i := 0;
    while i < |all|
      invariant 0 <= i <= |all|
      invariant Distinct(kept)
      invariant forall k :: k in kept <==> k.bytes in all[..i] && Passes(b, k)
    {
      var k := Key(all[i]);
      assert all[i] !in all[..i];
      if Passes(b, k) {
        kept := kept + [k];
      }
      assert all[..i + 1] == all[..i] + [all[i]];
      i := i + 1;
    }
    assert all[..i] == all;
  }

  /** `iter`: filter the backend's keys, sort them, then look up and decode each one, skipping failures. */
  method Iter<T(!new)>(b: KvListBuilder, backend: MemoryBackend, decode: seq<byte> -> Option<T>) returns (out: seq<(Key, T)>)
    ensures IterContract(b, backend.table, decode, out)
  {
    var listed := backend.Keys();
    var kept := FilterKeys(b, listed.value);
    var sorted := SortKeys(kept);
    out := [];
    var j := 0;
    while j < |sorted|
      invariant 0 <= j <= |sorted|
      invariant PairsAscending(out)
      invariant j < |sorted| ==> forall a :: 0 <= a < |out| ==> KeyLess(out[a].0, sorted[j])
      invariant forall p :: p in out <==> p.0 in sorted[..j] && p.0.bytes in backend.table && decode(backend.table[p.0.bytes]) == Some(p.1)
    {
      var k := sorted[j];
      var got := backend.Get(k.bytes);
      var before := out;
      if got.value.Some? {
        var v := decode(got.value.value);
        if v.Some? {
          out := out + [(k, v.value)];
        }
      }
      IterStep(before, out, sorted, j, backend.table, decode);
      j := j + 1;
    }
    assert sorted[..j] == sorted;
  }

  /** One lookup of `iter` keeps the order and membership invariants. */
  lemma IterStep<T(!new)>(before: seq<(Key, T)>, after: seq<(Key, T)>, sorted: seq<Key>, j: nat, table: map<seq<byte>, seq<byte>>, decode: seq<byte> -> Option<T>)
    requires 0 <= j < |sorted| && KeysAscending(sorted) && PairsAscending(before)
    requires forall a :: 0 <= a < |before| ==> KeyLess(before[a].0, sorted[j])
    requires forall p :: p in before <==> p.0 in sorted[..j] && p.0.bytes in table && decode(table[p.0.bytes]) == Some(p.1)
    requires var k := sorted[j];
      if k.bytes in table && decode(table[k.bytes]).Some? then after == before + [(k, decode(table[k.bytes]).value)] else after == before
    ensures PairsAscending(after)
    ensures j + 1 < |sorted| ==> forall a :: 0 <= a < |after| ==> KeyLess(after[a].0, sorted[j + 1])
    ensures forall p :: p in after <==> p.0 in sorted[..j + 1] && p.0.bytes in table && decode(table[p.0.bytes]) == Some(p.1)
  {
    var k := sorted[j];
    assert sorted[..j + 1] == sorted[..j] + [k];
    assert k !in sorted[..j] by {
      if k in sorted[..j] {
        var t :| 0 <= t < j && sorted[t] == k;
        KeyOrderIsTotal(k, k);
      }
    }
    if j + 1 < |sorted| {
      forall a | 0 <= a < |after|
        ensures KeyLess(after[a].0, sorted[j + 1])
      {
        if a < |before| {
          assert after[a] == before[a];
          KeyLessTransitive(before[a].0, k, sorted[j + 1]);
        } else {
          assert after[a].0 == k;
        }
      }
    }
    forall p
      ensures p in after <==> p.0 in sorted[..j + 1] && p.0.bytes in table && decode(table[p.0.bytes]) == Some(p.1)
    {
      if p in before {
        assert p in after;
      }
    }
  }

  /** Two strictly ascending pair lists with the same members are equal. */
  lemma {:induction false} PairsSameMembers<T(!new)>(a: seq<(Key, T)>, b: seq<(Key, T)>)
    requires PairsAscending(a) && PairsAscending(b)
    requires forall p :: p in a <==> p in b
    ensures a == b
    decreases |a|
  {
    if b != [] {
      assert b[0] in b;
      assert b[0] in a;
    }
    if a != [] {
      assert a[0] in a;
      assert b != [];
      var i :| 0 <= i < |b| && b[i] == a[0];
      var j :| 0 <= j < |a| && a[j] == b[0];
      if i > 0 {
        assert KeyLess(b[0].0, b[i].0);
        if j == 0 {
          KeyOrderIsTotal(b[0].0, b[0].0);
        } else {
          KeyLessTransitive(b[0].0, a[0].0, a[j].0);
          KeyOrderIsTotal(b[0].0, b[0].0);
        }
      }
      var h := a[0];
      assert b[0] == h;
      assert a == [h] + a[1..] && b == [h] + b[1..];
      forall p
        ensures p in a[1..] <==> p in b[1..]
      {
        if p == h {
          if p in a[1..] {
            var t :| 0 <= t < |a[1..]| && a[1..][t] == p;
            assert a[t + 1] == p;
            KeyOrderIsTotal(h.0, h.0);
          }
          if p in b[1..] {
            var t :| 0 <= t < |b[1..]| && b[1..][t] == p;
            assert b[t + 1] == p;
            KeyOrderIsTotal(h.0, h.0);
          }
        } else {
          assert p in a <==> p in a[1..];
          assert p in b <==> p in b[1..];
        }
      }
      PairsSameMembers(a[1..], b[1..]);
    }
  }

  /** The contract of `iter` pins its output down: whatever order `keys` yields, the result is the same. */
  lemma IterContractDeterminesOutput<T(!new)>(b: KvListBuilder, table: map<seq<byte>, seq<byte>>, decode: seq<byte> -> Option<T>, out1: seq<(Key, T)>, out2: seq<(Key, T)>)
    requires IterContract(b, table, decode, out1) && IterContract(b, table, decode, out2)
    ensures out1 == out2
  {
    PairsSameMembers(out1, out2);
  }

  /** Unlike the later builder, a stored key equal to `end` is listed (when it decodes). */
  lemma EndIsInclusive<T(!new)>(table: map<seq<byte>, seq<byte>>, decode: seq<byte> -> Option<T>, k: Key, out: seq<(Key, T)>)
    requires k.bytes in table && decode(table[k.bytes]).Some?
    requires IterContract(End(New(), k), table, decode, out)
    ensures (k, decode(table[k.bytes]).value) in out
  {
    assert Passes(End(New(), k), k);
  }

  /** A stored key whose bytes do not decode is skipped, not an error. */
  lemma UndecodableIsSkipped<T(!new)>(b: KvListBuilder, table: map<seq<byte>, seq<byte>>, decode: seq<byte> -> Option<T>, k: Key, out: seq<(Key, T)>)
    requires k.bytes in table && decode(table[k.bytes]).None?
    requires IterContract(b, table, decode, out)
    ensures forall p :: p in out ==> p.0 != k
  {
  }
}
