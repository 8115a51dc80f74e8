/**
 * `Kv`, the store facade: values are encoded with the value codec and kept in
 * the backend under their keys; `get` is a prefix scan that answers with the
 * first entry found.
 */
module KvStore {
  import opened Wrappers
  import opened Bytes
  import opened LexOrder
  import opened KvKeys
  import opened KvErrors
  import opened KvValues
  import opened ValueCodec
  import opened Backend
  import opened MemoryBackends
  import opened ListBuilder

  /** What `get` answers over a store holding `es`: the first entry of `[key, successor(key))`, decoded. */
  function GetSpec(c: Codec, es: seq<Entry>, key: KvKey): (r: KvResult<Option<KvValue>>)
    ensures r.Err? ==> r.error == ValDecodeError
  {
    var pairs := Range(es, Some(key), Successor(key));
    if pairs == [] then Ok(None)
    else
      match DecodeValue(c, pairs[0].value)
      case Err(e) => Err(e)
      case Ok(v) => Ok(Some(v))
  }

  /** The scan of `get` holds exactly the stored keys that extend `key`. */
  lemma ScanIsExtensions(es: seq<Entry>, key: KvKey, e: Entry)
    requires Ascending(es)
    ensures e in Range(es, Some(key), Successor(key)) <==> e in es && IsPrefix(key, e.key)
  {
    PrefixRangeIsExact(key, e.key);
  }

  /** `get` answers `None` exactly when no stored key extends `key` (`key` itself included). */
  lemma GetNoneIffNoExtension(c: Codec, es: seq<Entry>, key: KvKey)
    requires Ascending(es)
    ensures GetSpec(c, es, key) == Ok(None) <==> forall k :: k in AsMap(es) ==> !IsPrefix(key, k)
  {
    var pairs := Range(es, Some(key), Successor(key));
    if pairs == [] {
      forall k | k in AsMap(es)
        ensures !IsPrefix(key, k)
      {
        var e := Entry(k, AsMap(es)[k]);
        EntryInAsMap(es, e);
        ScanIsExtensions(es, key, e);
      }
    } else {
      var e := pairs[0];
      assert e in pairs;
      ScanIsExtensions(es, key, e);
      EntryInAsMap(es, e);
    }
  }

  /** A stored key is always the first entry of its own scan, so `get` finds its value. */
  lemma GetFindsStoredKey(c: Codec, es: seq<Entry>, key: KvKey)
    requires Ascending(es) && key in AsMap(es)
    ensures GetSpec(c, es, key) == match DecodeValue(c, AsMap(es)[key])
      case Ok(v) => Ok(Some(v))
      case Err(e) => Err(e)
  {
    var pairs := Range(es, Some(key), Successor(key));
    var e := Entry(key, AsMap(es)[key]);
    EntryInAsMap(es, e);
    ScanIsExtensions(es, key, e);
    RangeAscending(es, Some(key), Successor(key));
    var j :| 0 <= j < |pairs| && pairs[j] == e;
    if j > 0 {
      assert pairs[0] in pairs;
      ScanIsExtensions(es, key, pairs[0]);
      PrefixIsLessEq(key, pairs[0].key);
      LessAsymmetric(pairs[0].key, key);
      LessIrreflexive(key);
    }
  }

  /**
   * The documented `Ok(None)` for a missing key fails when a longer stored
   * key extends it: `get([1])` over a store holding only `[1, 0]` answers
   * with the value of `[1, 0]`.
   */
  lemma GetReturnsLongerKey(c: Codec, b: seq<byte>, v: KvValue)
    requires DecodeValue(c, b) == Ok(v)
    ensures [1] !in AsMap([Entry([1, 0], b)])
    ensures GetSpec(c, [Entry([1, 0], b)], [1]) == Ok(Some(v))
  {
    var es := [Entry([1, 0], b)];
    assert AsMap(es) == map[[1, 0] := b];
    assert IsPrefix([1], [1, 0]);
    ScanIsExtensions(es, [1], es[0]);
    var pairs := Range(es, Some([1]), Successor([1]));
    assert es[0] in pairs;
    assert pairs == [es[0]] by {
      assert pairs == (if InRange(es[0].key, Some([1]), Successor([1])) then [es[0]] else []) + Range([], Some([1]), Successor([1]));
    }
  }

  /** `set` then `get` on the same key gives the value back. */
  lemma SetThenGet(c: Codec, es: seq<Entry>, key: KvKey, v: KvValue)
    requires Ascending(es) && LeftInverse(c) && EncodeValue(c, v).Ok?
    ensures GetSpec(c, Insert(es, key, EncodeValue(c, v).value), key) == Ok(Some(v))
  {
    var b := EncodeValue(c, v).value;
    InsertAscending(es, key, b);
    InsertAsMap(es, key, b);
    GetFindsStoredKey(c, Insert(es, key, b), key);
    DecodeEncoded(c, v);
  }

  /** A second `set` on a key overwrites the first. */
  lemma SecondSetWins(c: Codec, es: seq<Entry>, key: KvKey, v1: KvValue, v2: KvValue)
    requires Ascending(es) && LeftInverse(c) && EncodeValue(c, v1).Ok? && EncodeValue(c, v2).Ok?
    ensures var once := Insert(es, key, EncodeValue(c, v1).value);
      GetSpec(c, Insert(once, key, EncodeValue(c, v2).value), key) == Ok(Some(v2))
  {
    InsertAscending(es, key, EncodeValue(c, v1).value);
    SetThenGet(c, Insert(es, key, EncodeValue(c, v1).value), key, v2);
  }

  /** What `delete` answers, and the entries it leaves: `get`, then `set(key, None)` when it found a value. */
  function DeleteSpec(c: Codec, es: seq<Entry>, key: KvKey): (r: (KvResult<Option<(KvKey, KvValue)>>, seq<Entry>))
    ensures r.0.Ok? && r.0.value.Some? ==> r.0.value.value.0 == key
    ensures r.0.Err? || r.0.value.None? ==> r.1 == es
  {
    match GetSpec(c, es, key)
    case Err(e) => (Err(e), es)
    case Ok(None) => (Ok(None), es)
    case Ok(Some(v)) => (Ok(Some((key, v))), Remove(es, key))
  }

  /**
   * Deleting a stored key answers its previous value and removes it; a later
   * `get` is `None` when no other stored key extends it.
   */
  lemma DeletePresent(c: Codec, es: seq<Entry>, key: KvKey, v: KvValue)
    requires Ascending(es) && key in AsMap(es) && DecodeValue(c, AsMap(es)[key]) == Ok(v)
    ensures DeleteSpec(c, es, key) == (Ok(Some((key, v))), Remove(es, key))
    ensures AsMap(Remove(es, key)) == AsMap(es) - {key}
    ensures (forall k :: k in AsMap(es) && k != key ==> !IsPrefix(key, k)) ==>
      GetSpec(c, Remove(es, key), key) == Ok(None)
  {
    GetFindsStoredKey(c, es, key);
    RemoveAscending(es, key);
    RemoveAsMap(es, key);
    GetNoneIffNoExtension(c, Remove(es, key), key);
  }

  /** Deleting a key that nothing stored extends answers `None` and changes nothing. */
  lemma DeleteAbsent(c: Codec, es: seq<Entry>, key: KvKey)
    requires Ascending(es) && forall k :: k in AsMap(es) ==> !IsPrefix(key, k)
    ensures DeleteSpec(c, es, key) == (Ok(None), es)
  {
    GetNoneIffNoExtension(c, es, key);
  }

  /**
   * Deleting a missing key that a longer stored key extends answers that
   * key's value as if it had been deleted, and leaves the store unchanged.
   */
  lemma DeleteOfLongerKey(c: Codec, b: seq<byte>, v: KvValue)
    requires DecodeValue(c, b) == Ok(v)
    ensures DeleteSpec(c, [Entry([1, 0], b)], [1]) == (Ok(Some(([1], v))), [Entry([1, 0], b)])
  {
    GetReturnsLongerKey(c, b, v);
    RemoveAbsent([Entry([1, 0], b)], [1]);
  }

  /** `entries` is the selector-free listing: every stored entry, decoded, in ascending key order. */
  lemma EntriesListsEverything(c: Codec, es: seq<Entry>)
    ensures ListSpec(c, es, None, None, None) == DecodeAll(c, es)
  {
    RangeUnbounded(es);
  }

  /** After `clear` a full listing is empty. */
  lemma ClearedStoreListsNothing(c: Codec)
    ensures ListSpec(c, [], None, None, None) == Ok([])
  {
  }

  class Kv {
    const backend: MemoryBackend
    const codec: Codec

    /** `Kv::new` over a backend. */
    constructor (backend: MemoryBackend, codec: Codec)
      ensures this.backend == backend && this.codec == codec
    {
      this.backend := backend;
      this.codec := codec;
    }

    /** `get`: scan `[key, successor(key))` and decode the first entry's value. */
    method Get(key: KvKey) returns (r: KvResult<Option<KvValue>>)
      requires backend.Valid()
      ensures r == GetSpec(codec, backend.entries, key)
    {
      var pairs := backend.GetRange(Some(key), Successor(key));
      if pairs.value == [] {
        r := Ok(None);
      } else {
        var decoded := DecodeValue(codec, pairs.value[0].value);
        if decoded.Err? {
          r := Err(decoded.error);
        } else {
          r := Ok(Some(decoded.value));
        }
      }
    }

    /** `set_optional`: `Some(v)` stores `v`'s encoding at `key`, `None` removes `key`. */
    method SetOptional(key: KvKey, value: Option<KvValue>) returns (r: KvResult<()>)
      requires backend.Valid()
      modifies backend
      ensures backend.Valid()
      ensures value.None? ==> r == Ok(()) && backend.entries == Remove(old(backend.entries), key)
      ensures value.Some? && EncodeValue(codec, value.value).Err? ==>
        r == Err(ValEncodeError) && backend.entries == old(backend.entries)
      ensures value.Some? && EncodeValue(codec, value.value).Ok? ==>
        r == Ok(()) && backend.entries == Insert(old(backend.entries), key, EncodeValue(codec, value.value).value)
    {
      if value.Some? {
        var encoded := EncodeValue(codec, value.value);
        if encoded.Err? {
          return Err(ValEncodeError);
        }
        r := backend.Set(key, Some(encoded.value));
      } else {
        r := backend.Set(key, None);
      }
    }

    /** `set`: `set_optional` with a value, overwriting any previous one. */
    method Set(key: KvKey, value: KvValue) returns (r: KvResult<()>)
      requires backend.Valid()
      modifies backend
      ensures backend.Valid()
      ensures EncodeValue(codec, value).Err? ==> r == Err(ValEncodeError) && backend.entries == old(backend.entries)
      ensures EncodeValue(codec, value).Ok? ==>
        r == Ok(()) && backend.entries == Insert(old(backend.entries), key, EncodeValue(codec, value).value)
    {
      r := SetOptional(key, Some(value));
    }

    /** `delete`: `get`, then remove the key when a value was found. */
    method Delete(key: KvKey) returns (r: KvResult<Option<(KvKey, KvValue)>>)
      requires backend.Valid()
      modifies backend
      ensures backend.Valid()
      ensures (r, backend.entries) == DeleteSpec(codec, old(backend.entries), key)
    {
      var found := Get(key);
      if found.Err? {
        return Err(found.error);
      }
      if found.value.Some? {
        var _ := SetOptional(key, None);
        r := Ok(Some((key, found.value.value)));
      } else {
        r := Ok(None);
      }
    }

    /** `entries`: a list builder with no selector. */
    method Entries() returns (r: KvResult<seq<Listed>>)
      requires backend.Valid()
      ensures r == ListSpec(codec, backend.entries, None, None, None)
    {
      var builder := new KvListBuilder(backend, codec);
      r := builder.Entries();
    }

    /** `list`: a fresh builder over this store's backend. */
    method List() returns (b: KvListBuilder)
      ensures fresh(b) && b.backend == backend && b.codec == codec
      ensures b.prefix.None? && b.start.None? && b.end.None?
    {
      b := new KvListBuilder(backend, codec);
    }
  }
}
