/**
 * The `HashMap` backend of the earlier iteration. Keys and values are byte
 * strings and every operation succeeds. The map's iteration order is
 * unspecified, so `keys` and `get_many` promise what they yield and not in
 * which order.
 */
module LegacyStorage {
  import opened Wrappers
  import opened Bytes

  /** The boxed error of `KvResult`; this backend never returns one. */
  datatype StorageError = StorageError(message: string)

  type StorageResult<T> = Result<T, StorageError>

  predicate Distinct<T(==)>(s: seq<T>) {
    forall i, j :: 0 <= i < j < |s| ==> s[i] != s[j]
  }

  class MemoryBackend {
    var table: map<seq<byte>, seq<byte>>

    /** `MemoryBackend::new`: an empty map. */
    constructor ()
      ensures table == map[]
    {
      table := map[];
    }

    /** `set`: `key` now maps to `value`; every other key keeps its value. */
    method Set(key: seq<byte>, value: seq<byte>) returns (r: StorageResult<()>)
      modifies this
      ensures r == Ok(())
      ensures key in table && table[key] == value
      ensures forall k :: k != key ==> (k in table <==> k in old(table)) && (k in table ==> table[k] == old(table)[k])
    {
      table := table[key := value];
      r := Ok(());
    }

    /** `get`: the stored value, or `None` when the key is absent. */
    method Get(key: seq<byte>) returns (r: StorageResult<Option<seq<byte>>>)
      ensures r.Ok? && (r.value.Some? <==> key in table)
      ensures key in table ==> r.value.value == table[key]
    {
      if key in table {
        r := Ok(Some(table[key]));
      } else {
        r := Ok(None);
      }
    }

    /** `delete`: `key` is gone, every other key is untouched; an absent key changes nothing. */
    method Delete(key: seq<byte>) returns (r: StorageResult<()>)
      modifies this
      ensures r == Ok(())
      ensures key !in table
      ensures forall k :: k != key ==> (k in table <==> k in old(table)) && (k in table ==> table[k] == old(table)[k])
      ensures key !in old(table) ==> table == old(table)
    {
      table := table - {key};
      r := Ok(());
    }

    /** `clear`: no key is stored afterwards. */
    method Clear() returns (r: StorageResult<()>)
      modifies this
      ensures r == Ok(())
      ensures forall k :: k !in table
    {
      table := map[];
      r := Ok(());
    }

    /**
     * `get_many`: the value of each stored key that the request names, once
     * per stored key however often the request repeats it, absent keys
     * skipped. `from` lists the key of each yielded value.
     */
    method GetMany(keys: seq<seq<byte>>) returns (r: StorageResult<seq<seq<byte>>>, ghost from: seq<seq<byte>>)
      ensures r.Ok? && |from| == |r.value| && Distinct(from)
      ensures forall k :: k in from <==> k in table && k in keys
      ensures forall i :: 0 <= i < |from| ==> from[i] in table && r.value[i] == table[from[i]]
    {
      var rest := table.Keys;
      var values: seq<seq<byte>> := [];
      from := [];
      while rest != {}
        invariant rest <= table.Keys
        invariant |from| == |values| && Distinct(from)
        invariant forall k :: k in from <==> k in table && k !in rest && k in keys
        invariant forall i :: 0 <= i < |from| ==> from[i] in table && values[i] == table[from[i]]
        decreases |rest|
      {
        var k :| k in rest;
        if k in keys {
          values := values + [table[k]];
          from := from + [k];
        }
        rest := rest - {k};
      }
      r := Ok(values);
    }

    /** `keys`: every stored key exactly once. */
    method Keys() returns (r: StorageResult<seq<seq<byte>>>)
      ensures r.Ok? && Distinct(r.value)
      ensures forall k :: k in r.value <==> k in table
    {
      var rest := table.Keys;
      var ks: seq<seq<byte>> := [];
      while rest != {}
        invariant rest <= table.Keys
        invariant Distinct(ks)
        invariant forall k :: k in ks <==> k in table && k !in rest
        decreases |rest|
      {
        var k :| k in rest;
        ks := ks + [k];
        rest := rest - {k};
      }
      r := Ok(ks);
    }
  }
}
