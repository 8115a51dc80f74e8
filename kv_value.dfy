/**
 * The part of `serde_json::Value` that values are converted to and from:
 * integer numbers only (floating point is not modelled). A JSON number is
 * therefore an integer in the union of the `i64` and `u64` ranges, and an
 * object is a map from strings to values.
 */
module JsonTree {
  import opened Wrappers
  import opened Bytes

  type JsonInt = x: int | -0x8000_0000_0000_0000 <= x < 0x1_0000_0000_0000_0000

  datatype JsonValue =
    | Null
    | Bool(b: bool)
    | Number(n: JsonInt)
    | String(s: string)
    | Array(items: seq<JsonValue>)
    | Object(fields: map<string, JsonValue>)

  /** `Number::as_i64`: the number when it fits in `i64`. */
  function AsI64(n: JsonInt): (r: Option<i64>)
    ensures r.Some? <==> n <= I64_MAX
    ensures r.Some? ==> r.value == n
  {
    if n <= I64_MAX then Some(n) else None
  }

  /** `Number::as_u64`: the number when it is not negative. */
  function AsU64(n: JsonInt): (r: Option<u64>)
    ensures r.Some? <==> n >= 0
    ensures r.Some? ==> r.value == n
  {
    if n >= 0 then Some(n) else None
  }
}

/**
 * `KvValue`, the value type of the store, its `From`/`TryFrom` conversions and
 * its conversion to and from the JSON tree, where binary blobs travel as a
 * tagged two-entry object.
 */
module KvValues {
  import opened Wrappers
  import opened Bytes
  import opened KvErrors
  import J = JsonTree

  /** `KvValue` without `F64`; `Object` is the `BTreeMap<String, KvValue>`. */
  datatype KvValue =
    | Null
    | Bool(b: bool)
    | I64(i: i64)
    | U64(u: u64)
    | String(s: string)
    | Array(items: seq<KvValue>)
    | Object(fields: map<string, KvValue>)
    | Binary(bytes: seq<byte>)

  /** The two keys of the object that carries a binary blob through JSON. */
  const BIN_FLAG: string := "__sskv_bin_value"
  const BIN_BYTES: string := "bytes"

  /** `TryFrom<KvValue> for ()`: only `Null` downcasts. */
  function TryUnit(v: KvValue): (r: KvResult<()>)
    ensures r.Ok? <==> v == Null
    ensures r.Err? ==> r.error == ValDowncastError
  {
    if v.Null? then Ok(()) else Err(ValDowncastError)
  }

  /** `TryFrom<KvValue> for bool`: the inverse of `From<bool>`, failing on every other variant. */
  function TryBool(v: KvValue): (r: KvResult<bool>)
    ensures r.Ok? <==> v.Bool?
    ensures r.Ok? ==> Bool(r.value) == v
    ensures r.Err? ==> r.error == ValDowncastError
  {
    match v
    case Bool(b) => Ok(b)
    case _ => Err(ValDowncastError)
  }

  /** `TryFrom<KvValue> for i64`: an `U64` is not converted, however small. */
  function TryI64(v: KvValue): (r: KvResult<i64>)
    ensures r.Ok? <==> v.I64?
    ensures r.Ok? ==> I64(r.value) == v
    ensures r.Err? ==> r.error == ValDowncastError
  {
    match v
    case I64(n) => Ok(n)
    case _ => Err(ValDowncastError)
  }

  /** `TryFrom<KvValue> for u64`: an `I64` is not converted, however small. */
  function TryU64(v: KvValue): (r: KvResult<u64>)
    ensures r.Ok? <==> v.U64?
    ensures r.Ok? ==> U64(r.value) == v
    ensures r.Err? ==> r.error == ValDowncastError
  {
    match v
    case U64(n) => Ok(n)
    case _ => Err(ValDowncastError)
  }

  /** `TryFrom<KvValue> for String`, the inverse of both `From<String>` and `From<&str>`. */
  function TryString(v: KvValue): (r: KvResult<string>)
    ensures r.Ok? <==> v.String?
    ensures r.Ok? ==> String(r.value) == v
    ensures r.Err? ==> r.error == ValDowncastError
  {
    match v
    case String(s) => Ok(s)
    case _ => Err(ValDowncastError)
  }

  /** `TryFrom<KvValue> for Vec<KvValue>`. */
  function TryArray(v: KvValue): (r: KvResult<seq<KvValue>>)
    ensures r.Ok? <==> v.Array?
    ensures r.Ok? ==> Array(r.value) == v
    ensures r.Err? ==> r.error == ValDowncastError
  {
    match v
    case Array(items) => Ok(items)
    case _ => Err(ValDowncastError)
  }

  /** `TryFrom<KvValue> for Vec<u8>`: only `Binary`, never an `Array` of small numbers. */
  function TryBinary(v: KvValue): (r: KvResult<seq<byte>>)
    ensures r.Ok? <==> v.Binary?
    ensures r.Ok? ==> Binary(r.value) == v
    ensures r.Err? ==> r.error == ValDowncastError
  {
    match v
    case Binary(bytes) => Ok(bytes)
    case _ => Err(ValDowncastError)
  }

  /** Every `From` conversion is undone by the matching `TryFrom`. */
  lemma DowncastsInvertFrom(b: bool, i: i64, u: u64, s: string, items: seq<KvValue>, bytes: seq<byte>)
    ensures TryUnit(Null) == Ok(())
    ensures TryBool(Bool(b)) == Ok(b) && TryI64(I64(i)) == Ok(i) && TryU64(U64(u)) == Ok(u)
    ensures TryString(String(s)) == Ok(s) && TryArray(Array(items)) == Ok(items)
    ensures TryBinary(Binary(bytes)) == Ok(bytes)
  {
  }

  /** The numbers of a blob, one JSON number per byte. */
  function ByteNumbers(bytes: seq<byte>): (r: seq<J.JsonValue>)
    ensures |r| == |bytes| && forall i :: 0 <= i < |bytes| ==> r[i] == J.Number(bytes[i])
  {
    seq(|bytes|, i requires 0 <= i < |bytes| => J.Number(bytes[i]))
  }

  /** `From<&KvValue> for JsonValue`. */
  function ToJson(v: KvValue): (r: J.JsonValue)
    ensures v.Array? ==> r.Array? && |r.items| == |v.items|
    ensures v.Object? ==> r.Object? && r.fields.Keys == v.fields.Keys
    ensures v.Binary? ==> r.Object? && r.fields.Keys == {BIN_FLAG, BIN_BYTES}
  {
    match v
    case Null => J.Null
    case Bool(b) => J.Bool(b)
    case I64(n) => J.Number(n)
    case U64(n) => J.Number(n)
    case String(s) => J.String(s)
    case Array(items) => J.Array(seq(|items|, i requires 0 <= i < |items| => ToJson(items[i])))
    case Object(m) => J.Object(map k | k in m :: ToJson(m[k]))
    case Binary(bytes) => J.Object(map[BIN_FLAG := J.Bool(true), BIN_BYTES := J.Array(ByteNumbers(bytes))])
  }

  /** One element of the tag's byte array: a number that `as_u64` reads and that is at most 255. */
  function AsByte(j: J.JsonValue): (r: Option<byte>)
    ensures r.Some? <==> j.Number? && 0 <= j.n <= 255
    ensures r.Some? ==> r.value == j.n
  {
    if j.Number? && J.AsU64(j.n).Some? && J.AsU64(j.n).value <= 255 then Some(J.AsU64(j.n).value) else None
  }

  /** `collect::<Option<Vec<u8>>>()` of `AsByte`: the bytes when every element is one. */
  function CollectBytes(arr: seq<J.JsonValue>): (r: Option<seq<byte>>)
    ensures r.Some? <==> forall i :: 0 <= i < |arr| ==> AsByte(arr[i]).Some?
    ensures r.Some? ==> |r.value| == |arr| && forall i :: 0 <= i < |arr| ==> AsByte(arr[i]) == Some(r.value[i])
  {
    if arr == [] then Some([])
    else
      match AsByte(arr[0])
      case None => None
      case Some(b) =>
        match CollectBytes(arr[1..])
        case None => None
        case Some(rest) => Some([b] + rest)
  }

  /**
   * The binary-tag test of `From<&JsonValue>`: exactly two entries, the flag
   * `true`, and a `bytes` array all of whose elements are bytes.
   */
  function BinaryTag(obj: map<string, J.JsonValue>): (r: Option<seq<byte>>)
    ensures r.Some? <==>
      |obj| == 2 && BIN_FLAG in obj && obj[BIN_FLAG] == J.Bool(true)
      && BIN_BYTES in obj && obj[BIN_BYTES].Array? && CollectBytes(obj[BIN_BYTES].items).Some?
  {
    if |obj| == 2 && BIN_FLAG in obj && obj[BIN_FLAG] == J.Bool(true) && BIN_BYTES in obj && obj[BIN_BYTES].Array?
    then CollectBytes(obj[BIN_BYTES].items)
    else None
  }

  /**
   * `From<&JsonValue> for KvValue`: a number becomes `I64` when `as_i64`
   * reads it, `U64` otherwise; an object of the binary-tag shape becomes
   * `Binary`, any other object an `Object` with the same keys.
   */
  function FromJson(j: J.JsonValue): (r: KvValue)
    ensures j.Array? ==> r.Array? && |r.items| == |j.items|
    ensures j.Object? && BinaryTag(j.fields).None? ==> r.Object? && r.fields.Keys == j.fields.Keys
  {
    match j
    case Null => Null
    case Bool(b) => Bool(b)
    case Number(n) =>
      (match J.AsI64(n)
       case Some(i) => I64(i)
       case None =>
         (match J.AsU64(n)
          case Some(u) => U64(u)
          case None => Null))
    case String(s) => String(s)
    case Array(items) => Array(seq(|items|, i requires 0 <= i < |items| => FromJson(items[i])))
    case Object(obj) =>
      match BinaryTag(obj)
      case Some(bytes) => Binary(bytes)
      case None => Object(map k | k in obj :: FromJson(obj[k]))
  }

  /** A binary blob goes out as the tagged object, whatever its bytes. */
  lemma BinaryJsonShape(bytes: seq<byte>)
    ensures ToJson(Binary(bytes)).Object?
    ensures var obj := ToJson(Binary(bytes)).fields;
      |obj| == 2 && obj[BIN_FLAG] == J.Bool(true) && obj[BIN_BYTES] == J.Array(ByteNumbers(bytes))
  {
    var obj := ToJson(Binary(bytes)).fields;
    assert BIN_FLAG != BIN_BYTES;
    assert |obj.Keys| == |{BIN_FLAG, BIN_BYTES}| == 2;
  }

  /** ... and is read back as the same blob: `Binary` round-trips. */
  lemma BinaryRoundTrip(bytes: seq<byte>)
    ensures FromJson(ToJson(Binary(bytes))) == Binary(bytes)
  {
    BinaryJsonShape(bytes);
    var nums := ByteNumbers(bytes);
    var c := CollectBytes(nums);
    assert forall i :: 0 <= i < |nums| ==> AsByte(nums[i]) == Some(bytes[i]);
    assert c.Some?;
    assert c.value == bytes;
  }

  /**
   * A user object that happens to have the tag's shape is read back as
   * `Binary`, not as the object it was.
   */
  lemma TagShapedObjectBecomesBinary(items: seq<KvValue>, bytes: seq<byte>)
    requires |items| == |bytes|
    requires forall i :: 0 <= i < |items| ==> items[i] == I64(bytes[i]) || items[i] == U64(bytes[i])
    ensures FromJson(ToJson(Object(map[BIN_FLAG := Bool(true), BIN_BYTES := Array(items)]))) == Binary(bytes)
  {
    var user := Object(map[BIN_FLAG := Bool(true), BIN_BYTES := Array(items)]);
    var obj := ToJson(user).fields;
    assert BIN_FLAG != BIN_BYTES;
    var arr := ToJson(Array(items)).items;
    assert forall i :: 0 <= i < |arr| ==> arr[i] == ToJson(items[i]) == J.Number(bytes[i]);
    assert user.fields[BIN_FLAG] == Bool(true) && user.fields[BIN_BYTES] == Array(items);
    assert obj[BIN_FLAG] == ToJson(Bool(true)) && obj[BIN_BYTES] == J.Array(arr);
    assert |obj.Keys| == |{BIN_FLAG, BIN_BYTES}| == 2;
    assert forall i :: 0 <= i < |arr| ==> AsByte(arr[i]) == Some(bytes[i]);
    assert CollectBytes(arr).value == bytes;
  }

  /** `as_i64` is tried first, so a `U64` that fits in `i64` comes back as `I64`. */
  lemma SmallU64BecomesI64(n: u64)
    requires n <= I64_MAX
    ensures FromJson(ToJson(U64(n))) == I64(n)
  {
  }

  /** Only a `U64` above `i64::MAX` comes back as a `U64`. */
  lemma LargeU64RoundTrips(n: u64)
    requires n > I64_MAX
    ensures FromJson(ToJson(U64(n))) == U64(n)
  {
  }

  /**
   * The values that survive the trip through JSON: no `U64` that fits in
   * `i64`, and no object whose JSON image has the binary-tag shape, at any
   * depth.
   */
  predicate Faithful(v: KvValue) {
    match v
    case U64(n) => n > I64_MAX
    case Array(items) => forall i :: 0 <= i < |items| ==> Faithful(items[i])
    case Object(m) => (forall k :: k in m ==> Faithful(m[k])) && BinaryTag(ToJson(v).fields).None?
    case _ => true
  }

  /** An object without the flag key can never be mistaken for a blob. */
  lemma NoFlagNoTag(m: map<string, KvValue>)
    requires BIN_FLAG !in m
    ensures BinaryTag(ToJson(Object(m)).fields).None?
  {
  }

  /** Every faithful value round-trips through the JSON tree. */
  lemma {:induction false} JsonRoundTrip(v: KvValue)
    requires Faithful(v)
    ensures FromJson(ToJson(v)) == v
    decreases v
  {
    match v
    case Array(items) =>
      var js := ToJson(v).items;
      forall i | 0 <= i < |items|
        ensures FromJson(js[i]) == items[i]
      {
        JsonRoundTrip(items[i]);
      }
      assert FromJson(ToJson(v)).items == items;
    case Object(m) =>
      var obj := ToJson(v).fields;
      forall k | k in m
        ensures FromJson(obj[k]) == m[k]
      {
        JsonRoundTrip(m[k]);
      }
      assert FromJson(ToJson(v)).fields == m;
    case Binary(bytes) =>
      BinaryRoundTrip(bytes);
    case _ =>
  }
}
