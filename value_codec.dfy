/**
 * The value serialisation the store hands to bincode (`encode_to_vec` and
 * `decode_from_slice` with the standard configuration). Its byte layout is
 * not modelled: the codec is a pair of functions of which the store needs only
 * that decoding an encoding gives the value back.
 */
module ValueCodec {
  import opened Wrappers
  import opened Bytes
  import opened KvErrors
  import opened KvValues

  datatype Codec = Codec(encode: KvValue -> Option<seq<byte>>, decode: seq<byte> -> Option<KvValue>)

  /** Decoding inverts encoding wherever encoding succeeds. */
  ghost predicate LeftInverse(c: Codec) {
    forall v :: c.encode(v).Some? ==> c.decode(c.encode(v).value) == Some(v)
  }

  /** `bincode::encode_to_vec(..).map_err(KvError::ValEncodeError)`. */
  function EncodeValue(c: Codec, v: KvValue): (r: KvResult<seq<byte>>)
    ensures r.Ok? <==> c.encode(v).Some?
    ensures r.Ok? ==> r.value == c.encode(v).value
    ensures r.Err? ==> r.error == ValEncodeError
  {
    match c.encode(v)
    case Some(b) => Ok(b)
    case None => Err(ValEncodeError)
  }

  /** `bincode::decode_from_slice(..).map_err(KvError::ValDecodeError)`, the consumed count dropped. */
  function DecodeValue(c: Codec, b: seq<byte>): (r: KvResult<KvValue>)
    ensures r.Ok? <==> c.decode(b).Some?
    ensures r.Ok? ==> r.value == c.decode(b).value
    ensures r.Err? ==> r.error == ValDecodeError
  {
    match c.decode(b)
    case Some(v) => Ok(v)
    case None => Err(ValDecodeError)
  }

  /** A stored encoding decodes to the value that was stored. */
  lemma DecodeEncoded(c: Codec, v: KvValue)
    requires LeftInverse(c) && EncodeValue(c, v).Ok?
    ensures DecodeValue(c, EncodeValue(c, v).value) == Ok(v)
  {
  }

  /** ... so two different values never share an encoding. */
  lemma EncodeInjective(c: Codec, v: KvValue, w: KvValue)
    requires LeftInverse(c) && EncodeValue(c, v).Ok? && EncodeValue(c, w).Ok?
    requires EncodeValue(c, v).value == EncodeValue(c, w).value
    ensures v == w
  {
    DecodeEncoded(c, v);
    DecodeEncoded(c, w);
  }
}
