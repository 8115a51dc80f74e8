/**
 * `IntoKey`, `FromKey` and `FromKeySeg` of the earlier key codec. A key is a
 * fresh buffer to which each component's `encode_key` bytes are appended in
 * field order; decoding reads the components in order from one shared
 * decoder, narrows integers with `as`, and reports every failure as
 * `UnexpectedEof`. The decoding impls of key_traits.rs behave the same way.
 */
module LegacyEncoding {
  import opened Wrappers
  import opened Bytes
  import opened BigEndian
  import opened Utf8
  import opened KvKeys
  import opened LegacyKeys
  import opened LegacyEncode
  import opened LegacyDecode

  /** A tuple component implementing `KeyEncoder`: a primitive, or a `&Key` that contributes its raw bytes. */
  datatype Component = Value(p: Prim) | KeyRef(key: Key)

  function ComponentBytes(c: Component): seq<byte> {
    match c
    case Value(p) => PrimBytes(p)
    case KeyRef(k) => k.bytes
  }

  /** The bytes of a tuple key: the components' encodings in field order. */
  function TupleBytes(cs: seq<Component>): seq<byte> {
    if cs == [] then [] else TupleBytes(cs[..|cs| - 1]) + ComponentBytes(cs[|cs| - 1])
  }

  function Values(ps: seq<Prim>): (r: seq<Component>)
    ensures |r| == |ps| && forall i :: 0 <= i < |ps| ==> r[i] == Value(ps[i])
  {
    seq(|ps|, i requires 0 <= i < |ps| => Value(ps[i]))
  }

  /** The type a `FromKeySeg` impl decodes. */
  datatype PrimType = UIntType(w: Width) | SIntType(w: Width) | BoolType | StrType

  function TypeOf(p: Prim): PrimType {
    match p
    case UInt(w, _) => UIntType(w)
    case SInt(w, _) => SIntType(w)
    case Bool(_) => BoolType
    case Str(_) => StrType
  }

  function TypesOf(ps: seq<Prim>): (r: seq<PrimType>)
    ensures |r| == |ps| && forall i :: 0 <= i < |ps| ==> r[i] == TypeOf(ps[i])
  {
    seq(|ps|, i requires 0 <= i < |ps| => TypeOf(ps[i]))
  }

  /** A value the codec round-trips: well formed, and a string short enough for its 4-byte length field. */
  predicate Encodable(p: Prim) {
    WellFormed(p) && (p.Str? ==> |p.s| < U32_LIMIT)
  }

  /** `n as uN` on a `u64`: the low N bits. */
  function NarrowU(n: u64, w: Width): (r: u64)
    ensures r < ULimit(w) && (r - n) % ULimit(w) == 0
    ensures n < ULimit(w) ==> r == n
  {
    LowBits(n, w);
    n % ULimit(w)
  }

  /** Both ways of reading the low bits of `x` differ from `x` by a multiple of the width's range. */
  lemma LowBits(x: int, w: Width)
    ensures (x % ULimit(w) - x) % ULimit(w) == 0
    ensures (x % ULimit(w) - ULimit(w) - x) % ULimit(w) == 0
  {
    match w
    case W8 =>
    case W16 =>
    case W32 =>
    case W64 =>
  }

  /** `i as iN` on an `i64`: the low N bits read as two's complement. */
  function NarrowS(i: i64, w: Width): (r: i64)
    ensures -SHalf(w) <= r < SHalf(w) && (r - i) % ULimit(w) == 0
    ensures -SHalf(w) <= i < SHalf(w) ==> r == i
  {
    LowBits(i, w);
    var m := i % ULimit(w);
    if m >= SHalf(w) then m - ULimit(w) else m
  }

  /**
   * `FromKeySeg::from_decoder` for one type: the matching `next_*` read,
   * narrowed with `as`; a failed read becomes `UnexpectedEof`.
   */
  function FromSeg(t: PrimType, rem: seq<byte>): (r: Result<(Prim, seq<byte>), DecodeError>)
    ensures r.Err? ==> r.error == UnexpectedEof
    ensures r.Ok? ==> TypeOf(r.value.0) == t && Encodable(r.value.0)
  {
    match t
    case UIntType(w) => (match ParseU64(rem) case None => Err(UnexpectedEof) case Some((n, rest)) => Ok((UInt(w, NarrowU(n, w)), rest)))
    case SIntType(w) => (match ParseI64(rem) case None => Err(UnexpectedEof) case Some((i, rest)) => Ok((SInt(w, NarrowS(i, w)), rest)))
    case BoolType => (match ParseBool(rem) case None => Err(UnexpectedEof) case Some((b, rest)) => Ok((Bool(b), rest)))
    case StrType => (match ParseStr(rem) case None => Err(UnexpectedEof) case Some((s, rest)) => Ok((Str(s), rest)))
  }

  /** A tuple's decoding seen from before the components `done` were read. */
  function Shift(done: seq<Prim>, r: Result<(seq<Prim>, seq<byte>), DecodeError>): Result<(seq<Prim>, seq<byte>), DecodeError> {
    match r
    case Ok((ps, rest)) => Ok((done + ps, rest))
    case Err(e) => Err(e)
  }

  /**
   * Tuple `from_key`: the components in order from one decoder; the first
   * failure is returned, and bytes after the last component are left over.
   */
  function DecodeTuple(types: seq<PrimType>, rem: seq<byte>): (r: Result<(seq<Prim>, seq<byte>), DecodeError>)
    ensures r.Err? ==> r.error == UnexpectedEof
    ensures r.Ok? ==> TypesOf(r.value.0) == types
    decreases |types|
  {
    if types == [] then Ok(([], rem))
    else
      var head := FromSeg(types[0], rem);
      if head.Err? then Err(head.error)
      else
        var tail := DecodeTuple(types[1..], head.value.1);
        if tail.Err? then tail
        else
          TypesOfCons(types, head.value.0, tail.value.0);
          Ok(([head.value.0] + tail.value.0, tail.value.1))
  }

  lemma TypesOfCons(types: seq<PrimType>, p: Prim, ps: seq<Prim>)
    requires |types| > 0 && TypeOf(p) == types[0] && TypesOf(ps) == types[1..]
    ensures TypesOf([p] + ps) == types
  {
    var r := TypesOf([p] + ps);
    forall i | 0 <= i < |types|
      ensures r[i] == types[i]
    {
      if i > 0 {
        assert ([p] + ps)[i] == ps[i - 1];
      }
    }
  }

  /** `FromKey::from_key` for a tuple: the decoded components, trailing bytes ignored. */
  function FromKey(types: seq<PrimType>, key: Key): (r: Result<seq<Prim>, DecodeError>)
    ensures r.Err? ==> r.error == UnexpectedEof
    ensures r.Ok? ==> TypesOf(r.value) == types
  {
    match DecodeTuple(types, key.bytes)
    case Ok((ps, _)) => Ok(ps)
    case Err(e) => Err(e)
  }

  lemma ConcatAssoc(x: seq<byte>, y: seq<byte>, z: seq<byte>)
    ensures (x + y) + z == x + (y + z)
  {
  }

  /** A tuple's key is the concatenation of the keys of its parts. */
  lemma {:induction false} TupleBytesAppend(a: seq<Component>, b: seq<Component>)
    ensures TupleBytes(a + b) == TupleBytes(a) + TupleBytes(b)
    decreases |b|
  {
    if b == [] {
      assert a + b == a;
    } else {
      var b', last := b[..|b| - 1], b[|b| - 1];
      assert (a + b)[..|a + b| - 1] == a + b';
      TupleBytesAppend(a, b');
      ConcatAssoc(TupleBytes(a), TupleBytes(b'), ComponentBytes(last));
    }
  }

  lemma TupleBytesFront(cs: seq<Component>)
    requires cs != []
    ensures TupleBytes(cs) == ComponentBytes(cs[0]) + TupleBytes(cs[1..])
  {
    assert cs == [cs[0]] + cs[1..];
    TupleBytesAppend([cs[0]], cs[1..]);
    KeyBytesSingle(cs[0]);
  }

  lemma KeyBytesSingle(c: Component)
    ensures TupleBytes([c]) == ComponentBytes(c)
  {
    assert [c][..0] == [];
  }

  /** One primitive reads back as itself from its own bytes, leaving the bytes after it. */
  lemma FromSegRoundTrip(p: Prim, rest: seq<byte>)
    requires Encodable(p)
    ensures FromSeg(TypeOf(p), PrimBytes(p) + rest) == Ok((p, rest))
  {
    match p
    case UInt(w, n) => U64RoundTrip(n, rest);
    case SInt(w, i) => I64RoundTrip(i, rest);
    case Bool(b) => BoolRoundTrip(b, rest);
    case Str(s) => StrRoundTrip(s, rest);
  }

  /** Round trip of a tuple of primitives, with any bytes after it left over. */
  lemma {:induction false} DecodeTupleRoundTrip(ps: seq<Prim>, rest: seq<byte>)
    requires forall i :: 0 <= i < |ps| ==> Encodable(ps[i])
    ensures DecodeTuple(TypesOf(ps), TupleBytes(Values(ps)) + rest) == Ok((ps, rest))
    decreases |ps|
  {
    if ps == [] {
      assert TupleBytes(Values(ps)) + rest == rest;
    } else {
      var tail := ps[1..];
      var mid := TupleBytes(Values(tail)) + rest;
      assert Values(ps)[1..] == Values(tail);
      TupleBytesFront(Values(ps));
      ConcatAssoc(PrimBytes(ps[0]), TupleBytes(Values(tail)), rest);
      FromSegRoundTrip(ps[0], mid);
      assert TypesOf(ps)[1..] == TypesOf(tail);
      DecodeTupleRoundTrip(tail, rest);
      assert [ps[0]] + tail == ps;
    }
  }

  /** `from_key(into_key(t)) == t` for every tuple of encodable primitives. */
  lemma FromKeyRoundTrip(ps: seq<Prim>)
    requires forall i :: 0 <= i < |ps| ==> Encodable(ps[i])
    ensures FromKey(TypesOf(ps), Key(TupleBytes(Values(ps)))) == Ok(ps)
  {
    DecodeTupleRoundTrip(ps, []);
    assert TupleBytes(Values(ps)) + [] == TupleBytes(Values(ps));
  }

  /** `256u64` read back as a `u8` is 0, without an error. */
  lemma NarrowUnsignedTruncates()
    ensures FromKey([UIntType(W8)], Key(TupleBytes([Value(UInt(W64, 256))]))) == Ok([UInt(W8, 0)])
  {
    var k := TupleBytes([Value(UInt(W64, 256))]);
    KeyBytesSingle(Value(UInt(W64, 256)));
    U64RoundTrip(256, []);
    assert k == UIntBytes(256) + [];
    assert FromSeg(UIntType(W8), k) == Ok((UInt(W8, 0), []));
    assert [UIntType(W8)][1..] == [] && [UInt(W8, 0)] + [] == [UInt(W8, 0)];
    assert DecodeTuple([UIntType(W8)], k) == Ok(([UInt(W8, 0)], []));
  }

  /** `200i64` read back as an `i8` is -56. */
  lemma NarrowSignedWraps()
    ensures FromKey([SIntType(W8)], Key(TupleBytes([Value(SInt(W64, 200))]))) == Ok([SInt(W8, -56)])
  {
    var k := TupleBytes([Value(SInt(W64, 200))]);
    KeyBytesSingle(Value(SInt(W64, 200)));
    I64RoundTrip(200, []);
    assert k == SIntBytes(200) + [];
    assert NarrowS(200, W8) == -56;
    assert FromSeg(SIntType(W8), k) == Ok((SInt(W8, -56), []));
    assert [SIntType(W8)][1..] == [] && [SInt(W8, -56)] + [] == [SInt(W8, -56)];
    assert DecodeTuple([SIntType(W8)], k) == Ok(([SInt(W8, -56)], []));
  }

  /** A component read as another type fails with `UnexpectedEof`, whatever the mismatch. */
  lemma MismatchedTypeFails(p: Prim, t: PrimType, rest: seq<byte>)
    requires TypeOf(p) != t && !(TypeOf(p).UIntType? && t.UIntType?) && !(TypeOf(p).SIntType? && t.SIntType?)
    ensures FromSeg(t, PrimBytes(p) + rest) == Err(UnexpectedEof)
  {
    var rem := PrimBytes(p) + rest;
    assert rem[0] == PrimBytes(p)[0];
  }

  /** A one-component tuple of a `&Key` is that key's bytes. */
  lemma KeyRefIsRaw(k: Key)
    ensures TupleBytes([KeyRef(k)]) == k.bytes
  {
    KeyBytesSingle(KeyRef(k));
  }

  /** `encode_key` of a tuple component. */
  method EncodeComponentInto(c: Component, out: ByteBuf)
    modifies out
    ensures out.bytes == old(out.bytes) + ComponentBytes(c)
  {
    match c
    case Value(p) => EncodeKeyInto(p, out);
    case KeyRef(k) => out.ExtendFromSlice(k.bytes);
  }

  /** Primitive `into_key`: `encode_key` into an empty buffer. */
  method PrimIntoKey(p: Prim) returns (k: Key)
    ensures k.bytes == PrimBytes(p)
  {
    var out := new ByteBuf();
    EncodeKeyInto(p, out);
    k := Key(out.bytes);
  }

  /** Tuple `into_key`: one fresh buffer, each component's `encode_key` appended in field order. */
  method TupleIntoKey(cs: seq<Component>) returns (k: Key)
    ensures k.bytes == TupleBytes(cs)
  {
    var out := new ByteBuf();
    var i := 0;
    while i < |cs|
      invariant 0 <= i <= |cs|
      invariant out.bytes == TupleBytes(cs[..i])
    {
      EncodeComponentInto(cs[i], out);
      assert cs[..i + 1][..i] == cs[..i];
      i := i + 1;
    }
    assert cs[..i] == cs;
    k := Key(out.bytes);
  }

  /** `from_decoder` on a shared decoder: on success the cursor moves past the component, on failure it stays. */
  method FromDecoder(t: PrimType, dec: Decoder) returns (r: Result<Prim, DecodeError>)
    modifies dec
    ensures FromSeg(t, old(dec.rem)).Err? ==> r == Err(UnexpectedEof) && dec.rem == old(dec.rem)
    ensures FromSeg(t, old(dec.rem)).Ok? ==> r == Ok(FromSeg(t, old(dec.rem)).value.0) && dec.rem == FromSeg(t, old(dec.rem)).value.1
  {
    match t
    case UIntType(w) =>
      var n := dec.NextU64();
      r := if n.Some? then Ok(UInt(w, NarrowU(n.value, w))) else Err(UnexpectedEof);
    case SIntType(w) =>
      var i := dec.NextI64();
      r := if i.Some? then Ok(SInt(w, NarrowS(i.value, w))) else Err(UnexpectedEof);
    case BoolType =>
      var b := dec.NextBool();
      r := if b.Some? then Ok(Bool(b.value)) else Err(UnexpectedEof);
    case StrType =>
      var s := dec.NextStr();
      r := if s.Some? then Ok(Str(s.value)) else Err(UnexpectedEof);
  }

  lemma ShiftEmpty(r: Result<(seq<Prim>, seq<byte>), DecodeError>)
    ensures Shift([], r) == r
  {
    if r.Ok? {
      assert [] + r.value.0 == r.value.0;
    }
  }

  lemma ShiftShift(a: seq<Prim>, b: seq<Prim>, r: Result<(seq<Prim>, seq<byte>), DecodeError>)
    ensures Shift(a, Shift(b, r)) == Shift(a + b, r)
  {
    if r.Ok? {
      assert a + (b + r.value.0) == (a + b) + r.value.0;
    }
  }

  lemma DecodeTupleStep(types: seq<PrimType>, rem: seq<byte>)
    requires types != [] && FromSeg(types[0], rem).Ok?
    ensures DecodeTuple(types, rem) == Shift([FromSeg(types[0], rem).value.0], DecodeTuple(types[1..], FromSeg(types[0], rem).value.1))
  {
  }

  /** One successful component read moves the tuple decoding's viewpoint past it. */
  lemma DecodeTupleAdvance(types: seq<PrimType>, i: nat, ps: seq<Prim>, before: seq<byte>, whole: Result<(seq<Prim>, seq<byte>), DecodeError>)
    requires i < |types| && whole == Shift(ps, DecodeTuple(types[i..], before))
    requires FromSeg(types[i], before).Ok?
    ensures whole == Shift(ps + [FromSeg(types[i], before).value.0], DecodeTuple(types[i + 1..], FromSeg(types[i], before).value.1))
  {
    assert types[i..][0] == types[i] && types[i..][1..] == types[i + 1..];
    var h := FromSeg(types[i], before).value;
    DecodeTupleStep(types[i..], before);
    ShiftShift(ps, [h.0], DecodeTuple(types[i + 1..], h.1));
  }

  /** A failed component read fails the whole tuple. */
  lemma DecodeTupleStops(types: seq<PrimType>, i: nat, ps: seq<Prim>, before: seq<byte>, whole: Result<(seq<Prim>, seq<byte>), DecodeError>)
    requires i < |types| && whole == Shift(ps, DecodeTuple(types[i..], before))
    requires FromSeg(types[i], before).Err?
    ensures whole == Err(UnexpectedEof)
  {
    assert types[i..][0] == types[i];
  }

  /** Tuple `from_key`: a fresh decoder over the key, one `from_decoder` per component, `?` on each. */
  method TupleFromKey(types: seq<PrimType>, key: Key) returns (r: Result<seq<Prim>, DecodeError>)
    ensures r == FromKey(types, key)
  {
    var dec := new Decoder(key.bytes);
    var ps: seq<Prim> := [];
    var i := 0;
    ghost var whole := DecodeTuple(types, key.bytes);
    ShiftEmpty(whole);
    while i < |types|
      invariant 0 <= i <= |types| && |ps| == i
      invariant whole == Shift(ps, DecodeTuple(types[i..], dec.rem))
    {
      ghost var before := dec.rem;
      var p := FromDecoder(types[i], dec);
      if p.Err? {
        DecodeTupleStops(types, i, ps, before, whole);
        return Err(p.error);
      }
      DecodeTupleAdvance(types, i, ps, before, whole);
      ps := ps + [p.value];
      i := i + 1;
    }
    assert types[i..] == [];
    assert ps + [] == ps;
    r := Ok(ps);
  }
}
