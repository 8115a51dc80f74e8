/**
 * Cursor decoder of the current iteration. A decoder holds the bytes not yet
 * consumed; each `next_*` either reads one segment of the expected type and
 * advances past it, or returns None and leaves the cursor where it was.
 */
module KeyDecoder {
  import opened Wrappers
  import opened Bytes
  import opened BigEndian
  import opened Utf8
  import opened KvKeys
  import opened KvErrors
  import opened KeySegment

  /** The declared length of a string segment: bytes 1..9 read as a big-endian `usize`. */
  function DeclaredLength(rem: seq<byte>): nat
    requires |rem| >= 9
  {
    FromBE(rem[1..9])
  }

  /** `next_u64`: tag 0x01 and at least 9 bytes; the value is bytes 1..9 big-endian. */
  function ParseU64(rem: seq<byte>): (r: Option<(u64, seq<byte>)>)
    ensures r.Some? <==> |rem| >= 9 && rem[0] == TAG_U64
    ensures r.Some? ==> rem == U64Bytes(r.value.0) + r.value.1
  {
    if |rem| < 9 || rem[0] != TAG_U64 then None
    else
      Pow256Eight();
      ToFromBE(rem[1..9]);
      assert rem == [rem[0]] + rem[1..9] + rem[9..];
      Some((FromBE(rem[1..9]), rem[9..]))
  }

  /** `next_i64`: tag 0x02 and at least 9 bytes; the value is bytes 1..9 as two's complement. */
  function ParseI64(rem: seq<byte>): (r: Option<(i64, seq<byte>)>)
    ensures r.Some? <==> |rem| >= 9 && rem[0] == TAG_I64
    ensures r.Some? ==> rem == I64Bytes(r.value.0) + r.value.1
  {
    if |rem| < 9 || rem[0] != TAG_I64 then None
    else
      Pow256Eight();
      ToFromBE(rem[1..9]);
      var bits: u64 := FromBE(rem[1..9]);
      BitsRoundTrip(0, bits);
      assert rem == [rem[0]] + rem[1..9] + rem[9..];
      Some((BitsToI64(bits), rem[9..]))
  }

  /** `next_bool`: tag 0x03 and a payload byte; every non-zero payload reads as true. */
  function ParseBool(rem: seq<byte>): (r: Option<(bool, seq<byte>)>)
    ensures r.Some? <==> |rem| >= 2 && rem[0] == TAG_BOOL
    ensures r.Some? ==> r.value.1 == rem[2..] && (r.value.0 <==> rem[1] != 0)
  {
    if |rem| < 2 || rem[0] != TAG_BOOL then None
    else Some((rem[1] != 0, rem[2..]))
  }

  /**
   * `next_str`: tag 0x04, a 9-byte header, the declared number of bytes after
   * it and valid UTF-8 in them. The length guard is evaluated on unbounded
   * integers here; `NextStrAsWritten` models the 64-bit guard of the source.
   */
  function ParseStr(rem: seq<byte>): (r: Option<(seq<byte>, seq<byte>)>)
    ensures r.Some? <==> |rem| >= 9 && rem[0] == TAG_STRING && |rem| >= 9 + DeclaredLength(rem) && ValidUtf8(rem[9..9 + DeclaredLength(rem)])
    ensures r.Some? ==> WellFormed(Str(r.value.0)) && rem == StrBytes(r.value.0) + r.value.1
  {
    if |rem| < 9 || rem[0] != TAG_STRING then None
    else
      var len := DeclaredLength(rem);
      if |rem| < 9 + len then None
      else if !ValidUtf8(rem[9..9 + len]) then None
      else
        Pow256Eight();
        ToFromBE(rem[1..9]);
        assert rem == [rem[0]] + rem[1..9] + rem[9..9 + len] + rem[9 + len..];
        Some((rem[9..9 + len], rem[9 + len..]))
  }

  /**
   * `next_str` with the source's 64-bit arithmetic: for a declared length of
   * at least 2^64 - 9, `9 + len` overflows. With overflow checks this panics;
   * without them the guard wraps to a value below 9 and the slice `9..len + 9`
   * then panics because its end lies before its start. Either way the call
   * panics instead of returning None.
   */
  function NextStrAsWritten(rem: seq<byte>): (r: Outcome<Option<(seq<byte>, seq<byte>)>>)
    ensures r.Returned? ==> r.value == ParseStr(rem)
    ensures r.Panicked? <==> |rem| >= 9 && rem[0] == TAG_STRING && 9 + DeclaredLength(rem) >= U64_LIMIT
  {
    if |rem| < 9 || rem[0] != TAG_STRING then Returned(None)
    else if 9 + DeclaredLength(rem) >= U64_LIMIT then Panicked
    else Returned(ParseStr(rem))
  }

  /** A nine-byte header alone, tag 0x04 and a length of eight 0xFF bytes (the largest `usize`), makes `next_str` panic. */
  lemma NextStrOverflowPanics()
    ensures NextStrAsWritten([TAG_STRING, 0xFF, 0xFF, 0xFF, 0xFF, 0xFF, 0xFF, 0xFF, 0xFF]).Panicked?
    ensures ParseStr([TAG_STRING, 0xFF, 0xFF, 0xFF, 0xFF, 0xFF, 0xFF, 0xFF, 0xFF]).None?
  {
    var rem: seq<byte> := [TAG_STRING, 0xFF, 0xFF, 0xFF, 0xFF, 0xFF, 0xFF, 0xFF, 0xFF];
    assert rem[1..9] == [0xFF, 0xFF, 0xFF, 0xFF, 0xFF, 0xFF, 0xFF, 0xFF];
    Pow256Eight();
    MaxBytesValue();
  }

  lemma MaxBytesValue()
    ensures FromBE([0xFF, 0xFF, 0xFF, 0xFF, 0xFF, 0xFF, 0xFF, 0xFF]) == U64_MAX
  {
    var s: seq<byte> := [0xFF, 0xFF, 0xFF, 0xFF, 0xFF, 0xFF, 0xFF, 0xFF];
    AllMaxValue(s);
    Pow256Eight();
  }

  /** Bytes that are all 0xFF read as the largest value of their width. */
  lemma {:induction false} AllMaxValue(s: seq<byte>)
    requires forall i :: 0 <= i < |s| ==> s[i] == 0xFF
    ensures FromBE(s) == Pow256(|s|) - 1
  {
    if s != [] {
      AllMaxValue(s[..|s| - 1]);
    }
  }

  /** `FromKvKey::from_kv_key` for one primitive type: the `next_*` of that type. */
  function ParseSegment(t: SegType, rem: seq<byte>): (r: Option<(Segment, seq<byte>)>)
    ensures r.Some? ==> TypeOf(r.value.0) == t && WellFormed(r.value.0)
    ensures r.Some? ==> |r.value.1| + |SegmentBytes(r.value.0)| == |rem| && rem[|SegmentBytes(r.value.0)|..] == r.value.1
    ensures r.Some? && t != BoolType ==> rem == SegmentBytes(r.value.0) + r.value.1
  {
    match t
    case U64Type => (match ParseU64(rem) case None => None case Some((v, rest)) => Some((U64(v), rest)))
    case I64Type => (match ParseI64(rem) case None => None case Some((v, rest)) => Some((I64(v), rest)))
    case BoolType => (match ParseBool(rem) case None => None case Some((v, rest)) => Some((Bool(v), rest)))
    case StrType => (match ParseStr(rem) case None => None case Some((v, rest)) => Some((Str(v), rest)))
  }

  /** The result of decoding a tail, seen from before the components `done` were read. */
  function Shift(done: seq<Segment>, r: Result<(seq<Segment>, seq<byte>), nat>): Result<(seq<Segment>, seq<byte>), nat> {
    match r
    case Ok((segs, rest)) => Ok((done + segs, rest))
    case Err(i) => Err(|done| + i)
  }

  lemma ShiftEmpty(r: Result<(seq<Segment>, seq<byte>), nat>)
    ensures Shift([], r) == r
  {
    if r.Ok? {
      assert [] + r.value.0 == r.value.0;
    }
  }

  lemma ShiftShift(a: seq<Segment>, b: seq<Segment>, r: Result<(seq<Segment>, seq<byte>), nat>)
    ensures Shift(a, Shift(b, r)) == Shift(a + b, r)
  {
    if r.Ok? {
      assert a + (b + r.value.0) == (a + b) + r.value.0;
    }
  }

  /**
   * Tuple decoding (`from_kv_key` for a tuple, then the `KeyDecodeError` of
   * `TryFrom<KvKey>`): the components are read left to right from one cursor;
   * the first failure stops decoding and reports the failing position.
   * Leftover bytes are returned, not rejected.
   */
  function DecodeTuple(types: seq<SegType>, rem: seq<byte>): (r: Result<(seq<Segment>, seq<byte>), nat>)
    ensures r.Ok? ==> |r.value.0| == |types|
    ensures r.Err? ==> r.error < |types|
    decreases |types|
  {
    if types == [] then Ok(([], rem))
    else
      match ParseSegment(types[0], rem)
      case None => Err(0)
      case Some((seg, rest)) => Shift([seg], DecodeTuple(types[1..], rest))
  }

  /**
   * Reading one more component after a successful prefix of the tuple:
   * the prefix's result, extended by that component's read.
   */
  lemma {:induction false} DecodeTupleSnoc(types: seq<SegType>, t: SegType, rem: seq<byte>)
    requires DecodeTuple(types, rem).Ok?
    ensures var (segs, rest) := DecodeTuple(types, rem).value;
      DecodeTuple(types + [t], rem) ==
        match ParseSegment(t, rest)
        case None => Err(|types|)
        case Some((seg, after)) => Ok((segs + [seg], after))
    decreases |types|
  {
    if types == [] {
      assert [] + [t] == [t];
      assert [t][1..] == [];
      match ParseSegment(t, rem)
      case None =>
      case Some((seg, after)) =>
        assert [seg] + [] == [] + [seg];
    } else {
      var (seg0, rest0) := ParseSegment(types[0], rem).value;
      var longer := types + [t];
      assert longer[0] == types[0] && longer[1..] == types[1..] + [t];
      DecodeTupleSnoc(types[1..], t, rest0);
      var (segs, rest) := DecodeTuple(types[1..], rest0).value;
      DecodeTupleCons(types, rem, seg0, rest0, segs, rest);
      match ParseSegment(t, rest)
      case None =>
        DecodeTupleConsErr(longer, rem, seg0, rest0, |types| - 1);
      case Some((seg, after)) =>
        DecodeTupleCons(longer, rem, seg0, rest0, segs + [seg], after);
        assert [seg0] + (segs + [seg]) == ([seg0] + segs) + [seg];
    }
  }

  /** The tuple from position `i` on: the component at `i`, then the rest. */
  lemma DecodeTupleFrom(types: seq<SegType>, i: nat, rem: seq<byte>)
    requires i < |types|
    ensures ParseSegment(types[i], rem).None? ==> DecodeTuple(types[i..], rem) == Err(0)
    ensures ParseSegment(types[i], rem).Some? ==>
      DecodeTuple(types[i..], rem) ==
        Shift([ParseSegment(types[i], rem).value.0], DecodeTuple(types[i + 1..], ParseSegment(types[i], rem).value.1))
  {
    assert types[i..][0] == types[i] && types[i..][1..] == types[i + 1..];
  }

  /** One iteration of the tuple loop: the next component fails the tuple at `i`, or extends both views of it. */
  lemma NextTupleStep(types: seq<SegType>, i: nat, start: seq<byte>, segs: seq<Segment>, rem: seq<byte>)
    requires i < |types| && |segs| == i
    requires DecodeTuple(types, start) == Shift(segs, DecodeTuple(types[i..], rem))
    requires DecodeTuple(types[..i], start) == Ok((segs, rem))
    ensures ParseSegment(types[i], rem).None? ==> DecodeTuple(types, start) == Err(i)
    ensures ParseSegment(types[i], rem).Some? ==>
      var (seg, after) := ParseSegment(types[i], rem).value;
      DecodeTuple(types, start) == Shift(segs + [seg], DecodeTuple(types[i + 1..], after))
      && DecodeTuple(types[..i + 1], start) == Ok((segs + [seg], after))
  {
    DecodeTupleFrom(types, i, rem);
    var p := ParseSegment(types[i], rem);
    if p.Some? {
      var (seg, after) := p.value;
      ShiftShift(segs, [seg], DecodeTuple(types[i + 1..], after));
      DecodeTupleSnoc(types[..i], types[i], start);
      assert types[..i] + [types[i]] == types[..i + 1];
    }
  }

  /** Every decoded component has the requested type and is a well-formed value. */
  lemma {:induction false} DecodeTupleTyped(types: seq<SegType>, rem: seq<byte>)
    requires DecodeTuple(types, rem).Ok?
    ensures TypesOf(DecodeTuple(types, rem).value.0) == types
    ensures AllWellFormed(DecodeTuple(types, rem).value.0)
    decreases |types|
  {
    if types != [] {
      var (seg, rest) := ParseSegment(types[0], rem).value;
      DecodeTupleTyped(types[1..], rest);
      var segs := DecodeTuple(types, rem).value.0;
      var tail := DecodeTuple(types[1..], rest).value.0;
      assert segs == [seg] + tail;
      assert TypesOf(segs) == [types[0]] + types[1..];
      assert types == [types[0]] + types[1..];
    }
  }

  /** `TryFrom<KvKey>` for a tuple type: the decoded components, or the failing position. */
  function TryFromKey(types: seq<SegType>, key: KvKey): (r: KvResult<seq<Segment>>)
    ensures r.Ok? ==> |r.value| == |types|
    ensures r.Err? ==> r.error.KeyDecodeError? && r.error.position < |types|
  {
    match DecodeTuple(types, key)
    case Ok((segs, _)) => Ok(segs)
    case Err(i) => Err(KeyDecodeError(i))
  }

  /** Round trip of one segment: reading its own type back from its bytes yields it and the rest. */
  lemma ParseSegmentRoundTrip(seg: Segment, rest: seq<byte>)
    requires WellFormed(seg)
    ensures ParseSegment(TypeOf(seg), SegmentBytes(seg) + rest) == Some((seg, rest))
  {
    var rem := SegmentBytes(seg) + rest;
    match seg
    case U64(v) =>
      var p := ParseU64(rem);
      assert p.Some?;
      assert U64Bytes(p.value.0) + p.value.1 == U64Bytes(v) + rest;
      assert FromBE(U64Bytes(p.value.0)[1..]) == p.value.0;
      U64BytesInjective(p.value.0, p.value.1, v, rest);
    case I64(v) =>
      var p := ParseI64(rem);
      assert p.Some?;
      I64BytesInjective(p.value.0, p.value.1, v, rest);
    case Bool(b) =>
      assert rem[2..] == rest;
    case Str(s) =>
      assert rem[1..9] == StrBytes(s)[1..9];
      var p := ParseStr(rem);
      assert |rem| >= 9 + DeclaredLength(rem);
      assert rem[9..9 + DeclaredLength(rem)] == s;
      assert p.Some?;
      StrBytesInjective(p.value.0, p.value.1, s, rest);
  }

  lemma U64BytesInjective(v: u64, r: seq<byte>, w: u64, q: seq<byte>)
    requires U64Bytes(v) + r == U64Bytes(w) + q
    ensures v == w && r == q
  {
    var a, b := U64Bytes(v) + r, U64Bytes(w) + q;
    assert U64Bytes(v) == a[..9] && U64Bytes(w) == b[..9];
    assert r == a[9..] && q == b[9..];
  }

  lemma I64BytesInjective(v: i64, r: seq<byte>, w: i64, q: seq<byte>)
    requires I64Bytes(v) + r == I64Bytes(w) + q
    ensures v == w && r == q
  {
    var a, b := I64Bytes(v) + r, I64Bytes(w) + q;
    assert I64Bytes(v) == a[..9] && I64Bytes(w) == b[..9];
    assert r == a[9..] && q == b[9..];
  }

  lemma StrBytesInjective(s: seq<byte>, r: seq<byte>, t: seq<byte>, q: seq<byte>)
    requires |s| < U64_LIMIT && |t| < U64_LIMIT
    requires StrBytes(s) + r == StrBytes(t) + q
    ensures s == t && r == q
  {
    var a := StrBytes(s) + r;
    assert a[1..9] == StrBytes(s)[1..9] == StrBytes(t)[1..9];
    assert |s| == |t|;
    assert StrBytes(s) == a[..9 + |s|] == StrBytes(t);
    assert s == StrBytes(s)[9..] && t == StrBytes(t)[9..];
    assert r == a[9 + |s|..] && q == a[9 + |t|..];
  }

  /** A leading tag other than the type's own makes the read fail. */
  lemma WrongTagFails(t: SegType, rem: seq<byte>)
    requires |rem| > 0 && rem[0] != TagOf(t)
    ensures ParseSegment(t, rem).None?
  {
  }

  /** Input shorter than the fixed header (9 bytes, or 2 for bool) makes the read fail. */
  lemma ShortInputFails(t: SegType, rem: seq<byte>)
    requires |rem| < (if t == BoolType then 2 else 9)
    ensures ParseSegment(t, rem).None?
  {
  }

  /** Any non-zero payload byte reads as true, not only the byte 1 that `encode_into` writes. */
  lemma BoolAnyNonZero(b: byte, rest: seq<byte>)
    ensures ParseSegment(BoolType, [TAG_BOOL, b] + rest) == Some((Bool(b != 0), rest))
  {
    assert ([TAG_BOOL, b] + rest)[2..] == rest;
  }

  /** A string whose declared length runs past the end of the input, or whose bytes are not UTF-8, fails. */
  lemma StrFailures(rem: seq<byte>)
    requires |rem| >= 9 && rem[0] == TAG_STRING
    ensures |rem| < 9 + DeclaredLength(rem) ==> ParseSegment(StrType, rem).None?
    ensures |rem| >= 9 + DeclaredLength(rem) && !ValidUtf8(rem[9..9 + DeclaredLength(rem)]) ==> ParseSegment(StrType, rem).None?
  {
  }

  /** The first component of a tuple's key reads back as itself, followed by the rest of the key. */
  lemma ParseFirstOfKey(segs: seq<Segment>, rest: seq<byte>)
    requires segs != [] && WellFormed(segs[0])
    ensures ParseSegment(TypeOf(segs[0]), EncodeKey(segs) + rest) == Some((segs[0], EncodeKey(segs[1..]) + rest))
  {
    var a, b := SegmentBytes(segs[0]), EncodeKey(segs[1..]);
    assert EncodeKey(segs) + rest == a + (b + rest) by {
      EncodeKeyFront(segs);
      ConcatAssoc(a, b, rest);
    }
    ParseSegmentRoundTrip(segs[0], b + rest);
  }

  lemma {:induction false} DecodeTupleRoundTrip(segs: seq<Segment>, rest: seq<byte>)
    requires AllWellFormed(segs)
    ensures DecodeTuple(TypesOf(segs), EncodeKey(segs) + rest) == Ok((segs, rest))
    decreases |segs|
  {
    if segs == [] {
      assert EncodeKey(segs) + rest == rest;
    } else {
      var types, rem := TypesOf(segs), EncodeKey(segs) + rest;
      var tail := segs[1..];
      var rem' := EncodeKey(tail) + rest;
      assert AllWellFormed(tail) by {
        forall i | 0 <= i < |tail| ensures WellFormed(tail[i]) { assert tail[i] == segs[i + 1]; }
      }
      ParseFirstOfKey(segs, rest);
      assert types[1..] == TypesOf(tail);
      DecodeTupleRoundTrip(tail, rest);
      DecodeTupleCons(types, rem, segs[0], rem', tail, rest);
      assert [segs[0]] + tail == segs;
    }
  }

  /** One step of tuple decoding, once the first component and the rest have been read. */
  lemma DecodeTupleCons(types: seq<SegType>, rem: seq<byte>, seg: Segment, rem': seq<byte>, tail: seq<Segment>, rest: seq<byte>)
    requires types != [] && ParseSegment(types[0], rem) == Some((seg, rem'))
    requires DecodeTuple(types[1..], rem') == Ok((tail, rest))
    ensures DecodeTuple(types, rem) == Ok(([seg] + tail, rest))
  {
  }

  lemma DecodeTupleConsErr(types: seq<SegType>, rem: seq<byte>, seg: Segment, rem': seq<byte>, i: nat)
    requires types != [] && ParseSegment(types[0], rem) == Some((seg, rem'))
    requires DecodeTuple(types[1..], rem') == Err(i)
    ensures DecodeTuple(types, rem) == Err(i + 1)
  {
  }

  /**
   * Round trip through `to_key` and `TryFrom<KvKey>`, with any trailing bytes
   * after the last component ignored.
   */
  lemma TryFromKeyRoundTrip(segs: seq<Segment>, rest: seq<byte>)
    requires AllWellFormed(segs)
    ensures TryFromKey(TypesOf(segs), EncodeKey(segs) + rest) == Ok(segs)
  {
    DecodeTupleRoundTrip(segs, rest);
  }

  /**
   * A key whose first component has another type than the first requested one
   * fails at position 0: a (u64, bool) key never decodes as (bool, u64).
   */
  lemma FirstMismatchFails(segs: seq<Segment>, types: seq<SegType>)
    requires |segs| > 0 && |types| > 0 && TypeOf(segs[0]) != types[0]
    ensures TryFromKey(types, EncodeKey(segs)) == Err(KeyDecodeError(0))
  {
    EncodeKeyFront(segs);
    FirstByteFixesType(segs[0], segs[0]);
    var t: SegType := types[0];
    var k := EncodeKey(segs);
    assert k[0] == TagOf(TypeOf(segs[0]));
    assert k[0] != TagOf(t) by {
      match t
      case U64Type =>
      case I64Type =>
      case BoolType =>
      case StrType =>
    }
    WrongTagFails(t, k);
  }

  /** Asking for more components than the key holds fails at the first missing one. */
  lemma TooManyComponentsFail(segs: seq<Segment>, extra: SegType, rest: seq<byte>)
    requires AllWellFormed(segs) && (rest == [] || rest[0] != TagOf(extra))
    ensures DecodeTuple(TypesOf(segs) + [extra], EncodeKey(segs) + rest) == Err(|segs|)
  {
    DecodeTupleRoundTrip(segs, rest);
    DecodeTupleSnoc(TypesOf(segs), extra, EncodeKey(segs) + rest);
    if rest == [] {
      ShortInputFails(extra, rest);
    } else {
      WrongTagFails(extra, rest);
    }
  }

  /** So a key converted from a tuple never reads as a longer tuple. */
  lemma LongerTupleFails(segs: seq<Segment>, extra: SegType)
    requires AllWellFormed(segs)
    ensures TryFromKey(TypesOf(segs) + [extra], EncodeKey(segs)) == Err(KeyDecodeError(|segs|))
  {
    TooManyComponentsFail(segs, extra, []);
    assert EncodeKey(segs) + [] == EncodeKey(segs);
  }

  /**
   * The cursor type `KeyDecoder`: `rem` is the unread suffix of the key. Every
   * read either returns a value and moves `rem` past it or returns None and
   * leaves `rem` untouched.
   */
  class Decoder {
    var rem: seq<byte>

    constructor(key: seq<byte>)
      ensures rem == key
    {
      rem := key;
    }

    method NextU64() returns (r: Option<u64>)
      modifies this
      ensures ParseU64(old(rem)).None? ==> r.None? && rem == old(rem)
      ensures ParseU64(old(rem)).Some? ==> r == Some(ParseU64(old(rem)).value.0) && rem == ParseU64(old(rem)).value.1
    {
      if |rem| < 9 || rem[0] != TAG_U64 {
        return None;
      }
      Pow256Eight();
      var num := FromBE(rem[1..9]);
      rem := rem[9..];
      return Some(num);
    }

    method NextI64() returns (r: Option<i64>)
      modifies this
      ensures ParseI64(old(rem)).None? ==> r.None? && rem == old(rem)
      ensures ParseI64(old(rem)).Some? ==> r == Some(ParseI64(old(rem)).value.0) && rem == ParseI64(old(rem)).value.1
    {
      if |rem| < 9 || rem[0] != TAG_I64 {
        return None;
      }
      Pow256Eight();
      var value := BitsToI64(FromBE(rem[1..9]));
      rem := rem[9..];
      return Some(value);
    }

    method NextBool() returns (r: Option<bool>)
      modifies this
      ensures ParseBool(old(rem)).None? ==> r.None? && rem == old(rem)
      ensures ParseBool(old(rem)).Some? ==> r == Some(ParseBool(old(rem)).value.0) && rem == ParseBool(old(rem)).value.1
    {
      if |rem| < 2 || rem[0] != TAG_BOOL {
        return None;
      }
      var byte := rem[1];
      rem := rem[2..];
      return Some(byte != 0);
    }

    method NextStr() returns (r: Option<seq<byte>>)
      modifies this
      ensures ParseStr(old(rem)).None? ==> r.None? && rem == old(rem)
      ensures ParseStr(old(rem)).Some? ==> r == Some(ParseStr(old(rem)).value.0) && rem == ParseStr(old(rem)).value.1
    {
      if |rem| < 9 || rem[0] != TAG_STRING {
        return None;
      }
      var len := FromBE(rem[1..9]);
      if |rem| < 9 + len {
        return None;
      }
      var out := rem[9..len + 9];
      if !ValidUtf8(out) {
        return None;
      }
      rem := rem[9 + len..];
      return Some(out);
    }

    /** `from_kv_key` of one primitive type. */
    method NextSegment(t: SegType) returns (r: Option<Segment>)
      modifies this
      ensures ParseSegment(t, old(rem)).None? ==> r.None? && rem == old(rem)
      ensures ParseSegment(t, old(rem)).Some? ==> r == Some(ParseSegment(t, old(rem)).value.0) && rem == ParseSegment(t, old(rem)).value.1
    {
      match t
      case U64Type =>
        var v := NextU64();
        r := if v.Some? then Some(U64(v.value)) else None;
      case I64Type =>
        var v := NextI64();
        r := if v.Some? then Some(I64(v.value)) else None;
      case BoolType =>
        var v := NextBool();
        r := if v.Some? then Some(Bool(v.value)) else None;
      case StrType =>
        var v := NextStr();
        r := if v.Some? then Some(Str(v.value)) else None;
    }

    /**
     * `from_kv_key` for a tuple: one read per component, stopping at the first
     * failure with the cursor left after the components already read.
     */
    method NextTuple(types: seq<SegType>) returns (r: Result<seq<Segment>, nat>)
      modifies this
      ensures DecodeTuple(types, old(rem)).Ok? ==> r == Ok(DecodeTuple(types, old(rem)).value.0) && rem == DecodeTuple(types, old(rem)).value.1
      ensures DecodeTuple(types, old(rem)).Err? ==> r == Err(DecodeTuple(types, old(rem)).error)
      ensures r.Err? ==>
        r.error < |types| && DecodeTuple(types[..r.error], old(rem)).Ok?
        && rem == DecodeTuple(types[..r.error], old(rem)).value.1
    {
      ghost var start := rem;
      var segs: seq<Segment> := [];
      var i := 0;
      ShiftEmpty(DecodeTuple(types, rem));
      assert types[..0] == [];
      while i < |types|
        invariant 0 <= i <= |types| && |segs| == i
        invariant DecodeTuple(types, start) == Shift(segs, DecodeTuple(types[i..], rem))
        invariant DecodeTuple(types[..i], start) == Ok((segs, rem))
      {
        NextTupleStep(types, i, start, segs, rem);
        var seg := NextSegment(types[i]);
        if seg.None? {
          return Err(i);
        }
        segs := segs + [seg.value];
        i := i + 1;
      }
      assert types[i..] == [];
      assert segs + [] == segs;
      return Ok(segs);
    }
  }

  /** `TryFrom<KvKey>` for a tuple type, through a fresh decoder over the key. */
  method TryFromKvKey(types: seq<SegType>, key: KvKey) returns (r: KvResult<seq<Segment>>)
    ensures r == TryFromKey(types, key)
  {
    var decoder := new Decoder(key);
    var d := decoder.NextTuple(types);
    r := match d case Ok(segs) => Ok(segs) case Err(i) => Err(KeyDecodeError(i));
  }
}
