/**
 * The cursor decoder of the earlier key codec. `rem` holds the bytes not yet
 * read; each `next_*` checks the tag and the length first and moves `rem`
 * only once the whole segment has been read, so every `None` leaves the
 * cursor where it was.
 */
module LegacyDecode {
  import opened Wrappers
  import opened Bytes
  import opened BigEndian
  import opened Utf8
  import opened LegacyEncode

  /** The declared length of a string segment: bytes 1..5 read as a big-endian `u32`. */
  function DeclaredLength(rem: seq<byte>): (r: nat)
    requires |rem| >= 5
    ensures r < U32_LIMIT
  {
    Pow256Eight();
    FromBE(rem[1..5])
  }

  /** `next_str`: tag 0x01, a 5-byte header, the declared number of bytes after it, and UTF-8 in them. */
  function ParseStr(rem: seq<byte>): (r: Option<(seq<byte>, seq<byte>)>)
    ensures r.Some? <==> (|rem| >= 5 && rem[0] == TAG_STR && |rem| >= 5 + DeclaredLength(rem)
      && ValidUtf8(rem[5..5 + DeclaredLength(rem)]))
    ensures r.Some? ==> WellFormed(Str(r.value.0)) && |r.value.0| < U32_LIMIT
    ensures r.Some? ==> rem == StrBytes(r.value.0) + r.value.1
  {
    if |rem| < 5 || rem[0] != TAG_STR then None
    else
      var len := DeclaredLength(rem);
      if |rem| < 5 + len then None
      else if !ValidUtf8(rem[5..5 + len]) then None
      else
        Pow256Eight();
        ToFromBE(rem[1..5]);
        assert rem == [rem[0]] + rem[1..5] + rem[5..5 + len] + rem[5 + len..];
        Some((rem[5..5 + len], rem[5 + len..]))
  }

  /** `next_u64`: tag 0x02 and 8 more bytes, read big-endian. */
  function ParseU64(rem: seq<byte>): (r: Option<(u64, seq<byte>)>)
    ensures r.Some? <==> |rem| >= 9 && rem[0] == TAG_U64
    ensures r.Some? ==> rem == UIntBytes(r.value.0) + r.value.1
  {
    if |rem| < 9 || rem[0] != TAG_U64 then None
    else
      Pow256Eight();
      ToFromBE(rem[1..9]);
      assert rem == [rem[0]] + rem[1..9] + rem[9..];
      Some((FromBE(rem[1..9]), rem[9..]))
  }

  /** `next_i64`: tag 0x03 and 8 more bytes, read as two's complement. */
  function ParseI64(rem: seq<byte>): (r: Option<(i64, seq<byte>)>)
    ensures r.Some? <==> |rem| >= 9 && rem[0] == TAG_I64
    ensures r.Some? ==> rem == SIntBytes(r.value.0) + r.value.1
  {
    if |rem| < 9 || rem[0] != TAG_I64 then None
    else
      Pow256Eight();
      ToFromBE(rem[1..9]);
      var bits: u64 := FromBE(rem[1..9]);
      BitsRoundTrip(0, bits);
      assert rem == [rem[0]] + rem[1..9] + rem[9..];
      Some((BitsToI64(bits), rem[9..]))
  }

  /** `next_bool`: tag 0x05 and a payload byte that must be 0 or 1. */
  function ParseBool(rem: seq<byte>): (r: Option<(bool, seq<byte>)>)
    ensures r.Some? <==> |rem| >= 2 && rem[0] == TAG_BOOL && rem[1] <= 1
    ensures r.Some? ==> rem == BoolBytes(r.value.0) + r.value.1
  {
    if |rem| < 2 || rem[0] != TAG_BOOL then None
    else if rem[1] == 0 then
      assert rem == [rem[0], rem[1]] + rem[2..];
      Some((false, rem[2..]))
    else if rem[1] == 1 then
      assert rem == [rem[0], rem[1]] + rem[2..];
      Some((true, rem[2..]))
    else None
  }

  /** Equal concatenations with first parts of equal length split equally. */
  lemma SplitEqual(a: seq<byte>, r: seq<byte>, b: seq<byte>, q: seq<byte>)
    requires a + r == b + q && |a| == |b|
    ensures a == b && r == q
  {
    assert a == (a + r)[..|a|] && b == (b + q)[..|b|];
    assert r == (a + r)[|a|..] && q == (b + q)[|b|..];
  }

  /** Round trips: each `next_*` reads back what `encode_key` wrote and leaves the bytes after it. */
  lemma U64RoundTrip(n: u64, rest: seq<byte>)
    ensures ParseU64(UIntBytes(n) + rest) == Some((n, rest))
  {
    var p := ParseU64(UIntBytes(n) + rest);
    assert p.Some?;
    SplitEqual(UIntBytes(p.value.0), p.value.1, UIntBytes(n), rest);
  }

  lemma I64RoundTrip(i: i64, rest: seq<byte>)
    ensures ParseI64(SIntBytes(i) + rest) == Some((i, rest))
  {
    var p := ParseI64(SIntBytes(i) + rest);
    assert p.Some?;
    SplitEqual(SIntBytes(p.value.0), p.value.1, SIntBytes(i), rest);
  }

  lemma BoolRoundTrip(b: bool, rest: seq<byte>)
    ensures ParseBool(BoolBytes(b) + rest) == Some((b, rest))
  {
    assert (BoolBytes(b) + rest)[2..] == rest;
  }

  /** Strings round-trip when they hold UTF-8 and their length fits the 4-byte field. */
  lemma StrRoundTrip(s: seq<byte>, rest: seq<byte>)
    requires ValidUtf8(s) && |s| < U32_LIMIT
    ensures ParseStr(StrBytes(s) + rest) == Some((s, rest))
  {
    StrHeaderReads(s, rest);
    var p := ParseStr(StrBytes(s) + rest);
    StrBytesInjective(p.value.0, p.value.1, s, rest);
  }

  lemma StrHeaderReads(s: seq<byte>, rest: seq<byte>)
    requires ValidUtf8(s) && |s| < U32_LIMIT
    ensures ParseStr(StrBytes(s) + rest).Some?
  {
    StrHeaderFields(s, rest);
  }

  /** The header of an encoded string declares the string's own length, and that many bytes follow it. */
  lemma StrHeaderFields(s: seq<byte>, rest: seq<byte>)
    requires |s| < U32_LIMIT
    ensures var rem := StrBytes(s) + rest;
      |rem| >= 5 && rem[0] == TAG_STR && DeclaredLength(rem) == |s| && rem[5..5 + |s|] == s
  {
    var hdr := StrBytes(s);
    var rem := hdr + rest;
    assert rem[1..5] == hdr[1..5];
    assert rem[5..5 + |s|] == hdr[5..];
  }

  lemma StrBytesInjective(s: seq<byte>, r: seq<byte>, t: seq<byte>, q: seq<byte>)
    requires |s| < U32_LIMIT && |t| < U32_LIMIT
    requires StrBytes(s) + r == StrBytes(t) + q
    ensures s == t && r == q
  {
    var a := StrBytes(s) + r;
    assert a[1..5] == StrBytes(s)[1..5] == StrBytes(t)[1..5];
    assert |s| == |t|;
    SplitEqual(StrBytes(s), r, StrBytes(t), q);
    assert s == StrBytes(s)[5..] && t == StrBytes(t)[5..];
  }

  /**
   * A string of exactly 2^32 bytes does not round-trip: its truncated length
   * field reads as 0, so `next_str` returns the empty string and leaves the
   * string's bytes unread.
   */
  lemma LongStringReadsEmpty(s: seq<byte>, rest: seq<byte>)
    requires |s| == U32_LIMIT
    ensures ParseStr(StrBytes(s) + rest) == Some(([], s + rest))
  {
    var rem := StrBytes(s) + rest;
    LongStringLengthWraps(s);
    assert rem[1..5] == [0, 0, 0, 0];
    assert FromBE([0, 0, 0, 0]) == 0 by {
      assert [0, 0, 0, 0][..3] == [0, 0, 0] && [0, 0, 0][..2] == [0, 0] && [0, 0][..1] == [0];
    }
    assert rem[5..] == s + rest;
  }

  /** A payload other than 0 or 1 is rejected, unlike the later decoder. */
  lemma BoolRejectsOtherPayload(b: byte, rest: seq<byte>)
    requires b > 1
    ensures ParseBool([TAG_BOOL, b] + rest).None?
  {
  }

  class Decoder {
    var rem: seq<byte>

    /** `KeyDecoder::new`: a cursor at the start of the key. */
    constructor (key: seq<byte>)
      ensures rem == key
    {
      rem := key;
    }

    method NextStr() returns (r: Option<seq<byte>>)
      modifies this
      ensures ParseStr(old(rem)).None? ==> r.None? && rem == old(rem)
      ensures ParseStr(old(rem)).Some? ==> r == Some(ParseStr(old(rem)).value.0) && rem == ParseStr(old(rem)).value.1
    {
      if |rem| < 5 || rem[0] != TAG_STR {
        return None;
      }
      Pow256Eight();
      var len := FromBE(rem[1..5]);
      if |rem| < 5 + len {
        return None;
      }
      var out := rem[5..5 + len];
      if !ValidUtf8(out) {
        return None;
      }
      rem := rem[5 + len..];
      return Some(out);
    }

    method NextU64() returns (r: Option<u64>)
      modifies this
      ensures ParseU64(old(rem)).None? ==> r.None? && rem == old(rem)
      ensures ParseU64(old(rem)).Some? ==> r == Some(ParseU64(old(rem)).value.0) && rem == ParseU64(old(rem)).value.1
    {
      if |rem| < 9 || rem[0] != TAG_U64 {
        return None;
      }
      Pow256Eight();
      var n := FromBE(rem[1..9]);
      rem := rem[9..];
      return Some(n);
    }

    method NextI64() returns (r: Option<i64>)
      modifies this
      ensures ParseI64(old(rem)).None? ==> r.None? && rem == old(rem)
      ensures ParseI64(old(rem)).Some? ==> r == Some(ParseI64(old(rem)).value.0) && rem == ParseI64(old(rem)).value.1
    {
      if |rem| < 9 || rem[0] != TAG_I64 {
        return None;
      }
      Pow256Eight();
      var n := BitsToI64(FromBE(rem[1..9]));
      rem := rem[9..];
      return Some(n);
    }

    method NextBool() returns (r: Option<bool>)
      modifies this
      ensures ParseBool(old(rem)).None? ==> r.None? && rem == old(rem)
      ensures ParseBool(old(rem)).Some? ==> r == Some(ParseBool(old(rem)).value.0) && rem == ParseBool(old(rem)).value.1
    {
      if |rem| < 2 || rem[0] != TAG_BOOL {
        return None;
      }
      var b;
      if rem[1] == 0 {
        b := false;
      } else if rem[1] == 1 {
        b := true;
      } else {
        return None;
      }
      rem := rem[2..];
      return Some(b);
    }
  }
}
