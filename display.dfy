/**
 * The human-readable form of current-iteration keys: `to_display_string`
 * renders each segment as text and joins them with ':'; the parser splits on
 * unescaped ':' and guesses each part's type from its text.
 *
 * Both directions work on the UTF-8 bytes. ':' (0x3A) and '\' (0x5C) are
 * ASCII, and no byte of a multi-byte UTF-8 sequence is below 0x80 (section 3
 * of RFC 3629), so comparing characters with ':' and '\' is comparing bytes.
 */
module Display {
  import opened Wrappers
  import opened Bytes
  import opened BigEndian
  import opened Utf8
  import opened Decimal
  import opened KvKeys
  import opened KeySegment
  import opened KeyDecoder

  const TRUE_TEXT: seq<byte> := [0x74, 0x72, 0x75, 0x65]
  const FALSE_TEXT: seq<byte> := [0x66, 0x61, 0x6C, 0x73, 0x65]

  predicate NoBackslash(s: seq<byte>) {
    forall i :: 0 <= i < |s| ==> s[i] != BACKSLASH
  }

  predicate Plain(s: seq<byte>) {
    forall i :: 0 <= i < |s| ==> s[i] != BACKSLASH && s[i] != COLON
  }

  /**
   * Escaping inside a string segment: every ':' becomes "\:", and a '\' is
   * kept only when a ':' follows it (every other '\' is dropped).
   */
  function Escape(s: seq<byte>): (r: seq<byte>)
    ensures |r| <= 2 * |s|
    decreases |s|
  {
    if s == [] then [] else EscapeHead(s) + Escape(s[1..])
  }

  /** The escaped text of a string's first byte; the rest escapes independently. */
  function EscapeHead(s: seq<byte>): seq<byte>
    requires s != []
  {
    if s[0] == BACKSLASH then (if |s| > 1 && s[1] == COLON then [BACKSLASH] else [])
    else if s[0] == COLON then [BACKSLASH, COLON]
    else [s[0]]
  }

  /** `parts.join(":")` */
  function Join(parts: seq<seq<byte>>): seq<byte>
    decreases |parts|
  {
    if parts == [] then []
    else if |parts| == 1 then parts[0]
    else parts[0] + [COLON] + Join(parts[1..])
  }

  /** An i64 part: "{n}i" for n >= 0, "-" and the magnitude otherwise (magnitude on unbounded integers). */
  function I64Text(n: i64): seq<byte> {
    if n >= 0 then DecimalOf(n) + [LETTER_I] else [MINUS] + DecimalOf(-(n as int))
  }

  /**
   * The i64 part as the source computes it, with `-n` in 64 bits. For
   * i64::MIN the negation overflows: with overflow checks the call panics;
   * without them `-n` wraps to i64::MIN again and the part reads "--" and the
   * digits of 2^63.
   */
  function I64TextAsWritten(n: i64, overflowChecks: bool): (r: Outcome<seq<byte>>)
    ensures n != I64_MIN ==> r == Returned(I64Text(n))
    ensures r.Panicked? <==> n == I64_MIN && overflowChecks
  {
    if n >= 0 then Returned(DecimalOf(n) + [LETTER_I])
    else if n == I64_MIN then
      if overflowChecks then Panicked else Returned([MINUS, MINUS] + DecimalOf(I64_MAX + 1))
    else Returned([MINUS] + DecimalOf(-(n as int)))
  }

  /** The text a segment renders to: the decoder's reading, then its textual form. */
  function RenderStep(rem: seq<byte>): (r: Option<(seq<byte>, seq<byte>)>)
    requires rem != []
    ensures r.Some? ==> |r.value.1| < |rem|
  {
    if rem[0] == TAG_STRING then
      match ParseStr(rem) case None => None case Some((s, rest)) => Some((Escape(s), rest))
    else if rem[0] == TAG_BOOL then
      match ParseBool(rem) case None => None case Some((b, rest)) => Some((if b then TRUE_TEXT else FALSE_TEXT, rest))
    else if rem[0] == TAG_I64 then
      match ParseI64(rem) case None => None case Some((n, rest)) => Some((I64Text(n), rest))
    else if rem[0] == TAG_U64 then
      match ParseU64(rem) case None => None case Some((n, rest)) => Some((DecimalOf(n), rest))
    else None
  }

  /** The parts of a key's display form, or None when some segment cannot be read. */
  function RenderParts(rem: seq<byte>): Option<seq<seq<byte>>>
    decreases |rem|
  {
    if rem == [] then Some([])
    else
      match RenderStep(rem)
      case None => None
      case Some((part, rest)) => Prefixed([part], RenderParts(rest))
  }

  function Prefixed(parts: seq<seq<byte>>, r: Option<seq<seq<byte>>>): Option<seq<seq<byte>>> {
    match r case None => None case Some(more) => Some(parts + more)
  }

  /** `to_display_string` */
  function DisplayString(key: seq<byte>): (r: Option<seq<byte>>)
    ensures key == [] ==> r == Some([])
  {
    match RenderParts(key) case None => None case Some(parts) => Some(Join(parts))
  }

  /** The text of a segment before escaping. */
  function SegmentText(seg: Segment): seq<byte> {
    match seg
    case U64(n) => DecimalOf(n)
    case I64(n) => I64Text(n)
    case Bool(b) => if b then TRUE_TEXT else FALSE_TEXT
    case Str(s) => s
  }

  /** The text of a segment as it appears in the display string. */
  function Part(seg: Segment): seq<byte> {
    if seg.Str? then Escape(seg.s) else SegmentText(seg)
  }

  function Parts(segs: seq<Segment>): (r: seq<seq<byte>>)
    ensures |r| == |segs|
  {
    if segs == [] then [] else [Part(segs[0])] + Parts(segs[1..])
  }

  /** The splitting loop of `parse_display_string_to_key`, with `buf` the part being collected. */
  function SplitFrom(s: seq<byte>, buf: seq<byte>): (r: seq<seq<byte>>)
    ensures |r| >= 1
    decreases |s|
  {
    if s == [] then [buf]
    else if s[0] == BACKSLASH then
      if |s| > 1 && s[1] == COLON then SplitFrom(s[2..], buf + [COLON]) else SplitFrom(s[1..], buf)
    else if s[0] == COLON then [buf] + SplitFrom(s[1..], [])
    else SplitFrom(s[1..], buf + [s[0]])
  }

  /** The parts of a display string: split on unescaped ':', with "\:" read as ':'. */
  function Split(s: seq<byte>): (r: seq<seq<byte>>)
    ensures |r| >= 1
    ensures s == [] ==> r == [[]]
  {
    SplitFrom(s, [])
  }

  /**
   * The type guess for one part, in fixed priority: "true"/"false"; '-' and
   * digits that `i64::from_str` accepts; digits and a final 'i' that
   * `i64::from_str` accepts; digits that `u64::from_str` accepts; otherwise
   * the text as a string.
   */
  function ClassifyPart(part: seq<byte>): (r: Segment)
    ensures r.Bool? <==> part == TRUE_TEXT || part == FALSE_TEXT
    ensures r.Str? ==> r.s == part
    ensures r.U64? ==> AllDigits(part) && r.u == DigitsValue(part)
  {
    if part == TRUE_TEXT then Bool(true)
    else if part == FALSE_TEXT then Bool(false)
    else if |part| > 0 && part[0] == MINUS && AllDigits(part[1..]) && ParsesAsNegI64(part[1..]) then
      I64(-(DigitsValue(part[1..]) as int))
    else if |part| > 1 && part[|part| - 1] == LETTER_I && AllDigits(part[..|part| - 1]) && ParsesAsNonNegI64(part[..|part| - 1]) then
      I64(DigitsValue(part[..|part| - 1]))
    else if AllDigits(part) && ParsesAsU64(part) then U64(DigitsValue(part))
    else Str(part)
  }

  function ClassifyAll(parts: seq<seq<byte>>): (r: seq<Segment>)
    ensures |r| == |parts| && forall i :: 0 <= i < |parts| ==> r[i] == ClassifyPart(parts[i])
  {
    seq(|parts|, i requires 0 <= i < |parts| => ClassifyPart(parts[i]))
  }

  /** `parse_display_string_to_key`: every part guessed and pushed in order. */
  function ParseDisplayKey(s: seq<byte>): KvKey {
    EncodeKey(ClassifyAll(Split(s)))
  }

  /**
   * The segments whose display form reads back as themselves: every u64, bool
   * and i64, and a string that contains no '\' and whose text is not taken
   * for a bool or a number.
   */
  predicate Displayable(seg: Segment) {
    WellFormed(seg) && (seg.Str? ==> NoBackslash(seg.s) && ClassifyPart(seg.s) == seg)
  }

  // ---------------------------------------------------------------------------
  // Escaping

  /** An escaped text never starts with ':'. */
  lemma {:induction false} EscapeFirstNotColon(s: seq<byte>)
    ensures |Escape(s)| > 0 ==> Escape(s)[0] != COLON
    decreases |s|
  {
    if s != [] {
      EscapeFirstNotColon(s[1..]);
    }
  }

  /** After escaping, every ':' is directly preceded by a '\'. */
  lemma {:induction false} EscapedColonsArePreceded(s: seq<byte>, i: nat)
    requires i < |Escape(s)| && Escape(s)[i] == COLON
    ensures i > 0 && Escape(s)[i - 1] == BACKSLASH
    decreases |s|
  {
    var head := EscapeHead(s);
    if i >= |head| {
      EscapeFirstNotColon(s[1..]);
      EscapedColonsArePreceded(s[1..], i - |head|);
    }
  }

  /** A '\' that no ':' follows is dropped: "\a" escapes to "a". */
  lemma LoneBackslashDropped(s: seq<byte>)
    requires s == [] || s[0] != COLON
    ensures Escape([BACKSLASH] + s) == Escape(s)
  {
    assert ([BACKSLASH] + s)[1..] == s;
  }

  lemma {:induction false} EscapePlain(s: seq<byte>)
    requires Plain(s)
    ensures Escape(s) == s
    decreases |s|
  {
    if s != [] {
      assert Plain(s[1..]);
      EscapePlain(s[1..]);
      assert s == [s[0]] + s[1..];
    }
  }

  /** Splitting an escaped text without '\' collects exactly that text into the current part. */
  lemma {:induction false} SplitEscaped(v: seq<byte>, rest: seq<byte>, buf: seq<byte>)
    requires NoBackslash(v)
    ensures SplitFrom(Escape(v) + rest, buf) == SplitFrom(rest, buf + v)
    decreases |v|
  {
    if v == [] {
      assert buf + v == buf;
      assert Escape(v) + rest == rest;
    } else {
      assert NoBackslash(v[1..]);
      SplitEscaped(v[1..], rest, buf + [v[0]]);
      assert buf + [v[0]] + v[1..] == buf + v;
      if v[0] == COLON {
        var t := [BACKSLASH, COLON] + Escape(v[1..]) + rest;
        assert Escape(v) + rest == t;
        assert t[2..] == Escape(v[1..]) + rest;
      } else {
        var t := [v[0]] + Escape(v[1..]) + rest;
        assert Escape(v) + rest == t;
        assert t[1..] == Escape(v[1..]) + rest;
      }
    }
  }

  // ---------------------------------------------------------------------------
  // Rendering encoded keys

  lemma RenderSegment(seg: Segment, rest: seq<byte>)
    requires WellFormed(seg)
    ensures RenderStep(SegmentBytes(seg) + rest) == Some((Part(seg), rest))
  {
    ParseSegmentRoundTrip(seg, rest);
  }

  /**
   * Rendering a key that starts with encoded segments: their parts in order,
   * then the rendering of what follows; if that fails the whole rendering
   * fails, so no partial string is ever returned.
   */
  lemma {:induction false} RenderEncoded(segs: seq<Segment>, rest: seq<byte>)
    requires AllWellFormed(segs)
    ensures RenderParts(EncodeKey(segs) + rest) == Prefixed(Parts(segs), RenderParts(rest))
    decreases |segs|
  {
    if segs == [] {
      assert EncodeKey(segs) + rest == rest;
      match RenderParts(rest)
      case None =>
      case Some(ps) => assert [] + ps == ps;
    } else {
      var tail := segs[1..];
      assert AllWellFormed(tail) by {
        forall i | 0 <= i < |tail| ensures WellFormed(tail[i]) { assert tail[i] == segs[i + 1]; }
      }
      var rem' := EncodeKey(tail) + rest;
      assert EncodeKey(segs) + rest == SegmentBytes(segs[0]) + rem' by {
        EncodeKeyFront(segs);
        ConcatAssoc(SegmentBytes(segs[0]), EncodeKey(tail), rest);
      }
      RenderSegment(segs[0], rem');
      RenderEncoded(tail, rest);
      RenderCons(EncodeKey(segs) + rest, Part(segs[0]), rem');
      match RenderParts(rest)
      case None =>
      case Some(ps) =>
        assert [Part(segs[0])] + (Parts(tail) + ps) == Parts(segs) + ps;
    }
  }

  lemma RenderCons(rem: seq<byte>, part: seq<byte>, rest: seq<byte>)
    requires rem != [] && RenderStep(rem) == Some((part, rest))
    ensures RenderParts(rem) == Prefixed([part], RenderParts(rest))
  {
  }

  /** The display string of an encoded key joins the parts of its segments. */
  lemma DisplayEncoded(segs: seq<Segment>)
    requires AllWellFormed(segs)
    ensures DisplayString(EncodeKey(segs)) == Some(Join(Parts(segs)))
  {
    RenderEncoded(segs, []);
    assert EncodeKey(segs) + [] == EncodeKey(segs);
    assert Parts(segs) + [] == Parts(segs);
  }

  /** An unknown tag anywhere after readable segments makes the whole rendering fail. */
  lemma UnknownTagFails(segs: seq<Segment>, rest: seq<byte>)
    requires AllWellFormed(segs) && rest != [] && !(TAG_U64 <= rest[0] <= TAG_STRING)
    ensures DisplayString(EncodeKey(segs) + rest).None?
  {
    RenderEncoded(segs, rest);
  }

  /** A truncated last segment makes the whole rendering fail. */
  lemma TruncatedSegmentFails(segs: seq<Segment>, last: Segment, cut: nat)
    requires AllWellFormed(segs) && WellFormed(last) && 0 < cut < |SegmentBytes(last)|
    ensures DisplayString(EncodeKey(segs) + SegmentBytes(last)[..cut]).None?
  {
    var t := SegmentBytes(last)[..cut];
    RenderEncoded(segs, t);
    assert t[0] == TagOf(TypeOf(last));
    if last.Str? && cut >= 9 {
      assert t[1..9] == StrBytes(last.s)[1..9];
    }
  }

  // ---------------------------------------------------------------------------
  // Parsing rendered keys

  /** The text of every segment that parses back is free of '\'; non-string texts are plain. */
  lemma SegmentTextShape(seg: Segment)
    requires Displayable(seg)
    ensures NoBackslash(SegmentText(seg))
    ensures Part(seg) == Escape(SegmentText(seg))
  {
    if !seg.Str? {
      var t := SegmentText(seg);
      assert Plain(t) by {
        match seg
        case U64(n) => DigitsPlain(DecimalOf(n));
        case I64(n) =>
          DigitsPlain(if n >= 0 then DecimalOf(n) else DecimalOf(-(n as int)));
        case Bool(b) =>
      }
      EscapePlain(t);
    }
  }

  lemma DigitsPlain(s: seq<byte>)
    requires AllDigits(s)
    ensures Plain(s)
  {
    assert forall i :: 0 <= i < |s| ==> IsDigit(s[i]);
  }

  /** Every segment that is not a string reads back as itself. */
  lemma ClassifyText(seg: Segment)
    requires Displayable(seg)
    ensures ClassifyPart(SegmentText(seg)) == seg
  {
    match seg
    case U64(n) =>
      var t := DecimalOf(n);
      assert t != TRUE_TEXT && t != FALSE_TEXT by { assert IsDigit(t[0]); }
      assert IsDigit(t[0]) && IsDigit(t[|t| - 1]);
    case I64(n) =>
      if n >= 0 {
        var d := DecimalOf(n);
        var t := d + [LETTER_I];
        assert t[0] == d[0] && IsDigit(d[0]);
        assert t != TRUE_TEXT && t != FALSE_TEXT;
        assert t[..|t| - 1] == d;
      } else {
        var d := DecimalOf(-(n as int));
        var t := [MINUS] + d;
        assert t[1..] == d;
        assert t != TRUE_TEXT && t != FALSE_TEXT;
      }
    case Bool(b) =>
    case Str(s) =>
  }

  function Texts(segs: seq<Segment>): (r: seq<seq<byte>>)
    ensures |r| == |segs| && forall i :: 0 <= i < |segs| ==> r[i] == SegmentText(segs[i])
  {
    seq(|segs|, i requires 0 <= i < |segs| => SegmentText(segs[i]))
  }

  function EscapeAll(vs: seq<seq<byte>>): (r: seq<seq<byte>>)
    ensures |r| == |vs| && forall i :: 0 <= i < |vs| ==> r[i] == Escape(vs[i])
  {
    seq(|vs|, i requires 0 <= i < |vs| => Escape(vs[i]))
  }

  predicate AllNoBackslash(vs: seq<seq<byte>>) {
    forall i :: 0 <= i < |vs| ==> NoBackslash(vs[i])
  }

  /** The display parts of displayable segments are their escaped texts, and the texts hold no '\'. */
  lemma {:induction false} PartsAreEscapedTexts(segs: seq<Segment>)
    requires forall i :: 0 <= i < |segs| ==> Displayable(segs[i])
    ensures Parts(segs) == EscapeAll(Texts(segs)) && AllNoBackslash(Texts(segs))
    decreases |segs|
  {
    if segs != [] {
      var tail := segs[1..];
      assert forall i :: 0 <= i < |tail| ==> Displayable(tail[i]) by {
        forall i | 0 <= i < |tail| ensures Displayable(tail[i]) { assert tail[i] == segs[i + 1]; }
      }
      PartsAreEscapedTexts(tail);
      forall i | 0 <= i < |segs| ensures NoBackslash(Texts(segs)[i]) && Parts(segs)[i] == EscapeAll(Texts(segs))[i] {
        SegmentTextShape(segs[i]);
        if i > 0 {
          assert segs[i] == tail[i - 1];
          assert Parts(segs)[i] == Parts(tail)[i - 1];
        }
      }
    }
  }

  /** Splitting joined escaped texts that hold no '\' gives back the texts, in order. */
  lemma {:induction false} SplitJoin(vs: seq<seq<byte>>, buf: seq<byte>)
    requires |vs| > 0 && AllNoBackslash(vs)
    ensures SplitFrom(Join(EscapeAll(vs)), buf) == [buf + vs[0]] + vs[1..]
    decreases |vs|
  {
    var v := vs[0];
    var es := EscapeAll(vs);
    assert NoBackslash(v);
    if |vs| == 1 {
      assert Join(es) == Escape(v) + [];
      SplitEscaped(v, [], buf);
      assert vs[1..] == [];
    } else {
      var tail := vs[1..];
      assert AllNoBackslash(tail) by {
        forall i | 0 <= i < |tail| ensures NoBackslash(tail[i]) { assert tail[i] == vs[i + 1]; }
      }
      assert es[1..] == EscapeAll(tail);
      var rest := [COLON] + Join(EscapeAll(tail));
      assert Join(es) == Escape(v) + rest;
      SplitEscaped(v, rest, buf);
      assert rest[0] == COLON && rest[1..] == Join(EscapeAll(tail));
      SplitJoin(tail, []);
      assert [] + tail[0] == tail[0];
      assert [tail[0]] + tail[1..] == tail;
    }
  }

  lemma DisplayableWellFormed(segs: seq<Segment>)
    requires forall i :: 0 <= i < |segs| ==> Displayable(segs[i])
    ensures AllWellFormed(segs)
  {
    forall i | 0 <= i < |segs| ensures WellFormed(segs[i]) { assert Displayable(segs[i]); }
  }

  /** Splitting joined escaped texts that hold no '\' gives back exactly those texts. */
  lemma SplitJoinAll(vs: seq<seq<byte>>)
    requires |vs| > 0 && AllNoBackslash(vs)
    ensures Split(Join(EscapeAll(vs))) == vs
  {
    SplitJoin(vs, []);
    assert [] + vs[0] == vs[0];
    assert [vs[0]] + vs[1..] == vs;
  }

  lemma ClassifyTexts(segs: seq<Segment>)
    requires forall i :: 0 <= i < |segs| ==> Displayable(segs[i])
    ensures ClassifyAll(Texts(segs)) == segs
  {
    forall i | 0 <= i < |segs| ensures ClassifyAll(Texts(segs))[i] == segs[i] {
      ClassifyText(segs[i]);
    }
  }

  /**
   * Round trip of the display form: a non-empty key of displayable segments
   * renders, and parsing the rendering gives back the same key.
   */
  lemma DisplayRoundTrip(segs: seq<Segment>)
    requires |segs| > 0 && forall i :: 0 <= i < |segs| ==> Displayable(segs[i])
    ensures DisplayString(EncodeKey(segs)).Some?
    ensures ParseDisplayKey(DisplayString(EncodeKey(segs)).value) == EncodeKey(segs)
  {
    DisplayableWellFormed(segs);
    DisplayEncoded(segs);
    PartsAreEscapedTexts(segs);
    SplitJoinAll(Texts(segs));
    ClassifyTexts(segs);
  }

  /** The empty key renders as "" and "" parses as a key holding one empty string. */
  lemma EmptyKeyDoesNotRoundTrip()
    ensures DisplayString([]) == Some([])
    ensures ParseDisplayKey([]) == EncodeKey([Str([])])
  {
    assert Split([]) == [[]];
    assert ClassifyAll([[]]) == [Str([])] by {
      assert ClassifyPart([]) == Str([]) by {
        assert [] != TRUE_TEXT && [] != FALSE_TEXT;
      }
    }
  }

  /** A string segment "true" comes back as the bool true. */
  lemma StringTrueReadsAsBool()
    ensures DisplayString(EncodeKey([Str(TRUE_TEXT)])) == Some(TRUE_TEXT)
    ensures ParseDisplayKey(TRUE_TEXT) == EncodeKey([Bool(true)])
  {
    StringTrueRenders();
    TrueTextParsesAsBool();
  }

  lemma StringTrueRenders()
    ensures DisplayString(EncodeKey([Str(TRUE_TEXT)])) == Some(TRUE_TEXT)
  {
    AsciiIsValid(TRUE_TEXT);
    assert AllWellFormed([Str(TRUE_TEXT)]);
    RenderEncoded([Str(TRUE_TEXT)], []);
    assert EncodeKey([Str(TRUE_TEXT)]) + [] == EncodeKey([Str(TRUE_TEXT)]);
    assert Plain(TRUE_TEXT);
    EscapePlain(TRUE_TEXT);
    assert Parts([Str(TRUE_TEXT)]) == [TRUE_TEXT];
  }

  lemma TrueTextParsesAsBool()
    ensures ParseDisplayKey(TRUE_TEXT) == EncodeKey([Bool(true)])
  {
    assert Plain(TRUE_TEXT);
    EscapePlain(TRUE_TEXT);
    SplitEscaped(TRUE_TEXT, [], []);
    assert [] + TRUE_TEXT == TRUE_TEXT;
    assert Escape(TRUE_TEXT) + [] == TRUE_TEXT;
    assert Split(TRUE_TEXT) == [TRUE_TEXT];
    assert ClassifyAll([TRUE_TEXT]) == [Bool(true)];
  }

  /**
   * What the release build shows for i64::MIN (`-n` wrapped): "--" and digits,
   * which parses back as a string, not as the integer.
   */
  lemma WrappedMinimumReadsAsString()
    ensures I64TextAsWritten(I64_MIN, false).Returned?
    ensures var t := I64TextAsWritten(I64_MIN, false).value; ClassifyPart(t) == Str(t)
    ensures I64TextAsWritten(I64_MIN, true).Panicked?
  {
    var d := DecimalOf(I64_MAX + 1);
    var t := [MINUS, MINUS] + d;
    assert t[1] == MINUS && !IsDigit(t[1]);
    assert !AllDigits(t[1..]) by { assert t[1..][0] == MINUS; }
    assert !AllDigits(t) by { assert t[0] == MINUS; }
    assert t[|t| - 1] == d[|d| - 1] && IsDigit(d[|d| - 1]);
    assert t != TRUE_TEXT && t != FALSE_TEXT;
  }

  /** The corrected rendering of i64::MIN parses back as i64::MIN. */
  lemma MinimumRoundTrips()
    ensures ClassifyPart(I64Text(I64_MIN)) == I64(I64_MIN)
  {
    ClassifyText(I64(I64_MIN));
  }

  // ---------------------------------------------------------------------------
  // The two loops of the source

  /** The escaping loop over one string segment's characters. */
  method EscapeString(s: seq<byte>) returns (escaped: seq<byte>)
    ensures escaped == Escape(s)
  {
    escaped := [];
    var i := 0;
    while i < |s|
      invariant 0 <= i <= |s|
      invariant escaped + Escape(s[i..]) == Escape(s)
    {
      EscapeStep(s, i);
      ghost var before := escaped;
      var c := s[i];
      if c == BACKSLASH {
        if i + 1 < |s| && s[i + 1] == COLON {
          escaped := escaped + [BACKSLASH];
        }
      } else if c == COLON {
        escaped := escaped + [BACKSLASH, COLON];
      } else {
        escaped := escaped + [c];
      }
      assert escaped == before + EscapeHead(s[i..]);
      ConcatAssoc(before, EscapeHead(s[i..]), Escape(s[i + 1..]));
      i := i + 1;
    }
  }

  lemma EscapeStep(s: seq<byte>, i: nat)
    requires i < |s|
    ensures Escape(s[i..]) == EscapeHead(s[i..]) + Escape(s[i + 1..])
  {
    assert s[i..][1..] == s[i + 1..];
  }

  /** `to_display_string`: the rendering loop over the unread bytes `rem`. */
  method ToDisplayString(key: seq<byte>) returns (r: Option<seq<byte>>)
    ensures r == DisplayString(key)
  {
    var rem := key;
    var parts: seq<seq<byte>> := [];
    PrefixedEmpty(RenderParts(key));
    while rem != []
      invariant RenderParts(key) == Prefixed(parts, RenderParts(rem))
      decreases |rem|
    {
      Pow256Eight();
      var part: seq<byte>;
      var rest: seq<byte>;
      if rem[0] == TAG_STRING {
        if |rem| < 9 {
          return None;
        }
        var len := FromBE(rem[1..9]);
        if |rem| < 9 + len {
          return None;
        }
        var s := rem[9..9 + len];
        if !ValidUtf8(s) {
          return None;
        }
        part := EscapeString(s);
        rest := rem[9 + len..];
      } else if rem[0] == TAG_BOOL {
        if |rem| < 2 {
          return None;
        }
        var b := rem[1] != 0;
        part := if b then TRUE_TEXT else FALSE_TEXT;
        rest := rem[2..];
      } else if rem[0] == TAG_I64 {
        if |rem| < 9 {
          return None;
        }
        var n := BitsToI64(FromBE(rem[1..9]));
        if n >= 0 {
          part := DecimalOf(n) + [LETTER_I];
        } else {
          part := [MINUS] + DecimalOf(-(n as int));
        }
        rest := rem[9..];
      } else if rem[0] == TAG_U64 {
        if |rem| < 9 {
          return None;
        }
        var n := FromBE(rem[1..9]);
        part := DecimalOf(n);
        rest := rem[9..];
      } else {
        return None;
      }
      assert RenderStep(rem) == Some((part, rest));
      RenderCons(rem, part, rest);
      PrefixedPrefixed(parts, [part], RenderParts(rest));
      parts := parts + [part];
      rem := rest;
    }
    assert parts + [] == parts;
    return Some(Join(parts));
  }

  lemma PrefixedEmpty(r: Option<seq<seq<byte>>>)
    ensures Prefixed([], r) == r
  {
    if r.Some? {
      assert [] + r.value == r.value;
    }
  }

  lemma PrefixedPrefixed(a: seq<seq<byte>>, b: seq<seq<byte>>, r: Option<seq<seq<byte>>>)
    ensures Prefixed(a, Prefixed(b, r)) == Prefixed(a + b, r)
  {
    if r.Some? {
      assert a + (b + r.value) == (a + b) + r.value;
    }
  }

  /** `parse_display_string_to_key`: split the text, then push each guessed part. It never fails. */
  method ParseDisplayString(display: seq<byte>) returns (r: Option<KvKey>)
    ensures r == Some(ParseDisplayKey(display))
  {
    var parts := SplitDisplay(display);
    var key := new ByteBuf();
    var j := 0;
    while j < |parts|
      invariant 0 <= j <= |parts|
      invariant key.bytes == EncodeKey(ClassifyAll(parts[..j]))
    {
      var seg := ClassifyPart(parts[j]);
      EncodeInto(seg, key);
      ClassifyNext(parts, j);
      j := j + 1;
    }
    assert parts[..j] == parts;
    return Some(key.bytes);
  }

  lemma ClassifyNext(parts: seq<seq<byte>>, j: nat)
    requires j < |parts|
    ensures EncodeKey(ClassifyAll(parts[..j + 1])) == EncodeKey(ClassifyAll(parts[..j])) + SegmentBytes(ClassifyPart(parts[j]))
  {
    assert ClassifyAll(parts[..j + 1]) == ClassifyAll(parts[..j]) + [ClassifyPart(parts[j])];
    EncodeKeySnoc(ClassifyAll(parts[..j]), ClassifyPart(parts[j]));
  }

  /** The splitting loop of `parse_display_string_to_key`: parts end at unescaped colons, `\:` is a literal colon. */
  method SplitDisplay(display: seq<byte>) returns (parts: seq<seq<byte>>)
    ensures parts == Split(display)
  {
    var buf: seq<byte> := [];
    parts := [];
    var i := 0;
    while i < |display|
      invariant 0 <= i <= |display|
      invariant parts + SplitFrom(display[i..], buf) == Split(display)
    {
      var c := display[i];
      if c == BACKSLASH {
        if i + 1 < |display| && display[i + 1] == COLON {
          assert display[i..][2..] == display[i + 2..];
          buf := buf + [COLON];
          i := i + 1;
        } else {
          assert display[i..][1..] == display[i + 1..];
        }
      } else if c == COLON {
        assert display[i..][1..] == display[i + 1..];
        parts := parts + [buf];
        buf := [];
      } else {
        assert display[i..][1..] == display[i + 1..];
        buf := buf + [c];
      }
      i := i + 1;
    }
    parts := parts + [buf];
  }
}
