/**
 * Decimal text of integers: what `to_string` / `format!` write for `u64` and
 * `i64`, and what `u64::from_str` / `i64::from_str` accept from a string of
 * ASCII digits.
 */
module Decimal {
  import opened Bytes

  predicate IsDigit(b: byte) {
    DIGIT_ZERO <= b <= DIGIT_NINE
  }

  predicate AllDigits(s: seq<byte>) {
    forall i :: 0 <= i < |s| ==> IsDigit(s[i])
  }

  /** The value a string of ASCII digits denotes; leading zeros are allowed. */
  function DigitsValue(s: seq<byte>): nat
    requires AllDigits(s)
  {
    if s == [] then 0 else 10 * DigitsValue(s[..|s| - 1]) + (s[|s| - 1] - DIGIT_ZERO)
  }

  /** `n.to_string()`: the shortest decimal text of `n`. */
  function DecimalOf(n: nat): (r: seq<byte>)
    ensures |r| >= 1 && AllDigits(r)
    ensures DigitsValue(r) == n
  {
    if n < 10 then [DIGIT_ZERO + n]
    else
      var r := DecimalOf(n / 10) + [DIGIT_ZERO + n % 10];
      assert r[..|r| - 1] == DecimalOf(n / 10);
      r
  }

  /** `u64::from_str` on a string of ASCII digits: empty text and values above `u64::MAX` are rejected. */
  predicate ParsesAsU64(s: seq<byte>)
    requires AllDigits(s)
  {
    |s| > 0 && DigitsValue(s) <= U64_MAX
  }

  /** `i64::from_str` on ASCII digits (the positive form). */
  predicate ParsesAsNonNegI64(s: seq<byte>)
    requires AllDigits(s)
  {
    |s| > 0 && DigitsValue(s) <= I64_MAX
  }

  /** `i64::from_str` on `-` followed by ASCII digits: the magnitude may reach 2^63. */
  predicate ParsesAsNegI64(s: seq<byte>)
    requires AllDigits(s)
  {
    |s| > 0 && DigitsValue(s) <= I64_MAX + 1
  }
}
