/** Decimal text of integers, as in protocol headers. */
module Decimal {
  import opened ByteStrings

  const I64_MAX: int := 0x7FFF_FFFF_FFFF_FFFF
  const ZERO: Byte := 48
  const MINUS: Byte := 45

  predicate IsI64(v: int) {
    -I64_MAX - 1 <= v <= I64_MAX
  }

  predicate IsDigit(c: Byte) {
    ZERO <= c <= 57
  }

  predicate AllDigits(s: Bytes) {
    forall i :: 0 <= i < |s| ==> IsDigit(s[i])
  }

  /** The number a string of digits denotes. */
  function Value(s: Bytes): nat
    requires AllDigits(s)
    decreases |s|
  {
    if |s| == 0 then 0 else 10 * Value(s[..|s| - 1]) + (s[|s| - 1] - ZERO)
  }

  /** `-?[0-9]+` whose digits fit an i64; leading zeros are welcome. */
  function ParseI64Strict(s: Bytes): Option<int> {
    var neg := |s| > 0 && s[0] == MINUS;
    var digits := if neg then s[1..] else s;
    if |digits| > 0 && AllDigits(digits) && Value(digits) <= I64_MAX then
      var v: int := Value(digits);
      Some(if neg then -v else v)
    else None
  }

  lemma {:induction false} ValueMonotone(s: Bytes, k: nat)
    requires AllDigits(s) && k <= |s|
    ensures Value(s[..k]) <= Value(s)
    decreases |s|
  {
    if k < |s| {
      var init := s[..|s| - 1];
      ValueMonotone(init, k);
      assert init[..k] == s[..k];
    } else {
      assert s[..k] == s;
    }
  }

  /** The loop with checked arithmetic: a partial overflow is final. */
  method ParseStrict(s: Bytes) returns (r: Option<int>)
    ensures r == ParseI64Strict(s)
  {
    if |s| == 0 {
      return None;
    }
    var neg := s[0] == MINUS;
    var digits := if neg then s[1..] else s;
    if |digits| == 0 {
      return None;
    }
    var v := 0;
    for k := 0 to |digits|
      invariant AllDigits(digits[..k]) && v == Value(digits[..k]) <= I64_MAX
    {
      var c := digits[k];
      if !IsDigit(c) {
        assert !AllDigits(digits);
        return None;
      }
      assert digits[..k + 1][..k] == digits[..k];
      var next := 10 * v + (c - ZERO);
      assert AllDigits(digits[..k + 1]) && Value(digits[..k + 1]) == next;
      if 10 * v > I64_MAX || next > I64_MAX {
        if AllDigits(digits) {
          ValueMonotone(digits, k + 1);
        }
        return None;
      }
      v := next;
    }
    assert digits[..|digits|] == digits;
    return Some(if neg then -v else v);
  }

  /** The canonical text of a natural number. */
  function Text(n: nat): (s: Bytes)
    ensures |s| > 0 && AllDigits(s)
  {
    if n < 10 then [n + ZERO] else Text(n / 10) + [n % 10 + ZERO]
  }

  lemma {:induction false} TextValue(n: nat)
    ensures Value(Text(n)) == n
  {
    if n < 10 {
      assert Text(n)[..0] == [];
    } else {
      TextValue(n / 10);
      assert Text(n)[..|Text(n)| - 1] == Text(n / 10);
    }
  }

  lemma ParseText(n: nat)
    requires n <= I64_MAX
    ensures ParseI64Strict(Text(n)) == Some(n as int)
  {
    TextValue(n);
  }

  /** A number below 10^k has at most k digits. */
  lemma {:induction false} TextShort(n: nat, k: nat, bound: nat)
    requires n < bound && k > 0 && bound == Power10(k)
    ensures |Text(n)| <= k
    decreases k
  {
    if n >= 10 {
      TextShort(n / 10, k - 1, Power10(k - 1));
    }
  }

  function Power10(k: nat): nat {
    if k == 0 then 1 else 10 * Power10(k - 1)
  }

  lemma I64IsShort(n: nat)
    requires n <= I64_MAX
    ensures |Text(n)| <= 19
  {
    assert Power10(5) == 100000;
    assert Power10(10) == 10000000000;
    assert Power10(15) == 1000000000000000;
    assert Power10(19) == 10000000000000000000;
    TextShort(n, 19, Power10(19));
  }
}
