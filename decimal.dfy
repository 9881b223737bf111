/**
 * The decimal text form of a Java `int`: `String.valueOf(int)` (render) and
 * `Integer.parseInt(String)` (parse), over Dafny's unbounded integers with the
 * 32-bit range written out.
 */
module Decimal {
  import opened Wrappers

  const MIN_INT: int := -0x8000_0000
  const MAX_INT: int := 0x7FFF_FFFF

  /** The values a Java `int` can hold. */
  predicate IsInt32(n: int) {
    MIN_INT <= n <= MAX_INT
  }

  predicate IsDigit(c: char) {
    '0' <= c <= '9'
  }

  predicate AllDigits(s: string) {
    forall i :: 0 <= i < |s| ==> IsDigit(s[i])
  }

  function DigitValue(c: char): (d: nat)
    requires IsDigit(c)
    ensures d < 10
  {
    c as int - '0' as int
  }

  function DigitChar(d: nat): (c: char)
    requires d < 10
    ensures IsDigit(c) && DigitValue(c) == d
  {
    ('0' as int + d) as char
  }

  /** The number a string of decimal digits denotes, most significant digit first. */
  function DigitsValue(s: string): nat
    requires AllDigits(s)
  {
    if s == [] then 0 else DigitsValue(s[..|s| - 1]) * 10 + DigitValue(s[|s| - 1])
  }

  /** The digits of `n` without leading zeros ("0" for zero). */
  function NatToDigits(n: nat): (s: string)
    ensures |s| >= 1 && AllDigits(s)
    ensures |s| > 1 ==> s[0] != '0'
    ensures DigitsValue(s) == n
  {
    if n < 10 then [DigitChar(n)]
    else
      var init := NatToDigits(n / 10);
      var s := init + [DigitChar(n % 10)];
      assert s[..|s| - 1] == init;
      s
  }

  /** `String.valueOf(int)`: a minus sign for negative values, then the digits of the magnitude. */
  function IntToString(n: int): (s: string)
    ensures WellFormed(s) && SignedValue(s) == n
    ensures s[0] == '-' <==> n < 0
    ensures s[0] != '+'
    ensures var digits := if n < 0 then s[1..] else s; |digits| > 1 ==> digits[0] != '0'
  {
    if n < 0 then
      var d := NatToDigits(-n);
      assert ("-" + d)[1..] == d;
      "-" + d
    else NatToDigits(n)
  }

  /** The strings `parseInt` accepts before its range check: an optional sign, then at least one digit. */
  predicate WellFormed(s: string) {
    |s| >= 1 &&
    if s[0] == '-' || s[0] == '+' then |s| >= 2 && AllDigits(s[1..]) else AllDigits(s)
  }

  /** The value a well-formed string denotes, before the range check. */
  function SignedValue(s: string): int
    requires WellFormed(s)
  {
    if s[0] == '-' then -(DigitsValue(s[1..]) as int)
    else if s[0] == '+' then DigitsValue(s[1..])
    else DigitsValue(s)
  }

  /**
   * The digit loop of `parseInt`: reads `s[i..]` left to right, `acc` holding the
   * value of the digits read so far, and gives up at the first non-digit or as
   * soon as the magnitude passes `limit`.
   */
  function Accumulate(s: string, i: nat, acc: nat, limit: nat): (r: Option<nat>)
    requires i <= |s| && AllDigits(s[..i]) && acc == DigitsValue(s[..i])
    requires acc <= limit
    ensures r.Some? <==> AllDigits(s) && DigitsValue(s) <= limit
    ensures r.Some? ==> r.value == DigitsValue(s)
    decreases |s| - i
  {
    if i == |s| then
      assert s[..i] == s;
      Some(acc)
    else if !IsDigit(s[i]) then
      None
    else
      assert s[..i + 1][..i] == s[..i];
      var next := acc * 10 + DigitValue(s[i]);
      if next > limit then
        PrefixValueBound(s, i + 1);
        None
      else
        Accumulate(s, i + 1, next, limit)
  }

  /** The value of a digit string is at least the value of any of its prefixes. */
  lemma {:induction false} PrefixValueBound(s: string, k: nat)
    requires k <= |s| && AllDigits(s[..k])
    ensures AllDigits(s) ==> DigitsValue(s[..k]) <= DigitsValue(s)
  {
    if AllDigits(s) && k < |s| {
      var t := s[..|s| - 1];
      assert t[..k] == s[..k];
      assert AllDigits(t);
      PrefixValueBound(t, k);
      assert DigitsValue(s) == DigitsValue(t) * 10 + DigitValue(s[|s| - 1]);
    } else if AllDigits(s) {
      assert s[..k] == s;
    }
  }

  /**
   * `Integer.parseInt(s)`: the value of `s` if it is an optional sign followed by
   * decimal digits and lies in the `int` range; `None` where Java throws
   * `NumberFormatException`.
   */
  function ParseInt(s: string): (r: Option<int>)
    ensures r.Some? <==> WellFormed(s) && IsInt32(SignedValue(s))
    ensures r.Some? ==> r.value == SignedValue(s)
  {
    if |s| == 0 then None
    else if s[0] == '-' || s[0] == '+' then
      if |s| == 1 then None
      else
        var negative := s[0] == '-';
        var limit := if negative then -MIN_INT else MAX_INT;
        match Accumulate(s[1..], 0, 0, limit)
        case None => None
        case Some(m) => Some(if negative then -(m as int) else m as int)
    else
      match Accumulate(s, 0, 0, MAX_INT)
      case None => None
      case Some(m) => Some(m)
  }

  /** Rendering an `int` and parsing it back gives the same `int`. */
  lemma ParseRendered(n: int)
    requires IsInt32(n)
    ensures WellFormed(IntToString(n))
    ensures ParseInt(IntToString(n)) == Some(n)
  {
    var digits := NatToDigits(if n < 0 then -n else n);
    if n < 0 {
      assert IntToString(n)[1..] == digits;
    }
  }

  /** Distinct `int`s render to distinct strings. */
  lemma RenderInjective(m: int, n: int)
    requires IsInt32(m) && IsInt32(n)
    ensures IntToString(m) == IntToString(n) ==> m == n
  {
    ParseRendered(m);
    ParseRendered(n);
  }
}
