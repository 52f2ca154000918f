/**
 * Numbers as the collectors use them: the float64 values that a division
 * can produce, and `strconv.ParseInt(s, 10, 64)` used as a test for
 * "this directory name is a process id".
 */
module Numbers {
  import opened Wrappers

  const MinInt64: int := -0x8000_0000_0000_0000
  const MaxInt64: int := 0x7FFF_FFFF_FFFF_FFFF

  /**
   * A float64 as far as the collectors need one: a finite value, or one of
   * the two non-finite results of dividing a non-negative count by zero.
   */
  datatype Float = Finite(v: real) | PosInf | NaN

  /** IEEE 754 `x >= t` for a finite `t`: +Inf is above every threshold, NaN compares false. */
  predicate AtLeast(x: Float, t: real) {
    match x
    case Finite(v) => v >= t
    case PosInf => true
    case NaN => false
  }

  predicate IsDigit(c: char) {
    '0' <= c <= '9'
  }

  predicate AllDigits(s: string) {
    forall i :: 0 <= i < |s| ==> IsDigit(s[i])
  }

  /** The value of a string of decimal digits. */
  function DigitsValue(s: string): nat
    requires AllDigits(s)
  {
    if s == [] then 0
    else DigitsValue(s[..|s| - 1]) * 10 + (s[|s| - 1] as int - '0' as int)
  }

  /** A sign (`+` or `-`, at most one) followed by one or more decimal digits. */
  predicate DecimalShape(s: string) {
    && |s| > 0
    && (IsDigit(s[0]) || ((s[0] == '+' || s[0] == '-') && |s| > 1))
    && AllDigits(s[1..])
  }

  /** The signed value a decimal string denotes, leading zeros and all. */
  function DecimalValue(s: string): int
    requires DecimalShape(s)
  {
    var magnitude: int := if IsDigit(s[0]) then DigitsValue(s) else DigitsValue(s[1..]);
    if s[0] == '-' then -magnitude else magnitude
  }

  /**
   * `strconv.ParseInt(s, 10, 64)`: an optional `+` or `-`, then one or more
   * decimal digits (base 10 admits no prefix and no underscores), and the
   * value must fit in 64 bits; anything else is an error.
   */
  function ParseInt64(s: string): (r: Option<int>)
    ensures r.Some? <==> DecimalShape(s) && MinInt64 <= DecimalValue(s) <= MaxInt64
    ensures r.Some? ==> r.value == DecimalValue(s)
  {
    if s == [] then None
    else
      var digits := if s[0] == '+' || s[0] == '-' then s[1..] else s;
      if digits == [] || !AllDigits(digits) then None
      else
        var magnitude: int := DigitsValue(digits);
        var v := if s[0] == '-' then -magnitude else magnitude;
        if MinInt64 <= v <= MaxInt64 then Some(v) else None
  }

  /** A leading zero does not change a string of digits' value. */
  lemma {:induction false} LeadingZero(d: string)
    requires AllDigits(d)
    ensures AllDigits("0" + d) && DigitsValue("0" + d) == DigitsValue(d)
  {
    var z := "0" + d;
    if d != [] {
      assert z[..|z| - 1] == "0" + d[..|d| - 1];
      LeadingZero(d[..|d| - 1]);
    }
  }

  /** `ParseInt` reads "007" as 7 and "-007" as -7: leading zeros are accepted and ignored. */
  lemma ParseLeadingZero(d: string)
    requires d != [] && AllDigits(d)
    ensures ParseInt64("0" + d) == ParseInt64(d)
    ensures ParseInt64("-0" + d) == ParseInt64("-" + d)
  {
    LeadingZero(d);
    assert ("-0" + d)[1..] == "0" + d;
    assert ("-" + d)[1..] == d;
  }

  /** A leading `+` is accepted and changes nothing. */
  lemma ParseLeadingPlus(d: string)
    requires d != [] && AllDigits(d)
    ensures ParseInt64("+" + d) == ParseInt64(d)
  {
    assert ("+" + d)[1..] == d;
  }

  /** The decimal digits of `n`, most significant first, without leading zeros. */
  function FormatNat(n: nat): (r: string)
    ensures r != [] && AllDigits(r)
  {
    if n < 10 then ['0' + n as char]
    else FormatNat(n / 10) + ['0' + (n % 10) as char]
  }

  /** `strconv.FormatInt(n, 10)`: the way a process id names its directory. */
  function FormatInt(n: int): string {
    if n < 0 then "-" + FormatNat(-n) else FormatNat(n)
  }

  lemma {:induction false} DigitsOfFormatNat(n: nat)
    ensures DigitsValue(FormatNat(n)) == n
  {
    var s := FormatNat(n);
    if n >= 10 {
      assert s[..|s| - 1] == FormatNat(n / 10);
      DigitsOfFormatNat(n / 10);
    }
  }

  /** Every 64-bit integer written in decimal parses back to itself. */
  lemma ParseFormatInt(n: int)
    requires MinInt64 <= n <= MaxInt64
    ensures ParseInt64(FormatInt(n)) == Some(n)
  {
    DigitsOfFormatNat(if n < 0 then -n else n);
    if n < 0 {
      assert FormatInt(n)[1..] == FormatNat(-n);
    }
  }
}
