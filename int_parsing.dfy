/**
 * A model of `Integer.parseInt(String)` with radix 10, the library call that
 * `checkValidSeatNumber` relies on: an optional leading '+' or '-', then one
 * or more decimal digits, and a value that fits a Java `int`. Anything else
 * raises `NumberFormatException`, which is modelled as `None`.
 */
module IntParsing {
  import opened Wrappers

  const MinInt: int := -0x8000_0000
  const MaxInt: int := 0x7fff_ffff

  predicate IsDigit(c: char) { '0' <= c <= '9' }

  predicate AllDigits(s: string) { forall i :: 0 <= i < |s| ==> IsDigit(s[i]) }

  function DigitValue(c: char): (d: nat)
    requires IsDigit(c)
    ensures d < 10
  {
    c as int - '0' as int
  }

  function DigitChar(d: nat): (c: char)
    requires d < 10
    ensures IsDigit(c) && DigitValue(c) == d
  {
    ('0' as int + d) as char
  }

  /** The value of a digit string read most significant digit first. */
  function DigitsValue(s: string): nat
    requires AllDigits(s)
  {
    if s == [] then 0 else 10 * DigitsValue(s[..|s| - 1]) + DigitValue(s[|s| - 1])
  }

  /** `Integer.parseInt(s)`; `None` stands for `NumberFormatException`. */
  function ParseInt(s: string): (r: Option<int>)
    ensures r.Some? ==> MinInt <= r.value <= MaxInt
    ensures r.Some? ==> |s| > 0 && IsDigit(s[|s| - 1])
    ensures r.Some? ==> AllDigits(if s[0] == '-' || s[0] == '+' then s[1..] else s)
    ensures r.Some? && s[0] == '-' ==> r.value == -(DigitsValue(s[1..]) as int)
    ensures r.Some? && s[0] == '+' ==> r.value == DigitsValue(s[1..])
    ensures r.Some? && AllDigits(s) ==> r.value == DigitsValue(s)
  {
    if |s| == 0 then None
    else
      var signed := s[0] == '-' || s[0] == '+';
      var digits := if signed then s[1..] else s;
      if digits == [] || !AllDigits(digits) then None
      else
        var v: int := if s[0] == '-' then -(DigitsValue(digits) as int) else DigitsValue(digits);
        if MinInt <= v <= MaxInt then Some(v) else None
  }

  /** Decimal rendering of a natural number, without sign or leading zeros. */
  function ShowNat(n: nat): (s: string)
    ensures |s| > 0 && AllDigits(s) && s[0] != '-' && s[0] != '+'
    decreases n
  {
    if n < 10 then [DigitChar(n)] else ShowNat(n / 10) + [DigitChar(n % 10)]
  }

  /** Decimal rendering of an integer, as `Integer.toString` writes it. */
  function ShowInt(n: int): string
  {
    if n < 0 then "-" + ShowNat(-n) else ShowNat(n)
  }

  /** Reading back a rendered natural number gives the number. */
  lemma {:induction false} DigitsValueShowNat(n: nat)
    ensures DigitsValue(ShowNat(n)) == n
    decreases n
  {
    if n >= 10 {
      var s := ShowNat(n);
      assert s[..|s| - 1] == ShowNat(n / 10);
      DigitsValueShowNat(n / 10);
    }
  }

  /** `parseInt` accepts every rendered `int` and returns it. */
  lemma ParseShowInt(n: int)
    requires MinInt <= n <= MaxInt
    ensures ParseInt(ShowInt(n)) == Some(n)
  {
    if n < 0 {
      assert ShowInt(n)[1..] == ShowNat(-n);
      DigitsValueShowNat(-n);
    } else {
      DigitsValueShowNat(n);
    }
  }

  /** A string holding a character that is neither a digit nor a leading sign never parses. */
  lemma ParseRejectsNonDigit(s: string, i: nat)
    requires i < |s| && !IsDigit(s[i]) && (i == 0 ==> s[0] != '-' && s[0] != '+')
    ensures ParseInt(s) == None
  {
  }

  /**
   * A digit string, with or without a leading '+', parses to its decimal value
   * when that value fits an `int`, and does not parse otherwise.
   */
  lemma ParseUnsigned(sign: string, d: string)
    requires sign == "" || sign == "+"
    requires |d| > 0 && AllDigits(d)
    ensures ParseInt(sign + d) == if DigitsValue(d) <= MaxInt then Some(DigitsValue(d)) else None
  {
    var s := sign + d;
    if sign == "+" {
      assert s[1..] == d;
    } else {
      assert s == d;
    }
  }
}
