/**
 * Integer parsing of POS values and AD counts (std::stoi), restricted to
 * plain decimal digit strings, and its inverse, decimal printing.
 */
module Numbers {
  import opened Results

  /** INT_MAX of the 32-bit `int` that stoi returns; larger values throw out_of_range. */
  const IntMax: int := 2147483647

  predicate IsDigit(c: char)
  {
    '0' <= c <= '9'
  }

  predicate AllDigits(s: string)
  {
    forall i :: 0 <= i < |s| ==> IsDigit(s[i])
  }

  /** The value of a string of decimal digits, most significant first. */
  function DigitsValue(s: string): nat
    requires AllDigits(s)
  {
    if |s| == 0 then 0
    else DigitsValue(s[..|s| - 1]) * 10 + (s[|s| - 1] as int - '0' as int)
  }

  /** std::stoi on a plain digit string; any other text, or a value above INT_MAX, fails. */
  function ParseInt(s: string): Option<int>
  {
    if |s| > 0 && AllDigits(s) && DigitsValue(s) <= IntMax then Some(DigitsValue(s)) else None
  }

  /** maybe_dot_to_integer: a lone "." reads as 0, anything else goes through stoi. */
  function MaybeDotToInteger(s: string): (r: Option<int>)
    ensures r.Some? ==> 0 <= r.value <= IntMax
  {
    if s == "." then Some(0) else ParseInt(s)
  }

  function DigitChar(d: nat): (c: char)
    requires d < 10
    ensures IsDigit(c) && c as int - '0' as int == d
  {
    (('0' as int) + d) as char
  }

  /** std::to_string on a non-negative integer. */
  function Decimal(n: nat): (s: string)
    ensures |s| > 0 && AllDigits(s)
  {
    if n < 10 then [DigitChar(n)] else Decimal(n / 10) + [DigitChar(n % 10)]
  }

  /** Reading back a printed number gives the number. */
  lemma {:induction false} DecimalValue(n: nat)
    ensures DigitsValue(Decimal(n)) == n
  {
    if n >= 10 {
      DecimalValue(n / 10);
      var s := Decimal(n);
      assert s[..|s| - 1] == Decimal(n / 10);
    }
  }

  /** stoi inverts to_string on every value an `int` can hold. */
  lemma ParseDecimal(n: nat)
    requires n <= IntMax
    ensures ParseInt(Decimal(n)) == Some(n)
  {
    DecimalValue(n);
  }

  /** Text holding a character other than a digit (a sign, an exponent, a letter) is rejected. */
  lemma ParseIntRejectsNonDigit(s: string, i: nat)
    requires i < |s| && !IsDigit(s[i])
    ensures ParseInt(s) == None
  {
  }

  /** Only a lone "." or a non-empty digit string is accepted as a count. */
  lemma MaybeDotAccepts(s: string)
    ensures MaybeDotToInteger(s).Some? ==> s == "." || (|s| > 0 && AllDigits(s))
  {
  }

  /** A missing count written as "." reads as zero depth. */
  lemma MaybeDotMissing()
    ensures MaybeDotToInteger(".") == Some(0)
  {
  }

  /** Every count to_string can print within INT_MAX reads back as itself. */
  lemma MaybeDotDecimal(n: nat)
    requires n <= IntMax
    ensures MaybeDotToInteger(Decimal(n)) == Some(n)
  {
    ParseDecimal(n);
    assert Decimal(n) != "." by {
      assert IsDigit(Decimal(n)[0]);
    }
  }

  /** An empty count is rejected. */
  lemma MaybeDotEmpty()
    ensures MaybeDotToInteger("") == None
  {
  }

  /** Text other than a lone "." holding a non-digit (a sign, a point, a letter) is rejected. */
  lemma MaybeDotRejectsNonDigit(s: string, i: nat)
    requires s != "." && i < |s| && !IsDigit(s[i])
    ensures MaybeDotToInteger(s) == None
  {
    ParseIntRejectsNonDigit(s, i);
  }
}
