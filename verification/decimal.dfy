/** Decimal text of natural numbers.

    Rust's `str::parse::<u32>`, JavaScript's `parseInt(_, 10)` and `Number`
    are all read here as "a non-empty run of decimal digits denotes its
    value"; `format!("{}")` and `Array.join` write a number as its decimal
    digits without leading zeros.
 */
module Decimal {
  import opened Results

  predicate IsDigit(c: char) {
    '0' <= c <= '9'
  }

  predicate AllDigits(s: string) {
    forall i :: 0 <= i < |s| ==> IsDigit(s[i])
  }

  function DigitChar(d: nat): (c: char)
    requires d < 10
    ensures IsDigit(c) && c as int - '0' as int == d
  {
    ('0' as int + d) as char
  }

  /** The value of a digit string, most significant digit first. */
  function ValueOf(s: string): nat
    requires AllDigits(s)
  {
    if |s| == 0 then 0
    else 10 * ValueOf(s[..|s| - 1]) + (s[|s| - 1] as int - '0' as int)
  }

  /** Reads a non-empty decimal digit string; anything else is unreadable. */
  function ParseNat(s: string): (r: Option<nat>)
    ensures r.Some? <==> |s| > 0 && AllDigits(s)
  {
    if |s| > 0 && AllDigits(s) then Some(ValueOf(s)) else None
  }

  /** Writes `n` in decimal: only digits, never a leading zero. */
  function ToDecimal(n: nat): (s: string)
    ensures |s| > 0 && AllDigits(s)
    ensures s[0] == '0' <==> n == 0
  {
    if n < 10 then [DigitChar(n)] else ToDecimal(n / 10) + [DigitChar(n % 10)]
  }

  /** Reading back what `ToDecimal` wrote gives the number again. */
  lemma {:induction false} ValueOfToDecimal(n: nat)
    ensures ValueOf(ToDecimal(n)) == n
  {
    if n >= 10 {
      var s := ToDecimal(n);
      assert s[..|s| - 1] == ToDecimal(n / 10);
      ValueOfToDecimal(n / 10);
    }
  }

  lemma ParseToDecimal(n: nat)
    ensures ParseNat(ToDecimal(n)) == Some(n)
  {
    ValueOfToDecimal(n);
  }

  /** Decimal text never contains a dot, so it is safe inside a dotted quad. */
  lemma ToDecimalHasNoDot(n: nat)
    ensures '.' !in ToDecimal(n)
  {
  }

  /** Distinct numbers have distinct decimal text. */
  lemma ToDecimalInjective(m: nat, n: nat)
    requires ToDecimal(m) == ToDecimal(n)
    ensures m == n
  {
    ValueOfToDecimal(m);
    ValueOfToDecimal(n);
  }
}
