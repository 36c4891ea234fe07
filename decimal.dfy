/**
 * Decimal rendering of integers, as `sprintf(buf, "%d", n)` and `printf("%d")`
 * produce it. Used for the shell's PID in `$$` expansion and for every
 * numeric message (background PIDs, exit values, signal numbers).
 */
module Decimal {

  predicate IsDigit(c: char) {
    '0' <= c <= '9'
  }

  predicate AllDigits(s: seq<char>) {
    forall i :: 0 <= i < |s| ==> IsDigit(s[i])
  }

  function DigitChar(d: nat): (c: char)
    requires d < 10
    ensures IsDigit(c) && c as int - '0' as int == d
  {
    (d + '0' as int) as char
  }

  function DigitValue(c: char): (d: nat)
    requires IsDigit(c)
    ensures d < 10
  {
    c as int - '0' as int
  }

  /** The digits of `n`, most significant first, without leading zeros. */
  function DecimalString(n: nat): (s: seq<char>)
    ensures |s| >= 1 && AllDigits(s)
    ensures s[0] == '0' <==> n == 0
    ensures n == 0 ==> s == "0"
    decreases n
  {
    if n < 10 then [DigitChar(n)] else DecimalString(n / 10) + [DigitChar(n % 10)]
  }

  /** `%d`: a minus sign for negative values, then the digits of the magnitude. */
  function FormatInt(n: int): (s: seq<char>)
    ensures |s| >= 1
    ensures s[0] == '-' <==> n < 0
    ensures n >= 0 ==> AllDigits(s)
  {
    if n < 0 then "-" + DecimalString(-n) else DecimalString(n)
  }

  /** The value a string of decimal digits denotes. */
  function ParseDecimal(s: seq<char>): nat
    requires AllDigits(s)
  {
    if s == [] then 0 else 10 * ParseDecimal(s[..|s| - 1]) + DigitValue(s[|s| - 1])
  }

  /** Reading back the rendered digits gives the number. */
  lemma {:induction false} ParseDecimalString(n: nat)
    ensures ParseDecimal(DecimalString(n)) == n
    decreases n
  {
    if n >= 10 {
      var s := DecimalString(n);
      assert s[..|s| - 1] == DecimalString(n / 10);
      ParseDecimalString(n / 10);
    }
  }

  /** Different numbers are rendered differently. */
  lemma DecimalStringInjective(m: nat, n: nat)
    ensures DecimalString(m) == DecimalString(n) ==> m == n
  {
    ParseDecimalString(m);
    ParseDecimalString(n);
  }

  /** The same for signed values. */
  lemma FormatIntInjective(m: int, n: int)
    ensures FormatInt(m) == FormatInt(n) ==> m == n
  {
    if FormatInt(m) == FormatInt(n) {
      if m < 0 {
        assert FormatInt(m)[1..] == DecimalString(-m);
        assert FormatInt(n)[1..] == DecimalString(-n);
        DecimalStringInjective(-m, -n);
      } else {
        DecimalStringInjective(m, n);
      }
    }
  }
}
