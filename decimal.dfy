/**
 * The year column labels: `str(y)` turns a year into the text of a CSV
 * header, and `pd.to_numeric` turns that text back into a number.
 */
module Decimal {
  import opened Wrappers

  function DigitChar(d: nat): (c: char)
    requires d < 10
    ensures '0' <= c <= '9' && c as int - '0' as int == d
  {
    ('0' as int + d) as char
  }

  function DigitValue(c: char): (d: Option<nat>)
    ensures d.Some? <==> '0' <= c <= '9'
    ensures d.Some? ==> d.value < 10 && DigitChar(d.value) == c
  {
    if '0' <= c <= '9' then Some(c as int - '0' as int) else None
  }

  predicate IsDigits(s: string)
  {
    forall i :: 0 <= i < |s| ==> '0' <= s[i] <= '9'
  }

  /** Python's `str(n)` for a non-negative integer: its decimal digits, no leading zero. */
  function NatToString(n: nat): (s: string)
    ensures |s| >= 1 && IsDigits(s)
    ensures s[0] == '0' <==> n == 0
    ensures n == 0 ==> s == "0"
  {
    if n < 10 then [DigitChar(n)] else NatToString(n / 10) + [DigitChar(n % 10)]
  }

  /** The value of a nonempty digit string, or None when a character is not a digit. */
  function DigitsValue(s: string): (v: Option<nat>)
    requires s != []
    ensures v.Some? <==> IsDigits(s)
  {
    var last := DigitValue(s[|s| - 1]);
    if last.None? then None
    else if |s| == 1 then last
    else match DigitsValue(s[..|s| - 1])
      case None => None
      case Some(high) => Some(high * 10 + last.value)
  }

  /**
   * `pd.to_numeric` on a column label: the number a digit string denotes,
   * None (pandas raises `ValueError`) for anything else.
   */
  function ToNumeric(s: string): (v: Option<nat>)
    ensures v.Some? <==> s != [] && IsDigits(s)
  {
    if s == [] then None else DigitsValue(s)
  }

  /** Reading back the text of a number gives the number. */
  lemma {:induction false} ToNumericOfNatToString(n: nat)
    ensures ToNumeric(NatToString(n)) == Some(n)
  {
    var s := NatToString(n);
    if n >= 10 {
      ToNumericOfNatToString(n / 10);
      assert s[..|s| - 1] == NatToString(n / 10);
    }
  }

  /** Two different numbers never have the same text. */
  lemma NatToStringInjective(m: nat, n: nat)
    requires NatToString(m) == NatToString(n)
    ensures m == n
  {
    ToNumericOfNatToString(m);
    ToNumericOfNatToString(n);
  }

  /** A digit string without a leading zero is the text of the number it denotes. */
  lemma {:induction false} NatToStringOfToNumeric(s: string)
    requires ToNumeric(s).Some?
    requires s[0] != '0' || |s| == 1
    ensures NatToString(ToNumeric(s).value) == s
  {
    var v := ToNumeric(s).value;
    var last := DigitValue(s[|s| - 1]).value;
    if |s| > 1 {
      var high := s[..|s| - 1];
      assert high[0] == s[0];
      NatToStringOfToNumeric(high);
      var h := ToNumeric(high).value;
      assert v == h * 10 + last;
      assert h != 0;
      assert v / 10 == h && v % 10 == last;
      assert s == high + [s[|s| - 1]];
    }
  }
}
