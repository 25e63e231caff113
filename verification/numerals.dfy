/** Python's `str()` of a non-negative int, as the f-string of the sync log uses it. */
module Numerals {

  predicate IsDigit(c: char) { '0' <= c <= '9' }

  predicate AllDigits(s: string)
  {
    forall i :: 0 <= i < |s| ==> IsDigit(s[i])
  }

  function DigitChar(d: nat): (c: char)
    requires d < 10
    ensures IsDigit(c)
  {
    ('0' as int + d) as char
  }

  function DigitValue(c: char): (d: nat)
    requires IsDigit(c)
    ensures d < 10
  {
    c as int - '0' as int
  }

  /** Decimal digits of `n`, most significant first, without leading zeros. */
  function Decimal(n: nat): (r: string)
    ensures |r| > 0 && AllDigits(r)
    ensures r[0] == '0' ==> r == "0"
  {
    if n < 10 then [DigitChar(n)] else Decimal(n / 10) + [DigitChar(n % 10)]
  }

  /** The number a string of decimal digits denotes. */
  function DecimalValue(s: string): nat
    requires AllDigits(s)
  {
    if |s| == 0 then 0 else 10 * DecimalValue(s[..|s| - 1]) + DigitValue(s[|s| - 1])
  }

  /** Reading the rendered digits back gives the number. */
  lemma {:induction false} DecimalRoundTrip(n: nat)
    ensures DecimalValue(Decimal(n)) == n
  {
    if n >= 10 {
      var r := Decimal(n);
      assert r[..|r| - 1] == Decimal(n / 10);
      DecimalRoundTrip(n / 10);
    }
  }

  /** Distinct counts print differently. */
  lemma DecimalInjective(m: nat, n: nat)
    requires Decimal(m) == Decimal(n)
    ensures m == n
  {
    DecimalRoundTrip(m);
    DecimalRoundTrip(n);
  }

  /** A run of digits followed by text starting with a non-digit splits off
      in exactly one way. */
  lemma DigitsThenNonDigit(d: string, t: string, d': string, t': string)
    requires AllDigits(d) && AllDigits(d')
    requires |t| > 0 && !IsDigit(t[0]) && |t'| > 0 && !IsDigit(t'[0])
    requires d + t == d' + t'
    ensures d == d' && t == t'
  {
    assert forall i :: 0 <= i < |d| ==> (d + t)[i] == d[i];
    assert forall i :: 0 <= i < |d'| ==> (d' + t')[i] == d'[i];
    assert (d + t)[|d|] == t[0];
    assert (d' + t')[|d'|] == t'[0];
    assert |d| == |d'|;
    assert d == (d + t)[..|d|];
    assert d' == (d' + t')[..|d'|];
    assert t == (d + t)[|d|..];
    assert t' == (d' + t')[|d'|..];
  }
}
