/** Decimal numerals as `str(n)` prints them and `int(text)` reads them back. */
module Decimal {

  predicate IsDigit(c: char) { '0' <= c <= '9' }

  predicate AllDigits(s: string) { forall i :: 0 <= i < |s| ==> IsDigit(s[i]) }

  function DigitChar(d: nat): (c: char)
    requires d < 10
    ensures IsDigit(c) && DigitValue(c) == d
  {
    '0' + d as char
  }

  function DigitValue(c: char): (d: nat)
    requires IsDigit(c)
    ensures d < 10
  {
    (c as int) - ('0' as int)
  }

  /** `str(n)` for a natural number. */
  function Show(n: nat): (s: string)
    ensures s != "" && AllDigits(s)
  {
    if n < 10 then [DigitChar(n)] else Show(n / 10) + [DigitChar(n % 10)]
  }

  /** The value of a non-empty run of digits. */
  function Read(s: string): nat
    requires AllDigits(s)
  {
    if s == "" then 0 else 10 * Read(s[..|s| - 1]) + DigitValue(s[|s| - 1])
  }

  lemma {:induction false} ReadShow(n: nat)
    ensures Read(Show(n)) == n
  {
    var s := Show(n);
    if n < 10 {
      assert s[..0] == "";
    } else {
      ReadShow(n / 10);
      assert s[..|s| - 1] == Show(n / 10);
    }
  }

  /** The last digit is the units: nothing else distinguishes the numbers with one beginning. */
  lemma Units(n: nat)
    requires n >= 10
    ensures Show(n) == Show(n / 10) + [('0' as int + n % 10) as char]
  {
  }

  /** A number below ten is one digit. */
  lemma OneDigit(n: nat)
    requires n < 10
    ensures Show(n) == [('0' as int + n) as char]
  {
  }

  lemma ShowInjective(m: nat, n: nat)
    requires Show(m) == Show(n)
    ensures m == n
  {
    ReadShow(m);
    ReadShow(n);
  }

  /** `str(n)` for an integer. */
  function ShowInt(n: int): string { if n < 0 then "-" + Show(-n) else Show(n) }
}
