/** Decimal spelling of natural numbers, as used when a counter is appended to
    a file name. */
module Decimal {

  predicate IsDigit(c: char) {
    '0' <= c <= '9'
  }

  function DigitChar(d: nat): (c: char)
    requires d < 10
    ensures IsDigit(c)
  {
    "0123456789"[d]
  }

  function DigitValue(c: char): nat
    requires IsDigit(c)
  {
    (c as int - '0' as int) as nat
  }

  /** The shortest decimal spelling of `n`, most significant digit first. */
  function Show(n: nat): (s: string)
    ensures |s| >= 1
    decreases n
  {
    if n < 10 then [DigitChar(n)] else Show(n / 10) + [DigitChar(n % 10)]
  }

  /** Reads a string of digits back as a number. */
  function Parse(s: string): nat
    requires forall i | 0 <= i < |s| :: IsDigit(s[i])
    decreases |s|
  {
    if s == [] then 0 else 10 * Parse(s[..|s| - 1]) + DigitValue(s[|s| - 1])
  }

  lemma {:induction false} ShowDigits(n: nat)
    ensures forall i | 0 <= i < |Show(n)| :: IsDigit(Show(n)[i])
    decreases n
  {
    if n >= 10 {
      ShowDigits(n / 10);
    }
  }

  lemma DigitRoundTrip(d: nat)
    requires d < 10
    ensures DigitValue(DigitChar(d)) == d
  {
    assert "0123456789"[d] as int == '0' as int + d;
  }

  /** Reading a spelling back gives the number spelled. */
  lemma {:induction false} ParseShow(n: nat)
    ensures forall i | 0 <= i < |Show(n)| :: IsDigit(Show(n)[i])
    ensures Parse(Show(n)) == n
    decreases n
  {
    ShowDigits(n);
    var s := Show(n);
    if n < 10 {
      DigitRoundTrip(n);
      assert s[..0] == [];
    } else {
      ParseShow(n / 10);
      DigitRoundTrip(n % 10);
      assert s[..|s| - 1] == Show(n / 10);
    }
  }

  /** Different numbers are spelled differently. */
  lemma ShowInjective(m: nat, n: nat)
    ensures Show(m) == Show(n) ==> m == n
  {
    ParseShow(m);
    ParseShow(n);
  }
}
