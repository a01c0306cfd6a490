/**
 Decimal numerals of natural numbers, as `strconv`, `fmt` and `big.Int.String` write them:
 no sign, no leading zero except for zero itself.
 */
module Numerals {

  predicate IsDigit(c: char) {
    '0' <= c <= '9'
  }

  predicate AllDigits(s: string) {
    forall i | 0 <= i < |s| :: IsDigit(s[i])
  }

  function DigitChar(d: nat): (c: char)
    requires d < 10
    ensures IsDigit(c) && DigitValue(c) == d
  {
    ('0' as int + d) as char
  }

  function DigitValue(c: char): (d: nat)
    requires IsDigit(c)
    ensures d < 10
  {
    c as int - '0' as int
  }

  function Render(n: nat): string {
    if n < 10 then [DigitChar(n)] else Render(n / 10) + [DigitChar(n % 10)]
  }

  /** The number a digit string denotes; leading zeros are allowed. */
  function Read(s: string): nat
    requires AllDigits(s)
  {
    if s == [] then 0
    else Read(s[..|s| - 1]) * 10 + DigitValue(s[|s| - 1])
  }

  /** A numeral in the form `Render` produces. */
  predicate IsCanonical(s: string) {
    AllDigits(s) && |s| > 0 && (|s| > 1 ==> s[0] != '0')
  }

  lemma {:induction false} ReadRender(n: nat)
    ensures IsCanonical(Render(n)) && Read(Render(n)) == n
    ensures n > 0 ==> Render(n)[0] != '0'
  {
    if n < 10 {
      assert Render(n)[..0] == [];
    } else {
      ReadRender(n / 10);
      assert Render(n)[..|Render(n)| - 1] == Render(n / 10);
    }
  }

  lemma {:induction false} RenderRead(s: string)
    requires IsCanonical(s)
    ensures Render(Read(s)) == s
  {
    var front := s[..|s| - 1];
    if |s| == 1 {
      assert front == [];
      assert s == [DigitChar(DigitValue(s[0]))];
    } else {
      RenderRead(front);
      ReadPositive(front);
      assert s == front + [DigitChar(DigitValue(s[|s| - 1]))];
    }
  }

  lemma {:induction false} ReadPositive(s: string)
    requires AllDigits(s) && |s| > 0 && s[0] != '0'
    ensures Read(s) > 0
  {
    if |s| > 1 {
      ReadPositive(s[..|s| - 1]);
    } else {
      assert s[..0] == [];
    }
  }

  lemma RenderInjective(m: nat, n: nat)
    requires Render(m) == Render(n)
    ensures m == n
  {
    ReadRender(m);
    ReadRender(n);
  }
}
