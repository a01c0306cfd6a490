/** Decimal numbers as text, and as objects whose precision is adjusted in place. */
module DecimalText {
  import opened Options
  import opened Rounding
  import opened Decimal
  import opened DecimalFloat
  import opened Numerals
  import opened Texts

  function Sign(x: int): string {
    if x < 0 then "-" else ""
  }

  /** An integer as the big-number library writes it. */
  function IntText(x: int): string {
    Sign(x) + Render(Abs(x))
  }

  function Zeros(n: nat): string {
    if n == 0 then "" else "0" + Zeros(n - 1)
  }

  function TrimZeros(s: string): string {
    if s != "" && s[|s| - 1] == '0' then TrimZeros(s[..|s| - 1]) else s
  }

  /** The digits of a number that is not zero, placed around the point, without trailing zeros in the fraction. */
  function PlacedText(n: string, p: nat): string {
    if p == 0 then n
    else if |n| <= p then "0." + Zeros(p - |n|) + TrimZeros(n)
    else
      var frac := TrimZeros(n[|n| - p..]);
      n[..|n| - p] + (if frac == "" then "" else "." + frac)
  }

  /** The number in positional notation. */
  function DecText(a: Dec): string {
    if a.x == 0 then "0" else Sign(a.x) + PlacedText(Render(Abs(a.x)), a.p)
  }

  /** The number that a numeral in positional notation denotes, at the precision it is written with. */
  function ReadBack(t: string): Option<Dec> {
    if t != "" && t[0] == '-' then ReadBody(true, t[1..]) else ReadBody(false, t)
  }

  function ReadBody(negative: bool, body: string): Option<Dec> {
    var parts := Split(body, '.');
    var frac := if |parts| > 1 then parts[1] else "";
    var digits := parts[0] + frac;
    if |parts| > 2 || parts[0] == "" || !AllDigits(digits) then None
    else Some(Dec(if negative then 0 - Read(digits) else Read(digits), |frac|))
  }

  // ---------- Reading back what was written ----------

  lemma RenderTen(n: nat)
    requires n > 0 && n % 10 == 0
    ensures Render(n) == Render(n / 10) + "0"
  {
    assert DigitChar(0) == '0';
  }

  lemma RenderLast(n: nat)
    ensures |Render(n)| > 0 && Render(n)[|Render(n)| - 1] == DigitChar(n % 10)
    ensures Render(n)[|Render(n)| - 1] == '0' <==> n % 10 == 0
  {
    assert DigitValue('0') == 0;
  }

  lemma TrimZerosAppend(s: string)
    ensures TrimZeros(s + "0") == TrimZeros(s)
  {
    assert (s + "0")[..|s|] == s;
  }

  /** Placing a trailing zero behind the point changes nothing. */
  lemma PlacedZero(m: string, p: nat)
    requires m != ""
    ensures PlacedText(m + "0", p + 1) == PlacedText(m, p)
  {
    hide Zeros;
    var n := m + "0";
    if |m| <= p {
      TrimZerosAppend(m);
    } else {
      assert n[..|n| - (p + 1)] == m[..|m| - p];
      assert n[|n| - (p + 1)..] == m[|m| - p..] + "0";
      TrimZerosAppend(m[|m| - p..]);
      if p == 0 {
        assert m[|m|..] == "" && m[..|m|] == m && TrimZeros("") == "";
      }
    }
  }

  /** Dropping a trailing zero of the fraction does not change the text. */
  lemma DropZeroText(a: Dec)
    requires a.x != 0 && a.p > 0 && a.x % 10 == 0
    ensures DecText(a) == DecText(Dec(a.x / 10, a.p - 1))
  {
    hide Render, PlacedText;
    var b := Dec(a.x / 10, a.p - 1);
    assert Abs(b.x) == Abs(a.x) / 10 && Sign(a.x) == Sign(b.x) && b.x != 0;
    RenderTen(Abs(a.x));
    RenderLast(Abs(b.x));
    PlacedZero(Render(Abs(b.x)), b.p);
  }

  lemma {:induction false} NormalText(a: Dec)
    ensures DecText(Normal(a)) == DecText(a)
    decreases a.p
  {
    if a.x != 0 && a.p > 0 && a.x % 10 == 0 {
      DropZeroText(a);
      NormalText(Dec(a.x / 10, a.p - 1));
    }
  }

  lemma {:induction false} ReadLeadingZeros(k: nat, s: string)
    requires AllDigits(s)
    ensures AllDigits(Zeros(k) + s) && |Zeros(k)| == k && Read(Zeros(k) + s) == Read(s)
    decreases |s| + k
  {
    hide Read;
    if k > 0 {
      ReadLeadingZeros(k - 1, s);
      ReadZeroFirst(Zeros(k - 1) + s);
      assert "0" + (Zeros(k - 1) + s) == Zeros(k) + s;
    } else {
      assert Zeros(0) + s == s;
    }
  }

  lemma {:induction false} ReadZeroFirst(s: string)
    requires AllDigits(s)
    ensures AllDigits("0" + s) && Read("0" + s) == Read(s)
    decreases |s|
  {
    var t := "0" + s;
    if s == "" {
      assert t[..0] == "";
    } else {
      ReadZeroFirst(s[..|s| - 1]);
      assert t[..|t| - 1] == "0" + s[..|s| - 1];
    }
  }

  lemma DigitsHaveNoPoint(s: string)
    requires AllDigits(s)
    ensures '.' !in s && '-' !in s
  {
  }

  lemma ReadSigned(x: int, body: string)
    requires body != "" && IsDigit(body[0])
    ensures ReadBack(Sign(x) + body) == ReadBody(x < 0, body)
  {
    hide ReadBody;
    var t := Sign(x) + body;
    assert x < 0 ==> t[1..] == body;
    assert x >= 0 ==> t == body;
  }

  lemma AllDigitsParts(whole: string, frac: string)
    requires AllDigits(whole + frac)
    ensures AllDigits(whole) && AllDigits(frac)
  {
    assert forall i | 0 <= i < |whole| :: whole[i] == (whole + frac)[i];
    assert forall i | 0 <= i < |frac| :: frac[i] == (whole + frac)[|whole| + i];
  }

  /** Digits, a point and more digits. */
  lemma ReadFraction(negative: bool, whole: string, frac: string)
    requires AllDigits(whole + frac) && whole != ""
    ensures ReadBody(negative, whole + "." + frac)
         == Some(Dec(if negative then 0 - Read(whole + frac) else Read(whole + frac), |frac|))
  {
    hide Read, Split;
    AllDigitsParts(whole, frac);
    DigitsHaveNoPoint(whole);
    DigitsHaveNoPoint(frac);
    SplitFirst(whole, frac, '.');
    SplitPlain(frac, '.');
    assert whole + ['.'] + frac == whole + "." + frac;
  }

  lemma ReadWhole(x: int)
    ensures ReadBack(IntText(x)) == Some(Dec(x, 0))
  {
    hide Render, Read, Split;
    var body := Render(Abs(x));
    ReadRender(Abs(x));
    DigitsHaveNoPoint(body);
    SplitPlain(body, '.');
    ReadSigned(x, body);
    assert body + "" == body;
  }

  lemma TrimNothing(s: string)
    requires s != "" && s[|s| - 1] != '0'
    ensures TrimZeros(s) == s
  {
  }

  /** The parts before and after the point, and their digits together. */
  lemma PlacedParts(n: string, p: nat) returns (whole: string, frac: string)
    requires AllDigits(n) && n != "" && n[|n| - 1] != '0' && p > 0
    ensures PlacedText(n, p) == whole + "." + frac
    ensures whole != "" && |frac| == p && AllDigits(whole + frac) && Read(whole + frac) == Read(n)
    ensures frac[p - 1] != '0' && (n[0] != '0' ==> IsCanonical(whole))
  {
    hide Read, TrimZeros, Zeros;
    if |n| <= p {
      whole, frac := "0", Zeros(p - |n|) + n;
      ReadLeadingZeros(p - |n|, n);
      ReadZeroFirst(frac);
      TrimNothing(n);
      assert "0" + "." + frac == "0." + Zeros(p - |n|) + n;
    } else {
      whole, frac := n[..|n| - p], n[|n| - p..];
      assert whole + frac == n;
      assert frac[|frac| - 1] == n[|n| - 1];
      TrimNothing(frac);
      assert whole + "." + frac == whole + ("." + frac);
    }
  }

  /** A numeral whose last digit is not zero, placed around the point. */
  lemma ReadPlaced(negative: bool, n: string, p: nat)
    requires AllDigits(n) && n != "" && n[|n| - 1] != '0' && p > 0
    ensures ReadBody(negative, PlacedText(n, p)) == Some(Dec(if negative then 0 - Read(n) else Read(n), p))
    ensures PlacedText(n, p) != "" && IsDigit(PlacedText(n, p)[0])
  {
    hide ReadBody, Read, PlacedText;
    var whole, frac := PlacedParts(n, p);
    ReadFraction(negative, whole, frac);
    assert (whole + "." + frac)[0] == (whole + frac)[0];
  }

  lemma ReadNormal(a: Dec)
    requires IsNormal(a)
    ensures ReadBack(DecText(a)) == Some(a)
  {
    hide ReadBack, Render, Read, PlacedText;
    var n := Render(Abs(a.x));
    ReadRender(Abs(a.x));
    if a.x == 0 {
      ReadWhole(0);
      ZeroText();
      assert IntText(0) == "0";
    } else if a.p == 0 {
      WholeText(n);
      ReadWhole(a.x);
    } else {
      LastDigit(a.x);
      RenderLast(Abs(a.x));
      ReadPlaced(a.x < 0, n, a.p);
      ReadSigned(a.x, PlacedText(n, a.p));
    }
  }

  lemma WholeText(n: string)
    ensures PlacedText(n, 0) == n
  {
  }

  lemma LastDigit(x: int)
    ensures Abs(x) % 10 == 0 <==> x % 10 == 0
  {
  }

  lemma ZeroText()
    ensures Render(0) == "0" && Abs(0) == 0
  {
    assert DigitChar(0) == '0';
  }

  /** The text denotes exactly the number, and reading it back gives the number in normal form. */
  lemma TextIsExact(a: Dec)
    ensures ReadBack(DecText(a)) == Some(Normal(a)) && SameValue(Normal(a), a)
  {
    NormalText(a);
    NormalIsNormal(a);
    ReadNormal(Normal(a));
  }

  /**
   The text is a minus sign for a negative number, a whole part without a leading zero, and a point and a fraction
   without a trailing zero unless the fraction is zero; its digits are those of the number.
   */
  lemma TextShape(a: Dec) returns (whole: string, frac: string)
    ensures IsCanonical(whole) && AllDigits(frac) && (frac != "" ==> frac[|frac| - 1] != '0')
    ensures DecText(a) == (if a.x < 0 then "-" else "") + whole + (if frac == "" then "" else "." + frac)
    ensures AllDigits(whole + frac) && Read(whole + frac) * Pow10(a.p) == Abs(a.x) * Pow10(|frac|)
  {
    hide Render, Read, PlacedText, Pow10;
    NormalText(a);
    NormalIsNormal(a);
    var b := Normal(a);
    SameSignAndSize(b, a);
    var n := Render(Abs(b.x));
    ReadRender(Abs(b.x));
    if b.x == 0 || b.p == 0 {
      whole, frac := n, "";
      assert whole + frac == n;
      ZeroText();
      WholeText(n);
    } else {
      LastDigit(b.x);
      RenderLast(Abs(b.x));
      whole, frac := PlacedParts(n, b.p);
      AllDigitsParts(whole, frac);
      assert Sign(b.x) + (whole + "." + frac) == Sign(b.x) + whole + ("." + frac);
    }
  }

  lemma SameSignAndSize(b: Dec, a: Dec)
    requires SameValue(b, a)
    ensures b.x < 0 <==> a.x < 0
    ensures Abs(b.x) * Pow10(a.p) == Abs(a.x) * Pow10(b.p)
  {
    hide Pow10;
    SignOfScaled(b.x, Pow10(a.p));
    SignOfScaled(a.x, Pow10(b.p));
  }

  /** Two numbers have the same text exactly when they have the same value. */
  lemma TextIsCanonical(a: Dec, b: Dec)
    ensures DecText(a) == DecText(b) <==> SameValue(a, b)
  {
    TextIsExact(a);
    TextIsExact(b);
    NormalOfValue(a, b);
    NormalText(a);
    NormalText(b);
  }

  /** Write the number piece by piece. */
  method WriteDec(a: Dec) returns (s: string)
    ensures s == DecText(a)
  {
    hide Render, TrimZeros, Zeros;
    if a.x == 0 {
      return "0";
    }
    if a.p == 0 {
      return IntText(a.x);
    }
    var n := Render(Abs(a.x));
    s := "";
    if a.x < 0 {
      s := s + "-";
    }
    if |n| <= a.p {
      s := s + "0.";
      s := s + Zeros(a.p - |n|);
      s := s + TrimZeros(n);
    } else {
      var frac := TrimZeros(n[|n| - a.p..]);
      s := s + n[..|n| - a.p];
      if |frac| > 0 {
        s := s + ".";
        s := s + frac;
      }
    }
    assert s == Sign(a.x) + PlacedText(n, a.p);
  }
}
