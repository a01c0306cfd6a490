/** The floating-point number object: fresh results, normalized in place. */
module DecimalNumber {
  import opened Rounding
  import opened Decimal
  import opened DecimalFloat
  import opened DecimalText
  import opened Numerals

  lemma IntTextTen(m: int)
    requires m != 0 && m % 10 == 0
    ensures IntText(m) == IntText(m / 10) + "0" && m / 10 != 0
  {
    assert Abs(m / 10) == Abs(m) / 10;
    RenderTen(Abs(m));
  }

  lemma IntTextLast(m: int)
    ensures |IntText(m)| > 0
    ensures IntText(m)[|IntText(m)| - 1] == '0' <==> m % 10 == 0
  {
    RenderLast(Abs(m));
    assert Abs(m) % 10 == 0 <==> m % 10 == 0;
  }

  /** `m` is the coefficient without its last `z` digits, all of them zeros. */
  ghost predicate Stripped(a: Dec, s: string, z: int, m: int) {
    && 0 <= z <= a.p && z < |s| && m != 0
    && a.x == m * Pow10(z)
    && s[..|s| - z] == IntText(m)
    && Normal(Dec(m, a.p - z)) == Normal(a)
  }

  lemma NormalZero(p: nat)
    ensures Normal(Dec(0, p)) == Dec(0, 0)
  {
  }

  lemma StripNothing(a: Dec, s: string)
    requires a.x != 0 && s == IntText(a.x)
    ensures Stripped(a, s, 0, a.x)
  {
    hide IntText, Normal;
    IntTextLast(a.x);
    assert s[..|s|] == s && Pow10(0) == 1;
  }

  lemma StrippedLength(a: Dec, s: string, z: int, m: int)
    requires Stripped(a, s, z, m)
    ensures 0 <= |s| - 1 - z
  {
  }

  lemma StripZero(a: Dec, s: string, z: int, m: int)
    requires Stripped(a, s, z, m) && z < a.p && s[|s| - 1 - z] == '0'
    ensures Stripped(a, s, z + 1, m / 10)
  {
    hide IntText, Pow10;
    var t := s[..|s| - z];
    IntTextLast(m);
    assert t[|t| - 1] == s[|s| - 1 - z];
    IntTextTen(m);
    IntTextLast(m / 10);
    MoveZero(m, z);
    assert s[..|s| - (z + 1)] == t[..|t| - 1] == IntText(m / 10);
    assert Normal(Dec(m, a.p - z)) == Normal(Dec(m / 10, a.p - z - 1));
  }

  lemma StrippedIsNormal(a: Dec, s: string, z: int, m: int)
    requires Stripped(a, s, z, m) && (z == a.p || s[|s| - 1 - z] != '0')
    ensures Normal(a) == Dec(SetPrec(a.x, a.p, a.p - z), a.p - z)
    ensures z == 0 ==> Normal(a) == a
  {
    hide IntText, SetPrec, Round, Pow10;
    var t := s[..|s| - z];
    IntTextLast(m);
    assert t[|t| - 1] == s[|s| - 1 - z];
    SetPrecRounds(a.x, a.p, a.p - z);
    RoundWhole(m, Pow10(z));
    if z == 0 {
      SetPrecSame(a.x, a.p);
    }
  }

  class DecFloat {
    var num: Dec

    constructor (num: Dec)
      ensures this.num == num
    {
      this.num := num;
    }

    /** Lower the precision as far as trailing zeros of the numeral allow. */
    method AdjustPrec()
      modifies this
      ensures num == Normal(old(num))
    {
      hide Stripped, Normal, SetPrec, IntText;
      if num.x == 0 {
        NormalZero(num.p);
        num := Dec(0, 0);
        return;
      }
      var s := IntText(num.x);
      var z: int, i := 0, |s| - 1;
      ghost var m := num.x;
      StripNothing(num, s);
      while true
        invariant 0 <= z <= num.p && i == |s| - 1 - z && num == old(num)
        invariant Stripped(num, s, z, m)
        decreases num.p - z
      {
        StrippedLength(num, s, z, m);
        if z >= num.p {
          break;
        }
        if s[i] != '0' {
          break;
        }
        StripZero(num, s, z, m);
        m := m / 10;
        z := z + 1;
        i := i - 1;
      }
      StrippedIsNormal(num, s, z, m);
      var p := num.p - z;
      if num.p == p {
        return;
      }
      num := Dec(SetPrec(num.x, num.p, p), p);
    }

    method Add(y: DecFloat) returns (n: DecFloat)
      ensures fresh(n) && n.num == FloatAdd(num, y.num)
    {
      var p := Max(num.p, y.num.p);
      n := new DecFloat(Dec(SetPrec(num.x, num.p, p) + SetPrec(y.num.x, y.num.p, p), p));
      n.AdjustPrec();
    }

    method Sub(y: DecFloat) returns (n: DecFloat)
      ensures fresh(n) && n.num == FloatSub(num, y.num)
    {
      var p := Max(num.p, y.num.p);
      n := new DecFloat(Dec(SetPrec(num.x, num.p, p) - SetPrec(y.num.x, y.num.p, p), p));
      n.AdjustPrec();
    }

    method Mul(y: DecFloat) returns (n: DecFloat)
      ensures fresh(n) && n.num == FloatMul(num, y.num)
    {
      var wp := num.p + y.num.p;
      var rp := wp;
      if wp > MAX_PRECISION {
        rp := MAX_PRECISION;
      }
      var xi, yi := SetPrec(num.x, num.p, wp), SetPrec(y.num.x, y.num.p, wp);
      n := new DecFloat(Dec(SetPrec(xi * yi, 2 * wp, rp), rp));
      n.AdjustPrec();
    }

    method DivPrec(y: DecFloat, prec: nat) returns (n: DecFloat)
      requires Divides(y.num, prec)
      ensures fresh(n) && n.num == FloatDivPrec(num, y.num, prec)
    {
      var rp := prec;
      if rp > MAX_PRECISION {
        rp := MAX_PRECISION;
      }
      var xi, yi := SetPrec(num.x, num.p, prec), SetPrec(y.num.x, y.num.p, prec);
      n := new DecFloat(Dec(SetPrec(Quo(xi * Pow10(prec), yi), prec, rp), rp));
      n.AdjustPrec();
    }

    method Div(y: DecFloat) returns (n: DecFloat)
      requires y.num.x != 0
      ensures fresh(n) && n.num == FloatDiv(num, y.num)
    {
      hide Pow10, Normal, Truncated;
      var p := Max(num.p, y.num.p);
      var rp := p + DIV_INCREASE;
      if rp > MAX_PRECISION {
        rp := MAX_PRECISION;
      }
      n := DivPrec(y, p + DIV_INCREASE + GUARD_DIGITS);
      n.num := Dec(SetPrec(n.num.x, n.num.p, rp), rp);
      n.AdjustPrec();
    }
  }

  lemma MoveZero(m: int, z: nat)
    requires m % 10 == 0
    ensures m * Pow10(z) == (m / 10) * Pow10(z + 1)
  {
    var k, s := m / 10, Pow10(z);
    assert m == k * 10;
    Assoc(k, 10, s);
  }
}
