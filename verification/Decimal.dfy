/**
 Decimal numbers as scaled integers: `Dec(x, p)` stands for x / 10^p. Fixed-point operations keep the
 precision of the left operand; floating-point operations choose the smallest precision that fits.
 */
module Decimal {
  import opened Rounding

  const MAX_PRECISION: nat := 255
  const GUARD_DIGITS: nat := 2
  const DIV_INCREASE: nat := 16

  datatype Dec = Dec(x: int, p: nat)

  function Max(a: nat, b: nat): nat {
    if a < b then b else a
  }

  function Min(a: nat, b: nat): nat {
    if a < b then a else b
  }

  /** Two numbers stand for the same fraction. */
  ghost predicate SameValue(a: Dec, b: Dec) {
    a.x * Pow10(b.p) == b.x * Pow10(a.p)
  }

  // ---------- Fixed-point operations ----------

  function FixedSetPrec(a: Dec, p: nat): Dec {
    if a.p == p then a else if a.x == 0 then Dec(0, p) else Dec(SetPrec(a.x, a.p, p), p)
  }

  function FixedAdd(a: Dec, b: Dec): Dec {
    var p := Max(a.p, b.p);
    var (xi, yi) := (SetPrec(a.x, a.p, p), SetPrec(b.x, b.p, p));
    Dec(SetPrec(xi + yi, p, a.p), a.p)
  }

  function FixedSub(a: Dec, b: Dec): Dec {
    var p := Max(a.p, b.p);
    var (xi, yi) := (SetPrec(a.x, a.p, p), SetPrec(b.x, b.p, p));
    Dec(SetPrec(xi - yi, p, a.p), a.p)
  }

  function FixedMul(a: Dec, b: Dec): Dec {
    var p := a.p + b.p;
    var (xi, yi) := (SetPrec(a.x, a.p, p), SetPrec(b.x, b.p, p));
    Dec(SetPrec(xi * yi, 2 * p, a.p), a.p)
  }

  /** A divisor that is not zero at the precision of the division. */
  predicate Divides(b: Dec, prec: nat) {
    SetPrec(b.x, b.p, prec) != 0
  }

  /** Division at a given precision panics exactly for zero and for divisors that are rounded to zero. */
  lemma DivisorVanishes(b: Dec, prec: nat)
    ensures Divides(b, prec) <==>
              if b.p <= prec then b.x != 0
              else if b.x >= 0 then 2 * b.x >= Pow10(b.p - prec)
              else 0 - b.x >= Pow10(b.p - prec)
  {
    SetPrecRounds(b.x, b.p, prec);
    if prec < b.p {
      RoundsToZero(b.x, Pow10(b.p - prec));
    }
  }

  lemma RoundsToZero(n: int, d: int)
    requires d > 0
    ensures Round(n, d) == 0 <==> if n >= 0 then 2 * n < d else 0 - n < d
  {
    if n >= 0 {
      QuotientIsZero(2 * n + d, 2 * d);
    } else {
      QuotientIsZero(0 - n, d);
    }
  }

  lemma QuotientIsZero(m: nat, d: int)
    requires d > 0
    ensures m / d == 0 <==> m < d
  {
    QuotientBounds(m, d);
    if m < d {
      QuotientIs(m, d, 0);
    }
  }

  function FixedDivPrec(a: Dec, b: Dec, prec: nat): Dec
    requires Divides(b, prec)
  {
    var (xi, yi) := (SetPrec(a.x, a.p, prec), SetPrec(b.x, b.p, prec));
    Dec(SetPrec(Quo(xi * Pow10(prec), yi), prec, a.p), a.p)
  }

  function FixedDiv(a: Dec, b: Dec): Dec
    requires b.x != 0
  {
    FixedDivPrec(a, b, Max(a.p, b.p) + GUARD_DIGITS)
  }

  /** The sum is rounded once, from its exact value to the precision of the left operand. */
  lemma FixedAddRounds(a: Dec, b: Dec)
    ensures FixedAdd(a, b) == Dec(Round(a.x * Pow10(b.p) + b.x * Pow10(a.p), Pow10(b.p)), a.p)
    ensures FixedSub(a, b) == Dec(Round(a.x * Pow10(b.p) - b.x * Pow10(a.p), Pow10(b.p)), a.p)
  {
    var p := Max(a.p, b.p);
    SetPrecRounds(a.x, a.p, p);
    SetPrecRounds(b.x, b.p, p);
    var (xi, yi) := (a.x * Pow10(p - a.p), b.x * Pow10(p - b.p));
    Pow10Add(p - a.p, a.p);
    Pow10Add(p - b.p, b.p);
    var (d, e) := (Pow10(p - a.p), Pow10(b.p));
    SetPrecRounds(xi + yi, p, a.p);
    SetPrecRounds(xi - yi, p, a.p);
    AddFractions(a.x, b.x, Pow10(a.p), e, d, Pow10(p - b.p));
    RoundFraction(xi + yi, d, a.x * e + b.x * Pow10(a.p), e);
    RoundFraction(xi - yi, d, a.x * e - b.x * Pow10(a.p), e);
  }

  lemma AddFractions(x: int, y: int, pa: int, pb: int, sa: int, sb: int)
    requires sa * pa == sb * pb
    ensures (x * sa + y * sb) * pb == (x * pb + y * pa) * sa
    ensures (x * sa - y * sb) * pb == (x * pb - y * pa) * sa
  {
    assert (y * sb) * pb == y * (sb * pb) == y * (sa * pa) == (y * pa) * sa;
    assert (x * sa) * pb == (x * pb) * sa;
  }

  /** The product is rounded once, from its exact value to the precision of the left operand. */
  lemma FixedMulRounds(a: Dec, b: Dec)
    ensures FixedMul(a, b) == Dec(Round(a.x * b.x, Pow10(b.p)), a.p)
  {
    var p := a.p + b.p;
    SetPrecRounds(a.x, a.p, p);
    SetPrecRounds(b.x, b.p, p);
    var (pa, pb) := (Pow10(a.p), Pow10(b.p));
    var z := (a.x * pb) * (b.x * pa);
    SetPrecRounds(z, 2 * p, a.p);
    var d := Pow10(2 * p - a.p);
    Pow10Add(a.p, b.p);
    Pow10Add(a.p + b.p, b.p);
    assert d == pa * pb * pb;
    MulFractions(a.x, b.x, pa, pb);
    RoundFraction(z, d, a.x * b.x, pb);
  }

  lemma MulFractions(x: int, y: int, pa: int, pb: int)
    ensures ((x * pb) * (y * pa)) * pb == (x * y) * (pa * pb * pb)
  {
    assert (x * pb) * (y * pa) == (x * y) * (pa * pb);
    assert ((x * y) * (pa * pb)) * pb == (x * y) * ((pa * pb) * pb);
  }

  /** The quotient is rounded once, although division truncates first and rounds the guard digits after. */
  lemma FixedDivRounds(a: Dec, b: Dec)
    requires b.x != 0
    ensures FixedDiv(a, b) == Dec(RoundQuotient(a.x * Pow10(b.p), b.x), a.p)
  {
    var prec := Max(a.p, b.p) + GUARD_DIGITS;
    var k := prec - a.p;
    QuotientDigits(a, b, prec, a.p);
    var n := a.x * Pow10(k) * Pow10(a.p);
    var d := b.x * Pow10(prec - b.p);
    SetPrecRounds(Quo(n * Pow10(k), d), prec, a.p);
    TruncateThenRoundQuotient(n, d, k);
    Pow10Add(k, a.p);
    Pow10Add(prec - b.p, b.p);
    SignOfScaled(b.x, Pow10(prec - b.p));
    DivFractions(a.x, b.x, Pow10(k), Pow10(a.p), Pow10(prec - b.p), Pow10(b.p));
    RoundQuotientFraction(n, d, a.x * Pow10(b.p), b.x);
  }

  lemma DivFractions(x: int, y: int, sa: int, pa: int, sb: int, pb: int)
    requires sa * pa == sb * pb
    ensures (x * sa * pa) * y == (x * pb) * (y * sb)
  {
    assert x * sa * pa == x * (sa * pa) == x * (sb * pb);
    assert (x * (sb * pb)) * y == (x * pb) * (y * sb);
  }

  lemma SignOfScaled(x: int, s: int)
    requires s > 0
    ensures (x * s > 0 <==> x > 0) && (x * s == 0 <==> x == 0)
  {
    if x > 0 {
      MulStrict(0, x, s);
    } else if x < 0 {
      MulStrict(x, 0, s);
    }
  }

  /** The truncated quotient that division computes, with the digits beyond precision `r` set apart. */
  lemma QuotientDigits(a: Dec, b: Dec, prec: nat, r: nat)
    requires b.x != 0 && a.p <= prec && b.p <= prec && r <= prec
    ensures SetPrec(b.x, b.p, prec) == b.x * Pow10(prec - b.p) != 0
    ensures Quo(SetPrec(a.x, a.p, prec) * Pow10(prec), SetPrec(b.x, b.p, prec))
         == Quo((a.x * Pow10(prec - a.p) * Pow10(r)) * Pow10(prec - r), b.x * Pow10(prec - b.p))
  {
    hide Pow10, SetPrec, Quo;
    SetPrecRounds(a.x, a.p, prec);
    SetPrecRounds(b.x, b.p, prec);
    SignOfScaled(b.x, Pow10(prec - b.p));
    Pow10Add(r, prec - r);
    Assoc(a.x * Pow10(prec - a.p), Pow10(r), Pow10(prec - r));
  }

  // ---------- Normal form ----------

  /** The smallest precision that fits the number: trailing zeros of the fraction are dropped. */
  function Normal(a: Dec): (r: Dec)
    ensures r.p <= a.p
    decreases a.p
  {
    if a.x == 0 then Dec(0, 0)
    else if a.p > 0 && a.x % 10 == 0 then Normal(Dec(a.x / 10, a.p - 1))
    else a
  }

  predicate IsNormal(a: Dec) {
    a.p == 0 || a.x % 10 != 0
  }

  lemma {:induction false} NormalIsNormal(a: Dec)
    ensures IsNormal(Normal(a)) && SameValue(Normal(a), a)
    decreases a.p
  {
    if a.x == 0 {
      ZeroIsZero(a.p);
    } else if a.p > 0 && a.x % 10 == 0 {
      var b := Dec(a.x / 10, a.p - 1);
      NormalIsNormal(b);
      var n := Normal(a);
      DropZero(b.x, n.x, Pow10(b.p), Pow10(n.p));
    }
  }

  lemma ZeroIsZero(p: nat)
    ensures SameValue(Dec(0, 0), Dec(0, p))
  {
  }

  lemma DropZero(x: int, y: int, pb: int, pn: int)
    requires y * pb == x * pn
    ensures y * (10 * pb) == (10 * x) * pn
  {
    Assoc(10, x, pn);
    Assoc(y, 10, pb);
    Swap(y, 10, pb);
  }

  lemma SameValueSymmetric(a: Dec, b: Dec)
    requires SameValue(a, b)
    ensures SameValue(b, a)
  {
  }

  lemma SameValueTransitive(a: Dec, b: Dec, c: Dec)
    requires SameValue(a, b) && SameValue(b, c)
    ensures SameValue(a, c)
  {
    hide Pow10;
    var (pa, pb, pc) := (Pow10(a.p), Pow10(b.p), Pow10(c.p));
    Swap(a.x, pc, pb);
    Swap(b.x, pa, pc);
    Swap(c.x, pb, pa);
    MulEqualCancel(a.x * pc, c.x * pa, pb);
  }

  lemma MulEqualCancel(a: int, b: int, c: int)
    requires c > 0 && a * c == b * c
    ensures a == b
  {
    MulCancel(a, b, c);
    MulCancel(b, a, c);
  }

  lemma TenDivides(x: int, n: nat)
    requires n > 0
    ensures x * Pow10(n) % 10 == 0
  {
    var s := Pow10(n - 1);
    Assoc(x, 10, s);
    Swap(x, 10, s);
    assert x * Pow10(n) == (x * s) * 10;
    TimesTen(x * s);
  }

  lemma TimesTen(y: int)
    ensures y * 10 % 10 == 0
  {
  }

  /** Numbers in normal form that have the same value are the same. */
  lemma NormalUnique(a: Dec, b: Dec)
    requires IsNormal(a) && IsNormal(b) && SameValue(a, b) && a.p <= b.p
    ensures a == b
  {
    Pow10Add(a.p, b.p - a.p);
    assert (a.x * Pow10(b.p - a.p)) * Pow10(a.p) == b.x * Pow10(a.p);
    MulEqualCancel(a.x * Pow10(b.p - a.p), b.x, Pow10(a.p));
    if a.p < b.p {
      TenDivides(a.x, b.p - a.p);
    }
  }

  /** Equal values have identical normal forms. */
  lemma NormalOfValue(a: Dec, b: Dec)
    ensures SameValue(a, b) <==> Normal(a) == Normal(b)
  {
    NormalIsNormal(a);
    NormalIsNormal(b);
    if SameValue(a, b) {
      SameValueTransitive(Normal(a), a, b);
      SameValueTransitive(Normal(a), b, Normal(b));
      if Normal(a).p <= Normal(b).p {
        NormalUnique(Normal(a), Normal(b));
      } else {
        NormalUnique(Normal(b), Normal(a));
      }
    }
    if Normal(a) == Normal(b) {
      SameValueTransitive(a, Normal(a), b);
    }
  }
}
