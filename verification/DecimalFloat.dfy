/** Decimal floating-point arithmetic: exactness, the laws of arithmetic, and when division rounds once. */
module DecimalFloat {
  import opened Rounding
  import opened Decimal
  import Numerals

  function FloatAdd(a: Dec, b: Dec): Dec {
    var p := Max(a.p, b.p);
    Normal(Dec(SetPrec(a.x, a.p, p) + SetPrec(b.x, b.p, p), p))
  }

  function FloatSub(a: Dec, b: Dec): Dec {
    var p := Max(a.p, b.p);
    Normal(Dec(SetPrec(a.x, a.p, p) - SetPrec(b.x, b.p, p), p))
  }

  function FloatMul(a: Dec, b: Dec): Dec {
    var wp := a.p + b.p;
    var rp := Min(wp, MAX_PRECISION);
    Normal(Dec(SetPrec(SetPrec(a.x, a.p, wp) * SetPrec(b.x, b.p, wp), 2 * wp, rp), rp))
  }

  function FloatDivPrec(a: Dec, b: Dec, prec: nat): Dec
    requires Divides(b, prec)
  {
    var rp := Min(prec, MAX_PRECISION);
    Normal(Dec(SetPrec(Truncated(a, b, prec), prec, rp), rp))
  }

  /** The quotient truncated to `prec` digits. */
  function Truncated(a: Dec, b: Dec, prec: nat): int
    requires Divides(b, prec)
  {
    Quo(SetPrec(a.x, a.p, prec) * Pow10(prec), SetPrec(b.x, b.p, prec))
  }

  /** The precision of a quotient. */
  function QuotientPrec(p: nat): nat {
    Min(p + DIV_INCREASE, MAX_PRECISION)
  }

  function FloatDiv(a: Dec, b: Dec): Dec
    requires b.x != 0
  {
    var p := Max(a.p, b.p);
    var n := FloatDivPrec(a, b, p + DIV_INCREASE + GUARD_DIGITS);
    Normal(Dec(SetPrec(n.x, n.p, QuotientPrec(p)), QuotientPrec(p)))
  }

  function FloatInv(a: Dec): Dec
    requires a.x != 0
  {
    var wp, rp := a.p + DIV_INCREASE + GUARD_DIGITS, QuotientPrec(a.p);
    SetPrecRounds(a.x, a.p, wp);
    SignOfScaled(a.x, Pow10(wp - a.p));
    var z := SetPrec(a.x, a.p, wp);
    Normal(Dec(SetPrec(Quo(Pow10(2 * wp), z), wp, rp), rp))
  }

  // ---------- Exact values ----------

  function Sum(a: Dec, b: Dec): Dec {
    Dec(a.x * Pow10(b.p) + b.x * Pow10(a.p), a.p + b.p)
  }

  function Difference(a: Dec, b: Dec): Dec {
    Dec(a.x * Pow10(b.p) - b.x * Pow10(a.p), a.p + b.p)
  }

  function Product(a: Dec, b: Dec): Dec {
    Dec(a.x * b.x, a.p + b.p)
  }

  /** The exact quotient, rounded once at precision `r`. */
  function RoundedQuotient(a: Dec, b: Dec, r: nat): Dec
    requires b.x != 0
  {
    SignOfScaled(b.x, Pow10(a.p));
    Dec(RoundQuotient(a.x * Pow10(b.p + r), b.x * Pow10(a.p)), r)
  }

  /** A change of precision rounds the exact value at the new precision. */
  lemma SetPrecIsRound(x: int, p: nat, r: nat)
    ensures SetPrec(x, p, r) == Round(x * Pow10(r), Pow10(p))
  {
    hide Pow10, Round, SetPrec;
    SetPrecRounds(x, p, r);
    if p <= r {
      Pow10Add(r - p, p);
      Assoc(x, Pow10(r - p), Pow10(p));
      RoundWhole(x * Pow10(r - p), Pow10(p));
    } else {
      Pow10Add(p - r, r);
      Assoc(x, Pow10(p - r), Pow10(r));
      Swap(x, Pow10(p - r), Pow10(r));
      RoundFraction(x, Pow10(p - r), x * Pow10(r), Pow10(p));
    }
  }

  /** A fixed-point number of another precision is the exact value rounded at that precision. */
  lemma FixedSetPrecRounds(a: Dec, p: nat)
    ensures FixedSetPrec(a, p) == Dec(Round(a.x * Pow10(p), Pow10(a.p)), p)
  {
    hide Pow10, Round;
    SetPrecIsRound(a.x, a.p, p);
  }

  /** Hence it depends on the value only. */
  lemma SetPrecOfValue(a: Dec, b: Dec, r: nat)
    requires SameValue(a, b)
    ensures SetPrec(a.x, a.p, r) == SetPrec(b.x, b.p, r)
  {
    hide Pow10, Round, SetPrec;
    SetPrecIsRound(a.x, a.p, r);
    SetPrecIsRound(b.x, b.p, r);
    Swap(a.x, Pow10(r), Pow10(b.p));
    Swap(b.x, Pow10(r), Pow10(a.p));
    RoundFraction(a.x * Pow10(r), Pow10(a.p), b.x * Pow10(r), Pow10(b.p));
  }

  lemma SumAtPrec(a: Dec, b: Dec)
    ensures FloatAdd(a, b) == Normal(Sum(a, b))
    ensures FloatSub(a, b) == Normal(Difference(a, b))
  {
    var p := Max(a.p, b.p);
    SetPrecRounds(a.x, a.p, p);
    SetPrecRounds(b.x, b.p, p);
    var (sa, sb) := (Pow10(p - a.p), Pow10(p - b.p));
    Pow10Add(p - a.p, a.p);
    Pow10Add(p - b.p, b.p);
    Pow10Add(a.p, b.p);
    AddFractions(a.x, b.x, Pow10(a.p), Pow10(b.p), sa, sb);
    CrossScale(a.x * sa + b.x * sb, a.x * Pow10(b.p) + b.x * Pow10(a.p), Pow10(a.p), Pow10(b.p), sa);
    CrossScale(a.x * sa - b.x * sb, a.x * Pow10(b.p) - b.x * Pow10(a.p), Pow10(a.p), Pow10(b.p), sa);
    NormalOfValue(Dec(a.x * sa + b.x * sb, p), Sum(a, b));
    NormalOfValue(Dec(a.x * sa - b.x * sb, p), Difference(a, b));
  }

  lemma CrossScale(u: int, v: int, pa: int, pb: int, s: int)
    requires u * pb == v * s
    ensures u * (pa * pb) == v * (s * pa)
  {
    assert u * (pa * pb) == (u * pb) * pa == (v * s) * pa;
  }

  /** Multiplication rounds once, and is exact when the precisions sum to at most the maximum. */
  lemma ProductAtPrec(a: Dec, b: Dec)
    ensures
      var wp := a.p + b.p;
      FloatMul(a, b) == Normal(Dec(SetPrec(a.x * b.x, wp, Min(wp, MAX_PRECISION)), Min(wp, MAX_PRECISION)))
    ensures a.p + b.p <= MAX_PRECISION ==> FloatMul(a, b) == Normal(Product(a, b))
  {
    var wp := a.p + b.p;
    hide Pow10, Round, SetPrec, Normal;
    SetPrecRounds(a.x, a.p, wp);
    SetPrecRounds(b.x, b.p, wp);
    var z := (a.x * Pow10(b.p)) * (b.x * Pow10(a.p));
    Pow10Add(b.p, a.p);
    Pow10Add(wp, wp);
    Exchange(a.x, Pow10(b.p), b.x, Pow10(a.p));
    Assoc(a.x * b.x, Pow10(wp), Pow10(wp));
    SetPrecSame(a.x * b.x, wp);
    SetPrecOfValue(Dec(z, 2 * wp), Dec(a.x * b.x, wp), Min(wp, MAX_PRECISION));
  }

  // ---------- The laws of arithmetic ----------

  lemma SumOfValues(a: Dec, b: Dec, c: Dec)
    requires SameValue(a, b)
    ensures SameValue(Sum(a, c), Sum(b, c)) && SameValue(Sum(c, a), Sum(c, b))
    ensures SameValue(Product(a, c), Product(b, c)) && SameValue(Product(c, a), Product(c, b))
  {
    hide Pow10;
    Pow10Add(a.p, c.p);
    Pow10Add(b.p, c.p);
    var (pa, pb, pc) := (Pow10(a.p), Pow10(b.p), Pow10(c.p));
    SumCross(a.x, pa, b.x, pb, c.x, pc);
    Exchange(a.x, c.x, pb, pc);
    Exchange(b.x, c.x, pa, pc);
    Swap(a.x, c.x, 1);
    assert c.x * a.x == a.x * c.x && c.x * b.x == b.x * c.x;
    assert c.x * pa + a.x * pc == a.x * pc + c.x * pa && c.x * pb + b.x * pc == b.x * pc + c.x * pb;
  }

  lemma SumCross(x: int, pa: int, y: int, pb: int, z: int, pc: int)
    requires x * pb == y * pa
    ensures (x * pc + z * pa) * (pb * pc) == (y * pc + z * pb) * (pa * pc)
  {
    Distribute(x * pc, z * pa, pb * pc);
    Distribute(y * pc, z * pb, pa * pc);
    Exchange(x, pc, pb, pc);
    Exchange(y, pc, pa, pc);
    Exchange(z, pa, pb, pc);
    Exchange(z, pb, pa, pc);
    Swap(z, pa, pb);
    Exchange(z, pb, pa, pc);
    assert (z * pa) * (pb * pc) == (z * pb) * (pa * pc);
  }

  /** Addition is commutative and associative; its result is in normal form and has the exact value. */
  lemma AdditionLaws(a: Dec, b: Dec, c: Dec)
    ensures FloatAdd(a, b) == FloatAdd(b, a)
    ensures FloatAdd(FloatAdd(a, b), c) == FloatAdd(a, FloatAdd(b, c))
    ensures IsNormal(FloatAdd(a, b)) && SameValue(FloatAdd(a, b), Sum(a, b))
    ensures FloatAdd(a, b).p <= Max(a.p, b.p)
  {
    SumAtPrec(a, b);
    SumAtPrec(b, a);
    SumAtPrec(b, c);
    SumAtPrec(FloatAdd(a, b), c);
    SumAtPrec(a, FloatAdd(b, c));
    NormalIsNormal(Sum(a, b));
    NormalIsNormal(Sum(b, c));
    SumOfValues(FloatAdd(a, b), Sum(a, b), c);
    SumOfValues(FloatAdd(b, c), Sum(b, c), a);
    SumAssociative(a, b, c);
    NormalOfValue(Sum(FloatAdd(a, b), c), Sum(Sum(a, b), c));
    NormalOfValue(Sum(a, FloatAdd(b, c)), Sum(a, Sum(b, c)));
  }

  lemma SumAssociative(a: Dec, b: Dec, c: Dec)
    ensures Sum(Sum(a, b), c) == Sum(a, Sum(b, c))
    ensures Product(Product(a, b), c) == Product(a, Product(b, c))
  {
    hide Pow10;
    Pow10Add(a.p, b.p);
    Pow10Add(b.p, c.p);
    AssociateSum(a.x, Pow10(a.p), b.x, Pow10(b.p), c.x, Pow10(c.p));
    Assoc(a.x, b.x, c.x);
  }

  lemma AssociateSum(x: int, pa: int, y: int, pb: int, z: int, pc: int)
    ensures (x * pb + y * pa) * pc + z * (pa * pb) == x * (pb * pc) + (y * pc + z * pb) * pa
  {
    Distribute(x * pb, y * pa, pc);
    Distribute(y * pc, z * pb, pa);
    Assoc(x, pb, pc);
    Swap(y, pa, pc);
    Assoc(z, pa, pb);
    Swap(z, pa, pb);
  }

  /** Subtracting undoes adding. */
  lemma SubtractionUndoesAddition(a: Dec, b: Dec)
    ensures FloatSub(FloatAdd(a, b), b) == Normal(a)
  {
    var s := FloatAdd(a, b);
    SumAtPrec(a, b);
    SumAtPrec(s, b);
    NormalIsNormal(Sum(a, b));
    DifferenceOfSum(s, a, b);
    NormalOfValue(Difference(s, b), a);
  }

  lemma DifferenceOfSum(s: Dec, a: Dec, b: Dec)
    requires SameValue(s, Sum(a, b))
    ensures SameValue(Difference(s, b), a)
  {
    hide Pow10;
    Pow10Add(a.p, b.p);
    Pow10Add(s.p, b.p);
    DifferenceCross(s.x, Pow10(s.p), a.x, Pow10(a.p), b.x, Pow10(b.p));
  }

  lemma DifferenceCross(s: int, ps: int, x: int, pa: int, y: int, pb: int)
    requires s * (pa * pb) == (x * pb + y * pa) * ps
    ensures (s * pb - y * ps) * pa == x * (ps * pb)
  {
    Distribute(s * pb, y * ps, pa);
    Distribute(x * pb, y * pa, ps);
    Assoc(s, pa, pb);
    Swap(s, pa, pb);
    Swap(y, ps, pa);
    Assoc(x, ps, pb);
    Swap(x, pb, ps);
  }

  /** Multiplication is commutative always, and associative and distributive while nothing is rounded. */
  lemma MultiplicationLaws(a: Dec, b: Dec, c: Dec)
    ensures FloatMul(a, b) == FloatMul(b, a)
    ensures a.p + b.p <= MAX_PRECISION ==> IsNormal(FloatMul(a, b)) && SameValue(FloatMul(a, b), Product(a, b))
    ensures a.p + b.p + c.p <= MAX_PRECISION ==> FloatMul(FloatMul(a, b), c) == FloatMul(a, FloatMul(b, c))
    ensures a.p + Max(b.p, c.p) <= MAX_PRECISION ==>
              FloatMul(a, FloatAdd(b, c)) == FloatAdd(FloatMul(a, b), FloatMul(a, c))
  {
    assert a.x * b.x == b.x * a.x;
    ProductAtPrec(a, b);
    ProductAtPrec(b, a);
    NormalIsNormal(Product(a, b));
    if a.p + b.p + c.p <= MAX_PRECISION {
      MultiplicationAssociative(a, b, c);
    }
    if a.p + Max(b.p, c.p) <= MAX_PRECISION {
      MultiplicationDistributes(a, b, c);
    }
  }

  lemma MultiplicationAssociative(a: Dec, b: Dec, c: Dec)
    requires a.p + b.p + c.p <= MAX_PRECISION
    ensures FloatMul(FloatMul(a, b), c) == FloatMul(a, FloatMul(b, c))
  {
    hide FloatMul, SameValue, IsNormal, Pow10, SetPrec;
    ProductAtPrec(a, b);
    ProductAtPrec(b, c);
    ProductAtPrec(FloatMul(a, b), c);
    ProductAtPrec(a, FloatMul(b, c));
    NormalIsNormal(Product(a, b));
    NormalIsNormal(Product(b, c));
    SumOfValues(FloatMul(a, b), Product(a, b), c);
    SumOfValues(FloatMul(b, c), Product(b, c), a);
    SumAssociative(a, b, c);
    NormalOfValue(Product(FloatMul(a, b), c), Product(Product(a, b), c));
    NormalOfValue(Product(a, FloatMul(b, c)), Product(a, Product(b, c)));
  }

  lemma MultiplicationDistributes(a: Dec, b: Dec, c: Dec)
    requires a.p + Max(b.p, c.p) <= MAX_PRECISION
    ensures FloatMul(a, FloatAdd(b, c)) == FloatAdd(FloatMul(a, b), FloatMul(a, c))
  {
    hide FloatAdd, FloatMul, Normal, SameValue, Sum, Product, IsNormal, Pow10, SetPrec;
    SumAtPrec(b, c);
    NormalIsNormal(Sum(b, c));
    AdditionLaws(b, c, c);
    ProductAtPrec(a, FloatAdd(b, c));
    SumOfValues(FloatAdd(b, c), Sum(b, c), a);
    ProductAtPrec(a, b);
    ProductAtPrec(a, c);
    NormalIsNormal(Product(a, b));
    NormalIsNormal(Product(a, c));
    var (u, v) := (FloatMul(a, b), FloatMul(a, c));
    SumAtPrec(u, v);
    SumOfValues(u, Product(a, b), v);
    SumOfValues(v, Product(a, c), Product(a, b));
    SameValueTransitive(Sum(u, v), Sum(Product(a, b), v), Sum(Product(a, b), Product(a, c)));
    ProductOfSum(a, b, c);
    SameValueTransitive(Product(a, FloatAdd(b, c)), Product(a, Sum(b, c)), Sum(Product(a, b), Product(a, c)));
    SameValueSymmetric(Sum(u, v), Sum(Product(a, b), Product(a, c)));
    SameValueTransitive(Product(a, FloatAdd(b, c)), Sum(Product(a, b), Product(a, c)), Sum(u, v));
    NormalOfValue(Product(a, FloatAdd(b, c)), Sum(u, v));
  }

  lemma ProductOfSum(a: Dec, b: Dec, c: Dec)
    ensures SameValue(Product(a, Sum(b, c)), Sum(Product(a, b), Product(a, c)))
  {
    hide Pow10;
    Pow10Add(a.p, b.p);
    Pow10Add(a.p, c.p);
    Pow10Add(b.p, c.p);
    Pow10Add(a.p, b.p + c.p);
    Pow10Add(a.p + b.p, a.p + c.p);
    ProductCross(a.x, Pow10(a.p), b.x, Pow10(b.p), c.x, Pow10(c.p));
  }

  lemma ProductCross(x: int, pa: int, y: int, pb: int, z: int, pc: int)
    ensures (x * (y * pc + z * pb)) * ((pa * pb) * (pa * pc))
         == ((x * y) * (pa * pc) + (x * z) * (pa * pb)) * (pa * (pb * pc))
  {
    var u := x * (y * pc + z * pb);
    var v := (x * y) * (pa * pc) + (x * z) * (pa * pb);
    assert v == u * pa by {
      Exchange(x, y, pa, pc);
      Exchange(x, z, pa, pb);
      Exchange(x, pa, y, pc);
      Exchange(x, pa, z, pb);
      Distribute(y * pc, z * pb, x * pa);
      assert (y * pc + z * pb) * (x * pa) == (x * pa) * (y * pc + z * pb);
      Swap(x, pa, y * pc + z * pb);
    }
    Assoc(u, pa, pa * (pb * pc));
    Exchange(pa, pb, pa, pc);
    Assoc(pa, pa, pb * pc);
  }

  // ---------- Division ----------

  /**
   The quotient is rounded twice: to 255 digits when it is stored and to 254 when it is returned, and
   its digits there are between 45 and 49, so that the first rounding raises the second.
   */
  predicate RoundsTwice(a: Dec, b: Dec)
    requires b.x != 0
  {
    var p := Max(a.p, b.p);
    p == 238 && var q := Truncated(a, b, 256); q >= 0 && 45 <= q % 100 <= 49
  }

  lemma TruncatedRounds(a: Dec, b: Dec, prec: nat, r: nat)
    requires b.x != 0 && a.p <= prec && b.p <= prec && r < prec
    ensures SetPrec(Truncated(a, b, prec), prec, r) == RoundedQuotient(a, b, r).x
  {
    QuotientDigits(a, b, prec, r);
    var (sa, sb) := (Pow10(prec - a.p), Pow10(prec - b.p));
    var n, d := a.x * sa * Pow10(r), b.x * sb;
    SetPrecRounds(Truncated(a, b, prec), prec, r);
    TruncateThenRoundQuotient(n, d, prec - r);
    Pow10Add(prec - a.p, a.p);
    Pow10Add(prec - b.p, b.p);
    Pow10Add(b.p, r);
    SignOfScaled(b.x, sb);
    SignOfScaled(b.x, Pow10(a.p));
    QuotientFractions(a.x, b.x, sa, Pow10(a.p), sb, Pow10(b.p), Pow10(r));
    RoundQuotientFraction(n, d, a.x * Pow10(b.p + r), b.x * Pow10(a.p));
  }

  lemma QuotientFractions(x: int, y: int, sa: int, pa: int, sb: int, pb: int, s: int)
    requires sa * pa == sb * pb
    ensures (x * sa * s) * (y * pa) == (x * (pb * s)) * (y * sb)
  {
    assert (x * sa * s) * (y * pa) == (x * s * y) * (sa * pa);
    assert (x * (pb * s)) * (y * sb) == (x * s * y) * (sb * pb);
  }

  lemma RoundTwice(q: int)
    ensures Round(Round(q, 10), 10) == Round(q, 100) <==> !(q >= 0 && 45 <= q % 100 <= 49)
  {
    if q >= 0 {
      var c, r := q / 100, q % 100;
      var t, s := r / 10, r % 10;
      assert q == 100 * c + 10 * t + s;
      var u := 10 * c + t + (if s >= 5 then 1 else 0);
      QuotientIs(2 * q + 10, 20, u);
      QuotientIs(2 * u + 10, 20, c + (if t + (if s >= 5 then 1 else 0) >= 5 then 1 else 0));
      QuotientIs(2 * q + 100, 200, c + (if r >= 50 then 1 else 0));
    } else {
      NestedTens(-q);
    }
  }

  lemma NestedTens(m: int)
    requires m > 0
    ensures Round(Round(-m, 10), 10) == Round(-m, 100)
  {
    var c, r := m / 100, m % 100;
    QuotientIs(m, 10, 10 * c + r / 10);
    QuotientIs(m / 10, 10, c);
    RoundNegative(m / 10, 10);
  }

  /** The coefficient that division returns, before normalization. */
  lemma QuotientCoefficient(a: Dec, b: Dec)
    requires b.x != 0
    ensures
      var p := Max(a.p, b.p);
      var (wp, rp) := (p + DIV_INCREASE + GUARD_DIGITS, QuotientPrec(p));
      FloatDiv(a, b) ==
      Normal(Dec(SetPrec(SetPrec(Truncated(a, b, wp), wp, Min(wp, MAX_PRECISION)), Min(wp, MAX_PRECISION), rp), rp))
  {
    var p := Max(a.p, b.p);
    var (wp, rp) := (p + DIV_INCREASE + GUARD_DIGITS, QuotientPrec(p));
    var z := Dec(SetPrec(Truncated(a, b, wp), wp, Min(wp, MAX_PRECISION)), Min(wp, MAX_PRECISION));
    NormalIsNormal(z);
    SetPrecOfValue(Normal(z), z, rp);
  }

  /** Division returns the exact quotient rounded once, except exactly when it rounds twice. */
  lemma DivisionRounds(a: Dec, b: Dec)
    requires b.x != 0 && a.p <= MAX_PRECISION && b.p <= MAX_PRECISION
    ensures FloatDiv(a, b) == Normal(RoundedQuotient(a, b, QuotientPrec(Max(a.p, b.p)))) <==> !RoundsTwice(a, b)
  {
    hide Truncated, RoundedQuotient, Normal, FloatDiv, Pow10, Round, SetPrec;
    var p := Max(a.p, b.p);
    var (wp, rp) := (p + DIV_INCREASE + GUARD_DIGITS, QuotientPrec(p));
    QuotientCoefficient(a, b);
    TruncatedRounds(a, b, wp, rp);
    if p == 238 {
      var q := Truncated(a, b, 256);
      SmallPowers();
      SetPrecRounds(q, 256, 255);
      SetPrecRounds(Round(q, 10), 255, 254);
      SetPrecRounds(q, 256, 254);
      RoundTwice(q);
      SameCoefficient(Round(Round(q, 10), 10), Round(q, 100), 254);
      assert RoundedQuotient(a, b, 254) == Dec(Round(q, 100), 254) by {
        RoundedPrec(a, b, 254);
      }
    } else {
      SetPrecSame(Truncated(a, b, wp), wp);
      SetPrecSame(SetPrec(Truncated(a, b, wp), wp, rp), rp);
      RoundedPrec(a, b, rp);
    }
  }

  lemma SetPrecSame(x: int, p: nat)
    ensures SetPrec(x, p, p) == x
  {
  }

  lemma SmallPowers()
    ensures Pow10(1) == 10 && Pow10(2) == 100
  {
    assert Pow10(0) == 1;
  }

  lemma RoundedPrec(a: Dec, b: Dec, r: nat)
    requires b.x != 0
    ensures RoundedQuotient(a, b, r).p == r
  {
  }

  lemma SameCoefficient(u: int, v: int, p: nat)
    ensures Normal(Dec(u, p)) == Normal(Dec(v, p)) <==> u == v
  {
    NormalOfValue(Dec(u, p), Dec(v, p));
    if u * Pow10(p) == v * Pow10(p) {
      MulEqualCancel(u, v, Pow10(p));
    }
  }

  /** Operands of every maximum precision but 238 are divided with one rounding; at 238 some are not. */
  lemma DivisionRoundsByPrecision(p: nat)
    requires p <= MAX_PRECISION
    ensures p != 238 <==>
              forall a: Dec, b: Dec | b.x != 0 && Max(a.p, b.p) == p ::
                FloatDiv(a, b) == Normal(RoundedQuotient(a, b, QuotientPrec(p)))
  {
    hide Truncated, RoundedQuotient, Normal, FloatDiv;
    forall a: Dec, b: Dec | b.x != 0 && Max(a.p, b.p) == p
      ensures FloatDiv(a, b) == Normal(RoundedQuotient(a, b, QuotientPrec(p))) <==> !RoundsTwice(a, b)
    {
      DivisionRounds(a, b);
    }
    if p == 238 {
      var a, b := Dec(45, 238), Dec(Pow10(18), 0);
      TruncatedExample();
      assert RoundsTwice(a, b);
    }
  }

  lemma TruncatedExample()
    ensures Truncated(Dec(45, 238), Dec(Pow10(18), 0), 256) == 45
  {
    var a, b := Dec(45, 238), Dec(Pow10(18), 0);
    SetPrecRounds(a.x, 238, 256);
    SetPrecRounds(b.x, 0, 256);
    hide Pow10;
    var d := Pow10(18) * Pow10(256);
    Assoc(45, Pow10(18), Pow10(256));
    MulStrict(0, Pow10(18), Pow10(256));
    QuotientIs(45 * d, d, 45);
  }

  // ---------- Division at a given precision ----------

  /** An operand at the precision of the division: the exact value, or its rounding. */
  function Operand(a: Dec, prec: nat): Dec {
    Dec(Round(a.x * Pow10(prec), Pow10(a.p)), prec)
  }

  /** Equal fractions have equal truncated quotients. */
  lemma QuoFraction(n: int, d: int, m: int, e: int)
    requires d != 0 && e != 0 && (d > 0 <==> e > 0) && n * e == m * d
    ensures Quo(n, d) == Quo(m, e)
  {
    if d > 0 {
      QuoFractionPositive(n, d, m, e);
    } else {
      assert (0 - n) * (0 - e) == (0 - m) * (0 - d);
      QuoFractionPositive(0 - n, 0 - d, 0 - m, 0 - e);
      QuoNegate(n, d);
      QuoNegate(m, e);
    }
  }

  lemma QuoFractionPositive(n: int, d: int, m: int, e: int)
    requires d > 0 && e > 0 && n * e == m * d
    ensures Quo(n, d) == Quo(m, e)
  {
    SameSign(n, d, m, e);
    if n >= 0 {
      EqualFractions(n, d, m, e);
    } else {
      assert (0 - n) * e == (0 - m) * d;
      EqualFractions(0 - n, d, 0 - m, e);
    }
  }

  /** Division uses its operands only at the requested precision. */
  lemma TruncatedOfOperands(a: Dec, b: Dec, prec: nat)
    requires Divides(b, prec)
    ensures Operand(b, prec).x != 0
    ensures Truncated(a, b, prec) == Quo(Operand(a, prec).x * Pow10(prec), Operand(b, prec).x)
    ensures Divides(Operand(b, prec), prec)
    ensures Truncated(Operand(a, prec), Operand(b, prec), prec) == Truncated(a, b, prec)
  {
    hide Pow10, Round, Quo;
    SetPrecIsRound(a.x, a.p, prec);
    SetPrecIsRound(b.x, b.p, prec);
    SetPrecSame(Operand(a, prec).x, prec);
    SetPrecSame(Operand(b, prec).x, prec);
  }

  /** For operands that fit into the precision it is the exact quotient that is truncated. */
  lemma TruncatedExactly(a: Dec, b: Dec, prec: nat)
    requires b.x != 0 && a.p <= prec && b.p <= prec
    ensures Divides(b, prec) && b.x * Pow10(a.p) != 0
    ensures Truncated(a, b, prec) == Quo(a.x * Pow10(b.p + prec), b.x * Pow10(a.p))
  {
    hide Quo;
    var (sa, sb) := (Pow10(prec - a.p), Pow10(prec - b.p));
    SetPrecRounds(a.x, a.p, prec);
    SetPrecRounds(b.x, b.p, prec);
    Pow10Add(prec - a.p, a.p);
    Pow10Add(prec - b.p, b.p);
    Pow10Add(b.p, prec);
    hide Pow10, SetPrec;
    SignOfScaled(b.x, sb);
    SignOfScaled(b.x, Pow10(a.p));
    QuotientFractions(a.x, b.x, sa, Pow10(a.p), sb, Pow10(b.p), Pow10(prec));
    QuoFraction(a.x * sa * Pow10(prec), b.x * sb, a.x * Pow10(b.p + prec), b.x * Pow10(a.p));
  }

  /**
   Division at a requested precision is in normal form, of at most that precision. Up to 255 digits it is the quotient
   of the two operands at that precision, truncated to it; beyond, this quotient rounded once to 255 digits. Operands
   that fit into the precision are divided exactly.
   */
  lemma DivPrecRounds(a: Dec, b: Dec, prec: nat)
    requires Divides(b, prec)
    ensures IsNormal(FloatDivPrec(a, b, prec)) && FloatDivPrec(a, b, prec).p <= Min(prec, 255)
    ensures
      var (u, v) := (Operand(a, prec), Operand(b, prec));
      && v.x != 0
      && FloatDivPrec(a, b, prec) == Normal(
           if prec <= 255 then Dec(Quo(u.x * Pow10(prec), v.x), prec) else RoundedQuotient(u, v, 255))
    ensures a.p <= prec && b.p <= prec ==>
              && b.x * Pow10(a.p) != 0
              && FloatDivPrec(a, b, prec) == Normal(
                   if prec <= 255 then Dec(Quo(a.x * Pow10(b.p + prec), b.x * Pow10(a.p)), prec)
                   else RoundedQuotient(a, b, 255))
  {
    hide Pow10, Round, Quo, SetPrec, Normal, RoundedQuotient;
    var (u, v) := (Operand(a, prec), Operand(b, prec));
    TruncatedOfOperands(a, b, prec);
    SetPrecSame(Truncated(a, b, prec), prec);
    var rp := Min(prec, 255);
    var t := Dec(SetPrec(Truncated(a, b, prec), prec, rp), rp);
    NormalIsNormal(t);
    if prec > 255 {
      TruncatedRounds(u, v, prec, 255);
      RoundedPrec(u, v, 255);
    }
    if a.p <= prec && b.p <= prec {
      DivisorVanishes(b, prec);
      TruncatedExactly(a, b, prec);
      if prec > 255 {
        TruncatedRounds(a, b, prec, 255);
        RoundedPrec(a, b, 255);
      }
    }
  }

  /** A fixed-point quotient has the precision of the left operand, whatever the precision of the division. */
  lemma FixedDivPrecRounds(a: Dec, b: Dec, prec: nat)
    requires Divides(b, prec)
    ensures
      var (u, v) := (Operand(a, prec), Operand(b, prec));
      && v.x != 0
      && FixedDivPrec(a, b, prec) ==
         if a.p < prec then RoundedQuotient(u, v, a.p)
         else Dec(Quo(u.x * Pow10(prec), v.x) * Pow10(a.p - prec), a.p)
    ensures a.p < prec && b.p <= prec ==> b.x != 0 && FixedDivPrec(a, b, prec) == RoundedQuotient(a, b, a.p)
  {
    hide Pow10, Round, Quo, SetPrec, RoundedQuotient;
    var (u, v) := (Operand(a, prec), Operand(b, prec));
    TruncatedOfOperands(a, b, prec);
    assert FixedDivPrec(a, b, prec) == Dec(SetPrec(Truncated(a, b, prec), prec, a.p), a.p);
    if a.p < prec {
      TruncatedRounds(u, v, prec, a.p);
      RoundedPrec(u, v, a.p);
    } else {
      SetPrecRounds(Truncated(a, b, prec), prec, a.p);
    }
    if a.p < prec && b.p <= prec {
      DivisorVanishes(b, prec);
      TruncatedRounds(a, b, prec, a.p);
      RoundedPrec(a, b, a.p);
    }
  }

  /** The inverse is always rounded once. */
  lemma InverseRounds(a: Dec)
    requires a.x != 0
    ensures FloatInv(a) == Normal(RoundedQuotient(Dec(1, 0), a, QuotientPrec(a.p)))
  {
    var wp, rp := a.p + DIV_INCREASE + GUARD_DIGITS, QuotientPrec(a.p);
    var one := Dec(1, 0);
    if rp < wp {
      TruncatedRounds(one, a, wp, rp);
    }
    SetPrecRounds(1, 0, wp);
    Pow10Add(wp, wp);
    RoundedPrec(one, a, rp);
  }
}
