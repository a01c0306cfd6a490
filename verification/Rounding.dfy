/** Powers of ten, the integer division of the big-number library, and the one rounding rule that results from it. */
module Rounding {

  function Pow10(n: nat): (p: int)
    ensures p >= 1
  {
    if n == 0 then 1 else 10 * Pow10(n - 1)
  }

  lemma {:induction false} Pow10Add(m: nat, n: nat)
    ensures Pow10(m + n) == Pow10(m) * Pow10(n)
    decreases m
  {
    if m > 0 {
      Pow10Add(m - 1, n);
      assert 10 * Pow10(m - 1) * Pow10(n) == 10 * (Pow10(m - 1) * Pow10(n));
    }
  }

  function Abs(x: int): nat {
    if x < 0 then -x else x
  }

  /** Division truncated toward zero. */
  function Quo(x: int, y: int): int
    requires y != 0
  {
    var q := Abs(x) / Abs(y);
    if (x < 0) == (y < 0) then q else -q
  }

  /** The remainder of truncated division, with the sign of the dividend. */
  function Rem(x: int, y: int): int
    requires y != 0
  {
    x - Quo(x, y) * y
  }

  /** The rounding division: the quotient is raised when the remainder reaches half of the divisor. */
  function DivRound(x: int, y: int): int
    requires y != 0
  {
    var (quo, rem) := (Quo(x, y), Rem(x, y));
    if rem == 0 then quo
    else if rem >= Quo(y, 2) then quo + 1
    else quo
  }

  /** A coefficient moved from one precision to another. */
  function SetPrec(x: int, curr: nat, next: nat): (r: int)
    ensures x != 0 && curr <= next ==> r != 0
  {
    if curr == next || x == 0 then x
    else if curr < next then x * Pow10(next - curr)
    else DivRound(x, Pow10(curr - next))
  }

  /**
   The rounding rule: the integer nearest to `n / d`, halves up, when it is not negative, and the
   integer part when it is negative.
   */
  function Round(n: int, d: int): int
    requires d > 0
  {
    if n >= 0 then (2 * n + d) / (2 * d) else -(-n / d)
  }

  /** The rounding rule applied to a quotient of either sign. */
  function RoundQuotient(n: int, d: int): int
    requires d != 0
  {
    if d > 0 then Round(n, d) else Round(-n, -d)
  }

  // ---------- Arithmetic ----------

  lemma MulMonotone(a: int, b: int, c: int)
    requires a <= b && c >= 0
    ensures a * c <= b * c
  {
    assert (b - a) * c >= 0;
  }

  lemma MulStrict(a: int, b: int, c: int)
    requires a < b && c > 0
    ensures a * c < b * c
  {
    assert (b - a) * c > 0;
  }

  lemma Assoc(a: int, b: int, c: int)
    ensures a * (b * c) == (a * b) * c
  {
  }

  lemma Swap(a: int, b: int, c: int)
    ensures (a * b) * c == (a * c) * b
  {
  }

  lemma Distribute(a: int, b: int, c: int)
    ensures (a + b) * c == a * c + b * c
    ensures (a - b) * c == a * c - b * c
  {
  }

  lemma Exchange(a: int, b: int, c: int, d: int)
    ensures (a * b) * (c * d) == (a * c) * (b * d)
  {
    Assoc(a * b, c, d);
    Swap(a, b, c);
    Assoc(a * c, b, d);
  }

  /** The quotient is the one integer with this property. */
  lemma QuotientIs(n: int, d: int, q: int)
    requires d > 0 && q * d <= n < (q + 1) * d
    ensures n / d == q
  {
    var p := n / d;
    assert p * d <= n < (p + 1) * d by {
      assert n == p * d + n % d;
    }
    if p < q {
      MulMonotone(p + 1, q, d);
    } else if q < p {
      MulMonotone(q + 1, p, d);
    }
  }

  lemma QuotientBounds(n: int, d: int)
    requires d > 0
    ensures (n / d) * d <= n < (n / d + 1) * d
  {
    assert n == (n / d) * d + n % d;
  }

  lemma MulCancel(a: int, b: int, c: int)
    requires c > 0 && a * c <= b * c
    ensures a <= b
  {
    if b < a {
      MulStrict(b, a, c);
    }
  }

  lemma MulCancelStrict(a: int, b: int, c: int)
    requires c > 0 && a * c < b * c
    ensures a < b
  {
    if b <= a {
      MulMonotone(b, a, c);
    }
  }

  /** Equal fractions have equal integer parts. */
  lemma EqualFractions(n: int, d: int, m: int, e: int)
    requires d > 0 && e > 0 && n * e == m * d
    ensures n / d == m / e
  {
    var q := m / e;
    QuotientBounds(m, e);
    MulMonotone(q * e, m, d);
    MulStrict(m, (q + 1) * e, d);
    assert q * e * d == (q * d) * e && (q + 1) * e * d == ((q + 1) * d) * e;
    MulCancel(q * d, n, e);
    if (q + 1) * d <= n {
      MulMonotone((q + 1) * d, n, e);
    }
    QuotientIs(n, d, q);
  }

  lemma SameSign(n: int, d: int, m: int, e: int)
    requires d > 0 && e > 0 && n * e == m * d
    ensures n >= 0 <==> m >= 0
  {
    if n >= 0 && m < 0 {
      MulStrict(m, 0, d);
      MulMonotone(0, n, e);
    } else if n < 0 && m >= 0 {
      MulStrict(n, 0, e);
      MulMonotone(0, m, d);
    }
  }

  /** Rounding depends only on the fraction. */
  lemma RoundFraction(n: int, d: int, m: int, e: int)
    requires d > 0 && e > 0 && n * e == m * d
    ensures Round(n, d) == Round(m, e)
  {
    SameSign(n, d, m, e);
    if n >= 0 {
      assert (2 * n + d) * (2 * e) == (2 * m + e) * (2 * d) by {
        assert (2 * n + d) * (2 * e) == 4 * (n * e) + 2 * (d * e);
        assert (2 * m + e) * (2 * d) == 4 * (m * d) + 2 * (d * e);
      }
      EqualFractions(2 * n + d, 2 * d, 2 * m + e, 2 * e);
    } else {
      assert -n * e == -m * d;
      EqualFractions(-n, d, -m, e);
    }
  }

  lemma RoundQuotientFraction(n: int, d: int, m: int, e: int)
    requires d != 0 && e != 0 && (d > 0 <==> e > 0) && n * e == m * d
    ensures RoundQuotient(n, d) == RoundQuotient(m, e)
  {
    if d > 0 {
      RoundFraction(n, d, m, e);
    } else {
      assert (-n) * (-e) == (-m) * (-d);
      RoundFraction(-n, -d, -m, -e);
    }
  }

  /** A whole number is its own rounding. */
  lemma RoundWhole(x: int, d: int)
    requires d > 0
    ensures Round(x * d, d) == x
  {
    RoundFraction(x * d, d, x, 1);
    assert x >= 0 ==> (2 * x + 1) / 2 == x;
  }

  lemma Pow10Even(k: nat)
    requires k > 0
    ensures Pow10(k) == 2 * (5 * Pow10(k - 1)) && Quo(Pow10(k), 2) == 5 * Pow10(k - 1)
  {
  }

  /** The rounding division by an even number follows the rounding rule. */
  lemma DivRoundRounds(x: int, h: int)
    requires h > 0
    ensures DivRound(x, 2 * h) == Round(x, 2 * h)
  {
    var d := 2 * h;
    var q := Abs(x) / d;
    QuotientBounds(Abs(x), d);
    assert Quo(d, 2) == h;
    if x >= 0 {
      var up := if x - q * d >= h then 1 else 0;
      Distribute(q, up, 2 * d);
      Swap(q, 2, d);
      assert (q + up) * (2 * d) == 2 * (q * d) + up * (2 * d);
      assert (q + up + 1) * (2 * d) == (q + up) * (2 * d) + 2 * d;
      QuotientIs(2 * x + d, 2 * d, q + up);
      assert Rem(x, d) == x - q * d;
    } else {
      assert Rem(x, d) == x + q * d;
    }
  }

  /** Changing the precision multiplies, or divides by the rounding rule. */
  lemma SetPrecRounds(x: int, curr: nat, next: nat)
    ensures curr <= next ==> SetPrec(x, curr, next) == x * Pow10(next - curr)
    ensures next <= curr ==> SetPrec(x, curr, next) == Round(x, Pow10(curr - next))
  {
    if curr == next {
      RoundWhole(x, 1);
      assert Pow10(0) == 1;
    } else if x == 0 {
      RoundWhole(0, if next < curr then Pow10(curr - next) else 1);
    } else if next < curr {
      Pow10Even(curr - next);
      DivRoundRounds(x, 5 * Pow10(curr - next - 1));
    }
  }

  /** If `n * c / d` truncates to `q`, then `n / d + 1 / 2 >= r` shows in `q` with `c = 2 * h` extra units. */
  lemma TruncatedAtLeast(n: int, d: int, h: int, q: int, r: int)
    requires d > 0 && h > 0 && n * (2 * h) < (q + 1) * d
    requires r * (2 * d) <= 2 * n + d
    ensures r * (4 * h) <= 2 * q + 2 * h
  {
    var lo := 2 * (h * r) - h;
    MulMonotone(r * (2 * d), 2 * n + d, h);
    assert r * (2 * d) * h == 2 * (h * r) * d;
    assert (2 * n + d) * h == n * (2 * h) + h * d;
    assert lo * d == 2 * (h * r) * d - h * d;
    MulCancelStrict(lo, q + 1, d);
    assert r * (4 * h) == 4 * (h * r);
  }

  lemma TruncatedBelow(n: int, d: int, h: int, q: int, r: int)
    requires d > 0 && h > 0 && q * d <= n * (2 * h)
    requires 2 * n + d < r * (2 * d)
    ensures 2 * q + 2 * h < r * (4 * h)
  {
    var hi := 2 * (h * r) - h;
    MulStrict(2 * n + d, r * (2 * d), h);
    assert r * (2 * d) * h == 2 * (h * r) * d;
    assert (2 * n + d) * h == n * (2 * h) + h * d;
    assert hi * d == 2 * (h * r) * d - h * d;
    MulCancelStrict(q, hi, d);
    assert r * (4 * h) == 4 * (h * r);
  }

  lemma TruncateThenRoundPositive(n: int, d: int, h: int)
    requires n >= 0 && d > 0 && h > 0
    ensures n * (2 * h) / d >= 0
    ensures (2 * (n * (2 * h) / d) + 2 * h) / (4 * h) == (2 * n + d) / (2 * d)
  {
    var x := n * (2 * h);
    MulMonotone(0, n, 2 * h);
    var q := x / d;
    QuotientBounds(x, d);
    var r := (2 * n + d) / (2 * d);
    QuotientBounds(2 * n + d, 2 * d);
    TruncatedAtLeast(n, d, h, q, r);
    TruncatedBelow(n, d, h, q, r + 1);
    QuotientIs(2 * q + 2 * h, 4 * h, r);
  }

  /** Truncating with extra digits first does not change the rounding. */
  lemma TruncateThenRound(n: int, d: int, h: int)
    requires d > 0 && h > 0
    ensures Round(Quo(n * (2 * h), d), 2 * h) == Round(n, d)
  {
    var x := n * (2 * h);
    if n >= 0 {
      MulMonotone(0, n, 2 * h);
      TruncateThenRoundPositive(n, d, h);
      assert Quo(x, d) == x / d;
      assert 2 * (2 * h) == 4 * h;
    } else {
      MulStrict(n, 0, 2 * h);
      assert -x == (-n) * (2 * h);
      NestedQuotient(-n, d, 2 * h);
      RoundNegative(-x / d, 2 * h);
      assert Quo(x, d) == -(-x / d);
    }
  }

  lemma RoundNegative(q: int, d: int)
    requires q >= 0 && d > 0
    ensures Round(-q, d) == if q == 0 then 0 else -(q / d)
    ensures q == 0 ==> q / d == 0
  {
    if q == 0 {
      RoundWhole(0, d);
      QuotientIs(0, d, 0);
    }
  }

  /** The integer part of the integer part with extra digits. */
  lemma NestedQuotient(m: int, d: int, c: int)
    requires m >= 0 && d > 0 && c > 0
    ensures m * c / d >= 0 && (m * c / d) / c == m / d
  {
    var x := m * c;
    MulMonotone(0, m, c);
    var q, r := x / d, m / d;
    QuotientBounds(x, d);
    QuotientBounds(m, d);
    MulMonotone(r * d, m, c);
    MulStrict(m, (r + 1) * d, c);
    assert r * d * c == (r * c) * d;
    assert (r + 1) * d * c == ((r + 1) * c) * d;
    MulCancelStrict(r * c, q + 1, d);
    MulCancelStrict(q, (r + 1) * c, d);
    QuotientIs(q, c, r);
  }

  lemma TruncateThenRoundQuotient(n: int, d: int, k: nat)
    requires d != 0 && k > 0
    ensures Round(Quo(n * Pow10(k), d), Pow10(k)) == RoundQuotient(n, d)
  {
    Pow10Even(k);
    var h := 5 * Pow10(k - 1);
    if d > 0 {
      TruncateThenRound(n, d, h);
    } else {
      TruncateThenRound(-n, -d, h);
      QuoNegate(n * Pow10(k), d);
      assert -n * (2 * h) == -(n * Pow10(k));
    }
  }

  lemma QuoNegate(x: int, y: int)
    requires y != 0
    ensures Quo(-x, -y) == Quo(x, y)
  {
    assert Abs(-x) == Abs(x) && Abs(-y) == Abs(y);
    if x == 0 {
      assert Abs(x) / Abs(y) == 0;
    }
  }

  // ---------- Values below zero ----------

  /** The integer nearest to `n / d`, halves up, for values of either sign. */
  function HalfUp(n: int, d: int): int
    requires d > 0
  {
    (2 * n + d) / (2 * d)
  }

  lemma HalfUpDigits(m: nat, d: int)
    requires d > 0
    ensures HalfUp(m, d) == m / d + (if 2 * (m % d) >= d then 1 else 0)
    ensures HalfUp(0 - m, d) == 0 - (m / d) - (if 2 * (m % d) > d then 1 else 0)
  {
    var q, r := m / d, m % d;
    Swap(2, q, d);
    var up := if 2 * r >= d then 1 else 0;
    HalfUpBetween(m, d, q, r, q + up);
    var down := if 2 * r > d then 1 else 0;
    HalfUpBetween(0 - m, d, 0 - q, 0 - r, 0 - q - down);
  }

  lemma HalfUpBetween(n: int, d: int, q: int, r: int, k: int)
    requires d > 0 && n == q * d + r
    requires 2 * (k - q) * d <= 2 * r + d < 2 * (k + 1 - q) * d
    ensures HalfUp(n, d) == k
  {
    Distribute(k - q, q, 2 * d);
    Distribute(k + 1 - q, q, 2 * d);
    QuotientIs(2 * n + d, 2 * d, k);
  }

  /** Lowering the precision rounds to the nearest exactly for values that are not negative or not past the half. */
  lemma RescalingIsHalfUp(x: int, curr: nat, next: nat)
    requires next <= curr
    ensures SetPrec(x, curr, next) == HalfUp(x, Pow10(curr - next))
            <==> x >= 0 || 2 * ((0 - x) % Pow10(curr - next)) <= Pow10(curr - next)
  {
    hide Pow10, SetPrec;
    SetPrecRounds(x, curr, next);
    if x < 0 {
      HalfUpDigits(0 - x, Pow10(curr - next));
    }
  }

  /** Lowering the precision treats a value and its negative alike exactly when what is dropped is below the half. */
  lemma RescalingIsOdd(x: int, curr: nat, next: nat)
    requires next <= curr
    ensures SetPrec(0 - x, curr, next) == 0 - SetPrec(x, curr, next)
            <==> 2 * (Abs(x) % Pow10(curr - next)) < Pow10(curr - next)
  {
    hide Pow10, SetPrec;
    var d := Pow10(curr - next);
    SetPrecRounds(x, curr, next);
    SetPrecRounds(0 - x, curr, next);
    HalfUpDigits(Abs(x), d);
    assert Abs(x) == 0 ==> Abs(x) / d == 0;
  }

  /** Without its last digit 1.6 becomes 2, and -1.6 becomes -1. */
  lemma NegativeIsTruncated()
    ensures SetPrec(16, 1, 0) == 2 && SetPrec(0 - 16, 1, 0) == 0 - 1 && HalfUp(0 - 16, Pow10(1)) == 0 - 2
  {
    assert Pow10(1) == 10 * Pow10(0) == 10;
  }
}
