/**
 The proleptic Gregorian calendar in a zone of fixed offset. Days are numbered from 1 January of
 year 0. A month is identified by its index 12 * year + month - 1, so that an overflowing month
 number names the month that follows, as it does for `time.Date`.
 */
module Calendar {

  predicate IsLeap(y: int) {
    y % 4 == 0 && (y % 100 != 0 || y % 400 == 0)
  }

  /** How many multiples of `n` lie in [0, y); negative when y is. */
  function MultiplesBefore(y: int, n: int): int
    requires n > 0
  {
    (y + n - 1) / n
  }

  /** The first day of a year. */
  function YearStart(y: int): int {
    365 * y + MultiplesBefore(y, 4) - MultiplesBefore(y, 100) + MultiplesBefore(y, 400)
  }

  lemma MulAtLeast(k: int, n: int)
    requires k >= 1 && n >= 0
    ensures k * n >= n
  {
    assert (k - 1) * n >= 0;
  }

  lemma DivIs(a: int, n: int, q: int, r: int)
    requires n > 0 && a == q * n + r && 0 <= r < n
    ensures a / n == q && a % n == r
  {
    var k := a / n - q;
    assert k * n == r - a % n;
    if k >= 1 {
      MulAtLeast(k, n);
    } else if k <= -1 {
      MulAtLeast(-k, n);
    }
  }

  lemma MultiplesStep(y: int, n: int)
    requires n > 0
    ensures MultiplesBefore(y + 1, n) == MultiplesBefore(y, n) + (if y % n == 0 then 1 else 0)
  {
    var q, r := y / n, y % n;
    if r == 0 {
      DivIs(y + n - 1, n, q, n - 1);
      DivIs(y + n, n, q + 1, 0);
    } else {
      DivIs(y + n - 1, n, q + 1, r - 1);
      DivIs(y + n, n, q + 1, r);
    }
  }

  lemma LeapRule(y: int)
    ensures y % 400 == 0 ==> y % 100 == 0
    ensures y % 100 == 0 ==> y % 4 == 0
  {
    if y % 400 == 0 {
      DivIs(y, 100, 4 * (y / 400), 0);
    }
    if y % 100 == 0 {
      DivIs(y, 4, 25 * (y / 100), 0);
    }
  }

  lemma YearStep(y: int)
    ensures YearStart(y + 1) == YearStart(y) + (if IsLeap(y) then 366 else 365)
  {
    MultiplesStep(y, 4);
    MultiplesStep(y, 100);
    MultiplesStep(y, 400);
    LeapRule(y);
  }

  /** The number of days in a year before its month `m`, counted from 0. */
  function MonthOffset(m: nat, leap: bool): nat
    requires m < 12
  {
    [0, 31, 59, 90, 120, 151, 181, 212, 243, 273, 304, 334][m] + (if leap && m >= 2 then 1 else 0)
  }

  function MonthStart(k: int): int {
    YearStart(k / 12) + MonthOffset(k % 12, IsLeap(k / 12))
  }

  /** The number of days of month `m`, counted from 0. */
  function LengthOf(m: nat, leap: bool): nat
    requires m < 12
  {
    if m == 1 then (if leap then 29 else 28)
    else if m in {3, 5, 8, 10} then 30
    else 31
  }

  function MonthLength(k: int): (n: nat)
    ensures 28 <= n <= 31
  {
    LengthOf(k % 12, IsLeap(k / 12))
  }

  lemma MonthStep(k: int)
    ensures MonthStart(k + 1) == MonthStart(k) + MonthLength(k)
  {
    YearStep(k / 12);
    if k % 12 == 11 {
      assert (k + 1) / 12 == k / 12 + 1 && (k + 1) % 12 == 0;
    } else {
      assert (k + 1) / 12 == k / 12 && (k + 1) % 12 == k % 12 + 1;
    }
  }

  lemma {:induction false} MonthsApart(j: int, k: int)
    requires j <= k
    ensures MonthStart(j) + 28 * (k - j) <= MonthStart(k) <= MonthStart(j) + 31 * (k - j)
    decreases k - j
  {
    if j < k {
      MonthStep(j);
      MonthsApart(j + 1, k);
    }
  }

  /** The month that contains a day: the civil date is found within the 400-year cycle of the day. */
  function MonthOf(day: int): (k: int)
    ensures MonthStart(k) <= day < MonthStart(k + 1)
  {
    var era := day / 146097;
    assert MonthStart(4800 * era) == 146097 * era by {
      assert 4800 * era / 12 == 400 * era && 4800 * era % 12 == 0;
      assert (400 * era + 3) / 4 == 100 * era && (400 * era + 99) / 100 == 4 * era && (400 * era + 399) / 400 == era;
    }
    ScanContains(day, 4800 * era);
    ScanMonth(day, 4800 * era)
  }

  lemma {:induction false} ScanContains(day: int, k: int)
    requires MonthStart(k) <= day
    ensures MonthStart(ScanMonth(day, k)) <= day < MonthStart(ScanMonth(day, k) + 1)
    decreases day - MonthStart(k)
  {
    hide MonthStart;
    MonthStep(k);
    if day >= MonthStart(k + 1) {
      ScanContains(day, k + 1);
    }
  }

  function ScanMonth(day: int, k: int): int
    requires MonthStart(k) <= day
    decreases day - MonthStart(k)
  {
    hide MonthStart;
    MonthStep(k);
    if day < MonthStart(k + 1) then k else ScanMonth(day, k + 1)
  }

  lemma MonthOfUnique(day: int, k: int)
    requires MonthStart(k) <= day < MonthStart(k + 1)
    ensures MonthOf(day) == k
  {
    hide MonthOf, MonthStart;
    var r := MonthOf(day);
    if r < k {
      MonthsApart(r + 1, k);
    } else if k < r {
      MonthsApart(k + 1, r);
    }
  }

  lemma MonthOfMonotone(a: int, b: int)
    requires a <= b
    ensures MonthOf(a) <= MonthOf(b)
  {
    hide MonthOf, MonthStart;
    var j, k := MonthOf(a), MonthOf(b);
    if k < j {
      MonthsApart(k + 1, j);
    }
  }

  /** The month of the year, 1 to 12. */
  function MonthNumber(day: int): (m: int)
    ensures 1 <= m <= 12
  {
    MonthOf(day) % 12 + 1
  }

  /** The day of the month, 1 to 31. */
  function DayOfMonth(day: int): (d: int)
    ensures 1 <= d <= 31
  {
    hide MonthOf;
    MonthStep(MonthOf(day));
    day - MonthStart(MonthOf(day)) + 1
  }

  /** Sunday is 0; day 0 is a Saturday. */
  function Weekday(day: int): (w: int)
    ensures 0 <= w < 7
  {
    (day + 6) % 7
  }

  /** The day `time.Date` gives for day `d` of a month: a day past its end falls into the next month. */
  function DateDay(month: int, d: int): int {
    MonthStart(month) + d - 1
  }

  lemma DateDayInMonth(month: int, d: int)
    requires 1 <= d <= MonthLength(month)
    ensures MonthOf(DateDay(month, d)) == month && DayOfMonth(DateDay(month, d)) == d
  {
    MonthStep(month);
    MonthOfUnique(DateDay(month, d), month);
  }

  /** 1 January 1970 was a Thursday. */
  lemma KnownDate()
    ensures DateDay(12 * 1970, 1) == 719528 && Weekday(719528) == 4
    ensures MonthOf(719528) == 12 * 1970 && MonthNumber(719528) == 1 && DayOfMonth(719528) == 1
  {
    hide MonthOf;
    assert MonthStart(23640) == 719528;
    hide MonthStart;
    DateDayInMonth(23640, 1);
  }

  /** Each day is one weekday further, and the week starts again after Saturday. */
  lemma NextWeekday(day: int)
    ensures Weekday(day + 1) == if Weekday(day) == 6 then 0 else Weekday(day) + 1
  {
  }

  /** The months of a year, in order, and how long they are. */
  lemma MonthLengths(y: int, m: nat)
    requires m < 12
    ensures MonthLength(12 * y + m) == [31, if IsLeap(y) then 29 else 28, 31, 30, 31, 30, 31, 31, 30, 31, 30, 31][m]
    ensures IsLeap(y) <==> y % 400 == 0 || (y % 4 == 0 && y % 100 != 0)
  {
    LeapRule(y);
    assert (12 * y + m) / 12 == y && (12 * y + m) % 12 == m;
  }

  // ---------- Years of every kind ----------

  /** Years 2000 + r + 4 * j for small r and j, shifted by whole 400-year cycles. */
  lemma YearsFourApart(r: int, j: int, n: int)
    requires 0 <= r < 2 && 0 <= j < 7
    ensures YearStart(2000 + r + 4 * j + 400 * n) == 730485 + 366 * r + 1461 * j + 146097 * n
    ensures IsLeap(2000 + r + 4 * j + 400 * n) == (r == 0)
  {
    var y, x := 2000 + r + 4 * j + 400 * n, 4 * j + r;
    DivIs(y + 3, 4, 500 + j + 100 * n + r, if r == 0 then 3 else 0);
    DivIs(y + 99, 100, if x == 0 then 20 + 4 * n else 21 + 4 * n, if x == 0 then 99 else x - 1);
    DivIs(y + 399, 400, if x == 0 then 5 + n else 6 + n, if x == 0 then 399 else x - 1);
    DivIs(y, 4, 500 + j + 100 * n, r);
    DivIs(y, 100, 20 + 4 * n, x);
    DivIs(y, 400, 5 + n, x);
  }

  /** A year after any given one, leap or common as wanted, in which day `d` of month `m` falls on weekday `w`. */
  lemma YearWithWeekday(leap: bool, m: nat, d: nat, w: int, after: int) returns (y: int)
    requires m < 12 && 0 <= w < 7
    ensures y > after && IsLeap(y) == leap && Weekday(DateDay(12 * y + m, d)) == w
  {
    var r := if leap then 0 else 1;
    var n := if after < 0 then 0 else after;
    var base := 730485 + 366 * r + MonthOffset(m, leap) + d - 1 + 146097 * n;
    var j := ((w - Weekday(base)) * 3) % 7;
    y := 2000 + r + 4 * j + 400 * n;
    YearsFourApart(r, j, n);
    assert (12 * y + m) / 12 == y && (12 * y + m) % 12 == m;
    assert DateDay(12 * y + m, d) == base + 1461 * j;
    WeekdayShift(base, w, j);
  }

  lemma WeekdayShift(base: int, w: int, j: int)
    requires 0 <= w < 7 && j == ((w - Weekday(base)) * 3) % 7
    ensures Weekday(base + 1461 * j) == w
  {
    var u := Weekday(base);
    var q := (base + 6) / 7;
    assert base + 6 == 7 * q + u;
    var p := ((w - u) * 3) / 7;
    assert (w - u) * 3 == 7 * p + j;
    assert base + 1461 * j + 6 == 7 * (q + 208 * j) + u + 5 * j;
    assert u + 5 * j == w + 7 * (2 * (w - u) - 5 * p);
    assert base + 1461 * j + 6 == 7 * (q + 208 * j + 2 * (w - u) - 5 * p) + w;
  }
}
