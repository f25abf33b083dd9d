/**
 * The proleptic Gregorian calendar as Python's `datetime` counts it: day 1 is
 * 0001-01-01 and every date maps to its ordinal, the number of days since
 * then plus one. Subtracting two `datetime` values goes through this ordinal.
 * Comparing them does not: CPython compares naive values field by field.
 */
module Calendar {

  const MinYear := 1
  const MaxYear := 9999
  /** The ordinal of 9999-12-31, the last date `datetime` can hold. */
  const MaxOrdinal := 3652059

  predicate IsLeap(year: int) {
    year % 4 == 0 && (year % 100 != 0 || year % 400 == 0)
  }

  function DaysInYear(year: int): int {
    if IsLeap(year) then 366 else 365
  }

  /** Lengths of the months of a common year, January first. */
  const MonthLengths: seq<int> := [31, 28, 31, 30, 31, 30, 31, 31, 30, 31, 30, 31]
  /** Days of a common year that precede the first of each month. */
  const DaysBeforeMonthTable: seq<int> := [0, 31, 59, 90, 120, 151, 181, 212, 243, 273, 304, 334]

  function DaysInMonth(year: int, month: int): (n: int)
    requires 1 <= month <= 12
    ensures 28 <= n <= 31
    ensures n == 29 <==> month == 2 && IsLeap(year)
  {
    if month == 2 && IsLeap(year) then 29 else MonthLengths[month - 1]
  }

  function DaysBeforeMonth(year: int, month: int): int
    requires 1 <= month <= 12
  {
    DaysBeforeMonthTable[month - 1] + (if month > 2 && IsLeap(year) then 1 else 0)
  }

  /** Days from 0001-01-01 to January 1 of `year`, in closed form. */
  function DaysBeforeYear(year: int): int
    requires year >= MinYear
  {
    var y := year - 1;
    y * 365 + y / 4 - y / 100 + y / 400
  }

  predicate ValidDate(year: int, month: int, day: int) {
    MinYear <= year <= MaxYear && 1 <= month <= 12 && 1 <= day <= DaysInMonth(year, month)
  }

  function Ordinal(year: int, month: int, day: int): int
    requires ValidDate(year, month, day)
  {
    DaysBeforeYear(year) + DaysBeforeMonth(year, month) + day
  }

  /** Strict lexicographic order on (year, month, day). */
  predicate DateBefore(y1: int, m1: int, d1: int, y2: int, m2: int, d2: int) {
    y1 < y2 || (y1 == y2 && (m1 < m2 || (m1 == m2 && d1 < d2)))
  }

  /** The closed form of `DaysBeforeYear` adds exactly one year's length per year. */
  lemma DaysBeforeYearStep(year: int)
    requires year >= MinYear
    ensures DaysBeforeYear(year + 1) == DaysBeforeYear(year) + DaysInYear(year)
  {
    DivStep(year, 4);
    DivStep(year, 100);
    DivStep(year, 400);
  }

  /** Stepping from `x - 1` to `x` raises `x / k` exactly when `k` divides `x`. */
  lemma DivStep(x: int, k: int)
    requires k > 0
    ensures x / k - (x - 1) / k == (if x % k == 0 then 1 else 0)
  {
    var q, r := x / k, x % k;
    assert x == q * k + r && 0 <= r < k;
    if r == 0 {
      assert x - 1 == (q - 1) * k + (k - 1);
      DivUnique(x - 1, k, q - 1, k - 1);
    } else {
      assert x - 1 == q * k + (r - 1);
      DivUnique(x - 1, k, q, r - 1);
    }
  }

  /** Euclidean division has exactly one quotient. */
  lemma DivUnique(x: int, k: int, q: int, r: int)
    requires k > 0 && 0 <= r < k && x == q * k + r
    ensures x / k == q
  {
    var q', r' := x / k, x % k;
    var d := q' - q;
    assert d * k == r - r';
    if d >= 1 {
      MulAtLeast(d, k);
    } else if d <= -1 {
      MulAtLeast(-d, k);
    }
  }

  lemma MulAtLeast(d: int, k: int)
    requires d >= 1 && k > 0
    ensures d * k >= k
  {
  }

  /** Later years start at least 365 days per year later. */
  lemma {:induction false} DaysBeforeYearGrows(a: int, b: int)
    requires MinYear <= a <= b
    ensures DaysBeforeYear(b) - DaysBeforeYear(a) >= 365 * (b - a)
    decreases b - a
  {
    if a < b {
      DaysBeforeYearStep(a);
      DaysBeforeYearGrows(a + 1, b);
    }
  }

  /** A date's ordinal lies inside its own year. */
  lemma OrdinalWithinYear(year: int, month: int, day: int)
    requires ValidDate(year, month, day)
    ensures DaysBeforeYear(year) < Ordinal(year, month, day) <= DaysBeforeYear(year + 1)
  {
    MonthsBound(year, month);
    DaysBeforeYearStep(year);
  }

  /** A month ends no later than its year. */
  lemma MonthsBound(year: int, month: int)
    requires 1 <= month <= 12
    ensures DaysBeforeMonth(year, month) + DaysInMonth(year, month) <= DaysInYear(year)
  {
  }

  /** Later months of one year start no earlier than an earlier month ends. */
  lemma MonthsOrdered(year: int, m1: int, m2: int)
    requires 1 <= m1 < m2 <= 12
    ensures DaysBeforeMonth(year, m1) + DaysInMonth(year, m1) <= DaysBeforeMonth(year, m2)
  {
  }

  /** The ordinal is strictly increasing in calendar order. */
  lemma OrdinalMonotone(y1: int, m1: int, d1: int, y2: int, m2: int, d2: int)
    requires ValidDate(y1, m1, d1) && ValidDate(y2, m2, d2)
    requires DateBefore(y1, m1, d1, y2, m2, d2)
    ensures Ordinal(y1, m1, d1) < Ordinal(y2, m2, d2)
  {
    if y1 < y2 {
      OrdinalWithinYear(y1, m1, d1);
      OrdinalWithinYear(y2, m2, d2);
      DaysBeforeYearGrows(y1 + 1, y2);
    } else if m1 < m2 {
      MonthsOrdered(y1, m1, m2);
    }
  }

  /** Every valid date has an ordinal between 1 (0001-01-01) and `MaxOrdinal` (9999-12-31). */
  lemma OrdinalRange(year: int, month: int, day: int)
    requires ValidDate(year, month, day)
    ensures 1 <= Ordinal(year, month, day) <= MaxOrdinal
  {
    OrdinalWithinYear(year, month, day);
    DaysBeforeYearGrows(1, year);
    DaysBeforeYearGrows(year + 1, MaxYear + 1);
    assert DaysBeforeYear(MaxYear + 1) == MaxOrdinal;
  }
}
