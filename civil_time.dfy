/**
 * The proleptic Gregorian calendar that Python's `datetime` uses, counted in
 * days from 0001-01-01 (day 0). Dates are found by walking years and months
 * from the start of the calendar.
 */
module CivilTime {

  predicate IsLeap(y: int) {
    y % 4 == 0 && (y % 100 != 0 || y % 400 == 0)
  }

  function DaysInYear(y: int): (n: int)
    ensures n == 365 || n == 366
  {
    if IsLeap(y) then 366 else 365
  }

  function DaysInMonth(y: int, m: int): (n: int)
    requires 1 <= m <= 12
    ensures 28 <= n <= 31
  {
    if m == 2 then (if IsLeap(y) then 29 else 28)
    else if m == 4 || m == 6 || m == 9 || m == 11 then 30
    else 31
  }

  /** Days of year `y` before the first of month `m`; month 13 closes the year. */
  function DaysBeforeMonth(y: int, m: int): (n: nat)
    requires 1 <= m <= 13
  {
    [0, 31, 59, 90, 120, 151, 181, 212, 243, 273, 304, 334, 365][m - 1]
      + (if m > 2 && IsLeap(y) then 1 else 0)
  }

  lemma MonthStep(y: int, m: int)
    requires 1 <= m <= 12
    ensures DaysBeforeMonth(y, m + 1) == DaysBeforeMonth(y, m) + DaysInMonth(y, m)
    ensures DaysBeforeMonth(y, 1) == 0 && DaysBeforeMonth(y, 13) == DaysInYear(y)
  {
  }

  /** Days from 0001-01-01 to the first of January of year `y` (`_days_before_year`). */
  function DaysBeforeYear(y: int): nat
    requires y >= 1
  {
    var p := y - 1;
    p * 365 + p / 4 - p / 100 + p / 400
  }

  /** Each year starts where the previous one ends. */
  lemma YearStep(y: int)
    requires y >= 1
    ensures DaysBeforeYear(y + 1) == DaysBeforeYear(y) + DaysInYear(y)
  {
    CountStep(y, 4);
    CountStep(y, 100);
    CountStep(y, 400);
    if y % 100 == 0 {
      DivUnique(y, 4, y / 100 * 25, 0);
    }
    if y % 400 == 0 {
      DivUnique(y, 100, y / 400 * 4, 0);
    }
  }

  /** Among 1..y, one more multiple of `k` than among 1..y-1 exactly when `k` divides `y`. */
  lemma CountStep(y: int, k: int)
    requires k > 0
    ensures y / k == (y - 1) / k + (if y % k == 0 then 1 else 0)
  {
    var q := (y - 1) / k;
    var r := (y - 1) % k;
    if r + 1 == k {
      DivUnique(y, k, q + 1, 0);
    } else {
      DivUnique(y, k, q, r + 1);
    }
  }

  /** Quotient and remainder are the only ones: `x == q * k + r` with `0 <= r < k` fixes them. */
  lemma DivUnique(x: int, k: int, q: int, r: int)
    requires k > 0 && 0 <= r < k && x == q * k + r
    ensures x / k == q && x % k == r
  {
    var q', r' := x / k, x % k;
    assert (q - q') * k == r' - r;
    if q > q' {
      AtLeastOnce(q - q', k);
    } else if q < q' {
      AtLeastOnce(q' - q, k);
    }
  }

  lemma {:induction false} AtLeastOnce(d: int, k: int)
    requires d >= 1 && k > 0
    ensures d * k >= k
    decreases d
  {
    if d > 1 {
      AtLeastOnce(d - 1, k);
      assert d * k == (d - 1) * k + k;
    }
  }

  /** Later years start later: the year of a day count is unique. */
  lemma {:induction false} YearsIncrease(a: int, b: int)
    requires 1 <= a < b
    ensures DaysBeforeYear(a) + DaysInYear(a) <= DaysBeforeYear(b)
    decreases b - a
  {
    YearStep(a);
    if a + 1 < b {
      YearsIncrease(a + 1, b);
    }
  }

  predicate ValidDate(y: int, m: int, d: int) {
    1 <= y && 1 <= m <= 12 && 1 <= d <= DaysInMonth(y, m)
  }

  /** Python's `date.toordinal() - 1`. */
  function Ordinal(y: int, m: int, d: int): nat
    requires ValidDate(y, m, d)
  {
    DaysBeforeYear(y) + DaysBeforeMonth(y, m) + d - 1
  }

  /** The ordinal of a date lies within its own year. */
  lemma OrdinalInYear(y: int, m: int, d: int)
    requires ValidDate(y, m, d)
    ensures DaysBeforeYear(y) <= Ordinal(y, m, d) < DaysBeforeYear(y) + DaysInYear(y)
  {
    MonthStep(y, m);
    MonthsIncrease(y, m + 1, 13);
  }

  lemma MonthsIncrease(y: int, a: int, b: int)
    requires 1 <= a <= b <= 13
    ensures DaysBeforeMonth(y, a) <= DaysBeforeMonth(y, b)
  {
  }

  /**
   * The year containing day `n` counted from the first of January of `y`,
   * with the day's offset into that year.
   */
  function YearOf(n: nat, y: int): (r: (int, nat))
    requires y >= 1
    ensures r.0 >= y && r.1 < DaysInYear(r.0)
    ensures DaysBeforeYear(r.0) + r.1 == DaysBeforeYear(y) + n
    decreases n
  {
    YearStep(y);
    if n < DaysInYear(y) then (y, n) else YearOf(n - DaysInYear(y), y + 1)
  }

  /** The month of year `y` that contains day-of-year `doy`, searching down from month `m`. */
  function MonthOf(doy: nat, y: int, m: int): (r: int)
    requires 1 <= m <= 12 && doy < DaysBeforeMonth(y, m + 1)
    ensures 1 <= r <= m
    ensures DaysBeforeMonth(y, r) <= doy < DaysBeforeMonth(y, r + 1)
  {
    if DaysBeforeMonth(y, m) <= doy || m == 1 then m else MonthOf(doy, y, m - 1)
  }

  /** The calendar date of day `n` after 0001-01-01. */
  function CivilFromOrdinal(n: nat): (r: (int, int, int))
    ensures ValidDate(r.0, r.1, r.2) && Ordinal(r.0, r.1, r.2) == n
    ensures n < DaysBeforeYear(10000) ==> r.0 <= 9999
  {
    var (y, doy) := YearOf(n, 1);
    MonthStep(y, 12);
    var m := MonthOf(doy, y, 12);
    MonthStep(y, m);
    var d := doy - DaysBeforeMonth(y, m) + 1;
    if y > 10000 then
      YearsIncrease(10000, y);
      (y, m, d)
    else
      (y, m, d)
  }

  /** Two valid dates with the same ordinal are the same date. */
  lemma OrdinalInjective(y1: int, m1: int, d1: int, y2: int, m2: int, d2: int)
    requires ValidDate(y1, m1, d1) && ValidDate(y2, m2, d2)
    requires Ordinal(y1, m1, d1) == Ordinal(y2, m2, d2)
    ensures y1 == y2 && m1 == m2 && d1 == d2
  {
    OrdinalInYear(y1, m1, d1);
    OrdinalInYear(y2, m2, d2);
    if y1 < y2 {
      YearsIncrease(y1, y2);
    } else if y2 < y1 {
      YearsIncrease(y2, y1);
    }
    MonthStep(y1, m1);
    MonthStep(y1, m2);
    if m1 < m2 {
      MonthsIncrease(y1, m1 + 1, m2);
    } else if m2 < m1 {
      MonthsIncrease(y1, m2 + 1, m1);
    }
  }

  /** Converting a date to its ordinal and back gives the date. */
  lemma CivilOfOrdinal(y: int, m: int, d: int)
    requires ValidDate(y, m, d)
    ensures CivilFromOrdinal(Ordinal(y, m, d)) == (y, m, d)
  {
    var r := CivilFromOrdinal(Ordinal(y, m, d));
    OrdinalInjective(r.0, r.1, r.2, y, m, d);
  }
}
