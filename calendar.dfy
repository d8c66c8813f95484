/**
 * The part of Python's `datetime.date` the selector uses: which
 * (year, month, day) triples are dates, and the proleptic Gregorian day
 * ordinal (`date.toordinal`). Python computes `date - timedelta(days=i)`
 * and compares dates through this ordinal, and so does this model.
 */
module Calendar {
  const MinYear := 1
  const MaxYear := 9999
  /** The ordinals of `date(1, 1, 1)` and `date(9999, 12, 31)`. */
  const MinOrdinal := 1
  const MaxOrdinal := 3652059

  /** A day given by its ordinal: what `date.today()` can return. */
  type Ordinal = o: int | MinOrdinal <= o <= MaxOrdinal witness MinOrdinal

  datatype Date = Date(year: int, month: int, day: int)

  predicate IsLeap(year: int)
  {
    year % 4 == 0 && (year % 100 != 0 || year % 400 == 0)
  }

  function DaysInYear(year: int): int
  {
    if IsLeap(year) then 366 else 365
  }

  function DaysInMonth(year: int, month: int): int
    requires 1 <= month <= 12
  {
    if month == 2 then (if IsLeap(year) then 29 else 28)
    else if month == 4 || month == 6 || month == 9 || month == 11 then 30
    else 31
  }

  /** The arguments `date(year, month, day)` accepts without `ValueError`. */
  predicate Valid(d: Date)
  {
    MinYear <= d.year <= MaxYear && 1 <= d.month <= 12 && 1 <= d.day <= DaysInMonth(d.year, d.month)
  }

  /** Days in the years before `year` (Python's `_days_before_year`). */
  function DaysBeforeYear(year: int): int
    requires year >= 1
  {
    var y := year - 1;
    y * 365 + y / 4 - y / 100 + y / 400
  }

  /** Days in the months of `year` before `month` (Python's `_days_before_month`). */
  function DaysBeforeMonth(year: int, month: int): int
    requires 1 <= month <= 12
  {
    [0, 31, 59, 90, 120, 151, 181, 212, 243, 273, 304, 334][month - 1]
      + (if month > 2 && IsLeap(year) then 1 else 0)
  }

  lemma DaysBeforeYearStep(year: int)
    requires year >= 1
    ensures DaysBeforeYear(year + 1) == DaysBeforeYear(year) + DaysInYear(year)
  {
    var y := year - 1;
    QuotientStep(y, 4);
    QuotientStep(y, 100);
    QuotientStep(y, 400);
    CenturiesAreLeapCandidates(year);
    var extra := (year / 4 - y / 4) - (year / 100 - y / 100) + (year / 400 - y / 400);
    assert extra == (if IsLeap(year) then 1 else 0);
    assert DaysBeforeYear(year + 1) == DaysBeforeYear(year) + 365 + extra;
  }

  /** Multiples of 400 are multiples of 100, which are multiples of 4. */
  lemma CenturiesAreLeapCandidates(year: int)
    ensures year % 400 == 0 ==> year % 100 == 0
    ensures year % 100 == 0 ==> year % 4 == 0
  {
    var a, b, c := year / 400, year / 100, year / 4;
    assert year == 400 * a + year % 400;
    assert year == 100 * b + year % 100;
    assert year == 4 * c + year % 4;
    if year % 400 == 0 {
      assert year % 100 == 100 * (4 * a - b);
      assert 0 <= 4 * a - b < 1;
    }
    if year % 100 == 0 {
      assert year % 4 == 4 * (25 * b - c);
      assert 0 <= 25 * b - c < 1;
    }
  }

  /** Counting one further, the quotient by `k` grows exactly at multiples of `k`. */
  lemma QuotientStep(y: nat, k: nat)
    requires k == 4 || k == 100 || k == 400
    ensures (y + 1) / k == y / k + (if (y + 1) % k == 0 then 1 else 0)
  {
  }

  lemma DaysBeforeMonthStep(year: int, month: int)
    requires 1 <= month < 12
    ensures DaysBeforeMonth(year, month + 1) == DaysBeforeMonth(year, month) + DaysInMonth(year, month)
  {
  }

  /** The months of a year fill the year. */
  lemma MonthsFillYear(year: int)
    ensures DaysBeforeMonth(year, 12) + DaysInMonth(year, 12) == DaysInYear(year)
  {
  }

  /** Every day of an earlier year comes before the first day of a later one. */
  lemma {:induction false} YearsAdvance(y1: int, y2: int)
    requires 1 <= y1 < y2
    decreases y2 - y1
    ensures DaysBeforeYear(y1) + DaysInYear(y1) <= DaysBeforeYear(y2)
  {
    DaysBeforeYearStep(y1);
    if y1 + 1 < y2 {
      YearsAdvance(y1 + 1, y2);
      DaysBeforeYearStep(y1 + 1);
    }
  }

  /** Every day of an earlier month comes before the first day of a later one. */
  lemma {:induction false} MonthsAdvance(year: int, m1: int, m2: int)
    requires 1 <= m1 < m2 <= 12
    decreases m2 - m1
    ensures DaysBeforeMonth(year, m1) + DaysInMonth(year, m1) <= DaysBeforeMonth(year, m2)
  {
    DaysBeforeMonthStep(year, m1);
    if m1 + 1 < m2 {
      MonthsAdvance(year, m1 + 1, m2);
    }
  }

  /** The last day of a month is no later than the last day of its year. */
  lemma WithinYear(year: int, month: int)
    requires 1 <= month <= 12
    ensures DaysBeforeMonth(year, month) + DaysInMonth(year, month) <= DaysInYear(year)
  {
    MonthsFillYear(year);
    if month < 12 {
      MonthsAdvance(year, month, 12);
    }
  }

  /** `date.toordinal()`: 1 for `date(1, 1, 1)`, counting days from there. */
  function ToOrdinal(d: Date): (o: int)
    requires Valid(d)
    ensures MinOrdinal <= o <= MaxOrdinal
  {
    WithinYear(d.year, d.month);
    YearsAdvance(d.year, MaxYear + 1);
    DaysBeforeYear(d.year) + DaysBeforeMonth(d.year, d.month) + d.day
  }

  /** Calendar order: by year, then month, then day. */
  predicate Before(a: Date, b: Date)
  {
    a.year < b.year
    || (a.year == b.year && a.month < b.month)
    || (a.year == b.year && a.month == b.month && a.day < b.day)
  }

  lemma BeforeHasSmallerOrdinal(a: Date, b: Date)
    requires Valid(a) && Valid(b) && Before(a, b)
    ensures ToOrdinal(a) < ToOrdinal(b)
  {
    if a.year < b.year {
      WithinYear(a.year, a.month);
      YearsAdvance(a.year, b.year);
    } else if a.month < b.month {
      MonthsAdvance(a.year, a.month, b.month);
    }
  }

  /** The ordinal follows the calendar: one date is before another exactly
      when its ordinal is smaller, so two valid dates are equal exactly when
      their ordinals are. */
  lemma OrdinalOrder(a: Date, b: Date)
    requires Valid(a) && Valid(b)
    ensures Before(a, b) <==> ToOrdinal(a) < ToOrdinal(b)
    ensures a == b <==> ToOrdinal(a) == ToOrdinal(b)
  {
    if Before(a, b) {
      BeforeHasSmallerOrdinal(a, b);
    } else if Before(b, a) {
      BeforeHasSmallerOrdinal(b, a);
    }
  }
}
