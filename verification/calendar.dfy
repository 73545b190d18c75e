/** The proleptic Gregorian calendar of Python's `datetime.date`, restricted to
    the years that type accepts (1 through 9999). Dates are counted by an
    ordinal, day 1 being 1 January of year 1, exactly as `date.toordinal` does;
    date arithmetic such as `now - timedelta(days=1)` is ordinal arithmetic. */
module Calendar {

  /** `datetime.MINYEAR` and `datetime.MAXYEAR`. */
  const MinYear: int := 1
  const MaxYear: int := 9999

  datatype Date = Date(year: int, month: int, day: int)

  const MinDate: Date := Date(MinYear, 1, 1)
  const MaxDate: Date := Date(MaxYear, 12, 31)

  predicate IsLeapYear(y: int)
  {
    y % 4 == 0 && (y % 100 != 0 || y % 400 == 0)
  }

  function DaysInMonth(y: int, m: int): (n: int)
    requires 1 <= m <= 12
    ensures 28 <= n <= 31
    ensures n == 29 <==> m == 2 && IsLeapYear(y)
  {
    if m == 2 then (if IsLeapYear(y) then 29 else 28)
    else if m == 4 || m == 6 || m == 9 || m == 11 then 30
    else 31
  }

  function DaysInYear(y: int): int
  {
    if IsLeapYear(y) then 366 else 365
  }

  /** A date `datetime.date` would construct without raising ValueError. */
  predicate Valid(d: Date)
  {
    && MinYear <= d.year <= MaxYear
    && 1 <= d.month <= 12
    && 1 <= d.day <= DaysInMonth(d.year, d.month)
  }

  /** Days in the years before `y`, in closed form (CPython's `_days_before_year`). */
  function DaysBeforeYear(y: int): int
    requires y >= 1
  {
    var p := y - 1;
    p * 365 + p / 4 - p / 100 + p / 400
  }

  /** Days in the months of year `y` before month `m` (CPython's
      `_days_before_month`: a fixed table plus one after February in leap years). */
  function DaysBeforeMonth(y: int, m: int): int
    requires 1 <= m <= 12
  {
    var table := [0, 31, 59, 90, 120, 151, 181, 212, 243, 273, 304, 334];
    table[m - 1] + (if m > 2 && IsLeapYear(y) then 1 else 0)
  }

  /** `date.toordinal()`: 1 January of year 1 is day 1. */
  function Ordinal(d: Date): int
    requires Valid(d)
  {
    DaysBeforeYear(d.year) + DaysBeforeMonth(d.year, d.month) + d.day
  }

  /** Lexicographic order on (year, month, day), the order of `date.__lt__`. */
  predicate Before(a: Date, b: Date)
  {
    || a.year < b.year
    || (a.year == b.year && a.month < b.month)
    || (a.year == b.year && a.month == b.month && a.day < b.day)
  }

  /** The calendar day before `d`, stepping over month and year ends. The first
      representable date has no predecessor (Python raises OverflowError). */
  function Pred(d: Date): (r: Date)
    requires Valid(d) && d != MinDate
    ensures Valid(r)
    ensures Before(r, d)
  {
    if d.day > 1 then Date(d.year, d.month, d.day - 1)
    else if d.month > 1 then Date(d.year, d.month - 1, DaysInMonth(d.year, d.month - 1))
    else Date(d.year - 1, 12, 31)
  }

  /** The calendar day after `d`; the last representable date has none. */
  function Succ(d: Date): (r: Date)
    requires Valid(d) && d != MaxDate
    ensures Valid(r)
    ensures Before(d, r)
  {
    if d.day < DaysInMonth(d.year, d.month) then Date(d.year, d.month, d.day + 1)
    else if d.month < 12 then Date(d.year, d.month + 1, 1)
    else Date(d.year + 1, 1, 1)
  }

  // ---------------------------------------------------------------------------
  // Ordinal arithmetic

  /** Counting multiples of 4, 100 and 400: one more year crosses one more
      multiple exactly when the new year is that multiple. */
  lemma MultiplesStep(p: int)
    requires p >= 0
    ensures (p + 1) / 4 == p / 4 + (if (p + 1) % 4 == 0 then 1 else 0)
    ensures (p + 1) / 100 == p / 100 + (if (p + 1) % 100 == 0 then 1 else 0)
    ensures (p + 1) / 400 == p / 400 + (if (p + 1) % 400 == 0 then 1 else 0)
  {
  }

  lemma CenturyIsQuadrennial(y: int)
    requires y % 100 == 0
    ensures y % 4 == 0
  {
    var c := y / 100;
    assert y == 4 * (25 * c);
  }

  lemma QuadricentennialIsCentury(y: int)
    requires y % 400 == 0
    ensures y % 100 == 0
  {
    var c := y / 400;
    assert y == 100 * (4 * c);
  }

  /** A year contributes its own length to the days before the next one. */
  lemma DaysBeforeYearStep(y: int)
    requires y >= 1
    ensures DaysBeforeYear(y + 1) == DaysBeforeYear(y) + DaysInYear(y)
  {
    var p := y - 1;
    MultiplesStep(p);
    if y % 100 == 0 { CenturyIsQuadrennial(y); }
    if y % 400 == 0 { QuadricentennialIsCentury(y); }
  }

  lemma {:induction false} DaysBeforeYearMonotone(a: int, b: int)
    requires 1 <= a <= b
    ensures DaysBeforeYear(a) + DaysInYear(a) * (if a < b then 1 else 0) <= DaysBeforeYear(b)
    decreases b - a
  {
    if a < b {
      DaysBeforeYearStep(a);
      if a + 1 < b {
        DaysBeforeYearMonotone(a + 1, b);
      }
    }
  }

  /** The ordinal of a date lies inside its year's block of days. */
  lemma OrdinalWithinYear(d: Date)
    requires Valid(d)
    ensures DaysBeforeYear(d.year) < Ordinal(d) <= DaysBeforeYear(d.year) + DaysInYear(d.year)
  {
  }

  /** The ordinal of a date lies inside its month's block of days. */
  lemma OrdinalWithinMonth(d: Date)
    requires Valid(d)
    ensures DaysBeforeMonth(d.year, d.month) < Ordinal(d) - DaysBeforeYear(d.year)
    ensures Ordinal(d) - DaysBeforeYear(d.year) <= DaysBeforeMonth(d.year, d.month) + DaysInMonth(d.year, d.month)
    ensures d.month < 12 ==>
      DaysBeforeMonth(d.year, d.month) + DaysInMonth(d.year, d.month) == DaysBeforeMonth(d.year, d.month + 1)
  {
  }

  /** The ordinal respects the calendar order: it is strictly increasing. */
  lemma OrdinalStrictlyIncreasing(a: Date, b: Date)
    requires Valid(a) && Valid(b) && Before(a, b)
    ensures Ordinal(a) < Ordinal(b)
  {
    OrdinalWithinYear(a);
    OrdinalWithinYear(b);
    if a.year < b.year {
      DaysBeforeYearMonotone(a.year, b.year);
    } else if a.month < b.month {
      OrdinalWithinMonth(a);
      OrdinalWithinMonth(b);
      MonthBlocksIncrease(a.year, a.month, b.month);
    }
  }

  lemma {:induction false} MonthBlocksIncrease(y: int, m: int, n: int)
    requires 1 <= m < n <= 12
    ensures DaysBeforeMonth(y, m) + DaysInMonth(y, m) <= DaysBeforeMonth(y, n)
    decreases n - m
  {
    if m + 1 < n {
      MonthBlocksIncrease(y, m + 1, n);
    }
  }

  /** Distinct valid dates have distinct ordinals. */
  lemma OrdinalInjective(a: Date, b: Date)
    requires Valid(a) && Valid(b) && Ordinal(a) == Ordinal(b)
    ensures a == b
  {
    if Before(a, b) {
      OrdinalStrictlyIncreasing(a, b);
    } else if Before(b, a) {
      OrdinalStrictlyIncreasing(b, a);
    }
  }

  /** Stepping back one calendar day is subtracting one from the ordinal, so
      `Pred` agrees with `date - timedelta(days=1)`, including the rollover
      from 1 January to 31 December of the year before. */
  lemma PredIsOrdinalDecrement(d: Date)
    requires Valid(d) && d != MinDate
    ensures Ordinal(Pred(d)) == Ordinal(d) - 1
  {
    if d.day == 1 && d.month == 1 {
      DaysBeforeYearStep(d.year - 1);
    }
  }

  /** The predecessor is the only valid date one day earlier. */
  lemma PredUnique(d: Date, e: Date)
    requires Valid(d) && d != MinDate && Valid(e)
    ensures Ordinal(e) == Ordinal(d) - 1 <==> e == Pred(d)
  {
    PredIsOrdinalDecrement(d);
    if Ordinal(e) == Ordinal(d) - 1 {
      OrdinalInjective(e, Pred(d));
    }
  }

  /** The rollovers the cutoff rule relies on: 1 January steps back to 31
      December of the year before, 1 March to 29 February in leap years and to
      28 February otherwise, and the first of any other month to that
      previous month's last day. */
  lemma PredAtMonthStart(y: int, m: int)
    requires MinYear <= y <= MaxYear && 1 <= m <= 12 && Date(y, m, 1) != MinDate
    ensures m == 1 ==> Pred(Date(y, m, 1)) == Date(y - 1, 12, 31)
    ensures m == 3 ==> Pred(Date(y, m, 1)) == Date(y, 2, if IsLeapYear(y) then 29 else 28)
    ensures m > 1 ==> Pred(Date(y, m, 1)) == Date(y, m - 1, DaysInMonth(y, m - 1))
  {
  }

  /** `Succ` undoes `Pred`. */
  lemma SuccOfPred(d: Date)
    requires Valid(d) && d != MinDate
    ensures Pred(d) != MaxDate && Succ(Pred(d)) == d
  {
  }

  /** `Pred` undoes `Succ`. */
  lemma PredOfSucc(d: Date)
    requires Valid(d) && d != MaxDate
    ensures Succ(d) != MinDate && Pred(Succ(d)) == d
  {
  }

  /** Only the first representable date lacks a predecessor: it precedes
      every other valid date, and it is the one valid date no valid date lies
      one day before. This is why stepping back from it is the only way the
      expected-date computation can fail. */
  lemma MinDateIsFirst(d: Date)
    requires Valid(d)
    ensures d == MinDate || Before(MinDate, d)
    ensures d == MinDate <==> forall e :: Valid(e) ==> Ordinal(e) != Ordinal(d) - 1
  {
    if d == MinDate {
      forall e | Valid(e)
        ensures Ordinal(e) != Ordinal(d) - 1
      {
        DaysBeforeYearMonotone(1, e.year);
      }
    } else {
      PredIsOrdinalDecrement(d);
    }
  }
}
