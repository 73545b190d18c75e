/** The cutoff rule of `get_expected_report_date`: before 17:00 US/Eastern the
    latest report that can exist is yesterday's, from 17:00 on it is today's.
    The wall clock and the UTC to US/Eastern conversion are not modelled: the
    local (Eastern) date and time of day are the input. */
module Cutoff {
  import opened Common
  import opened Calendar

  /** The local hour from which today's report is expected. */
  const CutoffHour: int := 17

  /** A local wall-clock reading, as an aware `datetime` in US/Eastern. */
  datatype LocalTime = LocalTime(date: Date, hour: int, minute: int, second: int)

  predicate ValidTime(t: LocalTime)
  {
    Valid(t.date) && 0 <= t.hour < 24 && 0 <= t.minute < 60 && 0 <= t.second < 60
  }

  /** The date of the last report that must exist at local time `t`. `None`
      stands for the OverflowError Python raises when stepping back from the
      first representable date. */
  function ExpectedReportDate(t: LocalTime): (r: Option<Date>)
    requires ValidTime(t)
    ensures r.Some? ==> Valid(r.value)
    ensures t.hour >= CutoffHour ==> r == Some(t.date)
    ensures t.hour < CutoffHour ==> (r.None? <==> t.date == MinDate)
    ensures t.hour < CutoffHour && r.Some? ==> Ordinal(r.value) == Ordinal(t.date) - 1
  {
    if t.hour < CutoffHour then
      if t.date == MinDate then None
      else PredIsOrdinalDecrement(t.date); Some(Pred(t.date))
    else Some(t.date)
  }

  /** Later in the day never means an earlier expected date; the order of
      local times is (date, hour, minute, second) lexicographically. */
  predicate NotLater(a: LocalTime, b: LocalTime)
    requires ValidTime(a) && ValidTime(b)
  {
    || Ordinal(a.date) < Ordinal(b.date)
    || (a.date == b.date && a.hour < b.hour)
    || (a.date == b.date && a.hour == b.hour && a.minute < b.minute)
    || (a.date == b.date && a.hour == b.hour && a.minute == b.minute && a.second <= b.second)
  }

  /** Before the cutoff the expected date is yesterday: 16:59 gives the day
      before, across month and year ends. */
  lemma BeforeCutoffIsYesterday(t: LocalTime)
    requires ValidTime(t) && t.hour < CutoffHour && t.date != MinDate
    ensures ExpectedReportDate(t) == Some(Pred(t.date))
  {
    var r := ExpectedReportDate(t);
    PredUnique(t.date, r.value);
  }

  /** Minutes and seconds never affect the expected date. */
  lemma OnlyTheHourMatters(t: LocalTime, minute: int, second: int)
    requires ValidTime(t) && 0 <= minute < 60 && 0 <= second < 60
    ensures ExpectedReportDate(t.(minute := minute, second := second)) == ExpectedReportDate(t)
  {
  }

  /** For one local date, the expected date is the same for all hours on the
      same side of the cutoff, and differs between hour 16 and hour 17. */
  lemma ChangesOnlyAtCutoff(d: Date, h1: int, h2: int)
    requires Valid(d) && 0 <= h1 < 24 && 0 <= h2 < 24
    ensures ExpectedReportDate(LocalTime(d, h1, 0, 0)) == ExpectedReportDate(LocalTime(d, h2, 0, 0))
        <==> (h1 < CutoffHour <==> h2 < CutoffHour)
  {
    var a, b := ExpectedReportDate(LocalTime(d, h1, 0, 0)), ExpectedReportDate(LocalTime(d, h2, 0, 0));
    if d == MinDate {
    } else if h1 < CutoffHour && h2 >= CutoffHour {
      assert Ordinal(a.value) != Ordinal(b.value);
    } else if h2 < CutoffHour && h1 >= CutoffHour {
      assert Ordinal(a.value) != Ordinal(b.value);
    }
  }

  /** The expected date never goes backwards as local time advances, and it
      always lies on the local date or the day before. */
  lemma ExpectedDateMonotone(a: LocalTime, b: LocalTime)
    requires ValidTime(a) && ValidTime(b) && NotLater(a, b)
    requires ExpectedReportDate(a).Some? && ExpectedReportDate(b).Some?
    ensures Ordinal(ExpectedReportDate(a).value) <= Ordinal(ExpectedReportDate(b).value)
  {
  }

  /** The expected date is the local date or the day before, never further. */
  lemma ExpectedDateLag(t: LocalTime)
    requires ValidTime(t) && ExpectedReportDate(t).Some?
    ensures Ordinal(t.date) - 1 <= Ordinal(ExpectedReportDate(t).value) <= Ordinal(t.date)
  {
  }
}
