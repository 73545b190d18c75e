/** Naming and existence of a daily report file: the report for date `d` is
    the file `DD-MM-YYYY.csv` (strftime `%d-%m-%Y` plus `.csv`) directly inside
    a report directory. A directory is modelled by the set of names it holds. */
module ReportFile {
  import opened Common
  import opened Calendar
  import opened Cutoff

  const Extension: string := ".csv"

  function Pow10(n: nat): nat
  {
    if n == 0 then 1 else 10 * Pow10(n - 1)
  }

  predicate IsDigit(c: char)
  {
    '0' <= c <= '9'
  }

  predicate AllDigits(s: string)
  {
    forall i :: 0 <= i < |s| ==> IsDigit(s[i])
  }

  function DigitChar(k: nat): (c: char)
    requires k < 10
    ensures IsDigit(c)
  {
    ('0' as int + k) as char
  }

  function DigitValue(c: char): (k: nat)
    requires IsDigit(c)
    ensures k < 10 && DigitChar(k) == c
  {
    c as int - '0' as int
  }

  /** `n` in decimal, zero-padded on the left to exactly `width` digits. */
  function Decimal(n: nat, width: nat): (s: string)
    requires n < Pow10(width)
    ensures |s| == width && AllDigits(s)
    decreases width
  {
    if width == 0 then ""
    else Decimal(n / 10, width - 1) + [DigitChar(n % 10)]
  }

  /** Reads a string of decimal digits; any other character is rejected. */
  function ParseDecimal(s: string): (r: Option<nat>)
    ensures r.Some? <==> AllDigits(s)
    ensures r.Some? ==> r.value < Pow10(|s|)
    decreases |s|
  {
    if |s| == 0 then Some(0)
    else
      match ParseDecimal(s[..|s| - 1])
      case None => None
      case Some(v) =>
        if IsDigit(s[|s| - 1]) then Some(10 * v + DigitValue(s[|s| - 1])) else None
  }

  /** Reading back a padded number gives the number. */
  lemma {:induction false} ParseDecimalOfDecimal(n: nat, width: nat)
    requires n < Pow10(width)
    ensures ParseDecimal(Decimal(n, width)) == Some(n)
    decreases width
  {
    if width > 0 {
      var s := Decimal(n, width);
      assert s[..width - 1] == Decimal(n / 10, width - 1);
      ParseDecimalOfDecimal(n / 10, width - 1);
      assert DigitValue(DigitChar(n % 10)) == n % 10;
    }
  }

  /** Padding a parsed digit string to its own length gives the string back,
      so no two digit strings of one width read as the same number. */
  lemma {:induction false} DecimalOfParseDecimal(s: string)
    requires AllDigits(s)
    ensures ParseDecimal(s).Some? && Decimal(ParseDecimal(s).value, |s|) == s
    decreases |s|
  {
    if |s| > 0 {
      var init := s[..|s| - 1];
      assert AllDigits(init) by {
        forall i | 0 <= i < |init| ensures IsDigit(init[i]) {
          assert init[i] == s[i];
        }
      }
      DecimalOfParseDecimal(init);
      var v := ParseDecimal(init).value;
      var n := 10 * v + DigitValue(s[|s| - 1]);
      assert n / 10 == v && n % 10 == DigitValue(s[|s| - 1]);
      assert s == init + [s[|s| - 1]];
    }
  }

  /** The report file name for `d`: two-digit day, `-`, two-digit month, `-`,
      four-digit year, `.csv`. */
  function FileName(d: Date): (name: string)
    requires Valid(d)
    ensures |name| == 14 && name[2] == '-' && name[5] == '-' && name[10..] == Extension
    ensures AllDigits(name[..2]) && AllDigits(name[3..5]) && AllDigits(name[6..10])
  {
    var name := Decimal(d.day, 2) + "-" + Decimal(d.month, 2) + "-" + Decimal(d.year, 4) + Extension;
    assert name[..2] == Decimal(d.day, 2);
    assert name[3..5] == Decimal(d.month, 2);
    assert name[6..10] == Decimal(d.year, 4);
    name
  }

  /** Recognises a report file name and returns the date it names; names of
      any other shape, and names of impossible dates such as 31-02, give
      `None`. This is the inverse the existence check is measured against. */
  function ParseFileName(name: string): (r: Option<Date>)
    ensures r.Some? ==> Valid(r.value)
  {
    if |name| != 14 || name[2] != '-' || name[5] != '-' || name[10..] != Extension then None
    else
      match (ParseDecimal(name[..2]), ParseDecimal(name[3..5]), ParseDecimal(name[6..10]))
      case (Some(day), Some(month), Some(year)) =>
        if Valid(Date(year, month, day)) then Some(Date(year, month, day)) else None
      case _ => None
  }

  /** Every report name reads back as its date. */
  lemma ParseFileNameOfFileName(d: Date)
    requires Valid(d)
    ensures ParseFileName(FileName(d)) == Some(d)
  {
    var name := FileName(d);
    assert name[..2] == Decimal(d.day, 2);
    assert name[3..5] == Decimal(d.month, 2);
    assert name[6..10] == Decimal(d.year, 4);
    ParseDecimalOfDecimal(d.day, 2);
    ParseDecimalOfDecimal(d.month, 2);
    ParseDecimalOfDecimal(d.year, 4);
  }

  /** Every name that reads as a date is exactly that date's report name. */
  lemma FileNameOfParseFileName(name: string)
    requires ParseFileName(name).Some?
    ensures FileName(ParseFileName(name).value) == name
  {
    var d := ParseFileName(name).value;
    DecimalOfParseDecimal(name[..2]);
    DecimalOfParseDecimal(name[3..5]);
    DecimalOfParseDecimal(name[6..10]);
    assert name == name[..2] + "-" + name[3..5] + "-" + name[6..10] + Extension;
  }

  /** Distinct dates have distinct report names. */
  lemma FileNameInjective(a: Date, b: Date)
    requires Valid(a) && Valid(b) && FileName(a) == FileName(b)
    ensures a == b
  {
    ParseFileNameOfFileName(a);
    ParseFileNameOfFileName(b);
  }

  /** `(report_dir / FileName(d)).exists()`: the report exists exactly when
      some file in the directory names date `d`, so no other file can stand
      in for it. */
  predicate ReportExists(files: set<string>, d: Date): (r: bool)
    requires Valid(d)
    ensures r <==> exists name :: name in files && ParseFileName(name) == Some(d)
  {
    NamedIffFileName(files, d);
    FileName(d) in files
  }

  /** A directory holds a file naming `d` exactly when it holds `d`'s report name. */
  lemma NamedIffFileName(files: set<string>, d: Date)
    requires Valid(d)
    ensures FileName(d) in files <==> exists name :: name in files && ParseFileName(name) == Some(d)
  {
    ParseFileNameOfFileName(d);
    if name :| name in files && ParseFileName(name) == Some(d) {
      FileNameOfParseFileName(name);
    }
  }

  /** Adding or removing files that do not name `d` leaves the check unchanged. */
  lemma UnrelatedFilesIrrelevant(files: set<string>, other: set<string>, d: Date)
    requires Valid(d)
    requires forall name :: name in other ==> ParseFileName(name) != Some(d)
    ensures ReportExists(files + other, d) == ReportExists(files, d)
    ensures ReportExists(files - other, d) == ReportExists(files, d)
  {
    ParseFileNameOfFileName(d);
  }

  /** What `check_last_report_exists` can come to: `True`, `False`, the
      OverflowError raised while computing the expected date, or the OSError
      (such as PermissionError) `Path.exists` raises for a directory that
      cannot be searched. */
  datatype Verdict = Present | Absent | DateOverflow | Unreadable

  /** `check_last_report_exists`: whether the report for the expected date at
      local time `t` is in the directory whose names are `listing`; `None`
      is a directory that cannot be searched. The expected date is computed
      before the file system is asked, so an overflow wins over an
      unsearchable directory. */
  function CheckLastReportExists(listing: Option<set<string>>, t: LocalTime): (r: Verdict)
    requires ValidTime(t)
    ensures r == DateOverflow <==> ExpectedReportDate(t).None?
    ensures r == Unreadable <==> ExpectedReportDate(t).Some? && listing.None?
  {
    match ExpectedReportDate(t)
    case None => DateOverflow
    case Some(d) =>
      match listing
      case None => Unreadable
      case Some(files) => if ReportExists(files, d) then Present else Absent
  }

  /** The check succeeds exactly when some file in the directory names the
      expected date, whatever else the directory holds. */
  lemma CheckFindsExpectedDate(files: set<string>, t: LocalTime)
    requires ValidTime(t) && ExpectedReportDate(t).Some?
    ensures CheckLastReportExists(Some(files), t) == Present <==>
      exists name :: name in files && ParseFileName(name) == ExpectedReportDate(t)
  {
    assert ReportExists(files, ExpectedReportDate(t).value) ==
      (CheckLastReportExists(Some(files), t) == Present);
  }

  /** The boundary around the cutoff with only yesterday's report on disk: at
      16:59 the report is found, at exactly 17:00 it is missing. */
  lemma CutoffBoundary(d: Date)
    requires Valid(d) && d != MinDate
    ensures CheckLastReportExists(Some({FileName(Pred(d))}), LocalTime(d, 16, 59, 0)) == Present
    ensures CheckLastReportExists(Some({FileName(Pred(d))}), LocalTime(d, 17, 0, 0)) == Absent
  {
    BeforeCutoffIsYesterday(LocalTime(d, 16, 59, 0));
    if FileName(Pred(d)) == FileName(d) {
      FileNameInjective(Pred(d), d);
    }
  }

  /** With both yesterday's and today's reports on disk the check succeeds
      one minute before, exactly at, and one minute after the cutoff. */
  lemma BothReportsFoundAtBoundary(d: Date)
    requires Valid(d) && d != MinDate
    ensures CheckLastReportExists(Some({FileName(Pred(d)), FileName(d)}), LocalTime(d, 16, 59, 0)) == Present
    ensures CheckLastReportExists(Some({FileName(Pred(d)), FileName(d)}), LocalTime(d, 17, 0, 0)) == Present
    ensures CheckLastReportExists(Some({FileName(Pred(d)), FileName(d)}), LocalTime(d, 17, 1, 0)) == Present
  {
    BeforeCutoffIsYesterday(LocalTime(d, 16, 59, 0));
  }

  /** Yesterday's report is found at noon and today's in the evening and at
      night; an empty directory has no report at noon. */
  lemma ReportsFoundThroughTheDay(d: Date)
    requires Valid(d) && d != MinDate
    ensures CheckLastReportExists(Some({FileName(Pred(d))}), LocalTime(d, 12, 0, 0)) == Present
    ensures CheckLastReportExists(Some({FileName(d)}), LocalTime(d, 18, 0, 0)) == Present
    ensures CheckLastReportExists(Some({FileName(d)}), LocalTime(d, 23, 0, 0)) == Present
    ensures CheckLastReportExists(Some({}), LocalTime(d, 12, 0, 0)) == Absent
  {
    BeforeCutoffIsYesterday(LocalTime(d, 12, 0, 0));
  }
}
