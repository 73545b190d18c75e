/** The orchestrator `main`: walk the configured report directories in order,
    and at the first one whose expected report is missing send one alert
    email, run the recovery invoker once and stop. Every `Exception` raised
    inside the loop is caught at the top and logged as critical. The run is
    modelled as the trace of actions it performs. */
module Sentinel {
  import opened Common
  import opened Calendar
  import opened Cutoff
  import opened ReportFile
  import opened Recovery

  const Subject: string := "Last Possible Report Missing"

  const AlertLead: string := "The last possible report in directory: "
  const AlertTail: string := " is missing and automated reprocessing will be triggered to attempt recovery"

  /** The alert body; it names the directory whose report is missing, at a
      fixed position from which it can be read back. */
  function AlertBody(dir: string): (body: string)
    ensures |body| == |AlertLead| + |dir| + |AlertTail|
    ensures body[..|AlertLead|] == AlertLead
    ensures body[|AlertLead|..|AlertLead| + |dir|] == dir
    ensures body[|AlertLead| + |dir|..] == AlertTail
  {
    var body := AlertLead + dir + AlertTail;
    assert body[..|AlertLead|] == AlertLead;
    assert body[|AlertLead|..|AlertLead| + |dir|] == dir;
    assert body[|AlertLead| + |dir|..] == AlertTail;
    body
  }

  /** Alerts about different directories differ: the body tells which
      directory's report is missing. */
  lemma AlertBodyInjective(a: string, b: string)
    requires AlertBody(a) == AlertBody(b)
    ensures a == b
  {
    assert |a| == |b|;
  }

  /** The faults the top-level handler swallows. */
  datatype Fault =
    | DateOutOfRange      // OverflowError from the expected-date computation
    | MissingReportPaths  // KeyError on config['report_paths'], inside the try
    | CheckRaised         // OSError from `Path.exists` on a directory that cannot be searched
    | EmailFailed         // any exception raised by send_email

  datatype Action =
    | Checked(index: nat)
    | SendEmail(subject: string, body: string)
    | Recover(succeeded: bool)
    | Critical(fault: Fault)

  /** The parts of the configuration `main` reads itself. The SMTP settings
      are read before the `try`, so their absence raises out of `main`. */
  datatype Config = Config(smtpSettingsPresent: bool, reportPaths: Option<seq<string>>)

  /** Everything outside the program a run observes: the files in each
      directory, the directories that cannot be searched, the local time at
      each check (the clock is read afresh for every directory), whether the
      mail server accepts the alert, and the host the recovery invoker runs on. */
  datatype World = World(
    files: map<string, set<string>>,
    unsearchable: set<string>,
    clock: seq<LocalTime>,
    emailDelivered: bool,
    host: Host)

  /** The actions of a run, and whether an exception escaped `main`. */
  datatype Run = Run(trace: seq<Action>, raised: bool)

  /** A world that can serve `n` checks. */
  predicate ServesChecks(w: World, n: nat)
  {
    n <= |w.clock| && forall j :: 0 <= j < |w.clock| ==> ValidTime(w.clock[j])
  }

  /** The names in directory `dir`; a directory that does not exist holds
      none, and one that cannot be searched gives no answer. */
  function Listing(w: World, dir: string): Option<set<string>>
  {
    if dir in w.unsearchable then None
    else if dir in w.files then Some(w.files[dir])
    else Some({})
  }

  /** `check_last_report_exists` for the `j`-th directory, at the `j`-th clock reading. */
  function Check(dirs: seq<string>, w: World, j: nat): Verdict
    requires j < |dirs| && ServesChecks(w, |dirs|)
  {
    CheckLastReportExists(Listing(w, dirs[j]), w.clock[j])
  }

  /** What the check of each directory would return. The check is pure, so
      evaluating it for directories the loop never reaches changes nothing. */
  function Outcomes(dirs: seq<string>, w: World): (found: seq<Verdict>)
    requires ServesChecks(w, |dirs|)
    ensures |found| == |dirs|
    ensures forall j :: 0 <= j < |dirs| ==> found[j] == Check(dirs, w, j)
  {
    seq(|dirs|, j requires 0 <= j < |dirs| && ServesChecks(w, |dirs|) => Check(dirs, w, j))
  }

  /** Directory `k` is the first, from `i` on, whose check does not find the report. */
  predicate FirstMissing(found: seq<Verdict>, i: nat, k: nat)
  {
    && i <= k < |found|
    && found[k] != Present
    && forall j :: i <= j < k ==> found[j] == Present
  }

  /** Checks of directories `a` up to but excluding `b`, in order. */
  function CheckedRun(a: nat, b: nat): (t: seq<Action>)
    ensures |t| == if a <= b then b - a else 0
    ensures forall j :: 0 <= j < |t| ==> t[j] == Checked(a + j)
    decreases b - a
  {
    if a >= b then [] else [Checked(a)] + CheckedRun(a + 1, b)
  }

  /** The alert path: one email, then recovery if the email went out. */
  function Alert(dir: string, w: World): (t: seq<Action>)
    ensures |t| == 2 && t[0] == SendEmail(Subject, AlertBody(dir))
    ensures t[1].Recover? <==> w.emailDelivered
    ensures t[1].Recover? ==> t[1].succeeded == RunRecovery(w.host).succeeded
    ensures !w.emailDelivered ==> t[1] == Critical(EmailFailed)
  {
    [SendEmail(Subject, AlertBody(dir))]
      + (if w.emailDelivered then [Recover(RunRecovery(w.host).succeeded)] else [Critical(EmailFailed)])
  }

  /** The fault the top-level handler logs for a check that raised. */
  function FaultOf(v: Verdict): Fault
    requires v == DateOverflow || v == Unreadable
  {
    if v == DateOverflow then DateOutOfRange else CheckRaised
  }

  /** What follows the check of the first directory whose report was not found. */
  function Ending(dirs: seq<string>, found: seq<Verdict>, w: World, k: nat): seq<Action>
    requires k < |dirs| == |found| && found[k] != Present
  {
    if found[k] == Absent then Alert(dirs[k], w) else [Critical(FaultOf(found[k]))]
  }

  /** The `for` loop of `main` from directory `i` on, given what each check returns. */
  function Scan(dirs: seq<string>, found: seq<Verdict>, w: World, i: nat): (t: seq<Action>)
    requires i <= |dirs| == |found|
    // only configured directories are checked, each at most once, in order
    ensures forall e :: 0 <= e < |t| && t[e].Checked? ==> t[e].index == i + e < |dirs|
    decreases |dirs| - i
  {
    if i == |dirs| then []
    else
      match found[i]
      case DateOverflow => [Checked(i), Critical(DateOutOfRange)]
      case Unreadable => [Checked(i), Critical(CheckRaised)]
      case Present => [Checked(i)] + Scan(dirs, found, w, i + 1)
      case Absent => [Checked(i)] + Alert(dirs[i], w)
  }

  /** With every report present from directory `i` on, the loop checks each
      remaining directory once, in order, and does nothing else. */
  lemma {:induction false} ScanAllPresent(dirs: seq<string>, found: seq<Verdict>, w: World, i: nat)
    requires i <= |dirs| == |found|
    requires forall j :: i <= j < |found| ==> found[j] == Present
    ensures Scan(dirs, found, w, i) == CheckedRun(i, |dirs|)
    decreases |dirs| - i
  {
    if i < |dirs| {
      ScanAllPresent(dirs, found, w, i + 1);
    }
  }

  /** One present directory in front of a run of checks extends that run. */
  lemma ScanPresentStep(dirs: seq<string>, found: seq<Verdict>, w: World, i: nat, k: nat)
    requires i < k < |dirs| == |found| && found[i] == Present && found[k] != Present
    requires Scan(dirs, found, w, i + 1) == CheckedRun(i + 1, k + 1) + Ending(dirs, found, w, k)
    ensures Scan(dirs, found, w, i) == CheckedRun(i, k + 1) + Ending(dirs, found, w, k)
  {
    var tail := Ending(dirs, found, w, k);
    assert CheckedRun(i, k + 1) == [Checked(i)] + CheckedRun(i + 1, k + 1);
    assert [Checked(i)] + (CheckedRun(i + 1, k + 1) + tail) == ([Checked(i)] + CheckedRun(i + 1, k + 1)) + tail;
  }

  /** At a directory whose report is not found the loop checks it and ends. */
  lemma ScanStopsAt(dirs: seq<string>, found: seq<Verdict>, w: World, k: nat)
    requires k < |dirs| == |found| && found[k] != Present
    ensures Scan(dirs, found, w, k) == CheckedRun(k, k + 1) + Ending(dirs, found, w, k)
  {
    assert CheckedRun(k, k + 1) == [Checked(k)];
  }

  /** The loop stops at the first directory whose report is not found: it
      checks the directories up to that one and then takes its ending. */
  lemma {:induction false} ScanFirstMissing(dirs: seq<string>, found: seq<Verdict>, w: World, i: nat, k: nat)
    requires |dirs| == |found| && FirstMissing(found, i, k)
    ensures Scan(dirs, found, w, i) == CheckedRun(i, k + 1) + Ending(dirs, found, w, k)
    decreases k - i
  {
    if i < k {
      assert FirstMissing(found, i + 1, k);
      ScanFirstMissing(dirs, found, w, i + 1, k);
      ScanPresentStep(dirs, found, w, i, k);
    } else {
      ScanStopsAt(dirs, found, w, k);
    }
  }

  /** Unless every check from `i` on finds its report, some directory is the
      first that does not. */
  lemma {:induction false} FirstMissingExists(found: seq<Verdict>, i: nat)
    requires i <= |found|
    requires !(forall j :: i <= j < |found| ==> found[j] == Present)
    ensures exists k: nat :: FirstMissing(found, i, k)
    decreases |found| - i
  {
    if found[i] == Present {
      assert !(forall j :: i + 1 <= j < |found| ==> found[j] == Present);
      FirstMissingExists(found, i + 1);
      var k: nat :| FirstMissing(found, i + 1, k);
      assert FirstMissing(found, i, k);
    } else {
      assert FirstMissing(found, i, i);
    }
  }

  /** `main(config)`. */
  function Main(cfg: Config, w: World): (r: Run)
    requires cfg.reportPaths.Some? ==> ServesChecks(w, |cfg.reportPaths.value|)
    ensures r.raised <==> !cfg.smtpSettingsPresent
    ensures r.raised ==> r.trace == []
  {
    if !cfg.smtpSettingsPresent then Run([], true)
    else
      match cfg.reportPaths
      case None => Run([Critical(MissingReportPaths)], false)
      case Some(dirs) => Run(Scan(dirs, Outcomes(dirs, w), w, 0), false)
  }

  // ---------------------------------------------------------------------------
  // Properties of a run

  /** When every directory has its expected report, the run only checks
      them, each once and in order: no email and no recovery. */
  lemma AllPresentIsQuiet(cfg: Config, w: World, dirs: seq<string>)
    requires cfg.smtpSettingsPresent && cfg.reportPaths == Some(dirs) && ServesChecks(w, |dirs|)
    requires forall j :: 0 <= j < |dirs| ==> Check(dirs, w, j) == Present
    ensures var r := Main(cfg, w);
      && !r.raised
      && |r.trace| == |dirs|
      && (forall e :: 0 <= e < |r.trace| ==> r.trace[e] == Checked(e))
  {
    ScanAllPresent(dirs, Outcomes(dirs, w), w, 0);
  }

  /** The loop, when directory `k` is the first whose report is missing:
      directories up to `k` are checked in order and no later one is;
      exactly one email goes out, with the fixed subject and a body naming
      directory `k`; if it was delivered, exactly one recovery follows it,
      and if sending raised, no recovery runs and the fault is recorded. */
  lemma ScanAlertsOnce(dirs: seq<string>, found: seq<Verdict>, w: World, k: nat)
    requires |dirs| == |found| && FirstMissing(found, 0, k) && found[k] == Absent
    ensures var t := Scan(dirs, found, w, 0);
      && |t| == k + 3
      && (forall e :: 0 <= e <= k ==> t[e] == Checked(e))
      && t[k + 1] == SendEmail(Subject, AlertBody(dirs[k]))
      && (forall e :: 0 <= e < |t| && e != k + 1 ==> !t[e].SendEmail?)
      && (w.emailDelivered ==> t[k + 2] == Recover(RunRecovery(w.host).succeeded))
      && (!w.emailDelivered ==> t[k + 2] == Critical(EmailFailed))
      && (forall e :: 0 <= e < k + 2 ==> !t[e].Recover?)
  {
    ScanFirstMissing(dirs, found, w, 0, k);
  }

  /** `main` when directory `k` is the first whose report is missing: the
      loop's alert path, and nothing escapes. */
  lemma FirstMissingAlertsOnce(cfg: Config, w: World, dirs: seq<string>, k: nat)
    requires cfg.smtpSettingsPresent && cfg.reportPaths == Some(dirs) && ServesChecks(w, |dirs|)
    requires k < |dirs| && Check(dirs, w, k) == Absent
    requires forall j :: 0 <= j < k ==> Check(dirs, w, j) == Present
    ensures var r := Main(cfg, w);
      && !r.raised
      && |r.trace| == k + 3
      && (forall e :: 0 <= e <= k ==> r.trace[e] == Checked(e))
      && r.trace[k + 1] == SendEmail(Subject, AlertBody(dirs[k]))
      && (forall e :: 0 <= e < |r.trace| && e != k + 1 ==> !r.trace[e].SendEmail?)
      && (w.emailDelivered ==> r.trace[k + 2] == Recover(RunRecovery(w.host).succeeded))
      && (!w.emailDelivered ==> r.trace[k + 2] == Critical(EmailFailed))
      && (forall e :: 0 <= e < k + 2 ==> !r.trace[e].Recover?)
  {
    var found := Outcomes(dirs, w);
    assert FirstMissing(found, 0, k);
    ScanAlertsOnce(dirs, found, w, k);
  }

  /** The loop, when the check of directory `k`, the first whose report is
      not found, raised instead of answering: directories up to `k` are
      checked, the fault is recorded, and no email and no recovery follow. */
  lemma ScanFaultStops(dirs: seq<string>, found: seq<Verdict>, w: World, k: nat)
    requires |dirs| == |found| && FirstMissing(found, 0, k) && found[k] != Absent
    ensures var t := Scan(dirs, found, w, 0);
      && |t| == k + 2
      && (forall e :: 0 <= e <= k ==> t[e] == Checked(e))
      && t[k + 1] == Critical(if found[k] == DateOverflow then DateOutOfRange else CheckRaised)
      && (forall e :: 0 <= e < |t| ==> !t[e].SendEmail? && !t[e].Recover?)
  {
    ScanFirstMissing(dirs, found, w, 0, k);
  }

  /** `main` when the first directory without its report cannot be
      searched: the OSError is logged as critical, nothing escapes, and no
      email and no recovery follow. */
  lemma UnsearchableDirectoryStopsRun(cfg: Config, w: World, dirs: seq<string>, k: nat)
    requires cfg.smtpSettingsPresent && cfg.reportPaths == Some(dirs) && ServesChecks(w, |dirs|)
    requires k < |dirs| && dirs[k] in w.unsearchable && ExpectedReportDate(w.clock[k]).Some?
    requires forall j :: 0 <= j < k ==> Check(dirs, w, j) == Present
    ensures var r := Main(cfg, w);
      && !r.raised
      && r.trace == CheckedRun(0, k + 1) + [Critical(CheckRaised)]
  {
    var found := Outcomes(dirs, w);
    assert found[k] == Unreadable;
    assert FirstMissing(found, 0, k);
    ScanFirstMissing(dirs, found, w, 0, k);
  }

  /** Whatever the checks return, the loop's trace is its checks followed by
      at most one ending. */
  lemma ScanShape(dirs: seq<string>, found: seq<Verdict>, w: World)
    requires |dirs| == |found|
    ensures var t := Scan(dirs, found, w, 0);
      || (t == CheckedRun(0, |dirs|) && forall j :: 0 <= j < |found| ==> found[j] == Present)
      || exists k: nat :: FirstMissing(found, 0, k) && t == CheckedRun(0, k + 1) + Ending(dirs, found, w, k)
  {
    if forall j :: 0 <= j < |found| ==> found[j] == Present {
      ScanAllPresent(dirs, found, w, 0);
    } else {
      FirstMissingExists(found, 0);
      var k: nat :| FirstMissing(found, 0, k);
      ScanFirstMissing(dirs, found, w, 0, k);
    }
  }

  /** The two endings: a swallowed fault of the check, or the alert path. */
  lemma EndingCases(dirs: seq<string>, found: seq<Verdict>, w: World, k: nat)
    requires k < |dirs| == |found| && found[k] != Present
    ensures found[k] != Absent ==> Ending(dirs, found, w, k) == [Critical(FaultOf(found[k]))]
    ensures found[k] == Absent ==>
      Ending(dirs, found, w, k) ==
        [SendEmail(Subject, AlertBody(dirs[k])),
         if w.emailDelivered then Recover(RunRecovery(w.host).succeeded) else Critical(EmailFailed)]
  {
  }

  /** The action at position `e` of the checks of directories `0..k`
      followed by `ending`. */
  lemma ActionAt(k: nat, ending: seq<Action>, e: nat)
    requires e < k + 1 + |ending|
    ensures |CheckedRun(0, k + 1) + ending| == k + 1 + |ending|
    ensures e <= k ==> (CheckedRun(0, k + 1) + ending)[e] == Checked(e)
    ensures e > k ==> (CheckedRun(0, k + 1) + ending)[e] == ending[e - (k + 1)]
  {
  }

  /** Positions in a run that ends in an alert: an email can only be the
      second-to-last action and a recovery only the last one. */
  lemma AlertRunPositions(k: nat, ending: seq<Action>, e: nat)
    requires |ending| == 2 && ending[0].SendEmail? && !ending[1].SendEmail? && e < k + 3
    ensures var t := CheckedRun(0, k + 1) + ending;
      && (t[e].SendEmail? ==> e == |t| - 2 && t[e] == ending[0])
      && (t[e].Recover? ==> e == |t| - 1 && t[e - 1].SendEmail?)
  {
    ActionAt(k, ending, e);
    if e > 0 {
      ActionAt(k, ending, e - 1);
    }
  }

  /** A run that ends in a swallowed fault holds neither email nor recovery. */
  lemma FaultRunPositions(k: nat, f: Fault, e: nat)
    requires e < k + 2
    ensures var t := CheckedRun(0, k + 1) + [Critical(f)];
      !t[e].SendEmail? && !t[e].Recover?
  {
    ActionAt(k, [Critical(f)], e);
  }

  /** Positions in a run that stopped at directory `k`: an email can only be
      the second-to-last action and a recovery only the last one, directly
      after the email; the email names directory `k`. */
  lemma StoppedRunPositions(dirs: seq<string>, found: seq<Verdict>, w: World, k: nat, e: nat)
    requires |dirs| == |found| && FirstMissing(found, 0, k)
    requires e < |CheckedRun(0, k + 1) + Ending(dirs, found, w, k)|
    ensures var t := CheckedRun(0, k + 1) + Ending(dirs, found, w, k);
      && (t[e].SendEmail? ==> e == |t| - 2 && found[k] == Absent && t[e] == SendEmail(Subject, AlertBody(dirs[k])))
      && (t[e].Recover? ==> e == |t| - 1 && t[e - 1].SendEmail?)
  {
    EndingCases(dirs, found, w, k);
    if found[k] != Absent {
      FaultRunPositions(k, FaultOf(found[k]), e);
    } else {
      AlertRunPositions(k, Ending(dirs, found, w, k), e);
    }
  }

  /** In any run of the loop an email can only be the second-to-last action
      and a recovery only the last one, directly after an email; an email
      names the first directory whose report is missing. */
  lemma ScanAlertPositions(dirs: seq<string>, found: seq<Verdict>, w: World, e: nat)
    requires |dirs| == |found| && e < |Scan(dirs, found, w, 0)|
    ensures var t := Scan(dirs, found, w, 0);
      && (t[e].SendEmail? ==> e == |t| - 2)
      && (t[e].Recover? ==> e == |t| - 1 && t[e - 1].SendEmail?)
      && (t[e].SendEmail? ==> exists k: nat ::
            FirstMissing(found, 0, k) && found[k] == Absent && t[e] == SendEmail(Subject, AlertBody(dirs[k])))
  {
    var t := Scan(dirs, found, w, 0);
    if forall j :: 0 <= j < |found| ==> found[j] == Present {
      ScanAllPresent(dirs, found, w, 0);
      assert t[e] == Checked(e);
    } else {
      FirstMissingExists(found, 0);
      var k: nat :| FirstMissing(found, 0, k);
      ScanFirstMissing(dirs, found, w, 0, k);
      StoppedRunPositions(dirs, found, w, k, e);
      if t[e].SendEmail? {
        assert found[k] == Absent && t[e] == SendEmail(Subject, AlertBody(dirs[k]));
      }
    }
  }

  /** An email is sent only for the first directory whose report is
      missing, and it names that directory. */
  lemma AlertOnlyForFirstMissing(cfg: Config, w: World, dirs: seq<string>, e: nat)
    requires cfg.reportPaths == Some(dirs) && ServesChecks(w, |dirs|)
    requires e < |Main(cfg, w).trace| && Main(cfg, w).trace[e].SendEmail?
    ensures exists k: nat ::
      && k < |dirs|
      && Check(dirs, w, k) == Absent
      && (forall j :: 0 <= j < k ==> Check(dirs, w, j) == Present)
      && Main(cfg, w).trace[e] == SendEmail(Subject, AlertBody(dirs[k]))
  {
    var found := Outcomes(dirs, w);
    assert Main(cfg, w).trace == Scan(dirs, found, w, 0);
    ScanAlertPositions(dirs, found, w, e);
    var k: nat :| FirstMissing(found, 0, k) && found[k] == Absent
      && Main(cfg, w).trace[e] == SendEmail(Subject, AlertBody(dirs[k]));
    assert forall j :: 0 <= j < k ==> Check(dirs, w, j) == found[j];
  }

  /** No run of the loop sends more than one email or runs recovery more
      than once, and recovery only ever runs directly after an email. */
  lemma ScanAtMostOneAlert(dirs: seq<string>, found: seq<Verdict>, w: World, e1: nat, e2: nat)
    requires |dirs| == |found| && e1 < e2 < |Scan(dirs, found, w, 0)|
    ensures var t := Scan(dirs, found, w, 0);
      && !(t[e1].SendEmail? && t[e2].SendEmail?)
      && !(t[e1].Recover? && t[e2].Recover?)
      && (t[e2].Recover? ==> t[e2 - 1].SendEmail?)
  {
    ScanAlertPositions(dirs, found, w, e1);
    ScanAlertPositions(dirs, found, w, e2);
  }

  /** The same for `main`: at most one email and one recovery per run. */
  lemma AtMostOneAlert(cfg: Config, w: World, e1: nat, e2: nat)
    requires cfg.reportPaths.Some? ==> ServesChecks(w, |cfg.reportPaths.value|)
    requires e1 < e2 < |Main(cfg, w).trace|
    ensures !(Main(cfg, w).trace[e1].SendEmail? && Main(cfg, w).trace[e2].SendEmail?)
    ensures !(Main(cfg, w).trace[e1].Recover? && Main(cfg, w).trace[e2].Recover?)
    ensures Main(cfg, w).trace[e2].Recover? ==> Main(cfg, w).trace[e2 - 1].SendEmail?
  {
    if cfg.smtpSettingsPresent && cfg.reportPaths.Some? {
      var dirs := cfg.reportPaths.value;
      var found := Outcomes(dirs, w);
      assert Main(cfg, w).trace == Scan(dirs, found, w, 0);
      ScanAtMostOneAlert(dirs, found, w, e1, e2);
    }
  }

  /** The cutoff scenario with a single directory holding only yesterday's
      report: at 16:59 the run only checks it. */
  lemma QuietJustBeforeCutoff(dir: string, d: Date, host: Host)
    requires Valid(d) && d != MinDate
    ensures Main(Config(true, Some([dir])),
                 World(map[dir := {FileName(Pred(d))}], {}, [LocalTime(d, 16, 59, 0)], true, host)).trace
      == [Checked(0)]
  {
    CutoffBoundary(d);
    var w := World(map[dir := {FileName(Pred(d))}], {}, [LocalTime(d, 16, 59, 0)], true, host);
    assert Check([dir], w, 0) == Present;
    AllPresentIsQuiet(Config(true, Some([dir])), w, [dir]);
  }

  /** The same directory at exactly 17:00: one alert naming the directory
      goes out and recovery runs once. */
  lemma AlertAtCutoff(dir: string, d: Date, host: Host)
    requires Valid(d) && d != MinDate
    ensures Main(Config(true, Some([dir])),
                 World(map[dir := {FileName(Pred(d))}], {}, [LocalTime(d, 17, 0, 0)], true, host)).trace
      == [Checked(0), SendEmail(Subject, AlertBody(dir)), Recover(RunRecovery(host).succeeded)]
  {
    CutoffBoundary(d);
    var w := World(map[dir := {FileName(Pred(d))}], {}, [LocalTime(d, 17, 0, 0)], true, host);
    assert Check([dir], w, 0) == Absent;
    FirstMissingAlertsOnce(Config(true, Some([dir])), w, [dir], 0);
  }
}
