/** The recovery invoker `run_tpt_report_downloader`: make sure the report
    downloader has its own virtual environment (creating it and installing
    its requirements when it is absent), run its `main.py` once, and turn
    every fault of those steps into `False`. Creating the environment, pip and
    the child process are not modelled; each step is represented by the
    outcome it would report. */
module Recovery {
  import opened Common

  /** How one blocking step ended: normally, by `TimeoutExpired`, by
      `CalledProcessError` (non-zero exit under `check=True`), by any other
      `Exception`, or by `KeyboardInterrupt`. */
  datatype Outcome = Ok | Timeout | NonZero(code: int) | OtherError | Interrupt

  /** The steps the invoker can take, in the order it takes them. */
  datatype Step = CreateVenv | InstallRequirements | RunMain

  /** What the invoker finds on disk, and how each step would end if taken. */
  datatype Host = Host(
    mainExists: bool,
    venvExists: bool,
    requirementsExist: bool,
    createOutcome: Outcome,
    installOutcome: Outcome,
    runOutcome: Outcome)

  /** The reason a failed step is reported under, one per `except` clause. */
  datatype Failure = TimedOut | ProcessFailed(code: int) | Unexpected | Stopped

  datatype Level = Debug | Info | Error

  datatype LogEntry =
    | EntryPointMissing
    | CreatingVenv
    | RunnerActivated
    | ToolOutput
    | Failed(failure: Failure)

  /** The invoker's result: the steps it started, the log lines it wrote, and
      the boolean it returned. */
  datatype Report = Report(attempted: seq<Step>, log: seq<LogEntry>, succeeded: bool)

  /** The level each entry is logged at: an interruption and the tool's
      output are debug, progress is info, and everything else is an error. */
  function LevelOf(e: LogEntry): (l: Level)
    ensures l == Debug <==> e == ToolOutput || e == Failed(Stopped)
    ensures l == Info <==> e == CreatingVenv || e == RunnerActivated
  {
    match e
    case EntryPointMissing => Error
    case CreatingVenv => Info
    case RunnerActivated => Info
    case ToolOutput => Debug
    case Failed(f) => if f == Stopped then Debug else Error
  }

  /** The `except` chain: `TimeoutExpired` first, then `CalledProcessError`,
      then any other `Exception`; `KeyboardInterrupt` is not an `Exception`
      and reaches its own clause. A normal end is no failure. */
  function Classify(o: Outcome): (f: Option<Failure>)
    ensures f.None? <==> o == Ok
  {
    match o
    case Ok => None
    case Timeout => Some(TimedOut)
    case NonZero(code) => Some(ProcessFailed(code))
    case OtherError => Some(Unexpected)
    case Interrupt => Some(Stopped)
  }

  function OutcomeOf(h: Host, s: Step): Outcome
  {
    match s
    case CreateVenv => h.createOutcome
    case InstallRequirements => h.installOutcome
    case RunMain => h.runOutcome
  }

  /** The steps the invoker would take if none of them failed: the environment
      is created only when absent, requirements are installed only into a
      freshly created environment and only when the project lists them, and
      `main.py` is always run. */
  function Plan(h: Host): seq<Step>
  {
    (if h.venvExists then []
     else [CreateVenv] + (if h.requirementsExist then [InstallRequirements] else []))
    + [RunMain]
  }

  /** Every planned step would end normally. */
  predicate PlanSucceeds(h: Host)
  {
    forall s :: s in Plan(h) ==> OutcomeOf(h, s) == Ok
  }

  /** Every planned step before running `main.py` would end normally. */
  predicate SetupSucceeds(h: Host)
  {
    forall s :: s in Plan(h) && s != RunMain ==> OutcomeOf(h, s) == Ok
  }

  /** Which outcomes the plan depends on, spelled out per step. */
  lemma PlanOutcomes(h: Host)
    ensures SetupSucceeds(h) <==>
      && (!h.venvExists ==> h.createOutcome == Ok)
      && (!h.venvExists && h.requirementsExist ==> h.installOutcome == Ok)
    ensures PlanSucceeds(h) <==> SetupSucceeds(h) && h.runOutcome == Ok
  {
    assert RunMain in Plan(h);
    if !h.venvExists {
      assert CreateVenv in Plan(h);
      if h.requirementsExist {
        assert InstallRequirements in Plan(h);
      }
    }
  }

  /** Runs `main.py` after the environment is ready. */
  function RunMainStep(h: Host, done: seq<Step>, log: seq<LogEntry>): (r: Report)
    ensures r.succeeded <==> h.runOutcome == Ok
    ensures r.attempted == done + [RunMain]
  {
    var log := log + [RunnerActivated];
    match Classify(h.runOutcome)
    case None => Report(done + [RunMain], log + [ToolOutput], true)
    case Some(f) => Report(done + [RunMain], log + [Failed(f)], false)
  }

  /** `run_tpt_report_downloader`, step by step as the source takes them. A
      missing `main.py` is logged but does not stop the run. A failing pip
      install raises `CalledProcessError` inside the same `try`, so it is
      contained like every other failure. */
  function RunRecovery(h: Host): (r: Report)
    // the steps taken are a non-empty prefix of the plan
    ensures 0 < |r.attempted| <= |Plan(h)| && r.attempted == Plan(h)[..|r.attempted|]
    // success is exactly: every planned step ends normally, and then all were taken
    ensures r.succeeded <==> PlanSucceeds(h)
    ensures r.succeeded ==> r.attempted == Plan(h)
  {
    PlanOutcomes(h);
    var log := if h.mainExists then [] else [EntryPointMissing];
    if !h.venvExists then
      var log := log + [CreatingVenv];
      match Classify(h.createOutcome)
      case Some(f) => Report([CreateVenv], log + [Failed(f)], false)
      case None =>
        if h.requirementsExist then
          match Classify(h.installOutcome)
          case Some(f) => Report([CreateVenv, InstallRequirements], log + [Failed(f)], false)
          case None => RunMainStep(h, [CreateVenv, InstallRequirements], log)
        else
          RunMainStep(h, [CreateVenv], log)
    else RunMainStep(h, [], log)
  }

  /** The invoker stops at the first failing step: every step before the
      last one it started ended normally, and a failure is the last thing
      logged, under the reason its outcome is classified as. */
  lemma StopsAtFirstFailure(h: Host)
    ensures var r := RunRecovery(h);
      && (forall i :: 0 <= i < |r.attempted| - 1 ==> OutcomeOf(h, r.attempted[i]) == Ok)
      && (!r.succeeded ==>
            && |r.log| > 0
            && r.log[|r.log| - 1].Failed?
            && Classify(OutcomeOf(h, r.attempted[|r.attempted| - 1])) == Some(r.log[|r.log| - 1].failure))
  {
  }

  /** A missing entry point is logged first, but is not fatal: `main.py` is
      run exactly when the environment steps succeed, whether or not it exists. */
  lemma MissingEntryPointIsNotFatal(h: Host)
    ensures var r := RunRecovery(h);
      && ((|r.log| > 0 && r.log[0] == EntryPointMissing) <==> !h.mainExists)
      && (RunMain in r.attempted <==> SetupSucceeds(h))
  {
    PlanOutcomes(h);
  }

  /** Nothing escapes: every failure is written to the log, at error level
      except an interruption, which is logged at debug level. */
  lemma FailureIsLogged(h: Host)
    ensures var r := RunRecovery(h);
      !r.succeeded ==>
        (exists i :: 0 <= i < |r.log| && r.log[i].Failed? &&
          (LevelOf(r.log[i]) == Debug <==> OutcomeOf(h, r.attempted[|r.attempted| - 1]) == Interrupt))
  {
    var r := RunRecovery(h);
    if !r.succeeded {
      var i := |r.log| - 1;
      assert r.log[i].Failed?;
    }
  }

  /** A failing dependency install yields `False` without running `main.py`. */
  lemma FailedInstallIsContained(h: Host)
    requires !h.venvExists && h.requirementsExist && h.createOutcome == Ok && h.installOutcome != Ok
    ensures !RunRecovery(h).succeeded
    ensures RunRecovery(h).attempted == [CreateVenv, InstallRequirements]
  {
  }

  /** A non-zero exit of the downloader yields `False` with its exit code
      logged, whether the environment existed or was set up in this run. */
  lemma NonZeroExitIsContained(h: Host, code: int)
    requires SetupSucceeds(h) && h.runOutcome == NonZero(code)
    ensures !RunRecovery(h).succeeded
    ensures RunMain in RunRecovery(h).attempted
    ensures Failed(ProcessFailed(code)) in RunRecovery(h).log
  {
    PlanOutcomes(h);
    assert RunRecovery(h).log[|RunRecovery(h).log| - 1] == Failed(ProcessFailed(code));
  }
}
