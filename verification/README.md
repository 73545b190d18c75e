# report_sentinel in Dafny

A model of the watchdog `report_sentinel`. A scheduled job runs it. The
watchdog walks a list of report directories and checks whether each one
holds the latest report that should exist by now. That report is named
`DD-MM-YYYY.csv`. Its date is yesterday before 17:00 US/Eastern and today
from 17:00 on. At the first directory whose report is missing, the watchdog
sends one alert email, runs the report downloader once in its own virtual
environment, and stops.

The model is pure functions over immutable data:

- `Calendar`: proleptic Gregorian dates in Python's range (years 1 to 9999).
  It has the day ordinal (the same count `date.toordinal` uses), the previous
  day `Pred` and the next day `Succ`.
- `Cutoff`: the cutoff rule of `get_expected_report_date`. The input is the
  local Eastern date and time of day, not the wall clock.
- `ReportFile`: the report file name and its parser, which is the name's
  inverse. It also holds `check_last_report_exists`, over the set of names in
  a directory.
- `Recovery`: `run_tpt_report_downloader`. It covers the steps it takes and
  the `except` chain that turns every fault into `False`. Each external step
  is represented by the outcome it would have.
- `ToolLayout`: the paths the downloader invoker derives from
  `main_script_path`.
- `Sentinel`: `main`, modelled as the trace of actions a run performs. The
  actions are checking a directory, sending the email, running recovery, and
  logging a critical fault.

`get_expected_report_date` raises `OverflowError` when it steps back from
1 January of year 1. The model writes that case out: `ExpectedReportDate`
returns `None`, the check returns `DateOverflow`, and `main` logs it as a
critical fault. A directory listing is a set of names. A directory that
cannot be searched makes `Path.exists` raise an OSError such as
PermissionError on Python up to 3.12. The check then returns `Unreadable`, and `main` logs it as
a critical fault too. The clock is read afresh for every directory, so a `World`
holds one local time per check.

A failing `pip install` raises `CalledProcessError` inside the invoker's
`try`, so the model treats it as contained: the invoker returns `False` and
the error does not propagate (`Recovery.FailedInstallIsContained`). The SMTP settings are read
before `main`'s `try`, so their absence raises out of `main`. The report
paths are read inside it, so their absence is only logged.

## Model

| member | source | states |
|---|---|---|
| Calendar.PredIsOrdinalDecrement | report_sentinel.py:152 | stepping back one day lowers the day ordinal by exactly one, also across a year end |
| Calendar.PredUnique | report_sentinel.py:152 | a valid date is exactly one day before `d` if and only if it is `Pred(d)` |
| Calendar.PredAtMonthStart | report_sentinel.py:152 | 1 January steps back to 31 December of the year before, and 1 March steps back to 29 February in leap years and to 28 February otherwise; the first of any other month steps back to the last day of the month before |
| Calendar.Pred | report_sentinel.py:152 | the day before any valid date other than 1 January of year 1 is a valid date that comes before it |
| Calendar.SuccOfPred | report_sentinel.py:152 | going one day forward after going one day back returns the same date |
| Calendar.PredOfSucc | report_sentinel.py:152 | going one day back after going one day forward returns the same date |
| Calendar.OrdinalInjective | report_sentinel.py:152 | distinct valid dates have distinct day ordinals |
| Calendar.MinDateIsFirst | report_sentinel.py:152 | 1 January of year 1 comes at or before every valid date, and it is exactly the valid date that no valid date lies one day before, so stepping back can fail only there |
| Cutoff.ExpectedReportDate | report_sentinel.py:139-154 | the expected date is valid; from hour 17 it is the local date; before hour 17 it is the day before, one ordinal earlier; it is undefined (the overflow) exactly when the local date is the first representable one |
| Cutoff.BeforeCutoffIsYesterday | report_sentinel.py:151-152 | before 17:00 the expected date is the calendar predecessor of the local date |
| Cutoff.OnlyTheHourMatters | report_sentinel.py:151 | minutes and seconds never change the expected date |
| Cutoff.ChangesOnlyAtCutoff | report_sentinel.py:151-154 | on one local date, two hours give the same expected date if and only if they lie on the same side of 17 |
| Cutoff.ExpectedDateMonotone | report_sentinel.py:139-154 | a later local time never gives an earlier expected date |
| Cutoff.ExpectedDateLag | report_sentinel.py:139-154 | the expected date is the local date or the day before |
| ReportFile.FileName | report_sentinel.py:159-161 | the name has 14 characters: two digits, `-`, two digits, `-`, four digits, then `.csv` |
| ReportFile.ParseFileNameOfFileName | report_sentinel.py:160 | every report name parses back to the date it was made from |
| ReportFile.FileNameOfParseFileName | report_sentinel.py:160 | every name that parses as a date is exactly that date's report name |
| ReportFile.FileNameInjective | report_sentinel.py:160 | distinct dates have distinct report names |
| ReportFile.ParseDecimalOfDecimal | report_sentinel.py:160 | a zero-padded decimal field reads back as its number |
| ReportFile.DecimalOfParseDecimal | report_sentinel.py:160 | a field of digits is the zero-padded rendering of the number it reads as |
| ReportFile.ReportExists | report_sentinel.py:157-162 | the report for a date exists if and only if some file in the directory is named for exactly that date |
| ReportFile.NamedIffFileName | report_sentinel.py:157-162 | a directory holds the file named `DD-MM-YYYY.csv` for a date if and only if it holds some file whose name parses to that date |
| ReportFile.UnrelatedFilesIrrelevant | report_sentinel.py:157-162 | adding or removing files that do not name the date leaves the check unchanged |
| ReportFile.CheckLastReportExists | report_sentinel.py:157-162 | the check gives the date overflow exactly when the expected date is undefined, and gives the existence check's error exactly when the date is defined but the directory cannot be searched |
| ReportFile.CheckFindsExpectedDate | report_sentinel.py:157-162 | the check succeeds if and only if some file in the directory names the expected date |
| ReportFile.CutoffBoundary | report_sentinel.py:151-162 | with only yesterday's report present, the check succeeds at 16:59 and fails at exactly 17:00 |
| ReportFile.BothReportsFoundAtBoundary | tests/test_report_sentinel.py:103-129 | with both yesterday's and today's reports present, the check succeeds at 16:59, at 17:00 and at 17:01 |
| ReportFile.ReportsFoundThroughTheDay | tests/test_report_sentinel.py:77-140 | yesterday's report is found at 12:00, today's at 18:00 and at 23:00, and an empty directory has no report at 12:00 |
| Recovery.Classify | report_sentinel.py:128-136 | a step counts as failed exactly when it did not end normally |
| Recovery.LevelOf | report_sentinel.py:98-135 | an interruption and the tool's output are logged at debug level, creating the environment and activating the runner at info level, and a missing entry point and every other failure at error level |
| Recovery.RunMainStep | report_sentinel.py:116-127 | running `main.py` is the last step taken, and it succeeds if and only if the child process ends normally |
| Recovery.RunRecovery | report_sentinel.py:86-136 | the steps taken are a non-empty prefix of the plan: when the environment is absent, create it and then install the requirements if the project lists them; in every case run `main.py`. The result is `True` if and only if every planned step ends normally, and then all of them were taken |
| Recovery.StopsAtFirstFailure | report_sentinel.py:86-136 | every step before the last one taken ended normally; on failure the last log entry is the failure the last step's outcome is classified as |
| Recovery.MissingEntryPointIsNotFatal | report_sentinel.py:97-98 | a missing `main.py` is logged first if and only if it is missing; `main.py` is run if and only if the setup steps succeed |
| Recovery.FailureIsLogged | report_sentinel.py:128-136 | every failure is logged: at debug level if and only if the step was interrupted, otherwise at error level |
| Recovery.FailedInstallIsContained | report_sentinel.py:105-114 | a failing requirements install yields `False`, and `main.py` is not run |
| Recovery.NonZeroExitIsContained | report_sentinel.py:101-131 | once the setup steps succeed, whether the environment already existed or was just created, a non-zero exit of the downloader yields `False` after `main.py` was run, and its exit code is logged |
| ToolLayout.Locate | report_sentinel.py:88-105 | the environment `.venv` sits beside the resolved project directory, with the interpreter at `bin/python` inside it. The entry point is an absolute `main.py`, in the project directory when that is absolute and otherwise below the script's own directory. `requirements.txt` sits in the configured project directory |
| ToolLayout.EntryPointInProject | report_sentinel.py:94-96 | for an absolute project directory, `main.py` lies inside it |
| ToolLayout.RelativeProjectSplits | report_sentinel.py:89-96 | for a relative project directory, `main.py` lies in that directory taken below the script's directory, while the environment sits beside that directory taken below the working directory; the entry point's directory differs from the resolved project directory whenever those two directories differ |
| Sentinel.Main | report_sentinel.py:165-199 | an exception escapes `main` if and only if the SMTP settings are missing, and then nothing was done |
| Sentinel.Scan | report_sentinel.py:181-196 | only configured directories are checked, each at most once and in order |
| Sentinel.ScanShape | report_sentinel.py:181-196 | whatever the checks return, the loop either checks every directory, all reports being present, or checks the directories up to the first missing one and ends with that directory's alert or fault |
| Sentinel.ScanAllPresent | report_sentinel.py:181-196 | when every remaining report is present, the loop checks each remaining directory once and does nothing else |
| Sentinel.ScanFirstMissing | report_sentinel.py:181-196 | the loop checks the directories up to the first missing one and then ends with that directory's alert or fault |
| Sentinel.AllPresentIsQuiet | tests/test_report_sentinel.py:166-187 | when every directory holds its expected report, a run only checks them, in order: no email and no recovery |
| Sentinel.FirstMissingAlertsOnce | report_sentinel.py:181-199 | when directory `k` is the first missing one, directories up to `k` are checked and none after; exactly one email goes out, with the fixed subject and a body naming directory `k`; recovery runs exactly once after it if the email was delivered; if sending raised, no recovery runs and the fault is swallowed |
| Sentinel.ScanAlertsOnce | report_sentinel.py:181-199 | the loop with directory `k` first missing: directories up to `k` are checked and none after; one email naming directory `k`; one recovery after it if delivered, otherwise the send failure instead |
| Sentinel.ScanAtMostOneAlert | report_sentinel.py:181-196 | whatever the checks return, the loop sends at most one email and runs recovery at most once, and recovery only directly after an email |
| Sentinel.ScanFaultStops | report_sentinel.py:181-199 | when the check of the first directory without its report raised instead of answering, the loop checks directories up to it, records the matching critical fault, and sends no email and runs no recovery |
| Sentinel.UnsearchableDirectoryStopsRun | report_sentinel.py:181-199 | when the first directory without its report cannot be searched, `main` logs the error as critical after checking directories up to it, and nothing escapes |
| Sentinel.AlertBody | report_sentinel.py:184-188 | the body is a fixed lead, the directory, and a fixed tail, so the directory can be read back from it |
| Sentinel.AlertBodyInjective | report_sentinel.py:184-188 | two alerts with the same body name the same directory |
| Sentinel.Alert | report_sentinel.py:189-196 | an alert is the email with the fixed subject and a body naming the directory, followed by recovery if and only if the email was delivered, with recovery's own result; if sending raised, the send failure is logged instead |
| Sentinel.AlertOnlyForFirstMissing | report_sentinel.py:183-193 | any email sent names the first directory whose report is missing |
| Sentinel.AtMostOneAlert | report_sentinel.py:195-196 | no run sends two emails or runs recovery twice, and recovery only ever runs directly after an email |
| Sentinel.ScanAlertPositions | report_sentinel.py:181-196 | in any run of the loop an email can only be the second-to-last action and recovery only the last one |
| Sentinel.QuietJustBeforeCutoff | report_sentinel.py:151-183 | with only yesterday's report present, a run at 16:59 only checks the directory |
| Sentinel.AlertAtCutoff | report_sentinel.py:151-196 | with only yesterday's report present, a run at 17:00 sends one alert naming the directory and runs recovery once |

## Left out

- The wall clock, `pytz` and the conversion from UTC to US/Eastern are not modelled. The local Eastern date and time are inputs. Daylight-saving transitions are therefore not modelled.
- `send_email` is not modelled: MIME assembly, `SMTP_SSL`, login and delivery. It is reduced to whether the send raises.
- `venv.create`, `pip` and the child process are represented by their outcomes. Their output text is not modelled.
- `load_config`, the YAML file and the `__main__` block are not modelled. `Config` records only what `main` reads.
- Logging setup and message formatting are left out. In `Recovery`, log entries are recorded as kinds and levels.
- The `print("Installing library requirements.")` before the install (report_sentinel.py:107) is console output and is not modelled.
- `Sentinel.Main`: the trace holds the checks, the email, the recovery and the critical log line, which is recorded as `Critical` without a level. The warning line and the "Email sent." debug line that `main` logs (report_sentinel.py:189, 194) are not in the trace.
- `Recovery.RunRecovery`: the existence checks of `main.py`, the environment and `requirements.txt` are booleans. On Python up to 3.12, `Path.exists` can raise an OSError such as PermissionError. The invoker would catch it as an unexpected error and return `False`, possibly before any step is taken, so `0 < |attempted|` does not cover that case. The same error in `main`'s directory check is modelled (`Sentinel.UnsearchableDirectoryStopsRun`).
- `ToolLayout.Locate`: `resolve()` is modelled lexically. Symlinks and `..` components are not followed, and `expanduser` is assumed to have been applied already.
- `Sentinel.AlertBody`: the directory is inserted as configured. `Path` normalisation of the string, such as dropping a trailing `/`, is not modelled.
- `ReportFile.FileName`: the year is always zero-padded to four digits. `strftime('%Y')` for years below 1000 differs between platforms.
- Only `KeyboardInterrupt` is modelled among exceptions that are not `Exception`s. Inside `main` such an interrupt would escape, and the model does not treat it as an outcome of sending the email.
- A missing `main_script_path` key in the configuration is not modelled. It raises `KeyError` inside the invoker's `try` and would be reported as an unexpected error.
- `Recovery.Timeout`: the invoker passes no timeout to `subprocess.run`, so `TimeoutExpired` cannot arise in practice. The outcome is kept so that the full `except` chain is modelled.
