# Borg backup freshness check for Xymon, modelled in Dafny

This project models `xymon_borg_backup.check_borg_backup` from `borgbackup.py`.
The check is a Xymon client extension. It reads the JSON that borg
left in a log file and takes the last archive in `archives`. It parses that
archive's `start` and `end` time stamps with the format `%Y-%m-%dT%H:%M:%S.%f`.
It then reports one colour for the host's `borg_backup` test:

- red when the backup started more than `red_time` hours ago;
- yellow when it started more than `yellow_time` hours ago;
- green otherwise.

Every report message opens with a preamble built by `_extra_info`. The preamble
gives the log file, the number of archives and the repository's
`last_modified` value. The body gives the archive's start time, name, age and
duration.

Modules, in dependency order:

- `Wrappers`: `Option` and `Result`.
- `Decimal`: digit strings. Covers zero-padded fields and their values, and the
  decimal rendering Python's `str` uses for integers.
- `Calendar`: the proleptic Gregorian calendar with the same day numbering as
  Python's `datetime` (day 1 is 0001-01-01, and the last day is 9999-12-31).
- `Timestamp`: the `datetime` values the check handles.
  - `ToMicros` maps a value to microseconds since 0001-01-01T00:00:00.
  - `Parse` and `Format` implement the strict `%Y-%m-%dT%H:%M:%S.%f` shape.
  - `Str` is Python's `str(datetime)`.
- `Interval`: `timedelta` in Python's normal form (days, seconds below a day,
  microseconds below a second) and its `str`, plus the difference of two
  instants.
- `Freshness`: the red/yellow/green classification. Computing a threshold can
  overflow.
- `BorgLog`: the parts of the JSON document the check reads, with a key either
  absent, `null` or a string. Also `list.pop()`.
- `Checker`: the check itself.
  - `CheckAsWritten` follows the code statement by statement. It returns the
    reports sent and the exception that ended the run, if any.
  - `Check` is the corrected check, which always sends exactly one report.

A run reads three things from outside: the file, the clock and the Xymon
server. The model makes the file contents (a `Snapshot`) and the current time
`now` parameters. It records the report sent to the server as a `Report` value
in the run's result.

## Model

| member | source | states |
|---|---|---|
| Decimal.PadValue | borgbackup.py:50-52 | A digit field is the zero-padded rendering of its own value. So reading a fixed-width field and writing it back at the same width gives the original characters. |
| Decimal.NatToString | borgbackup.py:83 | The rendering of a backup count is a non-empty digit string with no leading zero whose value is the count. |
| Calendar.OrdinalMonotone | borgbackup.py:54 | A calendar date that comes earlier (year, then month, then day) has a smaller day number. |
| Calendar.OrdinalRange | borgbackup.py:50-54 | Every valid date from year 1 to year 9999 has a day number between 1 and 3652059. |
| Timestamp.ToMicros | borgbackup.py:50-54 | Every valid date and time maps to an instant in the representable range, from 0001-01-01 to the end of 9999-12-31. |
| Timestamp.ToMicrosOrder | borgbackup.py:54 | `<` on datetimes (field by field) holds exactly when the first instant is earlier. Two datetimes map to the same instant only when they are equal. |
| Timestamp.Parse | borgbackup.py:50-52 | Parsing succeeds exactly when the text has the `YYYY-MM-DDTHH:MM:SS.ffffff` shape and its fields form a real date and time. A parsed value is always valid. |
| Timestamp.FormatShaped | borgbackup.py:50-52 | Formatting a value yields the expected shape, and reading its fields back gives the value. |
| Timestamp.ParseFormat | borgbackup.py:50-52 | Parsing the formatted text of any valid datetime gives that datetime back. |
| Timestamp.FormatParse | borgbackup.py:50-52 | Any text the model's parser accepts is exactly the formatted text of its result, so the model's parser accepts one spelling per instant. (`strptime` accepts more; see "Left out".) |
| Timestamp.StrIsFormatWithSpace | borgbackup.py:58 | The text a message shows for a start time is the parsed form with a space in place of `T`. The microseconds are dropped when they are zero. |
| Interval.FromMicros | borgbackup.py:53 | Every microsecond count has a normalised `timedelta` holding exactly that many microseconds. |
| Interval.NormalizedUnique | borgbackup.py:53 | Two normalised `timedelta`s of the same total length are equal, so the normal form is unique. |
| Interval.Clock | borgbackup.py:59-60 | The time-of-day part of a printed duration is an hour field without leading zeros, a colon, two minute digits, a colon and two second digits. Minutes and seconds are below 60, and the three fields read back as the original number of seconds. |
| Interval.Elapsed | borgbackup.py:53-59 | The difference of two instants is normalised and adds back to the later one exactly. It is negative exactly when the second instant comes first. |
| Interval.TenMinuteBackup | borgbackup.py:49-53 | A backup from 00:00:04 to 00:10:04 on 2022-12-22 lasts ten minutes. |
| Freshness.Threshold | borgbackup.py:54-61 | Subtracting `hours` from now succeeds exactly when the result is representable, and the result lies exactly that many hours before now. |
| Freshness.Classify | borgbackup.py:54-74 | Red iff the red threshold exists and the start is strictly more than `red` hours old. Yellow iff it is not red, the yellow threshold exists and the start is strictly more than `yellow` hours old. Green iff both thresholds exist and neither holds. No colour iff a needed threshold overflows. |
| Freshness.ClassifyAgreesWithDatetimeOrder | borgbackup.py:54-61 | On datetimes, each colour is decided by `<` against the threshold datetimes, exactly as the code compares them. |
| Freshness.ClassifyRedAgreesWithDatetimeOrder | borgbackup.py:54 | Red is decided by `start < now - timedelta(hours=red_time)` on datetimes, with only the red threshold needing to exist. |
| Freshness.ClassifyBoundaries | borgbackup.py:54-61 | A backup exactly `red` hours old is not red, because the comparison is strict. A backup exactly `yellow` hours old is green whenever `yellow <= red`. |
| Freshness.ClassifyMonotone | borgbackup.py:54-74 | An older backup never gets a milder colour than a newer one. This holds for any pair of thresholds, even if they are misordered. |
| Freshness.NoYellowWhenRedTighter | borgbackup.py:54-67 | With `red < yellow`, yellow is never reported. |
| Freshness.DeployedThresholds | borgbackup.py:103 | With the deployed 30/60 hours, backups 10, 30, 40, 60 and 70 hours old are green, green, yellow, yellow and red. |
| BorgLog.Shown | borgbackup.py:84 | A string value appears in a message unchanged. (`null` appears as `None`.) |
| BorgLog.Pop | borgbackup.py:43 | `pop()` fails exactly on an empty list. Otherwise the remaining list followed by the popped item is the original list. |
| BorgLog.PopKeepsPrefix | borgbackup.py:43 | `pop()` returns the last archive and leaves the others in order. |
| Checker.Preamble | borgbackup.py:81-85 | The preamble fails with `KeyError('archives')` when there is no archive list, and otherwise with `KeyError('last_modified')` when that value is missing. It succeeds exactly when both are present. |
| Checker.Send | borgbackup.py:87-97 | A status send delivers one report to the configured host and test, with the preamble, a newline and the body, exactly when the preamble can be built. Otherwise it raises the preamble's exception. |
| Checker.ParseField | borgbackup.py:44-52 | A time field converts exactly when it is a string that parses. A missing key raises `KeyError`, `null` raises `TypeError`, and unparsable text raises `ValueError`. |
| Checker.CheckAsWritten | borgbackup.py:37-74 | The check as the code runs it, statement by statement, including the fall-through after each early red report. The result is the list of reports sent and the exception that ended the run, if any. It has no ensures of its own. `Checker.FinishesIffWellFormed`, `Checker.WellFormedSendsOne`, `Checker.AtMostOneReport` and the four `…SendsNothing` and `…ThenFails` lemmas state its contract. |
| Checker.Assess | borgbackup.py:50-74 | Everything after the early checks for the latest archive, in the code's order: parse `start` (line 50), parse `end` (line 52), compute the duration (line 53), classify (`OverflowError` if a threshold overflows), then look up `name` (`KeyError`). It has no ensures of its own. `Checker.AssessOkIffWellFormed` and `Checker.FalsyStartFailsAssess` state its contract. |
| Checker.OverflowBeforeMissingName | borgbackup.py:54-56 | When a threshold overflows and the archive also has no `name`, the run raises `OverflowError`: the threshold is built at line 54 before `name` is looked up at line 56. |
| Checker.Check | borgbackup.py:37-97 | The corrected check reports to the configured host and test. It reports a colour other than red only for a well-formed log. |
| Checker.FalsyStartFailsAssess | borgbackup.py:46-50 | An empty start fails at the parse with `ValueError`, and a `null` start with `TypeError`. |
| Checker.AssessOkIffWellFormed | borgbackup.py:50-74 | Everything after the early checks succeeds exactly on a well-formed log. |
| Checker.FinishesIffWellFormed | borgbackup.py:37-97 | A run ends without an exception exactly when the log is well formed. Well formed means: the latest archive exists, its start and end parse, it has a name, `last_modified` is present, and no threshold overflows. |
| Checker.WellFormedSendsOne | borgbackup.py:43-97 | A well-formed log gets exactly one report. Its colour is the classification of the latest archive's start. Its message is the preamble (counting every archive in the file) followed by that archive's start time, name, age and duration. |
| Checker.AtMostOneReport | borgbackup.py:37-97 | The code sends at most one report per run. Any report sent begins with the preamble and a newline, and the preamble counts the archives in the file. |
| Checker.MissingArchivesSendsNothing | borgbackup.py:40-43 | With no `archives` key, the intended red report is never sent. Building its preamble raises `KeyError('archives')`. |
| Checker.EmptyArchivesSendsNothing | borgbackup.py:43 | With an empty archive list, the run ends in `IndexError` at the pop, and no report is sent. |
| Checker.MissingStartSendsNothing | borgbackup.py:44-48 | A latest archive with no `start` key ends the run in `KeyError('start')` before the falsy test, and no report is sent. |
| Checker.FalsyStartReportsRedThenFails | borgbackup.py:46-50 | An empty or `null` start sends the red "invalid json file" report. The run then fails at the parse with `ValueError` or `TypeError`. |
| Checker.CheckRepairsCrashes | borgbackup.py:37-97 | When the code's run finishes, the corrected check sends exactly the report the code sends. When the code's run ends in an exception, the corrected check sends one red "invalid json file" report instead. |

## Left out

- Logging (`logger.info`, `warning`, `error`, `basicConfig` and `log_level`) has no effect on what is reported.
- The constructor's check that the log file exists, and its `exit(1)`, happen before any check runs.
- File reading and `json.load` are left out. The check reads the file three times, once in `check_borg_backup` and twice in `_extra_info`. The model assumes the file does not change between reads, so one `Snapshot` stands for all three.
- JSON values other than strings and `null` are left out, and `null` is modelled only for the `start`, `end`, `name` and `last_modified` values. Some cases therefore cannot be represented: a number where a time stamp belongs, `"archives": null` (Python raises `AttributeError` at the pop on line 43), an archive entry that is not an object, and a `repository` that is not an object. A missing or `null` `repository` is folded into an absent `last_modified`.
- The call into the `xymon` package becomes a recorded `Report`. That package is not part of this model.
- `datetime.datetime.now()` becomes the parameter `now`. The code reads the clock at lines 54, 59, 61, 66 and 73, and those readings can differ by a few microseconds. The model reads it once.
- `os.getenv("MACHINE")` becomes the `host` field of `Config`.
- Timestamp.Parse: accepts only the strict 26-character form with ASCII digits and an upper-case `T`. `strptime` is more lenient in several ways. It accepts fields with fewer digits and a fraction of 1 to 6 digits. It accepts non-ASCII decimal digits. It matches the literal `T` without regard to case, so `2022-12-22t00:00:04.000000` parses. Its `%d` also accepts a space followed by one digit, so `2022-12- 2T00:00:04.000000` parses. A `borg` log never writes any of these forms.
- Freshness.Threshold: yields only the instant, not the datetime fields of `now - timedelta(hours=…)`. The code uses that value only in the comparison.
- Interval.Str: states that a duration under a day with no microseconds prints as its `Clock` text, and that nonzero microseconds end the text as `.` plus six digits reading back as the microseconds. The `D day(s), ` prefix is defined but not characterised by a contract.
- The `fold` attribute of `datetime` is left out. It does not affect naive values.
- The code stores the duration in the archive dictionary (line 53) and reads it back at lines 60, 67 and 74. The model passes it as a local value instead. The popped dictionary is not visible anywhere else.

## Findings

The code shows its own intent in two places. At borgbackup.py:41 it logs
"No archives found in json file" and then calls `_send_red_status` at line 42.
At line 47 it logs "No start time found in json file" and then calls
`_send_red_status` at line 48. So a log with no archives, or with no start
time, is meant to get one red report. The code as written does not deliver
that. The model follows the code: `CheckAsWritten` records what the code does,
and `Check` is the corrected version.

| source | as written | input that shows it | evidently intended | confidence | as-written member | corrected member |
|---|---|---|---|---|---|---|
| borgbackup.py:40-43, 83 | When `archives` is missing, the red report is built through `_extra_info`. That code indexes `['archives']` itself, so it raises `KeyError` and nothing is sent. | `{"repository": {"last_modified": "…"}}` with no `archives` key | Send one red "invalid json file" report and stop (the corrected model counts 0 backups in its preamble, its own choice) | not executed | Checker.MissingArchivesSendsNothing | Checker.CheckRepairsCrashes |
| borgbackup.py:43 | An empty archive list reaches `pop()` unguarded, which raises `IndexError`, so nothing is sent. | `{"archives": [], "repository": {"last_modified": "…"}}` | Report red, because there is no backup to judge | not executed | Checker.EmptyArchivesSendsNothing | Checker.CheckRepairsCrashes |
| borgbackup.py:44-48 | A latest archive without a `start` key fails at the lookup on line 44 with `KeyError`, before the falsy test on line 46, so the red report of line 48 is never sent. | latest archive `{"name": "a", "end": "2022-12-22T00:10:04.000000"}` | Send the red "invalid json file" report and stop | not executed | Checker.MissingStartSendsNothing | Checker.CheckRepairsCrashes |
| borgbackup.py:46-50 | After the red report for an empty or `null` start, execution falls through to `strptime`, which raises `ValueError` or `TypeError`. | latest archive with `"start": ""` | Send the red report and stop | not executed | Checker.FalsyStartReportsRedThenFails | Checker.CheckRepairsCrashes |

In all four cases the corrected `Checker.Check` sends a single red report
saying the JSON file is invalid. `Checker.CheckRepairsCrashes` proves two
things about it. First, when the code's run finishes, `Check` agrees with the
code. Second, for every input on which the code raises, `Check` sends exactly
that red report.
