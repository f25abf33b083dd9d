/**
 * One run of the Borg backup check: pick the latest archive, parse its
 * start and end, classify its age and send one status report to the
 * monitoring server, preceded by a fixed preamble about the log file.
 *
 * The server is a sink: a run is the list of reports it would record and
 * the exception, if any, that ends the run. `CheckAsWritten` follows the
 * code's control flow, including the paths that crash; `Check` is the
 * corrected check that always sends exactly one report.
 */
module Checker {
  import opened Wrappers
  import opened Decimal
  import opened Timestamp
  import opened Interval
  import opened Freshness
  import opened BorgLog

  /** Host and test name of the reports, the two thresholds in hours, and the log's path. */
  datatype Config = Config(host: string, service: string, yellowHours: int, redHours: int, logFile: string)

  /** What the monitoring server records for one report. */
  datatype Report = Report(host: string, test: string, color: Color, message: string)

  /** The Python exception that ends a run. */
  datatype Fault =
    | KeyError(key: string)
    | IndexError
    | ValueError
    | TypeError
    | OverflowError

  /** The reports sent, in order, and the exception that ended the run (None: it finished). */
  datatype Run = Run(sent: seq<Report>, fault: Option<Fault>)

  /** The preamble every report starts with. */
  function PreambleText(logFile: string, count: nat, lastModified: string): string {
    "Borg backup monitoring\nLog file: " + logFile + "\nNumber of backups: " + NatToString(count)
    + "\nLast repository change: " + lastModified + "\n"
  }

  /**
   * The preamble as the code builds it: from a fresh read of the log, so the
   * archive count is that of the list before the pop. Reading a missing
   * `archives` or `last_modified` raises `KeyError`, archives first.
   */
  function Preamble(cfg: Config, snap: Snapshot): (r: Result<string, Fault>)
    ensures snap.archives.None? ==> r == Err(KeyError("archives"))
    ensures snap.archives.Some? && snap.lastModified.Absent? ==> r == Err(KeyError("last_modified"))
    ensures r.Ok? <==> snap.archives.Some? && !snap.lastModified.Absent?
  {
    match snap.archives
    case None => Err(KeyError("archives"))
    case Some(archives) =>
      if snap.lastModified.Absent? then Err(KeyError("last_modified"))
      else Ok(PreambleText(cfg.logFile, |archives|, Shown(snap.lastModified)))
  }

  /** A report of colour `color` whose message is the preamble, a newline, and `body`. */
  function Send(cfg: Config, snap: Snapshot, color: Color, body: string): (r: Result<Report, Fault>)
    ensures r.Ok? <==> Preamble(cfg, snap).Ok?
    ensures r.Ok? ==> r.value == Report(cfg.host, cfg.service, color, Preamble(cfg, snap).value + "\n" + body)
    ensures r.Err? ==> r.error == Preamble(cfg, snap).error
  {
    match Preamble(cfg, snap)
    case Err(e) => Err(e)
    case Ok(pre) => Ok(Report(cfg.host, cfg.service, color, pre + "\n" + body))
  }

  /** A send followed by the rest of the run; a send that raises ends the run with nothing sent. */
  function Emit(attempt: Result<Report, Fault>, rest: Run): Run {
    match attempt
    case Err(e) => Run([], Some(e))
    case Ok(report) => Run([report] + rest.sent, rest.fault)
  }

  function Crash(e: Fault): Run {
    Run([], Some(e))
  }

  /** The body of the early red reports. */
  function InvalidBody(logFile: string): string {
    "Invalid json file found at " + logFile
  }

  /** The body of a status report. */
  function StatusBody(start: DateTime, name: string, age: Delta, duration: Delta): string
    requires Valid(start) && Normalized(age) && Normalized(duration)
  {
    "Last archive start time: " + Timestamp.Str(start) + "\nArchive name: " + name
    + "\nAge of last archive: " + Interval.Str(age) + "\nDuration of last backup: " + Interval.Str(duration)
  }

  /** `strptime` applied to a looked-up value. */
  function ParseField(f: Field, key: string): (r: Result<DateTime, Fault>)
    ensures r.Ok? <==> f.Text? && Parse(f.text).Some?
    ensures r.Ok? ==> Valid(r.value) && r.value == Parse(f.text).value
    ensures f.Absent? ==> r == Err(KeyError(key))
    ensures f.Null? ==> r == Err(TypeError)
    ensures f.Text? && Parse(f.text).None? ==> r == Err(ValueError)
  {
    match f
    case Absent => Err(KeyError(key))
    case Null => Err(TypeError)
    case Text(s) =>
      match Parse(s)
      case None => Err(ValueError)
      case Some(t) => Ok(t)
  }

  /**
   * Everything after the early checks, for the latest archive: parse its
   * start and end, compute the duration, classify, and build the body.
   * Fails with the exception the code would raise first.
   */
  function Assess(cfg: Config, last: Archive, now: DateTime): (r: Result<(Color, string), Fault>)
    requires Valid(now)
  {
    match ParseField(last.start, "start")
    case Err(e) => Err(e)
    case Ok(start) =>
      match ParseField(last.end, "end")
      case Err(e) => Err(e)
      case Ok(end) =>
        var duration := Elapsed(start, end);
        match Classify(ToMicros(start), ToMicros(now), cfg.yellowHours, cfg.redHours)
        case None => Err(OverflowError)
        case Some(color) =>
          if last.name.Absent? then Err(KeyError("name"))
          else Ok((color, StatusBody(start, Shown(last.name), Elapsed(start, now), duration)))
  }

  /** Whether `archives` is present and not empty, so that the pop succeeds. */
  predicate HasLatest(snap: Snapshot) {
    snap.archives.Some? && |snap.archives.value| > 0
  }

  /** The archive the pop removes: the final element of `archives`. */
  function Latest(snap: Snapshot): Archive
    requires HasLatest(snap)
  {
    snap.archives.value[|snap.archives.value| - 1]
  }

  /**
   * The check as written: a missing `archives` key triggers a red report
   * and then the pop; an empty or `null` start triggers a red report and
   * then the parse; then the archive is assessed and one report sent.
   */
  function CheckAsWritten(cfg: Config, snap: Snapshot, now: DateTime): (run: Run)
    requires Valid(now)
  {
    if snap.archives.None? then
      Emit(Send(cfg, snap, Red, InvalidBody(cfg.logFile)), Crash(KeyError("archives")))
    else
      match Pop(snap.archives.value)
      case None => Crash(IndexError)
      case Some((_, last)) =>
        if last.start.Absent? then Crash(KeyError("start"))
        else
          var rest :=
            match Assess(cfg, last, now)
            case Err(e) => Crash(e)
            case Ok((color, body)) => Emit(Send(cfg, snap, color, body), Run([], None));
          if Falsy(last.start) then
            Emit(Send(cfg, snap, Red, InvalidBody(cfg.logFile)), rest)
          else rest
  }

  /**
   * The corrected check: every failure while checking becomes one red
   * report about an invalid log. When a value the preamble needs is missing,
   * this model makes its own choice: a missing archive list counts as 0
   * backups, and a missing last-modified value prints as `None`.
   */
  function Check(cfg: Config, snap: Snapshot, now: DateTime): (report: Report)
    requires Valid(now)
    ensures report.host == cfg.host && report.test == cfg.service
    ensures report.color != Red ==> WellFormed(cfg, snap, now)
  {
    var count := if snap.archives.Some? then |snap.archives.value| else 0;
    var lastModified := if snap.lastModified.Absent? then "None" else Shown(snap.lastModified);
    var pre := PreambleText(cfg.logFile, count, lastModified);
    if HasLatest(snap) && !snap.lastModified.Absent? && Assess(cfg, Latest(snap), now).Ok? then
      AssessOkIffWellFormed(cfg, snap, now);
      var (color, body) := Assess(cfg, Latest(snap), now).value;
      Report(cfg.host, cfg.service, color, pre + "\n" + body)
    else
      Report(cfg.host, cfg.service, Red, pre + "\n" + InvalidBody(cfg.logFile))
  }

  /**
   * A log the check can handle end to end: the latest archive exists, its
   * start and end parse, it has a name, the repository's last-modified value
   * is present, and building the thresholds does not overflow.
   */
  predicate WellFormed(cfg: Config, snap: Snapshot, now: DateTime)
    requires Valid(now)
  {
    && HasLatest(snap)
    && !snap.lastModified.Absent?
    && Latest(snap).start.Text? && Parse(Latest(snap).start.text).Some?
    && Latest(snap).end.Text? && Parse(Latest(snap).end.text).Some?
    && !Latest(snap).name.Absent?
    && Classify(ToMicros(Parse(Latest(snap).start.text).value), ToMicros(now), cfg.yellowHours, cfg.redHours).Some?
  }

  /** An empty or `null` start never survives the parse that follows the early red report. */
  lemma FalsyStartFailsAssess(cfg: Config, last: Archive, now: DateTime)
    requires Valid(now) && Falsy(last.start)
    ensures Assess(cfg, last, now) == Err(if last.start.Null? then TypeError else ValueError)
  {
  }

  /**
   * The thresholds are built before `name` is looked up, so an overflow wins
   * over a missing name.
   */
  lemma OverflowBeforeMissingName(cfg: Config, last: Archive, now: DateTime)
    requires Valid(now) && last.name.Absent?
    requires ParseField(last.start, "start").Ok? && ParseField(last.end, "end").Ok?
    requires Classify(ToMicros(ParseField(last.start, "start").value), ToMicros(now), cfg.yellowHours, cfg.redHours).None?
    ensures Assess(cfg, last, now) == Err(OverflowError)
  {
  }

  /** Assessment succeeds exactly on well-formed logs. */
  lemma AssessOkIffWellFormed(cfg: Config, snap: Snapshot, now: DateTime)
    requires Valid(now) && HasLatest(snap) && !snap.lastModified.Absent?
    ensures Assess(cfg, Latest(snap), now).Ok? <==> WellFormed(cfg, snap, now)
  {
  }

  /** A run finishes without an exception exactly when the log is well formed. */
  lemma FinishesIffWellFormed(cfg: Config, snap: Snapshot, now: DateTime)
    requires Valid(now)
    ensures CheckAsWritten(cfg, snap, now).fault.None? <==> WellFormed(cfg, snap, now)
  {
    if HasLatest(snap) {
      var last := Latest(snap);
      assert Pop(snap.archives.value) == Some((snap.archives.value[..|snap.archives.value| - 1], last));
      if !last.start.Absent? && Falsy(last.start) {
        FalsyStartFailsAssess(cfg, last, now);
      }
      if !snap.lastModified.Absent? {
        AssessOkIffWellFormed(cfg, snap, now);
      }
    }
  }

  /**
   * A well-formed log gets exactly one report: the colour `Classify` gives
   * the latest archive's start, and a message made of the preamble
   * (counting every archive in the file), a newline, and the start time,
   * name, age and duration of that archive.
   */
  lemma WellFormedSendsOne(cfg: Config, snap: Snapshot, now: DateTime)
    requires Valid(now) && WellFormed(cfg, snap, now)
    ensures var last := Latest(snap);
            var start := Parse(last.start.text).value;
            var end := Parse(last.end.text).value;
            CheckAsWritten(cfg, snap, now) == Run([Report(cfg.host, cfg.service,
              Classify(ToMicros(start), ToMicros(now), cfg.yellowHours, cfg.redHours).value,
              PreambleText(cfg.logFile, |snap.archives.value|, Shown(snap.lastModified)) + "\n"
              + StatusBody(start, Shown(last.name), Elapsed(start, now), Elapsed(start, end)))], None)
  {
    var last := Latest(snap);
    var start := Parse(last.start.text).value;
    var end := Parse(last.end.text).value;
    var color := Classify(ToMicros(start), ToMicros(now), cfg.yellowHours, cfg.redHours).value;
    var body := StatusBody(start, Shown(last.name), Elapsed(start, now), Elapsed(start, end));
    var pre := PreambleText(cfg.logFile, |snap.archives.value|, Shown(snap.lastModified));
    AssessWellFormed(cfg, snap, now);
    RunOfAssessed(cfg, snap, now, color, body);
    assert Send(cfg, snap, color, body) == Ok(Report(cfg.host, cfg.service, color, pre + "\n" + body));
  }

  lemma AssessWellFormed(cfg: Config, snap: Snapshot, now: DateTime)
    requires Valid(now) && WellFormed(cfg, snap, now)
    ensures var last := Latest(snap);
            var start := Parse(last.start.text).value;
            var end := Parse(last.end.text).value;
            Assess(cfg, last, now) ==
              Ok((Classify(ToMicros(start), ToMicros(now), cfg.yellowHours, cfg.redHours).value,
                  StatusBody(start, Shown(last.name), Elapsed(start, now), Elapsed(start, end))))
  {
    var last := Latest(snap);
    assert ParseField(last.start, "start") == Ok(Parse(last.start.text).value);
    assert ParseField(last.end, "end") == Ok(Parse(last.end.text).value);
  }

  /** Once the latest archive has a truthy start and assesses cleanly, the run is that one send. */
  lemma RunOfAssessed(cfg: Config, snap: Snapshot, now: DateTime, color: Color, body: string)
    requires Valid(now) && HasLatest(snap)
    requires Latest(snap).start.Text? && Latest(snap).start.text != ""
    requires Assess(cfg, Latest(snap), now) == Ok((color, body))
    ensures CheckAsWritten(cfg, snap, now) == Emit(Send(cfg, snap, color, body), Run([], None))
  {
    assert Pop(snap.archives.value) == Some((snap.archives.value[..|snap.archives.value| - 1], Latest(snap)));
  }

  /**
   * The code sends at most one report per run, and a report it sends is
   * addressed to the configured host and test and starts with the preamble
   * and a newline, the preamble counting the archives as read from the file.
   */
  lemma AtMostOneReport(cfg: Config, snap: Snapshot, now: DateTime)
    requires Valid(now)
    ensures |CheckAsWritten(cfg, snap, now).sent| <= 1
    ensures CheckAsWritten(cfg, snap, now).sent != [] ==>
              var pre := PreambleText(cfg.logFile, |snap.archives.value|, Shown(snap.lastModified)) + "\n";
              var report := CheckAsWritten(cfg, snap, now).sent[0];
              && snap.archives.Some? && !snap.lastModified.Absent?
              && report.host == cfg.host && report.test == cfg.service
              && |pre| <= |report.message| && report.message[..|pre|] == pre
  {
    if HasLatest(snap) {
      var last := Latest(snap);
      assert Pop(snap.archives.value) == Some((snap.archives.value[..|snap.archives.value| - 1], last));
      if !last.start.Absent? && Falsy(last.start) {
        FalsyStartFailsAssess(cfg, last, now);
      }
    }
    var run := CheckAsWritten(cfg, snap, now);
    if run.sent != [] {
      var pre := PreambleText(cfg.logFile, |snap.archives.value|, Shown(snap.lastModified)) + "\n";
      var message := run.sent[0].message;
      assert message == pre + message[|pre|..];
    }
  }

  /**
   * A log without an `archives` key gets no report at all: the red report
   * meant for it reads `archives` itself while building its preamble.
   */
  lemma MissingArchivesSendsNothing(cfg: Config, snap: Snapshot, now: DateTime)
    requires Valid(now) && snap.archives.None?
    ensures CheckAsWritten(cfg, snap, now) == Run([], Some(KeyError("archives")))
  {
  }

  /** A log whose `archives` list is empty gets no report: `pop` raises first. */
  lemma EmptyArchivesSendsNothing(cfg: Config, snap: Snapshot, now: DateTime)
    requires Valid(now) && snap.archives == Some([])
    ensures CheckAsWritten(cfg, snap, now) == Run([], Some(IndexError))
  {
  }

  /**
   * A latest archive with no `start` key fails at the lookup, before the
   * emptiness test, so no report is sent.
   */
  lemma MissingStartSendsNothing(cfg: Config, snap: Snapshot, now: DateTime)
    requires Valid(now) && HasLatest(snap) && Latest(snap).start.Absent?
    ensures CheckAsWritten(cfg, snap, now) == Run([], Some(KeyError("start")))
  {
    assert Pop(snap.archives.value) == Some((snap.archives.value[..|snap.archives.value| - 1], Latest(snap)));
  }

  /**
   * An empty or `null` start gets the red "invalid json file" report, after
   * which the run still goes on to parse the start and fails there.
   */
  lemma FalsyStartReportsRedThenFails(cfg: Config, snap: Snapshot, now: DateTime)
    requires Valid(now) && HasLatest(snap) && !snap.lastModified.Absent? && Falsy(Latest(snap).start)
    ensures CheckAsWritten(cfg, snap, now) ==
              Run([Report(cfg.host, cfg.service, Red,
                          PreambleText(cfg.logFile, |snap.archives.value|, Shown(snap.lastModified)) + "\n"
                          + InvalidBody(cfg.logFile))],
                  Some(if Latest(snap).start.Null? then TypeError else ValueError))
  {
    var last := Latest(snap);
    assert Pop(snap.archives.value) == Some((snap.archives.value[..|snap.archives.value| - 1], last));
    FalsyStartFailsAssess(cfg, last, now);
  }

  /**
   * The corrected check sends the very report the code sends whenever the
   * code's run finishes, and a red "invalid json file" report whenever the
   * code's run ends in an exception, whether or not the code got a report
   * out first.
   */
  lemma CheckRepairsCrashes(cfg: Config, snap: Snapshot, now: DateTime)
    requires Valid(now)
    ensures CheckAsWritten(cfg, snap, now).fault.None? ==> CheckAsWritten(cfg, snap, now).sent == [Check(cfg, snap, now)]
    ensures CheckAsWritten(cfg, snap, now).fault.Some? ==>
              Check(cfg, snap, now) == Report(cfg.host, cfg.service, Red,
                PreambleText(cfg.logFile, if snap.archives.Some? then |snap.archives.value| else 0,
                             if snap.lastModified.Absent? then "None" else Shown(snap.lastModified))
                + "\n" + InvalidBody(cfg.logFile))
  {
    FinishesIffWellFormed(cfg, snap, now);
    if WellFormed(cfg, snap, now) {
      WellFormedSendsOne(cfg, snap, now);
    }
    if HasLatest(snap) && !snap.lastModified.Absent? {
      AssessOkIffWellFormed(cfg, snap, now);
    }
  }
}
