/**
 * Python's `timedelta`: a signed span of time kept as whole days, seconds
 * within the day and microseconds within the second, and its `str()`.
 */
module Interval {
  import opened Wrappers
  import opened Decimal
  import opened Calendar
  import opened Timestamp

  datatype Delta = Delta(days: int, seconds: int, micros: int)

  /** The canonical form `timedelta` always stores. */
  predicate Normalized(d: Delta) {
    0 <= d.seconds < 86400 && 0 <= d.micros < SecondMicros
  }

  function TotalMicros(d: Delta): int {
    d.days * DayMicros + d.seconds * SecondMicros + d.micros
  }

  /** The normalized `timedelta` spanning `us` microseconds (floor division, as Python's `divmod`). */
  function FromMicros(us: int): (d: Delta)
    ensures Normalized(d) && TotalMicros(d) == us
  {
    var rest := us % DayMicros;
    Delta(us / DayMicros, rest / SecondMicros, rest % SecondMicros)
  }

  /** A span has only one normalized form. */
  lemma NormalizedUnique(d: Delta, e: Delta)
    requires Normalized(d) && Normalized(e) && TotalMicros(d) == TotalMicros(e)
    ensures d == e
  {
    var a, b := d.seconds * SecondMicros + d.micros, e.seconds * SecondMicros + e.micros;
    DivUnique(TotalMicros(d), DayMicros, d.days, a);
    DivUnique(TotalMicros(e), DayMicros, e.days, b);
    DivUnique(a, SecondMicros, d.seconds, d.micros);
    DivUnique(b, SecondMicros, e.seconds, e.micros);
  }

  /**
   * `str()` of a `timedelta`: `H:MM:SS`, preceded by `D day, ` or `D days, `
   * when there are whole days, followed by `.ffffff` when there are
   * microseconds. Negative spans show a negative day count and a
   * non-negative time of day, as in `-1 day, 23:59:59`.
   */
  function Str(d: Delta): (s: string)
    requires Normalized(d)
    ensures d.days == 0 && d.micros == 0 ==> s == Clock(d.seconds)
    ensures d.micros != 0 ==> |s| > 7 && s[|s| - 7] == '.' && AllDigits(s[|s| - 6..]) && Value(s[|s| - 6..]) == d.micros
  {
    var clock := Clock(d.seconds);
    var withDays := if d.days == 0 then clock
                    else IntToString(d.days) + " day" + (if d.days == 1 || d.days == -1 then "" else "s")
                         + ", " + clock;
    if d.micros == 0 then withDays else withDays + "." + Pad(d.micros, 6)
  }

  /**
   * Seconds within a day as `H:MM:SS`: an hour field in decimal without
   * leading zeros, then two-digit minute and second fields below 60, which
   * together read back as `seconds`.
   */
  function Clock(seconds: int): (s: string)
    requires 0 <= seconds < 86400
    ensures |s| >= 7
    ensures var n := |s| - 6;
            && s[n] == ':' && s[n + 3] == ':'
            && AllDigits(s[..n]) && (n > 1 ==> s[0] != '0')
            && AllDigits(s[n + 1..n + 3]) && AllDigits(s[n + 4..])
            && Value(s[n + 1..n + 3]) < 60 && Value(s[n + 4..]) < 60
            && Value(s[..n]) * 3600 + Value(s[n + 1..n + 3]) * 60 + Value(s[n + 4..]) == seconds
  {
    var minutes := seconds / 60;
    DivUnique(minutes, 60, seconds / 3600, minutes % 60);
    var h, m, x := NatToString(seconds / 3600), Pad(minutes % 60, 2), Pad(seconds % 60, 2);
    var s := h + ":" + m + ":" + x;
    assert s[..|h|] == h && s[|h| + 1..|h| + 3] == m && s[|h| + 4..] == x;
    s
  }

  /** `to - from` for two `datetime` values: the span between them, negative when `to` is earlier. */
  function Elapsed(from: DateTime, to: DateTime): (d: Delta)
    requires Valid(from) && Valid(to)
    ensures Normalized(d)
    ensures ToMicros(from) + TotalMicros(d) == ToMicros(to)
    ensures TotalMicros(d) < 0 <==> Before(to, from)
  {
    ToMicrosOrder(to, from);
    FromMicros(ToMicros(to) - ToMicros(from))
  }

  /**
   * The example in the code's comment: an archive started at
   * 2022-12-22T00:00:04.000000 and ended at 2022-12-22T00:10:04.000000 took
   * exactly ten minutes.
   */
  lemma TenMinuteBackup()
    ensures Elapsed(DateTime(2022, 12, 22, 0, 0, 4, 0), DateTime(2022, 12, 22, 0, 10, 4, 0)) == Delta(0, 600, 0)
    ensures TotalMicros(Delta(0, 600, 0)) == 10 * MinuteMicros
  {
    var start, end := DateTime(2022, 12, 22, 0, 0, 4, 0), DateTime(2022, 12, 22, 0, 10, 4, 0);
    assert ToMicros(end) - ToMicros(start) == 600 * SecondMicros;
    NormalizedUnique(Elapsed(start, end), Delta(0, 600, 0));
  }
}
