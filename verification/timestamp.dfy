/**
 * Naive (timezone-free) date-times in the shape `YYYY-MM-DDTHH:MM:SS.ffffff`,
 * the ISO 8601 extended complete date-and-time representation (section 4.3.2
 * of ISO 8601:2004) with a six-digit decimal fraction of the second. Time is
 * measured as an integer count of microseconds since 0001-01-01T00:00:00.
 */
module Timestamp {
  import opened Wrappers
  import opened Decimal
  import opened Calendar

  const SecondMicros := 1_000_000
  const MinuteMicros := 60 * SecondMicros
  const HourMicros := 60 * MinuteMicros
  const DayMicros := 24 * HourMicros
  /** One past the last microsecond a `datetime` can hold (the end of 9999-12-31). */
  const EndMicros := MaxOrdinal * DayMicros

  datatype DateTime = DateTime(year: int, month: int, day: int,
                               hour: int, minute: int, second: int, micro: int)

  /** The field ranges Python's `datetime` constructor enforces. */
  predicate Valid(t: DateTime) {
    && ValidDate(t.year, t.month, t.day)
    && 0 <= t.hour < 24 && 0 <= t.minute < 60 && 0 <= t.second < 60
    && 0 <= t.micro < SecondMicros
  }

  /** Comparison of naive `datetime` values: field by field, year first. */
  predicate Before(a: DateTime, b: DateTime) {
    || DateBefore(a.year, a.month, a.day, b.year, b.month, b.day)
    || ((a.year, a.month, a.day) == (b.year, b.month, b.day) &&
        (|| a.hour < b.hour
         || (a.hour == b.hour && (|| a.minute < b.minute
                                  || (a.minute == b.minute && (|| a.second < b.second
                                                               || (a.second == b.second && a.micro < b.micro)))))))
  }

  function TimeOfDay(t: DateTime): (us: int)
    requires Valid(t)
    ensures 0 <= us < DayMicros
  {
    t.hour * HourMicros + t.minute * MinuteMicros + t.second * SecondMicros + t.micro
  }

  /** Microseconds elapsed since 0001-01-01T00:00:00. */
  function ToMicros(t: DateTime): (us: int)
    requires Valid(t)
    ensures 0 <= us < EndMicros
  {
    OrdinalRange(t.year, t.month, t.day);
    (Ordinal(t.year, t.month, t.day) - 1) * DayMicros + TimeOfDay(t)
  }

  /** Field-wise order within one day agrees with the microsecond count. */
  lemma TimeOfDayMonotone(a: DateTime, b: DateTime)
    requires Valid(a) && Valid(b)
    requires (a.year, a.month, a.day) == (b.year, b.month, b.day) && Before(a, b)
    ensures TimeOfDay(a) < TimeOfDay(b)
  {
  }

  /** Converting to microseconds preserves the order of `datetime` values. */
  lemma BeforeIsEarlier(a: DateTime, b: DateTime)
    requires Valid(a) && Valid(b) && Before(a, b)
    ensures ToMicros(a) < ToMicros(b)
  {
    if DateBefore(a.year, a.month, a.day, b.year, b.month, b.day) {
      OrdinalMonotone(a.year, a.month, a.day, b.year, b.month, b.day);
      var oa, ob := Ordinal(a.year, a.month, a.day), Ordinal(b.year, b.month, b.day);
      assert (oa - 1) * DayMicros + DayMicros <= (ob - 1) * DayMicros;
    } else {
      TimeOfDayMonotone(a, b);
    }
  }

  /**
   * Python's `<` on two valid `datetime` values holds exactly when the first
   * is fewer microseconds after 0001-01-01 than the second, and equal counts
   * mean equal values: the microsecond count is a faithful stand-in for the
   * `datetime` in every comparison.
   */
  lemma ToMicrosOrder(a: DateTime, b: DateTime)
    requires Valid(a) && Valid(b)
    ensures Before(a, b) <==> ToMicros(a) < ToMicros(b)
    ensures ToMicros(a) == ToMicros(b) <==> a == b
  {
    if Before(a, b) {
      BeforeIsEarlier(a, b);
    } else if Before(b, a) {
      BeforeIsEarlier(b, a);
    } else {
      assert a == b;
    }
  }

  /** The separators of the shape, by position. */
  predicate Shaped(s: string) {
    && |s| == 26
    && s[4] == '-' && s[7] == '-' && s[10] == 'T'
    && s[13] == ':' && s[16] == ':' && s[19] == '.'
    && AllDigits(s[0..4]) && AllDigits(s[5..7]) && AllDigits(s[8..10])
    && AllDigits(s[11..13]) && AllDigits(s[14..16]) && AllDigits(s[17..19])
    && AllDigits(s[20..26])
  }

  /** The numbers the digit groups of a well-shaped string denote. */
  function Fields(s: string): DateTime
    requires Shaped(s)
  {
    DateTime(Value(s[0..4]), Value(s[5..7]), Value(s[8..10]),
             Value(s[11..13]), Value(s[14..16]), Value(s[17..19]), Value(s[20..26]))
  }

  /** `YYYY-MM-DD`. */
  function DatePart(t: DateTime): (s: string)
    requires Valid(t)
    ensures |s| == 10 && s[4] == '-' && s[7] == '-'
    ensures s[0..4] == Pad(t.year, 4) && s[5..7] == Pad(t.month, 2) && s[8..10] == Pad(t.day, 2)
  {
    var s := Pad(t.year, 4) + "-" + Pad(t.month, 2) + "-" + Pad(t.day, 2);
    assert s[0..4] == Pad(t.year, 4);
    assert s[5..7] == Pad(t.month, 2);
    assert s[8..10] == Pad(t.day, 2);
    s
  }

  /** `HH:MM:SS`. */
  function TimePart(t: DateTime): (s: string)
    requires Valid(t)
    ensures |s| == 8 && s[2] == ':' && s[5] == ':'
    ensures s[0..2] == Pad(t.hour, 2) && s[3..5] == Pad(t.minute, 2) && s[6..8] == Pad(t.second, 2)
  {
    var s := Pad(t.hour, 2) + ":" + Pad(t.minute, 2) + ":" + Pad(t.second, 2);
    assert s[0..2] == Pad(t.hour, 2);
    assert s[3..5] == Pad(t.minute, 2);
    assert s[6..8] == Pad(t.second, 2);
    s
  }

  /** Renders a date-time in the shape `YYYY-MM-DDTHH:MM:SS.ffffff`. */
  function Format(t: DateTime): (s: string)
    requires Valid(t)
    ensures |s| == 26 && s[..10] == DatePart(t) && s[10] == 'T'
    ensures s[11..19] == TimePart(t) && s[19] == '.' && s[20..] == Pad(t.micro, 6)
  {
    var s := DatePart(t) + "T" + TimePart(t) + "." + Pad(t.micro, 6);
    assert s[..10] == DatePart(t);
    assert s[11..19] == TimePart(t);
    assert s[20..] == Pad(t.micro, 6);
    s
  }

  /** The rendering has the shape, and its digit groups read back as the fields. */
  lemma FormatShaped(t: DateTime)
    requires Valid(t)
    ensures Shaped(Format(t)) && Fields(Format(t)) == t
  {
    var s, d, h := Format(t), DatePart(t), TimePart(t);
    assert s[0..4] == d[0..4] && s[5..7] == d[5..7] && s[8..10] == d[8..10];
    assert s[11..13] == h[0..2] && s[14..16] == h[3..5] && s[17..19] == h[6..8];
    assert s[20..26] == s[20..];
  }

  /**
   * `strptime(s, "%Y-%m-%dT%H:%M:%S.%f")` on the documented shape: succeeds
   * exactly when `s` has the shape and its fields make a valid `datetime`.
   */
  function Parse(s: string): (r: Option<DateTime>)
    ensures r.Some? <==> Shaped(s) && Valid(Fields(s))
    ensures r.Some? ==> Valid(r.value)
  {
    if Shaped(s) && Valid(Fields(s)) then Some(Fields(s)) else None
  }

  /** A string that parses is the rendering of what it parses to. */
  lemma FormatParse(s: string)
    requires Parse(s).Some?
    ensures Format(Parse(s).value) == s
  {
    FormatFields(s);
  }

  /** A well-shaped string is the rendering of its own fields. */
  lemma FormatFields(s: string)
    requires Shaped(s) && Valid(Fields(s))
    ensures Format(Fields(s)) == s
  {
    DatePartFields(s);
    TimePartFields(s);
    PadSlice(s, 20, 26);
    WholeSlices(s);
  }

  lemma DatePartFields(s: string)
    requires Shaped(s) && Valid(Fields(s))
    ensures DatePart(Fields(s)) == s[..10]
  {
    var t := Fields(s);
    PadSlice(s, 0, 4);
    PadSlice(s, 5, 7);
    PadSlice(s, 8, 10);
    DateSlices(s);
    assert DatePart(t) == Pad(t.year, 4) + "-" + Pad(t.month, 2) + "-" + Pad(t.day, 2);
  }

  lemma TimePartFields(s: string)
    requires Shaped(s) && Valid(Fields(s))
    ensures TimePart(Fields(s)) == s[11..19]
  {
    var t := Fields(s);
    PadSlice(s, 11, 13);
    PadSlice(s, 14, 16);
    PadSlice(s, 17, 19);
    TimeSlices(s);
    assert TimePart(t) == Pad(t.hour, 2) + ":" + Pad(t.minute, 2) + ":" + Pad(t.second, 2);
  }

  /** A digit group written back at its own width is the group itself. */
  lemma PadSlice(s: string, i: nat, j: nat)
    requires i <= j <= |s| && AllDigits(s[i..j])
    ensures Value(s[i..j]) < Pow10(j - i) && Pad(Value(s[i..j]), j - i) == s[i..j]
  {
    PadValue(s[i..j]);
  }

  lemma DateSlices(s: string)
    requires |s| >= 10 && s[4] == '-' && s[7] == '-'
    ensures s[..10] == s[0..4] + "-" + s[5..7] + "-" + s[8..10]
  {
  }

  lemma TimeSlices(s: string)
    requires |s| >= 19 && s[13] == ':' && s[16] == ':'
    ensures s[11..19] == s[11..13] + ":" + s[14..16] + ":" + s[17..19]
  {
  }

  lemma WholeSlices(s: string)
    requires |s| == 26 && s[10] == 'T' && s[19] == '.'
    ensures s == s[..10] + "T" + s[11..19] + "." + s[20..26]
  {
  }

  /** Parsing the rendering of a valid date-time gives back exactly its fields. */
  lemma ParseFormat(t: DateTime)
    requires Valid(t)
    ensures Parse(Format(t)) == Some(t)
  {
    FormatShaped(t);
  }

  /**
   * `str()` of a `datetime`: the date, a space, the time, and the six-digit
   * fraction only when it is not zero.
   */
  function Str(t: DateTime): string
    requires Valid(t)
  {
    DatePart(t) + " " + TimePart(t) + (if t.micro != 0 then "." + Pad(t.micro, 6) else "")
  }

  /**
   * `str()` differs from the ISO rendering only in the separator between
   * date and time, and in dropping a zero fraction.
   */
  lemma StrIsFormatWithSpace(t: DateTime)
    requires Valid(t)
    ensures t.micro != 0 ==> Str(t) == Format(t)[..10] + " " + Format(t)[11..]
    ensures t.micro == 0 ==> Str(t) == Format(t)[..10] + " " + Format(t)[11..19]
  {
    var f := Format(t);
    assert f[11..] == f[11..19] + f[19..];
    assert f[19..] == "." + Pad(t.micro, 6);
  }
}
