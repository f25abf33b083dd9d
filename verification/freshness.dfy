/**
 * The traffic-light decision of the Borg backup check: how old the latest
 * archive's start time is against two thresholds in hours. All instants are
 * microsecond counts from `Timestamp.ToMicros`.
 */
module Freshness {
  import opened Wrappers
  import opened Timestamp

  datatype Color = Green | Yellow | Red

  /** Severity order: green, then yellow, then red. */
  function Rank(c: Color): nat {
    match c
    case Green => 0
    case Yellow => 1
    case Red => 2
  }

  /** Whether an instant lies in the range a `datetime` can hold. */
  predicate Representable(us: int) {
    0 <= us < EndMicros
  }

  /**
   * `now - timedelta(hours=hours)`: the instant `hours` hours before `now`,
   * or None where Python raises `OverflowError` because that instant falls
   * outside 0001-01-01 .. 9999-12-31.
   */
  function Threshold(now: int, hours: int): (r: Option<int>)
    ensures r.Some? <==> Representable(now - hours * HourMicros)
    ensures r.Some? ==> now - r.value == hours * HourMicros
  {
    var line := now - hours * HourMicros;
    if Representable(line) then Some(line) else None
  }

  /**
   * The colour of an archive that started at `start`, checked at `now`:
   * red when it started strictly before `now - redHours`, otherwise yellow
   * when it started strictly before `now - yellowHours`, otherwise green.
   * None when building either threshold overflows; the yellow threshold is
   * only built when the archive is not red.
   *
   * The contract restates the decision in terms of the archive's age
   * `now - start`: red when the age exceeds `redHours`, yellow when it
   * exceeds `yellowHours` but not `redHours`, green when it exceeds neither.
   */
  function Classify(start: int, now: int, yellowHours: int, redHours: int): (r: Option<Color>)
    ensures r == Some(Red) <==>
              Representable(now - redHours * HourMicros) && now - start > redHours * HourMicros
    ensures r == Some(Yellow) <==>
              && Representable(now - redHours * HourMicros)
              && Representable(now - yellowHours * HourMicros)
              && yellowHours * HourMicros < now - start <= redHours * HourMicros
    ensures r == Some(Green) <==>
              && Representable(now - redHours * HourMicros)
              && Representable(now - yellowHours * HourMicros)
              && now - start <= yellowHours * HourMicros
              && now - start <= redHours * HourMicros
  {
    match Threshold(now, redHours)
    case None => None
    case Some(redLine) =>
      if start < redLine then Some(Red)
      else
        match Threshold(now, yellowHours)
        case None => None
        case Some(yellowLine) =>
          if start < yellowLine then Some(Yellow) else Some(Green)
  }

  /**
   * The red decision alone, which needs only the red threshold: the check
   * builds the yellow one only for an archive that is not red.
   */
  lemma ClassifyRedAgreesWithDatetimeOrder(start: DateTime, now: DateTime, redLine: DateTime,
                                           yellowHours: int, redHours: int)
    requires Valid(start) && Valid(now) && Valid(redLine)
    requires ToMicros(redLine) == ToMicros(now) - redHours * HourMicros
    ensures Classify(ToMicros(start), ToMicros(now), yellowHours, redHours) == Some(Red) <==> Before(start, redLine)
  {
    ToMicrosOrder(start, redLine);
  }

  /**
   * The model compares microsecond counts where the check compares
   * `datetime` values. For a valid start time and any valid `datetime`
   * standing at the red threshold, Python's `start < threshold` decides red
   * exactly as the model does, and likewise for yellow.
   */
  lemma ClassifyAgreesWithDatetimeOrder(start: DateTime, now: DateTime, redLine: DateTime, yellowLine: DateTime,
                                        yellowHours: int, redHours: int)
    requires Valid(start) && Valid(now) && Valid(redLine) && Valid(yellowLine)
    requires ToMicros(redLine) == ToMicros(now) - redHours * HourMicros
    requires ToMicros(yellowLine) == ToMicros(now) - yellowHours * HourMicros
    ensures Classify(ToMicros(start), ToMicros(now), yellowHours, redHours) == Some(Red) <==> Before(start, redLine)
    ensures Classify(ToMicros(start), ToMicros(now), yellowHours, redHours) == Some(Yellow) <==>
              !Before(start, redLine) && Before(start, yellowLine)
    ensures Classify(ToMicros(start), ToMicros(now), yellowHours, redHours) == Some(Green) <==>
              !Before(start, redLine) && !Before(start, yellowLine)
  {
    ToMicrosOrder(start, redLine);
    ToMicrosOrder(start, yellowLine);
  }

  /**
   * The thresholds are strict: an archive exactly `redHours` old is not red,
   * and one exactly `yellowHours` old is green provided the red threshold is
   * no tighter than the yellow one.
   */
  lemma ClassifyBoundaries(now: int, yellowHours: int, redHours: int)
    requires Representable(now - redHours * HourMicros) && Representable(now - yellowHours * HourMicros)
    ensures Classify(now - redHours * HourMicros, now, yellowHours, redHours) != Some(Red)
    ensures Classify(now - redHours * HourMicros, now, yellowHours, redHours).Some?
    ensures yellowHours <= redHours ==>
              Classify(now - yellowHours * HourMicros, now, yellowHours, redHours) == Some(Green)
  {
  }

  /**
   * An older archive is never reported in a less severe colour than a newer
   * one under the same clock and thresholds. This holds whatever the order
   * of the two thresholds: with `redHours < yellowHours` yellow simply never
   * occurs.
   */
  lemma ClassifyMonotone(older: int, newer: int, now: int, yellowHours: int, redHours: int)
    requires older <= newer
    requires Classify(older, now, yellowHours, redHours).Some?
    requires Classify(newer, now, yellowHours, redHours).Some?
    ensures Rank(Classify(older, now, yellowHours, redHours).value)
            >= Rank(Classify(newer, now, yellowHours, redHours).value)
  {
  }

  /** With `redHours < yellowHours` the check never reports yellow. */
  lemma NoYellowWhenRedTighter(start: int, now: int, yellowHours: int, redHours: int)
    requires redHours < yellowHours
    ensures Classify(start, now, yellowHours, redHours) != Some(Yellow)
  {
  }

  /**
   * The deployed thresholds (yellow 30 hours, red 60 hours): an archive 10
   * hours old is green, 40 hours old is yellow, 70 hours old is red.
   */
  lemma DeployedThresholds(now: int)
    requires Representable(now - 70 * HourMicros) && Representable(now)
    ensures Classify(now - 10 * HourMicros, now, 30, 60) == Some(Green)
    ensures Classify(now - 40 * HourMicros, now, 30, 60) == Some(Yellow)
    ensures Classify(now - 70 * HourMicros, now, 30, 60) == Some(Red)
    ensures Classify(now - 30 * HourMicros, now, 30, 60) == Some(Green)
    ensures Classify(now - 60 * HourMicros, now, 30, 60) == Some(Yellow)
  {
  }
}
