/**
 * The relative-time label of a comment (`Comment._updateTimeString`).
 *
 * The source divides the elapsed milliseconds by 1000 and picks the first of
 * six units whose threshold (60, 3600, 86400, 2592000, 31536000 seconds) the
 * duration is below, then rounds the duration in that unit with `Math.round`.
 * Here the elapsed time is a whole number of milliseconds and the rounding is
 * exact integer arithmetic; the localised text is the (count, unit) pair.
 */
module TimeAgo {

  datatype Unit = Seconds | Minutes | Hours | Days | Months | Years

  /** The number and unit shown as "<count> <unit> ago". */
  datatype Label = Label(count: int, unit: Unit)

  /** Length of a unit in seconds; months are 30 days and years 365 days. */
  function UnitSeconds(u: Unit): (n: nat)
    ensures n >= 1
  {
    match u
    case Seconds => 1
    case Minutes => 60
    case Hours => 3600
    case Days => 86400
    case Months => 2592000
    case Years => 31536000
  }

  /** The largest count each unit can show; years are unbounded. */
  function MaxCount(u: Unit): nat
    requires u != Years
  {
    match u
    case Seconds => 60
    case Minutes => 60
    case Hours => 24
    case Days => 30
    case Months => 12
  }

  /**
   * `Math.round(ms / (1000 * secs))`: `Math.round(x)` is the floor of `x + 1/2`,
   * and for a positive divisor Dafny's `/` is the floor of the quotient.
   */
  function RoundedCount(ms: int, secs: nat): int
    requires secs >= 1
  {
    (ms + 500 * secs) / (1000 * secs)
  }

  /** `count` is the nearest whole number of units to `ms`, halves rounding up. */
  predicate NearestCount(ms: int, count: int, unitMs: int) {
    (2 * count - 1) * unitMs <= 2 * ms < (2 * count + 1) * unitMs
  }

  /** The label shown for a comment created at `createdTime` when the clock reads `now`. */
  function TimeLabel(createdTime: int, now: int): (l: Label)
    // exactly one unit, chosen by the ascending thresholds
    ensures var ms := now - createdTime;
      && (l.unit == Seconds <==> ms < 60_000)
      && (l.unit == Minutes <==> 60_000 <= ms < 3_600_000)
      && (l.unit == Hours <==> 3_600_000 <= ms < 86_400_000)
      && (l.unit == Days <==> 86_400_000 <= ms < 2_592_000_000)
      && (l.unit == Months <==> 2_592_000_000 <= ms < 31_536_000_000)
      && (l.unit == Years <==> 31_536_000_000 <= ms)
    // the count is at least one and stays below the next unit
    ensures 1 <= l.count
    ensures l.unit != Years ==> l.count <= MaxCount(l.unit)
    // under a second, including a creation time in the future, the label is "1 second"
    ensures now - createdTime < 1000 ==> l == Label(1, Seconds)
    // otherwise the count is the elapsed time rounded to the nearest unit
    ensures now - createdTime >= 1000 ==>
      NearestCount(now - createdTime, l.count, 1000 * UnitSeconds(l.unit))
  {
    var ms := now - createdTime;
    if ms < 60_000 then Label(if ms < 1000 then 1 else RoundedCount(ms, 1), Seconds)
    else if ms < 3_600_000 then Label(RoundedCount(ms, 60), Minutes)
    else if ms < 86_400_000 then Label(RoundedCount(ms, 3600), Hours)
    else if ms < 2_592_000_000 then Label(RoundedCount(ms, 86400), Days)
    else if ms < 31_536_000_000 then Label(RoundedCount(ms, 2592000), Months)
    else Label(RoundedCount(ms, 31536000), Years)
  }

  /** The order of labels as time passes: a larger unit, or the same unit with a larger count. */
  predicate LabelLe(a: Label, b: Label) {
    UnitSeconds(a.unit) < UnitSeconds(b.unit)
    || (a.unit == b.unit && a.count <= b.count)
  }

  /**
   * As the clock advances the label never goes backwards: the 5-second
   * refresh only ever moves a comment's label forward.
   */
  lemma TimeLabelMonotone(createdTime: int, now1: int, now2: int)
    requires now1 <= now2
    ensures LabelLe(TimeLabel(createdTime, now1), TimeLabel(createdTime, now2))
  {
  }

  /** The label of a comment at the moment it is created, and a few later ones. */
  lemma TimeLabelExamples(t: int)
    ensures TimeLabel(t, t) == Label(1, Seconds)
    ensures TimeLabel(t, t + 30_000) == Label(30, Seconds)
    ensures TimeLabel(t, t + 90_000) == Label(2, Minutes)
    ensures TimeLabel(t, t + 7_200_000) == Label(2, Hours)
    ensures TimeLabel(t, t + 59_600) == Label(60, Seconds)
  {
  }
}
