/**
 * Calendar dates as the range panel uses JavaScript `Date`: a proleptic Gregorian
 * year, a zero-based month, a day of the month and the seconds into the day.
 * `setMonth`/`setFullYear` keep the day and let it overflow into the following
 * month, as `Date` does.
 */
module Calendar {
  /** The two units `changePanelDate` steps by: `Month` and `FullYear`. */
  datatype Unit = MonthUnit | YearUnit

  datatype Date = Date(year: int, month: int, day: int, secs: int)

  predicate IsLeapYear(y: int)
  {
    (y % 4 == 0 && y % 100 != 0) || y % 400 == 0
  }

  /** Months counted from year 0: `year * 12 + month`. */
  function MonthIndex(d: Date): int
  {
    d.year * 12 + d.month
  }

  /** The number of days of the month with the given month index. */
  function DaysInMonth(mi: int): (n: int)
    ensures 28 <= n <= 31
    ensures mi % 12 != 1 ==> n >= 30
  {
    var y := mi / 12;
    var m := mi % 12;
    if m == 1 then (if IsLeapYear(y) then 29 else 28)
    else if m == 3 || m == 5 || m == 8 || m == 10 then 30
    else 31
  }

  ghost predicate Valid(d: Date)
  {
    0 <= d.month < 12 && 1 <= d.day <= DaysInMonth(MonthIndex(d)) && 0 <= d.secs < 86400
  }

  /** An integer that orders valid dates as `getTime()` does (milliseconds and time zones are not modelled). */
  function Ordinal(d: Date): int
  {
    (MonthIndex(d) * 32 + d.day) * 86400 + d.secs
  }

  /** A date in the month with index `mi`. */
  function AtMonth(mi: int, day: int, secs: int): (r: Date)
    ensures MonthIndex(r) == mi && 0 <= r.month < 12 && r.day == day && r.secs == secs
  {
    Date(mi / 12, mi % 12, day, secs)
  }

  /** `new Date(year, month, day)` semantics for a day of at most 31: a day past the month's end carries into the next month. */
  function Normalize(mi: int, day: int, secs: int): (r: Date)
    requires 1 <= day <= 31 && 0 <= secs < 86400
    ensures Valid(r) && r.secs == secs
    ensures day <= DaysInMonth(mi) ==> MonthIndex(r) == mi && r.day == day
    ensures day > DaysInMonth(mi) ==> MonthIndex(r) == mi + 1 && r.day == day - DaysInMonth(mi)
  {
    if day <= DaysInMonth(mi) then AtMonth(mi, day, secs)
    else AtMonth(mi + 1, day - DaysInMonth(mi), secs)
  }

  /** How many months a step of `inc` units is. */
  function MonthsOf(unit: Unit, inc: int): (n: int)
    ensures inc > 0 ==> n > 0
    ensures inc < 0 ==> n < 0
  {
    match unit
    case MonthUnit => inc
    case YearUnit => 12 * inc
  }

  /** `d.setMonth(d.getMonth() + inc)` or `d.setFullYear(d.getFullYear() + inc)`. */
  function Shift(d: Date, unit: Unit, inc: int): (r: Date)
    requires Valid(d)
    ensures Valid(r) && r.secs == d.secs
    ensures d.day <= DaysInMonth(MonthIndex(d) + MonthsOf(unit, inc)) ==>
      MonthIndex(r) == MonthIndex(d) + MonthsOf(unit, inc) && r.day == d.day
    ensures d.day > DaysInMonth(MonthIndex(d) + MonthsOf(unit, inc)) ==>
      MonthIndex(r) == MonthIndex(d) + MonthsOf(unit, inc) + 1 &&
      r.day == d.day - DaysInMonth(MonthIndex(d) + MonthsOf(unit, inc))
  {
    Normalize(MonthIndex(d) + MonthsOf(unit, inc), d.day, d.secs)
  }

  function Min(a: int, b: int): int
  {
    if a <= b then a else b
  }

  /** The day first set to the last day of the target month when it is past it, then the step: no overflow. */
  function ClampedShift(d: Date, unit: Unit, inc: int): (r: Date)
    requires Valid(d)
    ensures Valid(r) && r.secs == d.secs
    ensures MonthIndex(r) == MonthIndex(d) + MonthsOf(unit, inc)
    ensures r.day == Min(d.day, DaysInMonth(MonthIndex(d) + MonthsOf(unit, inc)))
  {
    var target := MonthIndex(d) + MonthsOf(unit, inc);
    AtMonth(target, Min(d.day, DaysInMonth(target)), d.secs)
  }

  /** A later month means a later date, whatever the days and times. */
  lemma OrdinalFollowsMonths(a: Date, b: Date)
    requires Valid(a) && Valid(b) && MonthIndex(a) < MonthIndex(b)
    ensures Ordinal(a) < Ordinal(b)
  {
  }

  /** Two valid dates with the same ordinal are the same date. */
  lemma OrdinalInjective(a: Date, b: Date)
    requires Valid(a) && Valid(b) && Ordinal(a) == Ordinal(b)
    ensures a == b
  {
    assert MonthIndex(a) * 32 + a.day == MonthIndex(b) * 32 + b.day;
    assert MonthIndex(a) == MonthIndex(b);
  }

  /** Stepping forward moves a date later and stepping back moves it earlier, with or without the clamp. */
  lemma StepMonotone(d: Date, unit: Unit, inc: int, clamped: bool)
    requires Valid(d) && inc != 0
    ensures var r := if clamped then ClampedShift(d, unit, inc) else Shift(d, unit, inc);
            (inc > 0 ==> Ordinal(r) > Ordinal(d)) && (inc < 0 ==> Ordinal(r) < Ordinal(d))
  {
    var r := if clamped then ClampedShift(d, unit, inc) else Shift(d, unit, inc);
    var n := MonthsOf(unit, inc);
    if MonthIndex(r) != MonthIndex(d) + n {
      assert !clamped && MonthIndex(r) == MonthIndex(d) + n + 1 && r.day < d.day;
      if inc < 0 && MonthIndex(r) == MonthIndex(d) {
        assert Ordinal(r) < Ordinal(d);
      } else if inc < 0 {
        OrdinalFollowsMonths(r, d);
      } else {
        OrdinalFollowsMonths(d, r);
      }
    } else if inc > 0 {
      OrdinalFollowsMonths(d, r);
    } else {
      OrdinalFollowsMonths(r, d);
    }
  }

  /** `new Date(d.getFullYear(), d.getMonth() + 1, 1)` */
  function FirstOfNextMonth(d: Date): (r: Date)
    requires Valid(d)
    ensures Valid(r) && MonthIndex(r) == MonthIndex(d) + 1 && r.day == 1 && r.secs == 0
    ensures Ordinal(d) < Ordinal(r)
  {
    var r := AtMonth(MonthIndex(d) + 1, 1, 0);
    OrdinalFollowsMonths(d, r);
    r
  }

  /** `setHours(23)`, `setMinutes(59)`, `setSeconds(59)`: the last second of the same day. */
  function EndOfDay(d: Date): (r: Date)
    requires Valid(d)
    ensures Valid(r) && MonthIndex(r) == MonthIndex(d) && r.day == d.day && r.secs == 86399
    ensures Ordinal(d) <= Ordinal(r)
    ensures forall t :: Valid(t) && MonthIndex(t) == MonthIndex(d) && t.day == d.day ==> Ordinal(t) <= Ordinal(r)
  {
    d.(secs := 86399)
  }
}
