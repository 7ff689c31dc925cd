/**
 * Navigation of the two calendar panels of the range picker
 * (packages/date-picker/src/panel/date-range.tsx): `changePanelDate` under
 * split and linked panels, the year/month steps, the correction made when the
 * view changes, drill-down pre-selection and `setPanelDates`.
 */
module PanelNav {
  import opened Wrappers
  import opened Calendar

  datatype Panel = Left | Right

  /** What a panel shows (`currentView`), and the kind of table a panel is displaying (`*PickerTable`). */
  datatype View = DateView | MonthView | YearView | TimeView

  /** The two panel anchors `leftPanelDate` and `rightPanelDate`. */
  datatype Anchors = Anchors(left: Date, right: Date)

  ghost predicate AnchorsValid(a: Anchors)
  {
    Valid(a.left) && Valid(a.right)
  }

  function Other(p: Panel): Panel
  {
    if p == Left then Right else Left
  }

  function Get(a: Anchors, p: Panel): Date
  {
    if p == Left then a.left else a.right
  }

  function Put(a: Anchors, p: Panel, d: Date): Anchors
  {
    if p == Left then a.(left := d) else a.(right := d)
  }

  /**
   * The acting panel's own step: as written it is a plain `set<Unit>` (the day may
   * overflow); `clamped` first brings the day within the target month.
   */
  function ActingStep(d: Date, unit: Unit, inc: int, clamped: bool): Date
    requires Valid(d)
  {
    if clamped then ClampedShift(d, unit, inc) else Shift(d, unit, inc)
  }

  /** The other panel's step in linked mode: as written it is clamped for `Month` only. */
  function LinkedStep(d: Date, unit: Unit, inc: int, clamped: bool): Date
    requires Valid(d)
  {
    if clamped || unit == MonthUnit then ClampedShift(d, unit, inc) else Shift(d, unit, inc)
  }

  /** How far the left anchor is past the right one. */
  function Gap(a: Anchors): int
  {
    Ordinal(a.left) - Ordinal(a.right)
  }

  /**
   * The split-mode correction after `moved` has stepped: while the left anchor is
   * not before the right one, the other panel is pushed one unit away, and the
   * check repeats from there.
   */
  function SplitCorrect(a: Anchors, moved: Panel, unit: Unit, clamped: bool): (r: Anchors)
    requires AnchorsValid(a)
    ensures AnchorsValid(r) && Ordinal(r.left) < Ordinal(r.right)
    ensures Ordinal(a.left) < Ordinal(a.right) ==> r == a
    decreases if Gap(a) >= 0 then Gap(a) + 1 else 0
  {
    if moved == Left && Ordinal(a.left) >= Ordinal(a.right) then
      StepMonotone(a.right, unit, 1, clamped);
      SplitCorrect(a.(right := ActingStep(a.right, unit, 1, clamped)), Right, unit, clamped)
    else if moved == Right && Ordinal(a.right) <= Ordinal(a.left) then
      StepMonotone(a.left, unit, -1, clamped);
      SplitCorrect(a.(left := ActingStep(a.left, unit, -1, clamped)), Left, unit, clamped)
    else
      assert moved == Left || moved == Right;
      a
  }

  /** `changePanelDate(panel, unit, inc, update)`: the acting step, then the split correction or the linked step. */
  function NavigateWith(a: Anchors, panel: Panel, unit: Unit, inc: int, update: bool, split: bool, clamped: bool): (r: Anchors)
    requires AnchorsValid(a)
    ensures AnchorsValid(r)
    ensures update && split ==> Ordinal(r.left) < Ordinal(r.right)
  {
    var a1 := Put(a, panel, ActingStep(Get(a, panel), unit, inc, clamped));
    if !update then a1
    else if split then SplitCorrect(a1, panel, unit, clamped)
    else
      var o := Other(panel);
      Put(a1, o, LinkedStep(Get(a1, o), unit, inc, clamped))
  }

  /** `changePanelDate` as written: the acting panel's day may overflow into the month after the target. */
  function ChangePanelDateAsWritten(a: Anchors, panel: Panel, unit: Unit, inc: int, update: bool, split: bool): (r: Anchors)
    requires AnchorsValid(a)
    ensures AnchorsValid(r)
    ensures update && split ==> Ordinal(r.left) < Ordinal(r.right)
    ensures update && !split && unit == MonthUnit ==>
      MonthIndex(Get(r, Other(panel))) == MonthIndex(Get(a, Other(panel))) + inc &&
      Get(r, Other(panel)).day == Min(Get(a, Other(panel)).day, DaysInMonth(MonthIndex(Get(a, Other(panel))) + inc))
    ensures !update || !split ==> Get(r, panel) == Shift(Get(a, panel), unit, inc)
    ensures !update ==> Get(r, Other(panel)) == Get(a, Other(panel))
    ensures update && !split && unit == YearUnit ==> Get(r, Other(panel)) == Shift(Get(a, Other(panel)), YearUnit, inc)
  {
    NavigateWith(a, panel, unit, inc, update, split, false)
  }

  /** `changePanelDate` with both panels clamped: in linked mode each anchor lands exactly `inc` units on. */
  function ChangePanelDate(a: Anchors, panel: Panel, unit: Unit, inc: int, update: bool, split: bool): (r: Anchors)
    requires AnchorsValid(a)
    ensures AnchorsValid(r)
    ensures update && split ==> Ordinal(r.left) < Ordinal(r.right)
    ensures !update ==>
      Get(r, Other(panel)) == Get(a, Other(panel)) &&
      MonthIndex(Get(r, panel)) == MonthIndex(Get(a, panel)) + MonthsOf(unit, inc)
    ensures update && !split ==>
      MonthIndex(r.left) == MonthIndex(a.left) + MonthsOf(unit, inc) &&
      MonthIndex(r.right) == MonthIndex(a.right) + MonthsOf(unit, inc)
  {
    NavigateWith(a, panel, unit, inc, update, split, true)
  }

  /** Linked panels keep their distance in months under every step of the corrected navigation. */
  lemma LinkedDistanceKept(a: Anchors, panel: Panel, unit: Unit, inc: int)
    requires AnchorsValid(a)
    ensures var r := ChangePanelDate(a, panel, unit, inc, true, false);
            MonthIndex(r.right) - MonthIndex(r.left) == MonthIndex(a.right) - MonthIndex(a.left)
  {
  }

  /** Next month from January 31st, 2024 in linked mode: as written both anchors end up in March, left after right. */
  lemma LinkedNextMonthOverflow()
    ensures var r := ChangePanelDateAsWritten(Anchors(Date(2024, 0, 31, 0), Date(2024, 1, 1, 0)), Left, MonthUnit, 1, true, false);
            r == Anchors(Date(2024, 2, 2, 0), Date(2024, 2, 1, 0)) && Ordinal(r.left) > Ordinal(r.right)
  {
    var a := Anchors(Date(2024, 0, 31, 0), Date(2024, 1, 1, 0));
    February2024();
    March2024();
    var l := Shift(a.left, MonthUnit, 1);
    assert l == Normalize(24289, 31, 0) == AtMonth(24290, 2, 0);
    var r := ClampedShift(a.right, MonthUnit, 1);
    assert r == AtMonth(24290, 1, 0);
    assert NavigateWith(a, Left, MonthUnit, 1, true, false, false) == Anchors(l, r);
  }

  /** Next year from February 29th, 2024 in linked mode: as written both anchors end up on March 1st, 2025. */
  lemma LinkedNextYearOverflow()
    ensures var r := ChangePanelDateAsWritten(Anchors(Date(2024, 1, 29, 0), Date(2024, 2, 1, 0)), Left, YearUnit, 1, true, false);
            r == Anchors(Date(2025, 2, 1, 0), Date(2025, 2, 1, 0))
  {
    var a := Anchors(Date(2024, 1, 29, 0), Date(2024, 2, 1, 0));
    February2024();
    March2024();
    February2025();
    March2025();
    var l := Shift(a.left, YearUnit, 1);
    assert l == Normalize(24301, 29, 0) == AtMonth(24302, 1, 0);
    var r := Shift(a.right, YearUnit, 1);
    assert r == Normalize(24302, 1, 0) == AtMonth(24302, 1, 0);
    assert NavigateWith(a, Left, YearUnit, 1, true, false, false) == Anchors(l, r);
  }

  /** The same two steps with the clamp keep the right panel one month after the left. */
  lemma LinkedStepsClamped()
    ensures ChangePanelDate(Anchors(Date(2024, 0, 31, 0), Date(2024, 1, 1, 0)), Left, MonthUnit, 1, true, false)
            == Anchors(Date(2024, 1, 29, 0), Date(2024, 2, 1, 0))
    ensures ChangePanelDate(Anchors(Date(2024, 1, 29, 0), Date(2024, 2, 1, 0)), Left, YearUnit, 1, true, false)
            == Anchors(Date(2025, 1, 28, 0), Date(2025, 2, 1, 0))
  {
    February2024();
    March2024();
    February2025();
    March2025();
    var a := Anchors(Date(2024, 0, 31, 0), Date(2024, 1, 1, 0));
    assert NavigateWith(a, Left, MonthUnit, 1, true, false, true)
      == Anchors(AtMonth(24289, 29, 0), AtMonth(24290, 1, 0));
    var b := Anchors(Date(2024, 1, 29, 0), Date(2024, 2, 1, 0));
    assert NavigateWith(b, Left, YearUnit, 1, true, false, true)
      == Anchors(AtMonth(24301, 28, 0), AtMonth(24302, 1, 0));
  }

  // The months the examples above pass through, by month index (`year * 12 + month`).

  lemma February2024()
    ensures 24289 / 12 == 2024 && 24289 % 12 == 1 && DaysInMonth(24289) == 29
    ensures AtMonth(24289, 29, 0) == Date(2024, 1, 29, 0)
  {
  }

  lemma March2024()
    ensures 24290 / 12 == 2024 && 24290 % 12 == 2 && DaysInMonth(24290) == 31
    ensures AtMonth(24290, 1, 0) == Date(2024, 2, 1, 0) && AtMonth(24290, 2, 0) == Date(2024, 2, 2, 0)
  {
  }

  lemma February2025()
    ensures 24301 / 12 == 2025 && 24301 % 12 == 1 && DaysInMonth(24301) == 28
    ensures AtMonth(24301, 28, 0) == Date(2025, 1, 28, 0)
  {
  }

  lemma March2025()
    ensures 24302 / 12 == 2025 && 24302 % 12 == 2 && DaysInMonth(24302) == 31
    ensures AtMonth(24302, 1, 0) == Date(2025, 2, 1, 0)
  {
  }

  /** The increment of `prevYear`/`nextYear`: ten years in the year view, one otherwise. */
  function YearStep(view: View, forward: bool): (inc: int)
    ensures (inc > 0) == forward
    ensures inc == 10 || inc == -10 || inc == 1 || inc == -1
    ensures (inc == 10 || inc == -10) <==> view == YearView
  {
    var n := if view == YearView then 10 else 1;
    if forward then n else -n
  }

  /**
   * The step the `currentView` watcher takes for the new view: the right panel is
   * moved on when both anchors share a year (and, for the date view, a month).
   */
  function WatcherStep(a: Anchors, view: View): (st: Option<(Unit, int)>)
    ensures st.Some? ==> a.left.year == a.right.year && view != TimeView && st.value.1 > 0
    ensures st.Some? ==> (st.value.0 == MonthUnit <==> view == DateView)
    ensures st.Some? ==> (st.value.1 == 10 <==> view == YearView)
    ensures a.left.year == a.right.year && (view == MonthView || view == YearView) ==> st.Some?
    ensures view == DateView ==> (st.Some? <==> a.left.year == a.right.year && a.left.month == a.right.month)
  {
    var sameYear := a.left.year == a.right.year;
    if view == DateView && sameYear && a.left.month == a.right.month then Some((MonthUnit, 1))
    else if view == MonthView && sameYear then Some((YearUnit, 1))
    else if view == YearView && sameYear then Some((YearUnit, 10))
    else None
  }

  /** The `currentView` watcher as written: `changePanelDate('right', ...)` with the overflowing acting step. */
  function ViewCorrectionAsWritten(a: Anchors, view: View, split: bool): (r: Anchors)
    requires AnchorsValid(a)
    ensures AnchorsValid(r)
    ensures WatcherStep(a, view).None? ==> r == a
    ensures WatcherStep(a, view).Some? && split ==> Ordinal(r.left) < Ordinal(r.right)
  {
    match WatcherStep(a, view)
    case None => a
    case Some((unit, inc)) => ChangePanelDateAsWritten(a, Right, unit, inc, true, split)
  }

  /** The `currentView` watcher with the corrected navigation. */
  function ViewCorrection(a: Anchors, view: View, split: bool): (r: Anchors)
    requires AnchorsValid(a)
    ensures AnchorsValid(r)
    ensures a.left.year != a.right.year || view == TimeView ==> r == a
    ensures WatcherStep(a, view).None? ==> r == a
    ensures WatcherStep(a, view).Some? && split ==> Ordinal(r.left) < Ordinal(r.right)
  {
    match WatcherStep(a, view)
    case None => a
    case Some((unit, inc)) => ChangePanelDate(a, Right, unit, inc, true, split)
  }

  /**
   * Split panels on January 5th and 31st, 2024, back to the date view: as written the
   * right anchor overflows to March 2nd, two months on; corrected it lands on February 29th.
   */
  lemma SplitViewCorrectionOverflow()
    ensures var a := Anchors(Date(2024, 0, 5, 0), Date(2024, 0, 31, 0));
            ViewCorrectionAsWritten(a, DateView, true) == Anchors(Date(2024, 0, 5, 0), Date(2024, 2, 2, 0)) &&
            ViewCorrection(a, DateView, true) == Anchors(Date(2024, 0, 5, 0), Date(2024, 1, 29, 0))
  {
    var a := Anchors(Date(2024, 0, 5, 0), Date(2024, 0, 31, 0));
    February2024();
    March2024();
    assert WatcherStep(a, DateView) == Some((MonthUnit, 1));
    var w := Shift(a.right, MonthUnit, 1);
    assert w == Normalize(24289, 31, 0) == AtMonth(24290, 2, 0);
    OrdinalFollowsMonths(a.left, w);
    assert SplitCorrect(a.(right := w), Right, MonthUnit, false) == a.(right := w);
    assert NavigateWith(a, Right, MonthUnit, 1, true, true, false) == a.(right := w);
    var c := ClampedShift(a.right, MonthUnit, 1);
    assert c == AtMonth(24289, 29, 0);
    OrdinalFollowsMonths(a.left, c);
    assert SplitCorrect(a.(right := c), Right, MonthUnit, true) == a.(right := c);
    assert NavigateWith(a, Right, MonthUnit, 1, true, true, true) == a.(right := c);
  }

  /** A forward step of the right panel when it is already after the left one: no correction, only the right anchor moves. */
  lemma RightForwardNoCorrection(a: Anchors, unit: Unit, inc: int)
    requires AnchorsValid(a) && Ordinal(a.left) < Ordinal(a.right) && inc > 0
    ensures ChangePanelDate(a, Right, unit, inc, true, true) == a.(right := ClampedShift(a.right, unit, inc))
  {
    StepMonotone(a.right, unit, inc, true);
  }

  /**
   * With split panels in order, the correction separates what the view shows: the
   * months in the date view, the years in the month and year views.
   */
  lemma SplitViewCorrectionSeparates(a: Anchors, view: View)
    requires AnchorsValid(a) && Ordinal(a.left) < Ordinal(a.right) && view != TimeView
    requires a.left.year == a.right.year && (view == DateView ==> a.left.month == a.right.month)
    ensures var r := ViewCorrection(a, view, true);
            r.left == a.left &&
            (view == DateView ==> MonthIndex(r.right) == MonthIndex(a.right) + 1) &&
            (view == MonthView ==> r.right.year == a.right.year + 1) &&
            (view == YearView ==> r.right.year == a.right.year + 10)
  {
    match view
    case DateView =>
      assert WatcherStep(a, view) == Some((MonthUnit, 1));
      RightForwardNoCorrection(a, MonthUnit, 1);
    case MonthView =>
      assert WatcherStep(a, view) == Some((YearUnit, 1));
      RightForwardNoCorrection(a, YearUnit, 1);
      YearFromMonthIndex(ClampedShift(a.right, YearUnit, 1), a.right, 1);
    case YearView =>
      assert WatcherStep(a, view) == Some((YearUnit, 10));
      RightForwardNoCorrection(a, YearUnit, 10);
      YearFromMonthIndex(ClampedShift(a.right, YearUnit, 10), a.right, 10);
  }

  /** With linked panels the correction moves both anchors, so two anchors in one year stay in one year. */
  lemma LinkedViewCorrectionKeepsYear(a: Anchors, view: View)
    requires AnchorsValid(a) && a.left.year == a.right.year && (view == MonthView || view == YearView)
    ensures var r := ViewCorrection(a, view, false);
            r.left.year == r.right.year && r.left.year == a.left.year + (if view == MonthView then 1 else 10)
  {
    var k := if view == MonthView then 1 else 10;
    var r := ViewCorrection(a, view, false);
    assert WatcherStep(a, view) == Some((YearUnit, k));
    assert r == ChangePanelDate(a, Right, YearUnit, k, true, false);
    YearFromMonthIndex(r.left, a.left, k);
    YearFromMonthIndex(r.right, a.right, k);
  }

  /** Two dates whose month indices are `12 * k` apart are `k` years apart. */
  lemma YearFromMonthIndex(x: Date, y: Date, k: int)
    requires 0 <= x.month < 12 && 0 <= y.month < 12 && MonthIndex(x) == MonthIndex(y) + 12 * k
    ensures x.year == y.year + k
  {
  }

  /** The table a panel shows after a drill-down click: from years to months, otherwise back to the current view. */
  function NextTable(table: View, currentView: View): (r: View)
    ensures table == YearView ==> r == MonthView
    ensures table != YearView ==> r == currentView
  {
    if table == YearView then MonthView else currentView
  }

  /** A panel that is pre-selecting reaches the current view's table within two drill-down clicks. */
  lemma DrillDownEnds(table: View, currentView: View)
    requires table != currentView
    ensures NextTable(table, currentView) == currentView ||
            NextTable(NextTable(table, currentView), currentView) == currentView
  {
  }

  /**
   * `handlePreSelection(panel, value)` on the anchors: in linked mode the other panel
   * takes the value and steps one month away with the plain `setMonth`.
   */
  function PreSelect(a: Anchors, panel: Panel, value: Date, split: bool): (r: Anchors)
    requires Valid(value)
    ensures Get(r, panel) == value
    ensures split ==> Get(r, Other(panel)) == Get(a, Other(panel))
    ensures !split ==> AnchorsValid(r)
    ensures !split && value.day <= 28 ==> MonthIndex(r.right) == MonthIndex(r.left) + 1 && r.left.day == r.right.day
  {
    var a1 := Put(a, panel, value);
    if split then a1
    else
      var o := Other(panel);
      var inc := if o == Left then -1 else 1;
      ChangePanelDateAsWritten(Put(a1, o, value), o, MonthUnit, inc, false, split)
  }

  /** The linked drill-down puts the left anchor strictly before the right one, overflow or not. */
  lemma PreSelectOrdered(a: Anchors, panel: Panel, value: Date)
    requires Valid(value)
    ensures var r := PreSelect(a, panel, value, false);
            Ordinal(r.left) < Ordinal(r.right)
  {
    var inc := if panel == Left then 1 else -1;
    StepMonotone(value, MonthUnit, inc, false);
  }

  /** `setPanelDates(left)`: the right anchor is the first of the next month, or the later end date in split mode. */
  function PanelDatesFor(left: Date, end: Option<Date>, split: bool): (r: Anchors)
    requires Valid(left) && (end.Some? ==> Valid(end.value))
    ensures r.left == left && AnchorsValid(r)
    ensures Ordinal(r.left) < Ordinal(r.right)
    ensures !split || end.None? ==> r.right == FirstOfNextMonth(left)
    ensures split && end.Some? ==>
      Ordinal(r.right) >= Ordinal(end.value) && Ordinal(r.right) >= Ordinal(FirstOfNextMonth(left)) &&
      (r.right == end.value || r.right == FirstOfNextMonth(left))
  {
    var next := FirstOfNextMonth(left);
    if split && end.Some? && Ordinal(end.value) > Ordinal(next) then Anchors(left, end.value)
    else Anchors(left, next)
  }
}
