/**
 * The range panel's reactive `state` and the handlers that assign its fields
 * (packages/date-picker/src/panel/date-range.tsx). Handlers return the events
 * they emit; the current instant and the time-picker's initial time are
 * parameters.
 */
module DateRangePanelState {
  import opened Wrappers
  import opened Calendar
  import opened PanelNav
  import opened RangePick

  class DateRangePanel {
    const splitPanels: bool
    const shortcutClose: bool
    const startDate: Option<Date>
    /** The `type` prop, reported by a confirmation without a kind of its own. */
    const pickerType: string

    var selectionMode: View
    var currentView: View
    var leftPickerTable: View
    var rightPickerTable: View
    var leftPanelDate: Date
    var rightPanelDate: Date
    var rangeState: RangeState
    var upToNowEnable: bool
    var dates: DatePair
    var selectedIndex: int

    ghost predicate Valid()
      reads this
    {
      Calendar.Valid(leftPanelDate) && Calendar.Valid(rightPanelDate)
      && OptValid(rangeState.from) && OptValid(rangeState.to)
      && OptValid(dates.start) && OptValid(dates.end) && OptValid(startDate)
    }

    function Panels(): Anchors
      reads this
    {
      Anchors(leftPanelDate, rightPanelDate)
    }

    /**
     * The initial `state`: missing model dates fall back to `initTime` for the
     * anchors; with both replaced, `minDate && !maxDate` is false, so nothing is
     * being selected.
     */
    constructor (splitPanels: bool, shortcutClose: bool, startDate: Option<Date>, pickerType: string,
                 selectionMode: View, modelValue: DatePair, shortcutSelectedIndex: int, initTime: Date)
      requires Calendar.Valid(initTime) && OptValid(startDate) && OptValid(modelValue.start) && OptValid(modelValue.end)
      ensures Valid()
      ensures this.splitPanels == splitPanels && this.shortcutClose == shortcutClose
      ensures this.startDate == startDate && this.pickerType == pickerType && this.selectionMode == selectionMode
      ensures currentView == selectionMode && leftPickerTable == selectionMode && rightPickerTable == selectionMode
      ensures leftPanelDate == startDate.GetOr(modelValue.start.GetOr(initTime))
      ensures rightPanelDate == FirstOfNextMonth(leftPanelDate)
      ensures rangeState == RangeState(modelValue.start, modelValue.end, false)
      ensures !upToNowEnable && dates == modelValue && selectedIndex == shortcutSelectedIndex
    {
      this.splitPanels := splitPanels;
      this.shortcutClose := shortcutClose;
      this.startDate := startDate;
      this.pickerType := pickerType;
      this.selectionMode := selectionMode;
      var minDate := modelValue.start.GetOr(initTime);
      var left := startDate.GetOr(minDate);
      currentView := selectionMode;
      leftPickerTable := selectionMode;
      rightPickerTable := selectionMode;
      leftPanelDate := left;
      rightPanelDate := FirstOfNextMonth(left);
      rangeState := RangeState(modelValue.start, modelValue.end, false);
      upToNowEnable := false;
      dates := modelValue;
      selectedIndex := shortcutSelectedIndex;
    }

    /** `changePanelDate(panel, unit, inc, update)`, with both anchors clamped to their target month. */
    method ChangePanelDate(panel: Panel, unit: Unit, inc: int, update: bool)
      requires Valid()
      modifies this`leftPanelDate, this`rightPanelDate
      ensures Valid()
      ensures Panels() == PanelNav.ChangePanelDate(old(Panels()), panel, unit, inc, update, splitPanels)
    {
      var current := ClampedShift(Get(Panels(), panel), unit, inc);
      if panel == Left { leftPanelDate := current; } else { rightPanelDate := current; }
      if !update {
        return;
      }
      if splitPanels {
        CorrectSplit(panel, unit);
      } else {
        var temp := ClampedShift(Get(Panels(), Other(panel)), unit, inc);
        if panel == Left { rightPanelDate := temp; } else { leftPanelDate := temp; }
      }
    }

    /**
     * The split-mode tail of `changePanelDate` once `moved` has stepped: the
     * recursive `changePanelDate(otherPanel, unit, 1)` (or `-1`) steps the other
     * panel and checks again.
     */
    method CorrectSplit(moved: Panel, unit: Unit)
      requires Valid()
      modifies this`leftPanelDate, this`rightPanelDate
      decreases if Gap(Panels()) >= 0 then Gap(Panels()) + 1 else 0
      ensures Valid()
      ensures Panels() == SplitCorrect(old(Panels()), moved, unit, true)
    {
      if moved == Left && Ordinal(leftPanelDate) >= Ordinal(rightPanelDate) {
        StepMonotone(rightPanelDate, unit, 1, true);
        rightPanelDate := ClampedShift(rightPanelDate, unit, 1);
        CorrectSplit(Right, unit);
      } else if moved == Right && Ordinal(rightPanelDate) <= Ordinal(leftPanelDate) {
        StepMonotone(leftPanelDate, unit, -1, true);
        leftPanelDate := ClampedShift(leftPanelDate, unit, -1);
        CorrectSplit(Left, unit);
      } else {
        assert moved == Left || moved == Right;
      }
    }

    /** `prevYear(panel)` and `nextYear(panel)`. */
    method StepYear(panel: Panel, forward: bool)
      requires Valid()
      modifies this`leftPanelDate, this`rightPanelDate
      ensures Valid()
      ensures Panels() == PanelNav.ChangePanelDate(old(Panels()), panel, YearUnit, YearStep(currentView, forward), true, splitPanels)
      ensures selectionMode == old(selectionMode) && currentView == old(currentView)
      ensures leftPickerTable == old(leftPickerTable) && rightPickerTable == old(rightPickerTable)
      ensures rangeState == old(rangeState) && dates == old(dates)
      ensures selectedIndex == old(selectedIndex) && upToNowEnable == old(upToNowEnable)
    {
      ChangePanelDate(panel, YearUnit, YearStep(currentView, forward), true);
    }

    /** `prevMonth(panel)` and `nextMonth(panel)`. */
    method StepMonth(panel: Panel, forward: bool)
      requires Valid()
      modifies this`leftPanelDate, this`rightPanelDate
      ensures Valid()
      ensures Panels() == PanelNav.ChangePanelDate(old(Panels()), panel, MonthUnit, if forward then 1 else -1, true, splitPanels)
      ensures selectionMode == old(selectionMode) && currentView == old(currentView)
      ensures leftPickerTable == old(leftPickerTable) && rightPickerTable == old(rightPickerTable)
      ensures rangeState == old(rangeState) && dates == old(dates)
      ensures selectedIndex == old(selectedIndex) && upToNowEnable == old(upToNowEnable)
    {
      ChangePanelDate(panel, MonthUnit, if forward then 1 else -1, true);
    }

    /** `showYearPicker(panel)` (`table == YearView`) and `showMonthPicker(panel)` (`table == MonthView`). */
    method ShowPicker(panel: Panel, table: View)
      requires table == YearView || table == MonthView
      modifies this
      ensures panel == Left ==> leftPickerTable == table && rightPickerTable == old(rightPickerTable)
      ensures panel == Right ==> rightPickerTable == table && leftPickerTable == old(leftPickerTable)
      ensures Panels() == old(Panels()) && currentView == old(currentView) && selectionMode == old(selectionMode)
      ensures rangeState == old(rangeState) && dates == old(dates) && selectedIndex == old(selectedIndex)
      ensures upToNowEnable == old(upToNowEnable)
    {
      if panel == Left { leftPickerTable := table; } else { rightPickerTable := table; }
    }

    /** `preSelecting`: which panels show a table other than the current view's. */
    function PreSelecting(): (r: (bool, bool))
      reads this
      ensures r.0 <==> leftPickerTable != currentView
      ensures r.1 <==> rightPickerTable != currentView
    {
      (leftPickerTable != currentView, rightPickerTable != currentView)
    }

    /** `handleConfirm(visible, kind)` */
    function ConfirmEvent(visible: bool, kind: string): (e: PanelEvent)
      reads this
      ensures e.Pick? && e.dates == dates && e.visible == visible
      ensures e.kind == if kind != "" then kind else pickerType
    {
      Pick(dates, visible, if kind != "" then kind else pickerType)
    }

    /**
     * `handleRangePick(val, kind)`: the first click opens a range at `val`, the second
     * closes it; in the time view the pair is taken as it is.
     */
    method HandleRangePick(val: Picked, kind: string, now: Date) returns (events: seq<PanelEvent>)
      requires Valid() && Calendar.Valid(now)
      requires (currentView == TimeView) == val.TimePick?
      requires val.TimePick? ==> OptValid(val.pair.start) && OptValid(val.pair.end)
      requires val.DayPick? ==> Calendar.Valid(val.day)
      modifies this
      ensures Valid()
      ensures Panels() == old(Panels()) && currentView == old(currentView) && selectionMode == old(selectionMode)
      ensures leftPickerTable == old(leftPickerTable) && rightPickerTable == old(rightPickerTable)
      ensures selectedIndex == old(selectedIndex)
      ensures var first := if old(rangeState.selecting) then [] else [PickFirst(val, currentView)];
        if val.TimePick? then
          dates == val.pair && rangeState == old(rangeState) && upToNowEnable == old(upToNowEnable) &&
          events == first + [Pick(dates, false, EmittedKind(kind))]
        else if old(rangeState.selecting) then
          rangeState == CommitRange(old(rangeState).from, val.day, kind, now) &&
          dates == RangeDates(rangeState) && upToNowEnable == old(upToNowEnable) &&
          events == [Pick(dates, false, EmittedKind(kind))]
        else
          rangeState == RangeState(Some(val.day), None, true) && dates == old(dates) &&
          upToNowEnable == (Ordinal(val.day) < Ordinal(now)) && events == first
    {
      events := if rangeState.selecting then [] else [PickFirst(val, currentView)];
      if rangeState.selecting || currentView == TimeView {
        if currentView == TimeView {
          dates := val.pair;
        } else {
          rangeState := CommitRange(rangeState.from, val.day, kind, now);
          dates := RangeDates(rangeState);
        }
        events := events + [ConfirmEvent(false, EmittedKind(kind))];
      } else {
        upToNowEnable := Ordinal(val.day) < Ordinal(now);
        rangeState := RangeState(Some(val.day), None, true);
      }
    }

    /** `handlePreSelection(panel, value)`: a year or month chosen in a drill-down table. */
    method HandlePreSelection(panel: Panel, value: Date)
      requires Valid() && Calendar.Valid(value)
      modifies this
      ensures Valid()
      ensures Panels() == PreSelect(old(Panels()), panel, value, splitPanels)
      ensures panel == Left ==>
        leftPickerTable == NextTable(old(leftPickerTable), currentView) && rightPickerTable == old(rightPickerTable)
      ensures panel == Right ==>
        rightPickerTable == NextTable(old(rightPickerTable), currentView) && leftPickerTable == old(leftPickerTable)
      ensures currentView == old(currentView) && selectionMode == old(selectionMode)
      ensures rangeState == old(rangeState) && dates == old(dates) && selectedIndex == old(selectedIndex)
      ensures upToNowEnable == old(upToNowEnable)
    {
      if panel == Left {
        leftPanelDate := value;
        leftPickerTable := NextTable(leftPickerTable, currentView);
      } else {
        rightPanelDate := value;
        rightPickerTable := NextTable(rightPickerTable, currentView);
      }
      if !splitPanels {
        var other := Other(panel);
        // `changePanelDate(other, 'Month', ±1, false)`: only the plain step of that panel.
        var stepped := Shift(value, MonthUnit, if other == Left then -1 else 1);
        if other == Left { leftPanelDate := stepped; } else { rightPanelDate := stepped; }
      }
    }

    /** `handleShortcutClick(shortcut, index)`; `None` stands for a missing shortcut or one without a value. */
    method HandleShortcutClick(value: Option<DatePair>, index: int) returns (events: seq<PanelEvent>)
      requires Valid()
      requires value.Some? ==> OptValid(value.value.start) && OptValid(value.value.end)
      modifies this
      ensures Valid()
      ensures value.None? ==>
        events == [] && rangeState == old(rangeState) && dates == old(dates) && selectedIndex == old(selectedIndex)
      ensures value.Some? ==>
        rangeState == RangeState(value.value.start, value.value.end, old(rangeState).selecting) &&
        dates == value.value && selectedIndex == index &&
        events == [Pick(value.value, false, "shortcut")] + (if shortcutClose then [PickSuccess] else [])
      ensures Panels() == old(Panels()) && currentView == old(currentView) && selectionMode == old(selectionMode)
      ensures leftPickerTable == old(leftPickerTable) && rightPickerTable == old(rightPickerTable)
      ensures upToNowEnable == old(upToNowEnable)
    {
      if value.None? {
        return [];
      }
      var pair := value.value;
      rangeState := rangeState.(from := pair.start);
      rangeState := rangeState.(to := pair.end);
      dates := pair;
      selectedIndex := index;
      events := [Pick(pair, false, "shortcut")];
      if shortcutClose {
        events := events + [PickSuccess];
      }
    }

    /** `handleChangeRange(val)`: the hovered end of a range being selected. */
    method HandleChangeRange(val: Option<Date>)
      requires Valid() && OptValid(val)
      modifies this
      ensures Valid()
      ensures rangeState == old(rangeState).(to := val)
      ensures Panels() == old(Panels()) && currentView == old(currentView) && selectionMode == old(selectionMode)
      ensures leftPickerTable == old(leftPickerTable) && rightPickerTable == old(rightPickerTable)
      ensures dates == old(dates) && selectedIndex == old(selectedIndex) && upToNowEnable == old(upToNowEnable)
    {
      rangeState := rangeState.(to := val);
    }

    /** `setPanelDates(left)` */
    method SetPanelDates(left: Date)
      requires Valid() && Calendar.Valid(left)
      modifies this
      ensures Valid()
      ensures Panels() == PanelDatesFor(left, dates.end, splitPanels)
      ensures Ordinal(leftPanelDate) < Ordinal(rightPanelDate)
      ensures currentView == old(currentView) && selectionMode == old(selectionMode)
      ensures leftPickerTable == old(leftPickerTable) && rightPickerTable == old(rightPickerTable)
      ensures rangeState == old(rangeState) && dates == old(dates) && selectedIndex == old(selectedIndex)
      ensures upToNowEnable == old(upToNowEnable)
    {
      leftPanelDate := left;
      var next := FirstOfNextMonth(left);
      rightPanelDate := if splitPanels && dates.end.Some? && Ordinal(dates.end.value) > Ordinal(next)
                        then dates.end.value else next;
    }

    /** The `modelValue` watcher: the pair is sorted into `dates`, selection ends, the anchors follow. */
    method OnModelValueChange(mv: DatePair, now: Date)
      requires Valid() && OptValid(mv.start) && OptValid(mv.end) && Calendar.Valid(now)
      modifies this
      ensures Valid()
      ensures rangeState == RangeFromModel(mv) && dates == RangeDates(rangeState)
      ensures Panels() == PanelDatesFor(startDate.GetOr(dates.start.GetOr(now)), dates.end, splitPanels)
      ensures currentView == old(currentView) && selectionMode == old(selectionMode)
      ensures leftPickerTable == old(leftPickerTable) && rightPickerTable == old(rightPickerTable)
      ensures selectedIndex == old(selectedIndex) && upToNowEnable == old(upToNowEnable)
    {
      var sorted := SortPair(mv.start, mv.end);
      dates := sorted;
      rangeState := RangeState(dates.start, dates.end, false);
      SetPanelDates(startDate.GetOr(dates.start.GetOr(now)));
    }

    /** Assigning `currentView`, with the watcher's correction of the right anchor when the value changes. */
    method SetCurrentView(v: View)
      requires Valid()
      modifies this`currentView, this`leftPanelDate, this`rightPanelDate
      ensures Valid()
      ensures currentView == v
      ensures Panels() == if v == old(currentView) then old(Panels()) else ViewCorrection(old(Panels()), v, splitPanels)
      ensures selectionMode == old(selectionMode)
      ensures leftPickerTable == old(leftPickerTable) && rightPickerTable == old(rightPickerTable)
      ensures rangeState == old(rangeState) && dates == old(dates) && selectedIndex == old(selectedIndex)
      ensures upToNowEnable == old(upToNowEnable)
    {
      if v == currentView {
        return;
      }
      currentView := v;
      var sameYear := leftPanelDate.year == rightPanelDate.year;
      if v == DateView && sameYear && leftPanelDate.month == rightPanelDate.month {
        ChangePanelDate(Right, MonthUnit, 1, true);
      } else if v == MonthView && sameYear {
        ChangePanelDate(Right, YearUnit, 1, true);
      } else if v == YearView && sameYear {
        ChangePanelDate(Right, YearUnit, 10, true);
      }
    }

    /** `reset`: back to the selection mode's view and tables. */
    method Reset()
      requires Valid()
      modifies this`currentView, this`leftPickerTable, this`rightPickerTable, this`leftPanelDate, this`rightPanelDate
      ensures Valid()
      ensures currentView == selectionMode && leftPickerTable == selectionMode && rightPickerTable == selectionMode
      ensures Panels() == if selectionMode == old(currentView) then old(Panels()) else ViewCorrection(old(Panels()), selectionMode, splitPanels)
      ensures selectionMode == old(selectionMode)
      ensures rangeState == old(rangeState) && dates == old(dates) && selectedIndex == old(selectedIndex)
      ensures upToNowEnable == old(upToNowEnable)
    {
      SetCurrentView(selectionMode);
      leftPickerTable := currentView;
      rightPickerTable := currentView;
    }

    /** The `selectionMode` watcher. */
    method OnSelectionModeChange(v: View)
      requires Valid()
      modifies this`selectionMode, this`currentView, this`leftPanelDate, this`rightPanelDate
      ensures Valid()
      ensures selectionMode == v && currentView == v
      ensures Panels() == if v == old(currentView) then old(Panels()) else ViewCorrection(old(Panels()), v, splitPanels)
      ensures leftPickerTable == old(leftPickerTable) && rightPickerTable == old(rightPickerTable)
      ensures rangeState == old(rangeState) && dates == old(dates) && selectedIndex == old(selectedIndex)
      ensures upToNowEnable == old(upToNowEnable)
    {
      selectionMode := v;
      SetCurrentView(v);
    }

    /** `handleToggleTime`: between the time view and the date view. */
    method HandleToggleTime()
      requires Valid()
      modifies this`currentView, this`leftPanelDate, this`rightPanelDate
      ensures Valid()
      ensures currentView == (if old(currentView) == TimeView then DateView else TimeView)
      ensures Panels() == if old(currentView) == TimeView then ViewCorrection(old(Panels()), DateView, splitPanels) else old(Panels())
      ensures selectionMode == old(selectionMode)
      ensures leftPickerTable == old(leftPickerTable) && rightPickerTable == old(rightPickerTable)
      ensures rangeState == old(rangeState) && dates == old(dates) && selectedIndex == old(selectedIndex)
      ensures upToNowEnable == old(upToNowEnable)
    {
      SetCurrentView(if currentView == TimeView then DateView else TimeView);
    }

    /** The assignment `resetView`'s timer makes when it fires. */
    method ResetView()
      requires Valid()
      modifies this`currentView, this`leftPanelDate, this`rightPanelDate
      ensures Valid()
      ensures currentView == selectionMode
      ensures Panels() == if selectionMode == old(currentView) then old(Panels()) else ViewCorrection(old(Panels()), selectionMode, splitPanels)
      ensures leftPickerTable == old(leftPickerTable) && rightPickerTable == old(rightPickerTable)
      ensures rangeState == old(rangeState) && dates == old(dates) && selectedIndex == old(selectedIndex)
      ensures selectionMode == old(selectionMode) && upToNowEnable == old(upToNowEnable)
    {
      SetCurrentView(selectionMode);
    }
  }
}
