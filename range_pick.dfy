/**
 * The two-click range selection of the range panel
 * (packages/date-picker/src/panel/date-range.tsx): sorting a pair of dates with
 * `dateSorter`, committing a range on the second click, and what is emitted.
 */
module RangePick {
  import opened Wrappers
  import opened Calendar
  import opened PanelNav

  /** A pair of possibly missing dates: `dates`, a model value or a shortcut's value. */
  datatype DatePair = DatePair(start: Option<Date>, end: Option<Date>)

  /** `rangeState`: the endpoints and whether the first click has been made. */
  datatype RangeState = RangeState(from: Option<Date>, to: Option<Date>, selecting: bool)

  /** The value a table hands to `handleRangePick`: a day in the date tables, a pair from the time panel. */
  datatype Picked = DayPick(day: Date) | TimePick(pair: DatePair)

  /** What the panel emits. */
  datatype PanelEvent =
    | Pick(dates: DatePair, visible: bool, kind: string)
    | PickFirst(value: Picked, view: View)
    | PickSuccess

  ghost predicate OptValid(d: Option<Date>)
  {
    d.Some? ==> Valid(d.value)
  }

  /** `[a, b].sort(dateSorter)`: swapped only when both are present and the second is earlier. */
  function SortPair(a: Option<Date>, b: Option<Date>): (r: DatePair)
    ensures multiset{r.start, r.end} == multiset{a, b}
    ensures a.Some? && b.Some? ==> r.start.Some? && r.end.Some? && Ordinal(r.start.value) <= Ordinal(r.end.value)
    ensures a.None? || b.None? ==> r == DatePair(a, b)
  {
    if a.Some? && b.Some? && Ordinal(b.value) < Ordinal(a.value) then DatePair(b, a) else DatePair(a, b)
  }

  /** For two valid dates the sorted pair does not depend on the order they come in. */
  lemma SortPairSymmetric(a: Date, b: Date)
    requires Valid(a) && Valid(b)
    ensures SortPair(Some(a), Some(b)) == SortPair(Some(b), Some(a))
  {
    if Ordinal(a) == Ordinal(b) {
      OrdinalInjective(a, b);
    }
  }

  /** The end of a committed range: now for `upToNow`, otherwise the last second of the later day. */
  function EndMoment(later: Date, kind: string, now: Date): Date
    requires Valid(later)
  {
    if kind == "upToNow" then now else EndOfDay(later)
  }

  /**
   * The second click: `[from, val]` sorted, the later one moved to its day's end
   * (or now), selection finished. A missing `from` (a shortcut can leave one) is
   * never swapped, so `val` becomes the end.
   */
  function CommitRange(from: Option<Date>, val: Date, kind: string, now: Date): (r: RangeState)
    requires OptValid(from) && Valid(val)
    ensures !r.selecting && r.to.Some?
    ensures from.None? ==> r.from == None && r.to.value == EndMoment(val, kind, now)
    ensures from.Some? ==>
      r.from.Some? && (r.from.value == from.value || r.from.value == val) &&
      Ordinal(r.from.value) <= Ordinal(from.value) && Ordinal(r.from.value) <= Ordinal(val)
    ensures kind == "upToNow" ==> r.to.value == now
    ensures kind != "upToNow" ==>
      Valid(r.to.value) && r.to.value.secs == 86399 && Ordinal(val) <= Ordinal(r.to.value) &&
      (from.Some? ==> Ordinal(r.from.value) <= Ordinal(r.to.value) && Ordinal(from.value) <= Ordinal(r.to.value))
    ensures kind != "upToNow" && from.Some? ==>
      r.to.value == EndOfDay(if Ordinal(val) < Ordinal(from.value) then from.value else val)
  {
    var sorted := SortPair(from, Some(val));
    RangeState(sorted.start, Some(EndMoment(sorted.end.value, kind, now)), false)
  }

  /** Clicking the two days in either order commits the same range. */
  lemma CommitRangeSymmetric(a: Date, b: Date, kind: string, now: Date)
    requires Valid(a) && Valid(b)
    ensures CommitRange(Some(a), b, kind, now) == CommitRange(Some(b), a, kind, now)
  {
    SortPairSymmetric(a, b);
  }

  /** The committed range as `dates`. */
  function RangeDates(r: RangeState): DatePair
  {
    DatePair(r.from, r.to)
  }

  /** `type || 'date'`: the kind a range pick reports. */
  function EmittedKind(kind: string): (k: string)
    ensures k != ""
    ensures kind != "" ==> k == kind
    ensures kind == "" ==> k == "date"
  {
    if kind == "" then "date" else kind
  }

  /** The `modelValue` watcher: the new pair is sorted and nothing is left half-selected. */
  function RangeFromModel(mv: DatePair): (r: RangeState)
    ensures !r.selecting
    ensures multiset{r.from, r.to} == multiset{mv.start, mv.end}
    ensures mv.start.Some? && mv.end.Some? ==> Ordinal(r.from.value) <= Ordinal(r.to.value)
  {
    var sorted := SortPair(mv.start, mv.end);
    RangeState(sorted.start, sorted.end, false)
  }

  /** Reading the same pair back from the panel's own `dates` does not reorder it again. */
  lemma RangeFromModelIdempotent(mv: DatePair)
    ensures var r := RangeFromModel(mv);
            RangeFromModel(RangeDates(r)) == r
  {
  }
}
