# Select widget and date-range panel, modelled in Dafny

This project models two components of the bkui-vue3 component library and proves properties of the model.

- **The select widget** (`packages/select/src/select.tsx`) holds:
  - a registry of options;
  - an ordered selection of `{value, label}` entries;
  - a highlighted ("active") option, the text typed for free-text creation, and the bound `modelValue`.

  Its handlers change the selection:
  - choosing an option;
  - select-all, and the "all" sentinel;
  - deleting a tag, Backspace, arrow keys and Enter;
  - clearing;
  - creating a custom option;
  - resynchronising from the bound value.

  They report changes through `update:modelValue`/`change` and related events.
- **The date-range panel** (`packages/date-picker/src/panel/date-range.tsx`) has two calendar panels, each with an anchor date and a table kind. It also keeps a two-click range state (`from`, `to`, `selecting`), the committed `dates`, the current view and a shortcut index. Its handlers:
  - navigate the panels, with panels split or linked;
  - pick days;
  - drill down through the year and month tables;
  - apply shortcuts;
  - follow changes of the bound value and of the view.

Files:

| file | contents |
|---|---|
| `wrappers.dfy` | `Option` |
| `js_value.dfy` | JavaScript primitives: truthiness, `\|\|`, `String(x)` (also the property key of a plain object), ASCII `toLowerCase`, `indexOf`, first index of a value |
| `select_options.dfy` | option records, the sort by `order`, the lookup in `optionsMap`, the enabled and reachable options, search visibility |
| `select_selection.dfy` | the selection as a value: choose, remove, select-all, arrow keys, labels, resynchronisation, creation, `emitChange` |
| `select_widget.dfy` | class `SelectWidget`: state fields and the handlers, each returning the events it emits |
| `calendar.dfy` | dates as (year, month 0–11, day, seconds of the day); `setMonth`/`setFullYear` with day overflow; the clamped step; an order-preserving ordinal standing for `getTime()` |
| `panel_nav.dfy` | `changePanelDate` in both modes, the year/month steps, the view-change correction, drill-down, `setPanelDates` |
| `range_pick.dfy` | `dateSorter` on pairs, committing a range, what a pick reports |
| `date_range_panel.dfy` | class `DateRangePanel`: the reactive `state` and its handlers |

Modelling choices:

- **Side effects as parameters.** The current instant (`new Date()`) and the time-picker's `initTime()` are parameters.
- **Events as values.** Emitted events are returned as a sequence in emission order.
- **Option state.** An option's component state (`optionID`, `optionName`, `order`, `disabled`, `visible`) is a record in `SelectWidget.registry`.
- **Map lookup.** `optionsMap.get` uses `Map` key equality, modelled as value equality. `listMap` and `selectedMap` are plain objects filled by `reduce`, so their keys are `String(v)`; the model files entries under `ToJsString`. The last entry written under a key wins.
- **The change event.** `emitChange` compares with `===`. Every array it is given is built fresh by the handler, so an array value is always emitted (`SelectSelection.ChangeEvents`).
- **Dates.** `Calendar.Ordinal` orders valid dates the way `getTime()` does; only comparisons of dates are used.

Behaviour of the code that may be unexpected:

- A shortcut sets `from`/`to`/`dates` but leaves `selecting` as it was.
  - A shortcut pair with a missing start can therefore leave the panel selecting with no `from`.
  - When that start is `null`, the next click commits `[null, val]` unsorted: `RangePick.CommitRange` in the case of a missing `from`.
- The split-mode correction of `changePanelDate` calls itself with `updateOtherPanel` left true. It therefore repeats, alternating panels, until left is before right; it is not a single step.
- An option named "Banana" matches the search "A": the substring test lower-cases both sides (`SelectOptions.BananaMatchesA`).
- Pressing select-all twice does not restore a partial selection: the second press clears it (`SelectSelection.ToggleSelectAllTwiceLosesPartial`).
- `handleChangeRange` sets `to` while `selecting` is true, so "`selecting` implies no `to`" is not an invariant of the panel.

## Model

| member | source | states |
|---|---|---|
| `JsValue.NatToString` | packages/select/src/select.tsx:219-232 | `String(n)` of a natural number is its decimal form: digits only, spelling exactly `n`, with no leading zero |
| `JsValue.NatToStringInjective` | packages/select/src/select.tsx:219-232 | two numbers with the same decimal form are equal |
| `JsValue.NumKeysInjective` | packages/select/src/select.tsx:219-232 | two different numbers are never filed under the same object key, through the sign or the digits |
| `JsValue.NumberAndStringShareKey` | packages/select/src/select.tsx:219-232 | the number 1 and the string "1" are different values filed under the same object key |
| `JsValue.ToLower` | packages/select/src/select.tsx:445 | lower-casing keeps the length, turns every capital into its small letter, leaves every other character as it is, and leaves no capital |
| `JsValue.ToLowerIdempotent` | packages/select/src/select.tsx:445 | lower-casing a lower-cased text changes nothing |
| `JsValue.IndexOf` | packages/select/src/select.tsx:438-445 | `indexOf` returns the first position where the needle occurs, and -1 exactly when it occurs nowhere |
| `JsValue.IndexOfValue` | packages/select/src/select.tsx:530 | `findIndex(item => item.value === v)` returns the first index holding `v`, and -1 exactly when `v` is absent |
| `SelectOptions.Lookup` | packages/select/src/select.tsx:416 | `optionsMap.get(id)` finds a registered option with that id, and finds nothing exactly when no registered option has it |
| `SelectOptions.InsertByOrder` | packages/select/src/select.tsx:212-216 | inserting adds exactly that option and loses none |
| `SelectOptions.InsertKeepsSorted` | packages/select/src/select.tsx:212-216 | inserting into a list sorted by `order` keeps it sorted |
| `SelectOptions.SortByOrder` | packages/select/src/select.tsx:212-216 | `options` is sorted by ascending `order` and is a permutation of the registry |
| `SelectOptions.SortKeepsDistinct` | packages/select/src/select.tsx:212-216 | sorting neither loses nor duplicates an option id |
| `SelectOptions.InsertKeepsDistinct` | packages/select/src/select.tsx:212-216 | inserting an option whose id is new keeps the ids distinct |
| `SelectOptions.AvailableOptions` | packages/select/src/select.tsx:724 | the reachable options are exactly those neither disabled nor hidden |
| `SelectOptions.EnabledIds` | packages/select/src/select.tsx:271-276 | the ids `isAllSelected` collects are exactly those of options not disabled |
| `SelectOptions.EnabledIdsDistinct` | packages/select/src/select.tsx:271-276 | with distinct option ids, the enabled ids are distinct |
| `SelectOptions.FilterOptionDecidesAlone` | packages/select/src/select.tsx:426-429 | with a `filterOption` given, a non-empty search shows an option exactly when the filter accepts it |
| `SelectOptions.SubstringMatchIsVisible` | packages/select/src/select.tsx:430-445 | without a filter, a case-insensitive substring match shows the option whether or not transliteration is on |
| `SelectOptions.PlainSearchIsSubstring` | packages/select/src/select.tsx:445 | with neither filter nor transliteration, visibility is exactly the case-insensitive substring test |
| `SelectOptions.BananaMatchesA` | packages/select/src/select.tsx:445 | the search "A" matches the name "Banana" |
| `SelectSelection.RemoveFirst` | packages/select/src/select.tsx:662-670 | deleting a tag removes the first entry holding the value, or nothing when none does |
| `SelectSelection.RemoveFirstKeep` | packages/select/src/select.tsx:662-670 | removing an entry whose value is dropped leaves the other entries and their order unchanged |
| `SelectSelection.RemoveFirstValues` | packages/select/src/select.tsx:662-670 | on a duplicate-free selection, removal keeps it duplicate-free and removes exactly that value |
| `SelectSelection.ChooseOption` | packages/select/src/select.tsx:526-568 | in single mode the selection becomes exactly one entry, the option's id with its name or id as label; in multi mode an unselected option is appended after the "all" entry is stripped |
| `SelectSelection.ChooseMultipleMembership` | packages/select/src/select.tsx:530-550 | multi-select choice keeps the values distinct, flips the chosen id's membership, drops the "all" id and leaves every other value as it was |
| `SelectSelection.ChooseMultipleKeepsOthers` | packages/select/src/select.tsx:530-550 | every entry with another value survives a choice, in its relative order |
| `SelectSelection.EnabledListIds` | packages/select/src/select.tsx:623-627 | the ids of the list items that are not disabled |
| `SelectSelection.AddEntryValues` | packages/select/src/select.tsx:619-621 | `tmpSelectedMap.set` after a `has` check adds a key once, at the end |
| `SelectSelection.AddOptionsValues` | packages/select/src/select.tsx:618-622 | the option pass keeps keys distinct, keeps what was there as a prefix, and adds exactly the enabled ids |
| `SelectSelection.AddListItemsValues` | packages/select/src/select.tsx:623-627 | the list pass keeps keys distinct, keeps what was there as a prefix, and adds exactly the enabled list ids |
| `SelectSelection.AddOptionsExact` | packages/select/src/select.tsx:618-622 | with distinct ids, the option pass appends the enabled ids in option order |
| `SelectSelection.SelectAllContents` | packages/select/src/select.tsx:613-632 | select-all holds each enabled option id and then each enabled list id, exactly once, with the options first and in `order` sequence |
| `SelectSelection.SelectAllIsAllSelected` | packages/select/src/select.tsx:270-281 | after select-all, `isAllSelected` holds |
| `SelectSelection.ToggleSelectAllTwiceFromEmpty` | packages/select/src/select.tsx:613-635 | pressing select-all twice on an empty selection leaves it empty |
| `SelectSelection.ToggleSelectAllTwiceLosesPartial` | packages/select/src/select.tsx:613-635 | pressing select-all twice on a partial selection clears it rather than restoring it |
| `SelectSelection.ArrowIndexIsCyclic` | packages/select/src/select.tsx:733-738 | from a highlighted index, both arrow keys stay in range and step cyclically by one |
| `SelectSelection.ArrowKeysInverse` | packages/select/src/select.tsx:733-738 | ArrowUp undoes ArrowDown and ArrowDown undoes ArrowUp |
| `SelectSelection.NextActive` | packages/select/src/select.tsx:724-744 | the new highlight is a reachable option's id or undefined; a found id moves cyclically; ArrowDown from a missing id goes to the first option, ArrowUp from a missing id yields undefined |
| `SelectSelection.ArrowKeysStayAvailable` | packages/select/src/select.tsx:724-744 | arrow keys only highlight options that are neither disabled nor hidden |
| `SelectSelection.FirstAvailableId` | packages/select/src/select.tsx:420 | `options.find` gives the first option neither disabled nor hidden, and undefined exactly when there is none |
| `SelectSelection.InitialActive` | packages/select/src/select.tsx:414-422 | the initial highlight is undefined or a reachable registered option; the first selected value wins when its option is reachable; otherwise it is the first reachable option in `options` order, undefined when nothing is reachable |
| `SelectSelection.LabelByValue` | packages/select/src/select.tsx:672-689 | a label is the option name if truthy, else the list label, else the previous label, else the value; the result is truthy or is the value itself |
| `SelectSelection.Resync` | packages/select/src/select.tsx:691-712 | an array yields one entry per element in order; a scalar yields one entry exactly when it is truthy or allowed empty; every label is resolved from the value |
| `SelectSelection.SelectedLabelUniform` | packages/select/src/select.tsx:219-224 | when every entry filed under a key has one label, `selectedMap` gives that label |
| `SelectSelection.ResyncIdempotent` | packages/select/src/select.tsx:691-712 | resynchronising twice from a bound value whose values have distinct keys gives what once gives |
| `SelectSelection.ResyncRelabelsCollidingKeys` | packages/select/src/select.tsx:672-712 | with the values 1 and "1" both bound, the second resynchronisation relabels 1 as "1" |
| `SelectSelection.FindByName` | packages/select/src/select.tsx:501 | the option found is the first whose name is the typed text up to case; none is found exactly when no option has that name |
| `SelectSelection.CreateOutcome` | packages/select/src/select.tsx:493-524 | creation is ignored exactly when disallowed or empty; a name match of a filterable widget selects that option; an existing key blocks creation; otherwise the text is appended (multi) or replaces the selection (single) |
| `SelectSelection.ChangeEvents` | packages/select/src/select.tsx:475-480 | nothing is emitted exactly when the new value is `===` the bound one; otherwise `update:modelValue` and then `change`, each with the new and the old value; an array value is always emitted |
| `SelectWidgetState.SelectWidget.Options` | packages/select/src/select.tsx:212-216 | `options` is the registry sorted by `order`, with the same members |
| `SelectWidgetState.SelectWidget.constructor` | packages/select/src/select.tsx:796-797 | on mount, the selection is resynchronised from the bound value |
| `SelectWidgetState.SelectWidget.HandleOptionSelected` | packages/select/src/select.tsx:526-568 | a disabled widget or a missing option changes nothing; otherwise the selection becomes `ChooseOption`, with change, select/deselect and hide events as emitted |
| `SelectWidgetState.SelectWidget.HandleInputChange` | packages/select/src/select.tsx:488-491 | a filterable widget keeps the typed text for creation and for the Backspace guard; otherwise nothing changes |
| `SelectWidgetState.SelectWidget.HandleCreateCustomOption` | packages/select/src/select.tsx:493-524 | the selection, the typed text and the events follow `CreateOutcome` case by case; a matched option is chosen with the events `handleOptionSelected` emits for it |
| `SelectWidgetState.SelectWidget.HandleClear` | packages/select/src/select.tsx:601-608 | the selection is emptied and change, clear and hide events follow |
| `SelectWidgetState.SelectWidget.ToggleSelectAllOptions` | packages/select/src/select.tsx:613-635 | the two loops fill the selection as `ToggleSelectAll` says, and the new values are emitted |
| `SelectWidgetState.SelectWidget.ToggleAll` | packages/select/src/select.tsx:637-653 | with the all-option shown, the selection flips between the single "all" entry and nothing; otherwise nothing changes |
| `SelectWidgetState.SelectWidget.HandleDeleteTag` | packages/select/src/select.tsx:662-670 | the first entry with the value goes and tag-remove is emitted; nothing happens when disabled or absent |
| `SelectWidgetState.SelectWidget.HandleKeydown` | packages/select/src/select.tsx:721-769 | without an open popover or with virtual rendering nothing happens; arrows move the highlight by `NextActive`; Backspace pops the last entry exactly when the widget is multi-select, the selection is non-empty, no text is typed and the target is not the search box; Enter chooses the highlighted registered option unless typing or in the search box, with the selection, typed text and events `handleOptionSelected` gives |
| `SelectWidgetState.SelectWidget.InitActiveOptionValue` | packages/select/src/select.tsx:414-422 | the highlight becomes `InitialActive` of the registry, the options and the selection |
| `SelectWidgetState.SelectWidget.HandleDefaultOptionSearch` | packages/select/src/select.tsx:448-463 | a filterable widget sets each option's `visible` to its search visibility and changes nothing else; otherwise nothing changes |
| `SelectWidgetState.SelectWidget.SetModelValue` | packages/select/src/select.tsx:238-247 | a new bound value resynchronises the selection |
| `SelectWidgetState.SelectWidget.SetOptions` | packages/select/src/select.tsx:234-236 | new options or a new list resynchronise the selection |
| `Calendar.DaysInMonth` | packages/date-picker/src/panel/date-range.tsx:219 | every month has 28 to 31 days, at least 30 except February |
| `Calendar.Normalize` | packages/date-picker/src/panel/date-range.tsx:198 | a day past the month's end carries into the next month; the result is a valid date |
| `Calendar.Shift` | packages/date-picker/src/panel/date-range.tsx:197-199 | `setMonth`/`setFullYear` land on the target month when the day fits; otherwise on the month after, on the day less the target month's length |
| `Calendar.ClampedShift` | packages/date-picker/src/panel/date-range.tsx:218-223 | clamping the day first lands exactly on the target month, on the smaller of the day and the month's length |
| `Calendar.OrdinalFollowsMonths` | packages/date-picker/src/panel/date-range.tsx:205-209 | a later month is a later date |
| `Calendar.OrdinalInjective` | packages/date-picker/src/panel/date-range.tsx:173-178 | two valid dates with equal times are the same date |
| `Calendar.StepMonotone` | packages/date-picker/src/panel/date-range.tsx:205-209 | a forward step moves a date later and a backward step earlier, with or without the clamp |
| `Calendar.FirstOfNextMonth` | packages/date-picker/src/panel/date-range.tsx:389 | the first of the next month is later than the date |
| `Calendar.EndOfDay` | packages/date-picker/src/panel/date-range.tsx:321 | 23:59:59 of the same day, no earlier than any time of that day |
| `Calendar.MonthsOf` | packages/date-picker/src/panel/date-range.tsx:196-226 | a step has the sign of its increment |
| `PanelNav.SplitCorrect` | packages/date-picker/src/panel/date-range.tsx:205-212 | the split-mode correction terminates, as each push shrinks the gap, and ends with left before right; already ordered anchors are left alone |
| `PanelNav.NavigateWith` | packages/date-picker/src/panel/date-range.tsx:196-226 | navigation keeps the anchors valid, and in split mode ends with left before right |
| `PanelNav.ChangePanelDateAsWritten` | packages/date-picker/src/panel/date-range.tsx:196-226 | as written: the acting panel lands where plain `setMonth`/`setFullYear` puts it, unless the split correction pushes it again; without update the other panel is untouched; split mode ends ordered; linked, the other panel lands exactly `inc` months on with its day clamped for a month step, and by plain `setFullYear` for a year step |
| `PanelNav.ChangePanelDate` | packages/date-picker/src/panel/date-range.tsx:196-226 | corrected: split mode ends ordered; without update only the acting panel moves; linked, both anchors land exactly `inc` units on |
| `PanelNav.LinkedDistanceKept` | packages/date-picker/src/panel/date-range.tsx:213-225 | linked panels keep their distance in months |
| `PanelNav.LinkedNextMonthOverflow` | packages/date-picker/src/panel/date-range.tsx:196-226 | as written, next month from 2024-01-31 gives left 2024-03-02 after right 2024-03-01 |
| `PanelNav.LinkedNextYearOverflow` | packages/date-picker/src/panel/date-range.tsx:196-226 | as written, next year from 2024-02-29 puts both anchors on 2025-03-01 |
| `PanelNav.LinkedStepsClamped` | packages/date-picker/src/panel/date-range.tsx:213-225 | with the clamp, the same two steps keep the right panel one month after the left |
| `PanelNav.YearStep` | packages/date-picker/src/panel/date-range.tsx:231-242 | the year step is ten in the year view and one otherwise, forward or back |
| `PanelNav.WatcherStep` | packages/date-picker/src/panel/date-range.tsx:414-427 | the watcher moves the right panel only when both anchors share a year (and a month for the date view): one month forward in the date view, a year in the month view, ten in the year view, nothing in the time view |
| `PanelNav.ViewCorrectionAsWritten` | packages/date-picker/src/panel/date-range.tsx:414-427 | as written: the watcher's step with the overflowing acting step keeps the anchors valid, changes nothing without a step, and in split mode leaves left before right |
| `PanelNav.ViewCorrection` | packages/date-picker/src/panel/date-range.tsx:414-427 | corrected: the watcher's step keeps the anchors valid, changes nothing when the watcher takes no step (years differ, the date view with months differing, or the time view), and in split mode leaves left before right |
| `PanelNav.SplitViewCorrectionOverflow` | packages/date-picker/src/panel/date-range.tsx:414-427 | split anchors on 2024-01-05 and 2024-01-31, back to the date view: as written the right anchor goes to 2024-03-02, corrected to 2024-02-29 |
| `PanelNav.RightForwardNoCorrection` | packages/date-picker/src/panel/date-range.tsx:205-212 | moving an ordered right panel forward triggers no correction |
| `PanelNav.SplitViewCorrectionSeparates` | packages/date-picker/src/panel/date-range.tsx:414-427 | with the corrected navigation, in split mode the correction moves only the right anchor: one month in the date view, one year in the month view, ten in the year view |
| `PanelNav.LinkedViewCorrectionKeepsYear` | packages/date-picker/src/panel/date-range.tsx:414-427 | in linked mode the correction moves both anchors, so two anchors sharing a year still share one |
| `PanelNav.DrillDownEnds` | packages/date-picker/src/panel/date-range.tsx:346-353 | a panel that is pre-selecting shows the current view's table again within two drill-down clicks |
| `PanelNav.PreSelect` | packages/date-picker/src/panel/date-range.tsx:346-362 | the chosen panel takes the value; in linked mode the other panel steps one month away with the plain `setMonth`, landing on the same day one month beside when the day is at most 28, as for the first-of-month values the tables pass |
| `PanelNav.PreSelectOrdered` | packages/date-picker/src/panel/date-range.tsx:346-362 | a linked drill-down leaves left before right, even when the plain step overflows |
| `PanelNav.PanelDatesFor` | packages/date-picker/src/panel/date-range.tsx:387-394 | the right anchor is the first of the month after left, or in split mode the later of that and the end date; left is before right |
| `RangePick.SortPair` | packages/date-picker/src/panel/date-range.tsx:173-178 | sorting a pair keeps its members; two dates come out in order; a missing date leaves the pair as it was |
| `RangePick.SortPairSymmetric` | packages/date-picker/src/panel/date-range.tsx:173-178 | two valid dates sort to the same pair in either order |
| `RangePick.CommitRange` | packages/date-picker/src/panel/date-range.tsx:315-327 | the second click finishes selecting; the start is the earlier date; the end is exactly the 23:59:59 of the later day, or now for `upToNow`; a missing start stays missing and the clicked day ends the range |
| `RangePick.CommitRangeSymmetric` | packages/date-picker/src/panel/date-range.tsx:315-327 | clicking two days in either order commits the same range |
| `RangePick.EmittedKind` | packages/date-picker/src/panel/date-range.tsx:329 | a range pick always reports a kind, `date` when none was given |
| `RangePick.RangeFromModel` | packages/date-picker/src/panel/date-range.tsx:400-409 | a new bound value is sorted into the range with selection ended |
| `RangePick.RangeFromModelIdempotent` | packages/date-picker/src/panel/date-range.tsx:400-409 | reading the panel's own dates back changes nothing |
| `DateRangePanelState.DateRangePanel.constructor` | packages/date-picker/src/panel/date-range.tsx:148-165 | the initial anchors, tables, view and range, with nothing being selected |
| `DateRangePanelState.DateRangePanel.ChangePanelDate` | packages/date-picker/src/panel/date-range.tsx:196-226 | the handler leaves the anchors as `PanelNav.ChangePanelDate` says; it may modify only the two anchors |
| `DateRangePanelState.DateRangePanel.CorrectSplit` | packages/date-picker/src/panel/date-range.tsx:205-212 | the recursive split correction leaves the anchors as `PanelNav.SplitCorrect` says, valid and ordered |
| `DateRangePanelState.DateRangePanel.StepYear` | packages/date-picker/src/panel/date-range.tsx:231-242 | prev/next year step the panel by `YearStep` with the corrected navigation; only the two anchors change |
| `DateRangePanelState.DateRangePanel.StepMonth` | packages/date-picker/src/panel/date-range.tsx:247-256 | prev/next month step the panel by one month with the corrected navigation; only the two anchors change |
| `DateRangePanelState.DateRangePanel.ShowPicker` | packages/date-picker/src/panel/date-range.tsx:261-270 | only that panel's table changes, to the year or month table |
| `DateRangePanelState.DateRangePanel.HandleRangePick` | packages/date-picker/src/panel/date-range.tsx:307-338 | first click: range opened at the day, `upToNowEnable` set to day < now, `pick-first` emitted; second click: `CommitRange` becomes range and dates and `pick` is emitted; time view: the pair becomes the dates |
| `DateRangePanelState.DateRangePanel.HandlePreSelection` | packages/date-picker/src/panel/date-range.tsx:346-362 | the anchors follow `PreSelect`, the plain step as written, and the chosen panel's table follows `NextTable` |
| `DateRangePanelState.DateRangePanel.HandleShortcutClick` | packages/date-picker/src/panel/date-range.tsx:364-381 | a shortcut without a value does nothing; otherwise range ends, dates and index are set, `selecting` is kept, and pick (and pick-success when closing) are emitted |
| `DateRangePanelState.DateRangePanel.HandleChangeRange` | packages/date-picker/src/panel/date-range.tsx:383-385 | only the range end changes |
| `DateRangePanelState.DateRangePanel.SetPanelDates` | packages/date-picker/src/panel/date-range.tsx:387-394 | the anchors become `PanelDatesFor` the given left date and the end date, left before right |
| `DateRangePanelState.DateRangePanel.OnModelValueChange` | packages/date-picker/src/panel/date-range.tsx:400-412 | dates and range come from the sorted bound value with selection ended, and the anchors are reset from the start date, the first date or now |
| `DateRangePanelState.DateRangePanel.SetCurrentView` | packages/date-picker/src/panel/date-range.tsx:414-434 | changing the view applies `ViewCorrection` to the anchors; assigning the same view changes nothing |
| `DateRangePanelState.DateRangePanel.Reset` | packages/date-picker/src/panel/date-range.tsx:180-184 | view and both tables return to the selection mode, and a change of view applies `ViewCorrection` to the anchors |
| `DateRangePanelState.DateRangePanel.OnSelectionModeChange` | packages/date-picker/src/panel/date-range.tsx:396-398 | a new selection mode becomes the current view, with the view watcher's correction of the anchors |
| `DateRangePanelState.DateRangePanel.HandleToggleTime` | packages/date-picker/src/panel/date-range.tsx:466-468 | the view toggles between time and date; on the way back to date the anchors get `ViewCorrection` |
| `DateRangePanelState.DateRangePanel.ResetView` | packages/date-picker/src/panel/date-range.tsx:470-477 | when the timer fires, the view returns to the selection mode, with the view watcher's correction of the anchors |

## Left out

- Rendering: render bodies, popover configuration, class names, localised texts, the label-display computed `selectedLabel`, and the virtual-render height arithmetic.
- DOM and scheduling:
  - focus and blur;
  - `scrollIntoView` and `isInViewPort`;
  - `setTimeout`/`nextTick`: the 500 ms delay of `resetView` is not modelled, only the assignment it makes;
  - listener registration and scroll-end detection;
  - `stopPropagation`/`preventDefault`.
- The `./common` helpers are not part of this model:
  - `useRegistry`: registering and unregistering are modelled only as a new registry handed to `SetOptions`;
  - `useRemoteSearch`, `usePopover`, `toLowerCase` (modelled as ASCII lower-casing) and `pinyin.parse` (a function parameter of the search configuration that returns each token's target text).
- Remote search and `filterList`, `setSelected`, groups, `clearMultipleInputValue` (an external tag input), and the `handleSelectedAllOptionMouseEnter` highlight reset.
- Object values: object option ids, lodash `isEqual` key matching in `handleGetLabelByValue`, and prototype property names colliding with object keys. Values are primitives; numbers are integers, with no fractions or NaN.
- The `filterOption` callback receives the option's id and name, not its full props and attrs.
- Dates:
  - milliseconds, time zones and daylight saving;
  - `date-fns` `toDate`;
  - `formatDateLabels` and the panel labels;
  - `Math.max(null, t)` for dates before 1970;
  - the `'range'` fallback of the `selectionMode` watcher.
- `HidePopover` stands for the call to `handleHidePopover`; its guard for a manually triggered popover belongs to the popover, which is not part of this model.
- `DateRangePanelState.DateRangePanel.constructor` and `DateRangePanelState.DateRangePanel.OnModelValueChange` take the bound value as a pair; a `null` or non-array bound value, on which the code's indexing throws, is not modelled.
- Shortcuts: the `onClick` callback is not modelled. A function-valued shortcut is taken as already evaluated.
- `panelPickerHandlers` dispatch: `handlePreSelection` is modelled by its declared parameters.
- `DateRangePanelState.DateRangePanel.ChangePanelDate`: follows the corrected navigation of the findings below, not the overflowing acting step as written.
- `DateRangePanelState.DateRangePanel.CorrectSplit`: pushes the other panel with the corrected, clamped step of the findings below, not the overflowing `setMonth`/`setFullYear` of the recursive call as written.
- `DateRangePanelState.DateRangePanel.StepYear`: steps through the corrected navigation, so the acting panel does not overflow as it does in the code.
- `DateRangePanelState.DateRangePanel.StepMonth`: steps through the corrected navigation, so the acting panel does not overflow as it does in the code.
- `DateRangePanelState.DateRangePanel.SetCurrentView`: applies the corrected `PanelNav.ViewCorrection`; the watcher as written is `PanelNav.ViewCorrectionAsWritten`.
- `DateRangePanelState.DateRangePanel.Reset`: the change of view applies the corrected `PanelNav.ViewCorrection`, not the overflowing step as written.
- `DateRangePanelState.DateRangePanel.OnSelectionModeChange`: the change of view applies the corrected `PanelNav.ViewCorrection`, not the overflowing step as written.
- `DateRangePanelState.DateRangePanel.HandleToggleTime`: the return to the date view applies the corrected `PanelNav.ViewCorrection`, not the overflowing step as written.
- `DateRangePanelState.DateRangePanel.ResetView`: the return to the selection mode applies the corrected `PanelNav.ViewCorrection`, not the overflowing step as written.
- `PanelNav.SplitViewCorrectionSeparates`: holds for the corrected navigation only; as written a day past the next month's end moves the right anchor two months (`PanelNav.SplitViewCorrectionOverflow`).
- `RangePick.SortPair`: `None` stands for both `null` and `undefined`; `Array.prototype.sort` moves an `undefined` start to the end without calling `dateSorter`, which the model does not distinguish.
- `RangePick.CommitRange`: `maxDate.setHours(23)` changes the later Date object in place, which is the clicked day or the stored `from` already handed out with `pick-first`; the model returns a fresh value and does not capture that aliasing.
- `RangePick.CommitRange`: an `undefined` start is treated like `null`; as written the sort puts it last and `maxDate.setHours` then throws (or, for `upToNow`, `[val, now]` is committed), and that error is not modelled.
- `DateRangePanelState.DateRangePanel.HandleRangePick`: requires that the time view passes a pair and the date tables pass a day, as the tables do.

## Findings

| source | as written | input that shows it | evidently intended | confidence | as-written member | corrected member |
|---|---|---|---|---|---|---|
| packages/date-picker/src/panel/date-range.tsx:196-226 | the acting panel steps with plain `setMonth`, so its day overflows into the following month; only the other panel is clamped | linked panels at 2024-01-31 and 2024-02-01, next month on the left: left 2024-03-02, right 2024-03-01 (`PanelNav.LinkedNextMonthOverflow`) | the acting panel lands in the target month, like the clamped other panel, keeping the right panel one month after the left | not executed; medium | `PanelNav.ChangePanelDateAsWritten` | `PanelNav.ChangePanelDate` |
| packages/date-picker/src/panel/date-range.tsx:196-226 | in linked mode a year step clamps neither panel, so February 29th overflows into March | linked panels at 2024-02-29 and 2024-03-01, next year on the left: both on 2025-03-01 (`PanelNav.LinkedNextYearOverflow`) | both panels land exactly one year on, one month apart | not executed; medium | `PanelNav.ChangePanelDateAsWritten` | `PanelNav.ChangePanelDate` |
| packages/date-picker/src/panel/date-range.tsx:414-427 | the `currentView` watcher moves the right panel with `changePanelDate`, whose acting `setMonth` overflows, so a right anchor on the 31st goes two months on | split panels on 2024-01-05 and 2024-01-31 (bound value 2023-12-05 to 2024-01-31, then next month on the left), time view and back to date: the right anchor goes to 2024-03-02 (`PanelNav.SplitViewCorrectionOverflow`) | the right panel shows the next month, 2024-02 | not executed; medium | `PanelNav.ViewCorrectionAsWritten` | `PanelNav.ViewCorrection` |
