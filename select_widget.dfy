/**
 * The select widget's state and handlers (packages/select/src/select.tsx): the
 * registered options, the ordered selection, the highlighted option, the text
 * typed for creation and the bound value, updated in place by each handler.
 * Every handler returns the events it emits, in emission order.
 */
module SelectWidgetState {
  import opened Wrappers
  import opened JsValue
  import opened SelectOptions
  import opened SelectSelection

  /** The keys `handleDocumentKeydown` distinguishes. */
  datatype Key = ArrowUp | ArrowDown | Backspace | Enter | OtherKey

  class SelectWidget {
    const multiple: bool
    /** `disabled || loading` */
    const isDisabled: bool
    const filterable: bool
    const allowCreate: bool
    const showAll: bool
    const allOptionId: Value
    /** The localised "all" text the all-entry carries. */
    const allText: string
    const allowEmptyValues: seq<Value>
    const search: SearchConfig

    /** `optionsMap`, one record per registered option id, in registration order. */
    var registry: seq<OptionRec>
    /** The `list` prop. */
    var list: seq<ListItem>
    var selected: seq<Entry>
    var activeOptionValue: Value
    var customOptionName: string
    var modelValue: ModelValue

    ghost predicate Valid()
      reads this
    {
      DistinctIds(registry)
    }

    /** `options`: the registered options by ascending `order`. */
    function Options(): (r: seq<OptionRec>)
      reads this
      ensures SortedByOrder(r) && multiset(r) == multiset(registry)
      ensures forall o :: o in r <==> o in registry
    {
      var r := SortByOrder(registry);
      assert forall o :: o in r <==> o in multiset(r);
      assert forall o :: o in registry <==> o in multiset(registry);
      r
    }

    /** Mounting: the selection is first synchronised from the bound value. */
    constructor (multiple: bool, isDisabled: bool, filterable: bool, allowCreate: bool, showAll: bool,
                 allOptionId: Value, allText: string, allowEmptyValues: seq<Value>, search: SearchConfig,
                 registry: seq<OptionRec>, list: seq<ListItem>, modelValue: ModelValue)
      requires DistinctIds(registry)
      ensures Valid()
      ensures this.multiple == multiple && this.isDisabled == isDisabled && this.filterable == filterable
      ensures this.allowCreate == allowCreate && this.showAll == showAll && this.allOptionId == allOptionId
      ensures this.allText == allText && this.allowEmptyValues == allowEmptyValues && this.search == search
      ensures this.registry == registry && this.list == list && this.modelValue == modelValue
      ensures selected == Resync(modelValue, registry, list, [], allowEmptyValues)
      ensures activeOptionValue == Undefined && customOptionName == ""
    {
      this.multiple := multiple;
      this.isDisabled := isDisabled;
      this.filterable := filterable;
      this.allowCreate := allowCreate;
      this.showAll := showAll;
      this.allOptionId := allOptionId;
      this.allText := allText;
      this.allowEmptyValues := allowEmptyValues;
      this.search := search;
      this.registry := registry;
      this.list := list;
      this.modelValue := modelValue;
      selected := Resync(modelValue, registry, list, [], allowEmptyValues);
      activeOptionValue := Undefined;
      customOptionName := "";
    }

    /** `handleOptionSelected(option)`; `None` stands for the missing option an Enter key can pass. */
    method HandleOptionSelected(option: Option<OptionRec>) returns (events: seq<SelectEvent>)
      requires Valid()
      modifies this
      ensures Valid()
      ensures registry == old(registry) && list == old(list) && modelValue == old(modelValue)
      ensures activeOptionValue == old(activeOptionValue)
      ensures isDisabled || option.None? ==>
        selected == old(selected) && customOptionName == old(customOptionName) && events == []
      ensures !isDisabled && option.Some? ==>
        selected == ChooseOption(old(selected), option.value, multiple, allOptionId)
      ensures !isDisabled && option.Some? && multiple ==>
        customOptionName == old(customOptionName) &&
        events == ChangeEvents(Array(Values(selected)), modelValue) +
          [if option.value.id in Values(RemoveFirst(old(selected), allOptionId))
           then DeselectOption(option.value.id) else SelectOption(option.value.id)]
      ensures !isDisabled && option.Some? && !multiple ==>
        customOptionName == (if filterable && allowCreate then "" else old(customOptionName)) &&
        events == ChangeEvents(Scalar(option.value.id), modelValue) + [SelectOption(option.value.id), HidePopover]
      ensures !isDisabled && option.Some? ==>
        events == ChoiceEvents(old(selected), option.value, multiple, allOptionId, modelValue)
    {
      if isDisabled || option.None? {
        return [];
      }
      var o := option.value;
      var exitAllIndex := IndexOfValue(Values(selected), allOptionId);
      if exitAllIndex > -1 {
        selected := selected[..exitAllIndex] + selected[exitAllIndex + 1..];
      }
      ghost var base := selected;
      assert base == RemoveFirst(old(selected), allOptionId);
      if multiple {
        var index := IndexOfValue(Values(selected), o.id);
        assert (index > -1) == (o.id in Values(base));
        assert Toggle(base, o) == ChooseOption(old(selected), o, true, allOptionId);
        if index > -1 {
          selected := selected[..index] + selected[index + 1..];
          assert selected == Toggle(base, o);
          events := ChangeEvents(Array(Values(selected)), modelValue) + [DeselectOption(o.id)];
        } else {
          selected := selected + [Entry(o.id, OptionLabel(o))];
          assert selected == Toggle(base, o);
          events := ChangeEvents(Array(Values(selected)), modelValue) + [SelectOption(o.id)];
        }
      } else {
        selected := [Entry(o.id, OptionLabel(o))];
        if filterable && allowCreate {
          customOptionName := "";
        }
        events := ChangeEvents(Scalar(o.id), modelValue) + [SelectOption(o.id), HidePopover];
      }
    }

    /** `handleInputChange(value)`: the text typed in a filterable widget, kept for creation and for the Backspace guard. */
    method HandleInputChange(value: string)
      modifies this`customOptionName
      ensures customOptionName == if filterable then value else old(customOptionName)
    {
      if !filterable {
        return;
      }
      customOptionName := value;
    }

    /** `handleCreateCustomOption(val)`: the typed text becomes an entry unless an option already answers to it. */
    method HandleCreateCustomOption(val: Value) returns (events: seq<SelectEvent>)
      requires Valid()
      modifies this
      ensures Valid()
      ensures registry == old(registry) && list == old(list) && modelValue == old(modelValue)
      ensures activeOptionValue == old(activeOptionValue)
      ensures var action := CreateOutcome(allowCreate, filterable, multiple, old(Options()), old(registry), ToJsString(val));
        match action
        case Ignore =>
          selected == old(selected) && customOptionName == old(customOptionName) && events == []
        case KeepExisting =>
          selected == old(selected) && customOptionName == old(customOptionName) && events == []
        case SelectMatched(o) =>
          selected == (if isDisabled then old(selected) else ChooseOption(old(selected), o, multiple, allOptionId)) &&
          customOptionName == "" &&
          events == (if isDisabled then [] else ChoiceEvents(old(selected), o, multiple, allOptionId, modelValue))
        case AppendCustom(text) =>
          selected == old(selected) + [Entry(Str(text), Str(text))] && customOptionName == "" &&
          events == ChangeEvents(Array(Values(selected)), modelValue)
        case ReplaceCustom(text) =>
          selected == [Entry(Str(text), Str(text))] && customOptionName == "" &&
          events == ChangeEvents(Scalar(Str(text)), modelValue) + [HidePopover]
    {
      var text := ToJsString(val);
      var action := CreateOutcome(allowCreate, filterable, multiple, Options(), registry, text);
      match action
      case Ignore =>
        events := [];
      case KeepExisting =>
        events := [];
      case SelectMatched(o) =>
        events := HandleOptionSelected(Some(o));
        customOptionName := "";
      case AppendCustom(t) =>
        selected := selected + [Entry(Str(t), Str(t))];
        events := ChangeEvents(Array(Values(selected)), modelValue);
        customOptionName := "";
      case ReplaceCustom(t) =>
        selected := [Entry(Str(t), Str(t))];
        events := ChangeEvents(Scalar(Str(t)), modelValue) + [HidePopover];
        customOptionName := "";
    }

    /** The value a cleared widget reports: `[]` or `''`. */
    function EmptyValue(): (r: ModelValue)
      ensures multiple <==> r.Array?
      ensures ModelValues(r) == [] || r == Scalar(Str(""))
    {
      if multiple then Array([]) else Scalar(Str(""))
    }

    /** `handleClear` */
    method HandleClear() returns (events: seq<SelectEvent>)
      modifies this
      ensures selected == []
      ensures registry == old(registry) && list == old(list) && modelValue == old(modelValue)
      ensures activeOptionValue == old(activeOptionValue) && customOptionName == old(customOptionName)
      ensures events == ChangeEvents(EmptyValue(), modelValue) + [Clear(EmptyValue()), HidePopover]
    {
      selected := [];
      events := ChangeEvents(EmptyValue(), modelValue) + [Clear(EmptyValue()), HidePopover];
    }

    /** `toggleSelectAll`: clear when everything enabled is selected, otherwise select every enabled option and list item. */
    method ToggleSelectAllOptions() returns (events: seq<SelectEvent>)
      modifies this
      ensures selected == ToggleSelectAll(old(Options()), old(list), old(selected))
      ensures registry == old(registry) && list == old(list) && modelValue == old(modelValue)
      ensures activeOptionValue == old(activeOptionValue) && customOptionName == old(customOptionName)
      ensures events == ChangeEvents(Array(Values(selected)), modelValue)
    {
      var opts := Options();
      if IsAllSelected(opts, selected) {
        selected := [];
      } else {
        var acc: seq<Entry> := [];
        var i := 0;
        while i < |opts|
          invariant 0 <= i <= |opts|
          invariant AddOptions(acc, opts[i..]) == AddOptions([], opts)
        {
          assert opts[i..][1..] == opts[i + 1..];
          ghost var prev := acc;
          if !opts[i].disabled && opts[i].id !in Values(acc) {
            acc := acc + [Entry(opts[i].id, OptionLabel(opts[i]))];
          }
          assert acc == if opts[i].disabled then prev else AddEntry(prev, opts[i].id, OptionLabel(opts[i]));
          assert AddOptions(prev, opts[i..]) == AddOptions(acc, opts[i + 1..]);
          i := i + 1;
        }
        assert opts[i..] == [];
        var j := 0;
        while j < |list|
          invariant 0 <= j <= |list|
          invariant AddListItems(acc, list[j..]) == SelectAllEntries(opts, list)
        {
          assert list[j..][1..] == list[j + 1..];
          ghost var prev := acc;
          if !list[j].disabled && list[j].id !in Values(acc) {
            acc := acc + [Entry(list[j].id, list[j].display)];
          }
          assert acc == if list[j].disabled then prev else AddEntry(prev, list[j].id, list[j].display);
          assert AddListItems(prev, list[j..]) == AddListItems(acc, list[j + 1..]);
          j := j + 1;
        }
        assert list[j..] == [];
        selected := acc;
      }
      events := ChangeEvents(Array(Values(selected)), modelValue);
    }

    /** `toggleAll`: with the all-option shown, the selection flips between the single all-entry and nothing. */
    method ToggleAll() returns (events: seq<SelectEvent>)
      modifies this
      ensures registry == old(registry) && list == old(list) && modelValue == old(modelValue)
      ensures activeOptionValue == old(activeOptionValue) && customOptionName == old(customOptionName)
      ensures !(multiple && showAll) ==> selected == old(selected) && events == []
      ensures multiple && showAll ==>
        selected == (if allOptionId in Values(old(selected)) then [] else [Entry(allOptionId, Str(allText))]) &&
        events == ChangeEvents(Array(Values(selected)), modelValue)
    {
      if !(multiple && showAll) {
        return [];
      }
      var index := IndexOfValue(Values(selected), allOptionId);
      if index > -1 {
        selected := [];
      } else {
        selected := [Entry(allOptionId, Str(allText))];
      }
      events := ChangeEvents(Array(Values(selected)), modelValue);
    }

    /** `handleDeleteTag(val)`: the first entry holding `val` goes. */
    method HandleDeleteTag(val: Value) returns (events: seq<SelectEvent>)
      modifies this
      ensures registry == old(registry) && list == old(list) && modelValue == old(modelValue)
      ensures activeOptionValue == old(activeOptionValue) && customOptionName == old(customOptionName)
      ensures isDisabled || val !in Values(old(selected)) ==> selected == old(selected) && events == []
      ensures !isDisabled && val in Values(old(selected)) ==>
        selected == RemoveFirst(old(selected), val) &&
        events == ChangeEvents(Array(Values(selected)), modelValue) + [TagRemove(val)]
    {
      if isDisabled {
        return [];
      }
      var index := IndexOfValue(Values(selected), val);
      if index > -1 {
        selected := selected[..index] + selected[index + 1..];
        events := ChangeEvents(Array(Values(selected)), modelValue) + [TagRemove(val)];
      } else {
        events := [];
      }
    }

    /** The Backspace guard: only a multi-select with a selection, no typed text and focus outside the search box pops. */
    function BackspacePops(targetIsSearch: bool): (r: bool)
      reads this
      ensures r ==> multiple && |selected| > 0
      ensures r <==> multiple && |selected| > 0 && customOptionName == "" && !targetIsSearch
    {
      !(!multiple || |selected| == 0 || |customOptionName| > 0 || targetIsSearch)
    }

    /**
     * `handleDocumentKeydown`: arrows move the highlight over the reachable options,
     * Backspace drops the last entry, Enter chooses the highlighted option.
     */
    method HandleKeydown(key: Key, popoverShown: bool, virtualRendering: bool, targetIsSearch: bool, targetValue: string)
      returns (events: seq<SelectEvent>)
      requires Valid()
      modifies this
      ensures Valid()
      ensures registry == old(registry) && list == old(list) && modelValue == old(modelValue)
      ensures !popoverShown || virtualRendering || key == OtherKey ==>
        selected == old(selected) && activeOptionValue == old(activeOptionValue) &&
        customOptionName == old(customOptionName) && events == []
      ensures popoverShown && !virtualRendering && (key == ArrowUp || key == ArrowDown) ==>
        activeOptionValue == NextActive(AvailableOptions(old(Options())), old(activeOptionValue), key == ArrowDown) &&
        selected == old(selected) && customOptionName == old(customOptionName) && events == []
      ensures popoverShown && !virtualRendering && key == Backspace ==>
        activeOptionValue == old(activeOptionValue) && customOptionName == old(customOptionName) &&
        if old(BackspacePops(targetIsSearch)) then
          selected == old(selected)[..|old(selected)| - 1] && events == ChangeEvents(Array(Values(selected)), modelValue)
        else
          selected == old(selected) && events == []
      ensures popoverShown && !virtualRendering && key == Enter ==>
        activeOptionValue == old(activeOptionValue) &&
        if (allowCreate && targetValue != "") || targetIsSearch || isDisabled
           || Lookup(old(registry), old(activeOptionValue)).None? then
          selected == old(selected) && customOptionName == old(customOptionName) && events == []
        else
          var o := Lookup(old(registry), old(activeOptionValue)).value;
          selected == ChooseOption(old(selected), o, multiple, allOptionId) &&
          customOptionName == (if !multiple && filterable && allowCreate then "" else old(customOptionName)) &&
          events == ChoiceEvents(old(selected), o, multiple, allOptionId, modelValue)
    {
      if !popoverShown || virtualRendering {
        return [];
      }
      match key
      case ArrowUp =>
        activeOptionValue := NextActive(AvailableOptions(Options()), activeOptionValue, false);
        events := [];
      case ArrowDown =>
        activeOptionValue := NextActive(AvailableOptions(Options()), activeOptionValue, true);
        events := [];
      case Backspace =>
        if !BackspacePops(targetIsSearch) {
          return [];
        }
        selected := selected[..|selected| - 1];
        events := ChangeEvents(Array(Values(selected)), modelValue);
      case Enter =>
        if (allowCreate && targetValue != "") || targetIsSearch {
          return [];
        }
        events := HandleOptionSelected(Lookup(registry, activeOptionValue));
      case OtherKey =>
        events := [];
    }

    /** `initActiveOptionValue` */
    method InitActiveOptionValue()
      modifies this
      ensures activeOptionValue == InitialActive(registry, Options(), selected)
      ensures registry == old(registry) && list == old(list) && modelValue == old(modelValue)
      ensures selected == old(selected) && customOptionName == old(customOptionName)
    {
      activeOptionValue := InitialActive(registry, Options(), selected);
    }

    /** `handleDefaultOptionSearch(term)`: each option's `visible` flag becomes whether the term matches it. */
    method HandleDefaultOptionSearch(term: string)
      requires Valid()
      modifies this
      ensures Valid()
      ensures !filterable ==> registry == old(registry)
      ensures filterable ==>
        |registry| == |old(registry)| &&
        (forall i :: 0 <= i < |registry| ==>
          registry[i] == old(registry)[i].(visible := SearchVisibility(search, term, old(registry)[i])))
      ensures list == old(list) && modelValue == old(modelValue) && selected == old(selected)
      ensures activeOptionValue == old(activeOptionValue) && customOptionName == old(customOptionName)
    {
      if !filterable {
        return;
      }
      var i := 0;
      while i < |registry|
        invariant 0 <= i <= |registry| && |registry| == |old(registry)|
        invariant forall k :: 0 <= k < i ==>
          registry[k] == old(registry)[k].(visible := SearchVisibility(search, term, old(registry)[k]))
        invariant forall k :: i <= k < |registry| ==> registry[k] == old(registry)[k]
        invariant list == old(list) && modelValue == old(modelValue) && selected == old(selected)
        invariant activeOptionValue == old(activeOptionValue) && customOptionName == old(customOptionName)
      {
        var o := registry[i];
        var shown := if term == "" then true else MatchesSearch(search, term, o.name, o.id);
        registry := registry[i := o.(visible := shown)];
        i := i + 1;
      }
      assert Ids(registry) == Ids(old(registry));
    }

    /** The parent writes the bound value: the `modelValue` watcher resynchronises the selection. */
    method SetModelValue(mv: ModelValue)
      modifies this
      ensures modelValue == mv
      ensures selected == Resync(mv, registry, list, old(selected), allowEmptyValues)
      ensures registry == old(registry) && list == old(list)
      ensures activeOptionValue == old(activeOptionValue) && customOptionName == old(customOptionName)
    {
      modelValue := mv;
      selected := Resync(mv, registry, list, selected, allowEmptyValues);
    }

    /** Options registering or leaving, or a new `list` prop: the `[optionsMap, list]` watcher resynchronises. */
    method SetOptions(reg: seq<OptionRec>, items: seq<ListItem>)
      requires DistinctIds(reg)
      modifies this
      ensures Valid()
      ensures registry == reg && list == items && modelValue == old(modelValue)
      ensures selected == Resync(modelValue, reg, items, old(selected), allowEmptyValues)
      ensures activeOptionValue == old(activeOptionValue) && customOptionName == old(customOptionName)
    {
      registry := reg;
      list := items;
      selected := Resync(modelValue, registry, list, selected, allowEmptyValues);
    }
  }
}
