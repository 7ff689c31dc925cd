/**
 * The selection model of the select widget (packages/select/src/select.tsx):
 * the ordered `selected` entries and how each user action and each change of
 * the bound value rewrites them, as functions on values. The widget class in
 * select_widget.dfy applies them to its state.
 */
module SelectSelection {
  import opened Wrappers
  import opened JsValue
  import opened SelectOptions

  /** An entry of `selected`. */
  datatype Entry = Entry(value: Value, caption: Value)

  /** The bound `modelValue`: one value, or an array of them in multi-select mode. */
  datatype ModelValue = Scalar(v: Value) | Array(vs: seq<Value>)

  /** What a handler emits (`update:modelValue`, `change`, `select`, `deselect`, `tag-remove`, `clear`) or asks of the popover. */
  datatype SelectEvent =
    | UpdateModelValue(value: ModelValue, previous: ModelValue)
    | Change(value: ModelValue, previous: ModelValue)
    | SelectOption(id: Value)
    | DeselectOption(id: Value)
    | TagRemove(tag: Value)
    | Clear(cleared: ModelValue)
    | HidePopover

  /** `selected.map(item => item.value)` */
  function Values(sel: seq<Entry>): (r: seq<Value>)
    ensures |r| == |sel| && forall i :: 0 <= i < |sel| ==> r[i] == sel[i].value
  {
    seq(|sel|, i requires 0 <= i < |sel| => sel[i].value)
  }

  /** `option.optionName || option.optionID` */
  function OptionLabel(o: OptionRec): Value
  {
    Or(Str(o.name), o.id)
  }

  // ---------------------------------------------------------------------------
  // Removing one entry

  /** `findIndex(item => item.value === v)` followed by `splice(index, 1)` when found. */
  function RemoveFirst(sel: seq<Entry>, v: Value): (r: seq<Entry>)
    ensures v !in Values(sel) ==> r == sel
    ensures v in Values(sel) ==>
      exists k :: 0 <= k < |sel| && sel[k].value == v && (forall j :: 0 <= j < k ==> sel[j].value != v)
        && r == sel[..k] + sel[k + 1..]
  {
    var k := IndexOfValue(Values(sel), v);
    if k > -1 then sel[..k] + sel[k + 1..] else sel
  }

  /** The entries whose value is not in `drop`, in their order. */
  function Keep(s: seq<Entry>, drop: set<Value>): seq<Entry>
  {
    if s == [] then []
    else (if s[0].value in drop then [] else [s[0]]) + Keep(s[1..], drop)
  }

  lemma {:induction false} KeepConcat(a: seq<Entry>, b: seq<Entry>, drop: set<Value>)
    ensures Keep(a + b, drop) == Keep(a, drop) + Keep(b, drop)
  {
    if a != [] {
      assert (a + b)[0] == a[0] && (a + b)[1..] == a[1..] + b;
      KeepConcat(a[1..], b, drop);
    } else {
      assert a + b == b;
    }
  }

  /** Removing an entry whose value is dropped anyway leaves the kept entries as they were. */
  lemma RemoveFirstKeep(sel: seq<Entry>, v: Value, drop: set<Value>)
    requires v in drop
    ensures Keep(RemoveFirst(sel, v), drop) == Keep(sel, drop)
  {
    var k := IndexOfValue(Values(sel), v);
    if k > -1 {
      KeepSplit(sel, k, drop);
    }
  }

  /** Cutting out an entry whose value is dropped does not change what is kept. */
  lemma KeepSplit(sel: seq<Entry>, k: int, drop: set<Value>)
    requires 0 <= k < |sel| && sel[k].value in drop
    ensures Keep(sel[..k] + sel[k + 1..], drop) == Keep(sel, drop)
  {
    assert sel == sel[..k] + sel[k..];
    KeepConcat(sel[..k], sel[k..], drop);
    assert sel[k..][1..] == sel[k + 1..];
    KeepConcat(sel[..k], sel[k + 1..], drop);
  }

  /** Deleting position `k` of a duplicate-free sequence keeps it duplicate-free and loses exactly `vs[k]`. */
  lemma RemoveAtValues(vs: seq<Value>, k: nat)
    requires NoDup(vs) && k < |vs|
    ensures NoDup(vs[..k] + vs[k + 1..])
    ensures forall w :: w in vs[..k] + vs[k + 1..] <==> w in vs && w != vs[k]
  {
    var r := vs[..k] + vs[k + 1..];
    assert forall i :: 0 <= i < k ==> r[i] == vs[i];
    assert forall i :: k <= i < |r| ==> r[i] == vs[i + 1];
    forall w | w in vs && w != vs[k] ensures w in r {
      var i :| 0 <= i < |vs| && vs[i] == w;
      if i < k { assert r[i] == w; } else { assert r[i - 1] == w; }
    }
  }

  lemma ValuesRemoveAt(sel: seq<Entry>, k: nat)
    requires k < |sel|
    ensures Values(sel[..k] + sel[k + 1..]) == Values(sel)[..k] + Values(sel)[k + 1..]
  {
  }

  /** Removing the first entry holding `v` keeps the other values distinct and drops `v`. */
  lemma RemoveFirstValues(sel: seq<Entry>, v: Value)
    requires NoDup(Values(sel))
    ensures NoDup(Values(RemoveFirst(sel, v)))
    ensures forall w :: w in Values(RemoveFirst(sel, v)) <==> w in Values(sel) && w != v
  {
    var k := IndexOfValue(Values(sel), v);
    if k > -1 {
      ValuesRemoveAt(sel, k);
      RemoveAtValues(Values(sel), k);
    }
  }

  // ---------------------------------------------------------------------------
  // Choosing an option

  /** The multi-select branch: remove the option's entry when present, otherwise append it. */
  function Toggle(sel: seq<Entry>, o: OptionRec): seq<Entry>
  {
    if IndexOfValue(Values(sel), o.id) > -1 then RemoveFirst(sel, o.id)
    else sel + [Entry(o.id, OptionLabel(o))]
  }

  /** What `handleOptionSelected(option)` leaves in `selected` for an enabled widget. */
  function ChooseOption(sel: seq<Entry>, o: OptionRec, multiple: bool, allId: Value): (r: seq<Entry>)
    ensures !multiple ==> |r| == 1 && r[0].value == o.id && r[0].caption == OptionLabel(o)
    ensures multiple && o.id !in Values(RemoveFirst(sel, allId)) ==>
      r == RemoveFirst(sel, allId) + [Entry(o.id, OptionLabel(o))]
  {
    var s := RemoveFirst(sel, allId);
    if multiple then Toggle(s, o) else [Entry(o.id, OptionLabel(o))]
  }

  /**
   * Multi-select choice on a duplicate-free selection: the "all" entry goes, the
   * chosen id flips membership, every other value stays selected or unselected.
   */
  lemma ChooseMultipleMembership(sel: seq<Entry>, o: OptionRec, allId: Value)
    requires NoDup(Values(sel))
    ensures NoDup(Values(ChooseOption(sel, o, true, allId)))
    ensures o.id in Values(ChooseOption(sel, o, true, allId)) <==> o.id == allId || o.id !in Values(sel)
    ensures forall v :: v != o.id ==>
      (v in Values(ChooseOption(sel, o, true, allId)) <==> v in Values(sel) && v != allId)
  {
    var s := RemoveFirst(sel, allId);
    RemoveFirstValues(sel, allId);
    var r := ChooseOption(sel, o, true, allId);
    assert r == Toggle(s, o);
    if o.id in Values(s) {
      assert r == RemoveFirst(s, o.id);
      RemoveFirstValues(s, o.id);
    } else {
      var e := Entry(o.id, OptionLabel(o));
      assert r == s + [e];
      assert Values(r) == Values(s) + [o.id];
      NoDupSnoc(Values(s), o.id);
    }
  }

  /** Appending a value not yet present keeps a sequence duplicate-free. */
  lemma NoDupSnoc(vs: seq<Value>, v: Value)
    requires NoDup(vs) && v !in vs
    ensures NoDup(vs + [v]) && forall w :: w in vs + [v] <==> w in vs || w == v
  {
    var r := vs + [v];
    forall i, j | 0 <= i < j < |r| ensures r[i] != r[j] {
      assert r[i] == vs[i];
      if j < |vs| { assert r[j] == vs[j]; }
    }
  }

  /** Multi-select choice keeps every entry with another value, in its relative order. */
  lemma ChooseMultipleKeepsOthers(sel: seq<Entry>, o: OptionRec, allId: Value)
    ensures Keep(ChooseOption(sel, o, true, allId), {o.id, allId}) == Keep(sel, {o.id, allId})
  {
    var drop := {o.id, allId};
    var s := RemoveFirst(sel, allId);
    RemoveFirstKeep(sel, allId, drop);
    if o.id in Values(s) {
      RemoveFirstKeep(s, o.id, drop);
    } else {
      KeepConcat(s, [Entry(o.id, OptionLabel(o))], drop);
    }
  }

  // ---------------------------------------------------------------------------
  // Select all

  /** `isAllSelected`: at least as many entries as enabled options, and every enabled option id selected. */
  predicate IsAllSelected(opts: seq<OptionRec>, sel: seq<Entry>)
  {
    |EnabledIds(opts)| <= |sel| && forall v :: v in EnabledIds(opts) ==> v in Values(sel)
  }

  /** `if (tmpSelectedMap.has(v)) return; tmpSelectedMap.set(v, label)`, the map kept as its entries in insertion order. */
  function AddEntry(acc: seq<Entry>, v: Value, cap: Value): seq<Entry>
  {
    if v in Values(acc) then acc else acc + [Entry(v, cap)]
  }

  /** The first `forEach` of `toggleSelectAll`, over the options. */
  function AddOptions(acc: seq<Entry>, opts: seq<OptionRec>): seq<Entry>
    decreases opts
  {
    if opts == [] then acc
    else AddOptions(if opts[0].disabled then acc else AddEntry(acc, opts[0].id, OptionLabel(opts[0])), opts[1..])
  }

  /** The second `forEach` of `toggleSelectAll`, over the `list` prop. */
  function AddListItems(acc: seq<Entry>, items: seq<ListItem>): seq<Entry>
    decreases items
  {
    if items == [] then acc
    else AddListItems(if items[0].disabled then acc else AddEntry(acc, items[0].id, items[0].display), items[1..])
  }

  /** The ids of the list items that are not disabled. */
  function EnabledListIds(items: seq<ListItem>): (r: seq<Value>)
    ensures forall v :: v in r <==> exists x :: x in items && !x.disabled && x.id == v
  {
    if items == [] then []
    else
      assert items == [items[0]] + items[1..];
      (if items[0].disabled then [] else [items[0].id]) + EnabledListIds(items[1..])
  }

  /** The selection `toggleSelectAll` builds when not everything is selected yet. */
  function SelectAllEntries(opts: seq<OptionRec>, items: seq<ListItem>): seq<Entry>
  {
    AddListItems(AddOptions([], opts), items)
  }

  /** What `toggleSelectAll` leaves in `selected`. */
  function ToggleSelectAll(opts: seq<OptionRec>, items: seq<ListItem>, sel: seq<Entry>): seq<Entry>
  {
    if IsAllSelected(opts, sel) then [] else SelectAllEntries(opts, items)
  }

  lemma AddEntryValues(acc: seq<Entry>, v: Value, cap: Value)
    requires NoDup(Values(acc))
    ensures NoDup(Values(AddEntry(acc, v, cap)))
    ensures forall w :: w in Values(AddEntry(acc, v, cap)) <==> w in Values(acc) || w == v
    ensures Values(AddEntry(acc, v, cap)) == Values(acc) + (if v in Values(acc) then [] else [v])
  {
    if v !in Values(acc) {
      assert Values(acc + [Entry(v, cap)]) == Values(acc) + [v];
    }
  }

  lemma {:induction false} AddOptionsValues(acc: seq<Entry>, opts: seq<OptionRec>)
    requires NoDup(Values(acc))
    decreases opts
    ensures |acc| <= |AddOptions(acc, opts)| <= |acc| + |opts|
    ensures NoDup(Values(AddOptions(acc, opts)))
    ensures forall w :: w in Values(AddOptions(acc, opts)) <==> w in Values(acc) || w in EnabledIds(opts)
    ensures Values(AddOptions(acc, opts))[..|Values(acc)|] == Values(acc)
  {
    if opts != [] {
      var next := if opts[0].disabled then acc else AddEntry(acc, opts[0].id, OptionLabel(opts[0]));
      assert AddOptions(acc, opts) == AddOptions(next, opts[1..]);
      assert EnabledIds(opts) == (if opts[0].disabled then [] else [opts[0].id]) + EnabledIds(opts[1..]);
      if !opts[0].disabled { AddEntryValues(acc, opts[0].id, OptionLabel(opts[0])); }
      AddOptionsValues(next, opts[1..]);
      assert Values(next)[..|Values(acc)|] == Values(acc);
      PrefixTrans(Values(AddOptions(next, opts[1..])), Values(next), Values(acc));
    }
  }

  /** A prefix of a prefix is a prefix. */
  lemma PrefixTrans(r: seq<Value>, m: seq<Value>, a: seq<Value>)
    requires |a| <= |m| <= |r| && r[..|m|] == m && m[..|a|] == a
    ensures r[..|a|] == a
  {
    assert forall i :: 0 <= i < |a| ==> r[i] == m[i] == a[i];
  }

  lemma {:induction false} AddListItemsValues(acc: seq<Entry>, items: seq<ListItem>)
    requires NoDup(Values(acc))
    decreases items
    ensures |acc| <= |AddListItems(acc, items)|
    ensures NoDup(Values(AddListItems(acc, items)))
    ensures forall w :: w in Values(AddListItems(acc, items)) <==> w in Values(acc) || w in EnabledListIds(items)
    ensures Values(AddListItems(acc, items))[..|Values(acc)|] == Values(acc)
  {
    if items != [] {
      var next := if items[0].disabled then acc else AddEntry(acc, items[0].id, items[0].display);
      assert AddListItems(acc, items) == AddListItems(next, items[1..]);
      assert EnabledListIds(items) == (if items[0].disabled then [] else [items[0].id]) + EnabledListIds(items[1..]);
      if !items[0].disabled { AddEntryValues(acc, items[0].id, items[0].display); }
      AddListItemsValues(next, items[1..]);
      assert Values(next)[..|Values(acc)|] == Values(acc);
      PrefixTrans(Values(AddListItems(next, items[1..])), Values(next), Values(acc));
    }
  }

  /** With distinct option ids, the option pass yields exactly the enabled ids, in option order. */
  lemma {:induction false} AddOptionsExact(acc: seq<Entry>, opts: seq<OptionRec>)
    requires DistinctIds(opts)
    requires forall i :: 0 <= i < |opts| ==> opts[i].id !in Values(acc)
    decreases opts
    ensures Values(AddOptions(acc, opts)) == Values(acc) + EnabledIds(opts)
  {
    if opts != [] {
      var rest := opts[1..];
      assert EnabledIds(opts) == (if !opts[0].disabled then [opts[0].id] else []) + EnabledIds(rest);
      if opts[0].disabled {
        assert forall i :: 0 <= i < |rest| ==> rest[i] == opts[i + 1];
        DistinctTail(opts);
        AddOptionsExact(acc, rest);
      } else {
        var next := PushFresh(acc, opts);
        AddOptionsExact(next, rest);
        ConcatAssoc(Values(acc), [opts[0].id], EnabledIds(rest));
      }
    }
  }

  lemma ConcatAssoc(a: seq<Value>, b: seq<Value>, c: seq<Value>)
    ensures a + b + c == a + (b + c)
  {
  }

  /** One enabled option with a fresh id: it is appended, and the ids after it are still fresh. */
  lemma PushFresh(acc: seq<Entry>, opts: seq<OptionRec>) returns (next: seq<Entry>)
    requires opts != [] && !opts[0].disabled && DistinctIds(opts)
    requires forall i :: 0 <= i < |opts| ==> opts[i].id !in Values(acc)
    ensures AddOptions(acc, opts) == AddOptions(next, opts[1..])
    ensures Values(next) == Values(acc) + [opts[0].id]
    ensures DistinctIds(opts[1..]) && forall i :: 0 <= i < |opts[1..]| ==> opts[1..][i].id !in Values(next)
  {
    next := acc + [Entry(opts[0].id, OptionLabel(opts[0]))];
    assert Values(next) == Values(acc) + [opts[0].id];
    assert forall i :: 0 <= i < |opts[1..]| ==> opts[1..][i] == opts[i + 1];
  }

  /**
   * Select-all takes every enabled option id and then every enabled list id, each
   * once; the option ids come first and in option order.
   */
  lemma SelectAllContents(opts: seq<OptionRec>, items: seq<ListItem>)
    requires DistinctIds(opts)
    ensures |EnabledIds(opts)| <= |SelectAllEntries(opts, items)|
    ensures NoDup(Values(SelectAllEntries(opts, items)))
    ensures forall w :: w in Values(SelectAllEntries(opts, items)) <==> w in EnabledIds(opts) || w in EnabledListIds(items)
    ensures Values(SelectAllEntries(opts, items))[..|EnabledIds(opts)|] == EnabledIds(opts)
  {
    assert Values([]) == [];
    AddOptionsValues([], opts);
    AddOptionsExact([], opts);
    AddListItemsValues(AddOptions([], opts), items);
  }

  /** After select-all, `isAllSelected` holds. */
  lemma SelectAllIsAllSelected(opts: seq<OptionRec>, items: seq<ListItem>)
    requires DistinctIds(opts)
    ensures IsAllSelected(opts, SelectAllEntries(opts, items))
  {
    SelectAllContents(opts, items);
  }

  /** Select-all pressed twice on an empty selection leaves it empty. */
  lemma ToggleSelectAllTwiceFromEmpty(opts: seq<OptionRec>, items: seq<ListItem>)
    requires DistinctIds(opts)
    ensures ToggleSelectAll(opts, items, ToggleSelectAll(opts, items, [])) == []
  {
    if !IsAllSelected(opts, []) {
      SelectAllIsAllSelected(opts, items);
    }
  }

  /** A partial selection is not restored by pressing select-all twice: the second press clears everything. */
  lemma ToggleSelectAllTwiceLosesPartial()
    ensures var opts := [OptionRec(Num(1), "a", 0, false, true), OptionRec(Num(2), "b", 1, false, true)];
            var sel := [Entry(Num(1), Str("a"))];
            ToggleSelectAll(opts, [], ToggleSelectAll(opts, [], sel)) == []
  {
    var opts := [OptionRec(Num(1), "a", 0, false, true), OptionRec(Num(2), "b", 1, false, true)];
    assert EnabledIds(opts) == [Num(1), Num(2)];
    var sel := [Entry(Num(1), Str("a"))];
    assert !IsAllSelected(opts, sel);
    SelectAllIsAllSelected(opts, []);
  }

  // ---------------------------------------------------------------------------
  // Keyboard navigation

  /** The index arithmetic of the ArrowDown (`down`) and ArrowUp cases over `n` reachable options. */
  function ArrowIndex(index: int, n: nat, down: bool): int
  {
    if down then (if index >= n - 1 then 0 else index + 1)
    else (if index == 0 then n - 1 else index - 1)
  }

  /** From a highlighted option, both keys stay in range and wrap around cyclically. */
  lemma ArrowIndexIsCyclic(index: int, n: nat, down: bool)
    requires 0 <= index < n
    ensures 0 <= ArrowIndex(index, n, down) < n
    ensures ArrowIndex(index, n, down) == (index + (if down then 1 else n - 1)) % n
  {
    ModOnce(index + (if down then 1 else n - 1), n);
  }

  /** Below twice the modulus, taking the remainder subtracts it at most once. */
  lemma ModOnce(x: int, n: int)
    requires 0 < n && 0 <= x < 2 * n
    ensures x % n == if x < n then x else x - n
  {
  }

  /** ArrowUp undoes ArrowDown and ArrowDown undoes ArrowUp. */
  lemma ArrowKeysInverse(index: int, n: nat)
    requires 0 <= index < n
    ensures ArrowIndex(ArrowIndex(index, n, true), n, false) == index
    ensures ArrowIndex(ArrowIndex(index, n, false), n, true) == index
  {
  }

  /** The active option id after an arrow key, `avail` being the reachable options in display order. */
  function NextActive(avail: seq<OptionRec>, active: Value, down: bool): (r: Value)
    ensures r == Undefined || r in Ids(avail)
    ensures active in Ids(avail) ==>
      r == avail[(IndexOfValue(Ids(avail), active) + (if down then 1 else |avail| - 1)) % |avail|].id
    ensures active !in Ids(avail) && down && |avail| > 0 ==> r == avail[0].id
    ensures active !in Ids(avail) && !down ==> r == Undefined
  {
    var index := IndexOfValue(Ids(avail), active);
    var ai := ArrowIndex(index, |avail|, down);
    assert index >= 0 ==> 0 <= ai < |avail| && ai == (index + (if down then 1 else |avail| - 1)) % |avail| by {
      if index >= 0 { ArrowIndexIsCyclic(index, |avail|, down); }
    }
    assert (active in Ids(avail)) == (index >= 0);
    if 0 <= ai < |avail| then avail[ai].id else Undefined
  }

  /** Arrow keys only ever highlight an option that is neither disabled nor hidden. */
  lemma ArrowKeysStayAvailable(opts: seq<OptionRec>, active: Value, down: bool)
    ensures var r := NextActive(AvailableOptions(opts), active, down);
            r == Undefined || exists o :: o in opts && Available(o) && o.id == r
  {
    var avail := AvailableOptions(opts);
    var r := NextActive(avail, active, down);
    if r != Undefined {
      var k :| 0 <= k < |avail| && Ids(avail)[k] == r;
      assert avail[k] in avail;
    }
  }

  /** `opts[k]` is the first option neither disabled nor hidden. */
  ghost predicate FirstAvailableAt(opts: seq<OptionRec>, k: int)
  {
    0 <= k < |opts| && Available(opts[k]) && forall j :: 0 <= j < k ==> !Available(opts[j])
  }

  /** `options.find(option => !option.disabled && option.visible)?.optionID` */
  function FirstAvailableId(opts: seq<OptionRec>): (r: Value)
    ensures (forall o :: o in opts ==> !Available(o)) ==> r == Undefined
    ensures (exists o :: o in opts && Available(o)) ==> exists k :: FirstAvailableAt(opts, k) && r == opts[k].id
  {
    if opts == [] then Undefined
    else if Available(opts[0]) then
      assert FirstAvailableAt(opts, 0);
      opts[0].id
    else
      var r := FirstAvailableId(opts[1..]);
      FirstAvailableShift(opts, r);
      r
  }

  /** A first reachable option of the tail, behind an unreachable head, is the first reachable option of the whole. */
  lemma FirstAvailableShift(opts: seq<OptionRec>, r: Value)
    requires |opts| > 0 && !Available(opts[0])
    requires (forall o :: o in opts[1..] ==> !Available(o)) ==> r == Undefined
    requires (exists o :: o in opts[1..] && Available(o)) ==> exists k :: FirstAvailableAt(opts[1..], k) && r == opts[1..][k].id
    ensures (forall o :: o in opts ==> !Available(o)) ==> r == Undefined
    ensures (exists o :: o in opts && Available(o)) ==> exists k :: FirstAvailableAt(opts, k) && r == opts[k].id
  {
    assert opts == [opts[0]] + opts[1..];
    if exists o :: o in opts && Available(o) {
      var o :| o in opts && Available(o);
      assert o in opts[1..];
      var k :| FirstAvailableAt(opts[1..], k) && r == opts[1..][k].id;
      forall j | 0 <= j < k + 1 ensures !Available(opts[j]) {
        if j > 0 { assert opts[j] == opts[1..][j - 1]; }
      }
      assert FirstAvailableAt(opts, k + 1);
    }
  }

  /**
   * `initActiveOptionValue`: the first selected value if its option is reachable,
   * else the first reachable option in `options` order.
   */
  function InitialActive(reg: seq<OptionRec>, opts: seq<OptionRec>, sel: seq<Entry>): (r: Value)
    requires forall o :: o in opts <==> o in reg
    ensures r == Undefined || exists o :: o in reg && Available(o) && o.id == r
    ensures |sel| > 0 && Lookup(reg, sel[0].value).Some? && Available(Lookup(reg, sel[0].value).value) ==>
      r == sel[0].value
    ensures var first := if |sel| > 0 then sel[0].value else Undefined;
      !(Lookup(reg, first).Some? && Available(Lookup(reg, first).value)) ==> r == FirstAvailableId(opts)
    ensures (forall o :: o in reg ==> !Available(o)) ==> r == Undefined
  {
    var first := if |sel| > 0 then sel[0].value else Undefined;
    var option := Lookup(reg, first);
    if option.Some? && Available(option.value) then first
    else
      var r := FirstAvailableId(opts);
      assert (exists o :: o in opts && Available(o)) ==>
        exists k :: FirstAvailableAt(opts, k) && opts[k] in opts && r == opts[k].id;
      r
  }

  // ---------------------------------------------------------------------------
  // Labels and resynchronisation

  /** `optionsMap.get(v)?.optionName` */
  function RegisteredName(reg: seq<OptionRec>, v: Value): Value
  {
    match Lookup(reg, v)
    case Some(o) => Str(o.name)
    case None => Undefined
  }

  /** `listMap[v]`: a plain object filled from `list`, so the last item whose id has the key `String(v)` wins. */
  function ListLabel(items: seq<ListItem>, v: Value): Value
  {
    if items == [] then Undefined
    else if ToJsString(items[|items| - 1].id) == ToJsString(v) then items[|items| - 1].display
    else ListLabel(items[..|items| - 1], v)
  }

  /** `selectedMap[v]`: filled from `selected` the same way. */
  function SelectedLabel(sel: seq<Entry>, v: Value): Value
  {
    if sel == [] then Undefined
    else if ToJsString(sel[|sel| - 1].value) == ToJsString(v) then sel[|sel| - 1].caption
    else SelectedLabel(sel[..|sel| - 1], v)
  }

  /** `handleGetLabelByValue(v)`: option name, then list label, then previous label, then the value itself. */
  function LabelByValue(reg: seq<OptionRec>, items: seq<ListItem>, sel: seq<Entry>, v: Value): (r: Value)
    ensures Truthy(RegisteredName(reg, v)) ==> r == RegisteredName(reg, v)
    ensures !Truthy(RegisteredName(reg, v)) && Truthy(ListLabel(items, v)) ==> r == ListLabel(items, v)
    ensures !Truthy(RegisteredName(reg, v)) && !Truthy(ListLabel(items, v)) && Truthy(SelectedLabel(sel, v)) ==>
      r == SelectedLabel(sel, v)
    ensures Truthy(r) || r == v
  {
    Or(RegisteredName(reg, v), Or(ListLabel(items, v), Or(SelectedLabel(sel, v), v)))
  }

  /** The values a bound value stands for. */
  function ModelValues(mv: ModelValue): seq<Value>
  {
    match mv
    case Array(vs) => vs
    case Scalar(v) => [v]
  }

  /** `handleSetSelectedData`: the selection rebuilt from the bound value. */
  function Resync(mv: ModelValue, reg: seq<OptionRec>, items: seq<ListItem>, sel: seq<Entry>, allowEmpty: seq<Value>): (r: seq<Entry>)
    ensures mv.Array? ==> Values(r) == mv.vs
    ensures mv.Scalar? ==> Values(r) == if Truthy(mv.v) || mv.v in allowEmpty then [mv.v] else []
    ensures forall i :: 0 <= i < |r| ==> r[i].caption == LabelByValue(reg, items, sel, r[i].value)
  {
    match mv
    case Array(vs) => seq(|vs|, i requires 0 <= i < |vs| => Entry(vs[i], LabelByValue(reg, items, sel, vs[i])))
    case Scalar(v) =>
      if Truthy(v) || v in allowEmpty then [Entry(v, LabelByValue(reg, items, sel, v))] else []
  }

  /** No two different values of the bound value share an object key (`1` and `"1"` would). */
  ghost predicate KeysDistinguish(mv: ModelValue)
  {
    var vs := ModelValues(mv);
    forall i, j :: 0 <= i < |vs| && 0 <= j < |vs| && ToJsString(vs[i]) == ToJsString(vs[j]) ==> vs[i] == vs[j]
  }

  /** When every entry filed under the key of `v` carries label `l`, and some entry is, `selectedMap[v]` is `l`. */
  lemma {:induction false} SelectedLabelUniform(sel: seq<Entry>, v: Value, l: Value)
    requires exists i :: 0 <= i < |sel| && ToJsString(sel[i].value) == ToJsString(v)
    requires forall i :: 0 <= i < |sel| && ToJsString(sel[i].value) == ToJsString(v) ==> sel[i].caption == l
    ensures SelectedLabel(sel, v) == l
  {
    var last := |sel| - 1;
    if ToJsString(sel[last].value) != ToJsString(v) {
      var i :| 0 <= i < |sel| && ToJsString(sel[i].value) == ToJsString(v);
      assert sel[..last][i] == sel[i];
      SelectedLabelUniform(sel[..last], v, l);
    }
  }

  /** Resynchronising twice from the same bound value gives the same selection as once. */
  lemma ResyncIdempotent(mv: ModelValue, reg: seq<OptionRec>, items: seq<ListItem>, sel: seq<Entry>, allowEmpty: seq<Value>)
    requires KeysDistinguish(mv)
    ensures var once := Resync(mv, reg, items, sel, allowEmpty);
            Resync(mv, reg, items, once, allowEmpty) == once
  {
    var once := Resync(mv, reg, items, sel, allowEmpty);
    var twice := Resync(mv, reg, items, once, allowEmpty);
    assert Values(twice) == Values(once);
    forall k | 0 <= k < |once| ensures twice[k] == once[k] {
      var v := once[k].value;
      forall i | 0 <= i < |once| && ToJsString(once[i].value) == ToJsString(v)
        ensures once[i].caption == LabelByValue(reg, items, sel, v)
      {
        assert once[i].value == v by {
          var vs := ModelValues(mv);
          assert once[i].value == vs[i] && v == vs[k];
        }
      }
      SelectedLabelUniform(once, v, LabelByValue(reg, items, sel, v));
    }
  }

  /** Without the key condition the labels can change: `[1, "1"]` relabels `1` on the second pass. */
  lemma ResyncRelabelsCollidingKeys()
    ensures var mv := Array([Num(1), Str("1")]);
            var once := Resync(mv, [], [], [], []);
            Resync(mv, [], [], once, [])[0].caption == Str("1") && once[0].caption == Num(1)
  {
    var mv := Array([Num(1), Str("1")]);
    assert ToJsString(Num(1)) == "1";
    var once := Resync(mv, [], [], [], []);
    assert once[0].caption == Num(1) && once[1].caption == Str("1");
    assert SelectedLabel(once, Num(1)) == Str("1");
  }

  // ---------------------------------------------------------------------------
  // Free-text creation

  /** `opts[k]` is the first option whose name is `text` up to case. */
  ghost predicate FirstNamedAt(opts: seq<OptionRec>, text: string, k: int)
  {
    0 <= k < |opts| && ToLower(opts[k].name) == ToLower(text)
    && forall j :: 0 <= j < k ==> ToLower(opts[j].name) != ToLower(text)
  }

  /** `options.find(data => toLowerCase(String(data.optionName)) === toLowerCase(text))`: the first option so named. */
  function FindByName(opts: seq<OptionRec>, text: string): (r: Option<OptionRec>)
    ensures r.Some? ==> exists k :: FirstNamedAt(opts, text, k) && opts[k] == r.value
    ensures r.Some? ==> r.value in opts && ToLower(r.value.name) == ToLower(text)
    ensures r.None? <==> forall o :: o in opts ==> ToLower(o.name) != ToLower(text)
  {
    if opts == [] then None
    else if ToLower(opts[0].name) == ToLower(text) then
      assert FirstNamedAt(opts, text, 0);
      Some(opts[0])
    else
      assert opts == [opts[0]] + opts[1..];
      var r := FindByName(opts[1..], text);
      if r.Some? then FirstNamedShift(opts, text, r.value); r else r
  }

  /** A first match in the tail, behind a head that does not match, is the first match of the whole. */
  lemma FirstNamedShift(opts: seq<OptionRec>, text: string, o: OptionRec)
    requires |opts| > 0 && ToLower(opts[0].name) != ToLower(text)
    requires exists k :: FirstNamedAt(opts[1..], text, k) && opts[1..][k] == o
    ensures exists k :: FirstNamedAt(opts, text, k) && opts[k] == o
  {
    var k :| FirstNamedAt(opts[1..], text, k) && opts[1..][k] == o;
    forall j | 0 <= j < k + 1 ensures ToLower(opts[j].name) != ToLower(text) {
      if j > 0 { assert opts[j] == opts[1..][j - 1]; }
    }
    assert FirstNamedAt(opts, text, k + 1);
  }

  /** What `handleCreateCustomOption` does with the typed text. */
  datatype CreateAction =
    | Ignore                          // creation disallowed or nothing typed
    | SelectMatched(option: OptionRec) // an option carries that name: choose it instead
    | KeepExisting                    // an option with that key exists: create nothing
    | AppendCustom(text: string)      // multi-select: add the text as a new entry
    | ReplaceCustom(text: string)     // single-select: the text becomes the selection

  function CreateOutcome(allowCreate: bool, filterable: bool, multiple: bool,
                         opts: seq<OptionRec>, reg: seq<OptionRec>, text: string): (r: CreateAction)
    ensures r == Ignore <==> !allowCreate || text == ""
    ensures r.SelectMatched? ==> filterable && r.option in opts && ToLower(r.option.name) == ToLower(text)
    ensures allowCreate && text != "" && filterable && (exists o :: o in opts && ToLower(o.name) == ToLower(text)) ==>
      r.SelectMatched?
    ensures r == KeepExisting ==> Lookup(reg, Str(text)).Some?
    ensures r.AppendCustom? || r.ReplaceCustom? ==>
      r.text == text && Lookup(reg, Str(text)).None?
      && (filterable ==> forall o :: o in opts ==> ToLower(o.name) != ToLower(text))
    ensures r.AppendCustom? ==> multiple
    ensures r.ReplaceCustom? ==> !multiple
  {
    if !allowCreate || text == "" then Ignore
    else
      var matched := FindByName(opts, text);
      if filterable && matched.Some? then SelectMatched(matched.value)
      else if Lookup(reg, Str(text)).Some? then KeepExisting
      else if multiple then AppendCustom(text)
      else ReplaceCustom(text)
  }

  // ---------------------------------------------------------------------------
  // Change notification

  /** `val === modelValue`: an array built by the handler is a fresh object, never identical to the bound value. */
  predicate StrictEquals(a: ModelValue, b: ModelValue)
  {
    a.Scalar? && b.Scalar? && a.v == b.v
  }

  /** `emitChange(val)` */
  function ChangeEvents(val: ModelValue, current: ModelValue): (r: seq<SelectEvent>)
    ensures r == [] <==> StrictEquals(val, current)
    ensures !StrictEquals(val, current) ==> r == [UpdateModelValue(val, current), Change(val, current)]
    ensures val.Array? ==> r == [UpdateModelValue(val, current), Change(val, current)]
  {
    if StrictEquals(val, current) then [] else [UpdateModelValue(val, current), Change(val, current)]
  }

  /**
   * What `handleOptionSelected(o)` emits once it acts on the selection `sel`: the change,
   * then select or deselect in multi mode, select and hide in single mode.
   */
  function ChoiceEvents(sel: seq<Entry>, o: OptionRec, multiple: bool, allOptionId: Value, current: ModelValue): seq<SelectEvent>
  {
    if multiple then
      ChangeEvents(Array(Values(ChooseOption(sel, o, true, allOptionId))), current) +
        [if o.id in Values(RemoveFirst(sel, allOptionId)) then DeselectOption(o.id) else SelectOption(o.id)]
    else
      ChangeEvents(Scalar(o.id), current) + [SelectOption(o.id), HidePopover]
  }
}
