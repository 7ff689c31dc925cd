/**
 * The option registry of the select widget (packages/select/src/select.tsx):
 * the registered options, the `options` list sorted by `order`, the options
 * the keyboard can reach, and the default search predicate that decides
 * which options stay visible.
 */
module SelectOptions {
  import opened Wrappers
  import opened JsValue

  /** A registered option instance: `optionID`, `optionName`, `order`, `disabled`, `visible`. */
  datatype OptionRec = OptionRec(id: Value, name: string, order: int, disabled: bool, visible: bool)

  /** An element of the `list` prop, with its `idKey` and `displayKey` fields already read. */
  datatype ListItem = ListItem(id: Value, display: Value, disabled: bool)

  /** The ids of a sequence of options, in order. */
  function Ids(s: seq<OptionRec>): (r: seq<Value>)
    ensures |r| == |s| && forall i :: 0 <= i < |s| ==> r[i] == s[i].id
  {
    seq(|s|, i requires 0 <= i < |s| => s[i].id)
  }

  /** The registry keys options by id, so no id is registered twice. */
  ghost predicate DistinctIds(s: seq<OptionRec>)
  {
    forall i, j :: 0 <= i < j < |s| ==> s[i].id != s[j].id
  }

  /** `optionsMap.get(id)` */
  function Lookup(reg: seq<OptionRec>, id: Value): (r: Option<OptionRec>)
    ensures r.None? <==> forall i :: 0 <= i < |reg| ==> reg[i].id != id
    ensures r.Some? ==> r.value in reg && r.value.id == id
  {
    if reg == [] then None
    else if reg[0].id == id then Some(reg[0])
    else
      var r := Lookup(reg[1..], id);
      assert forall i :: 1 <= i < |reg| ==> reg[i] == reg[1..][i - 1];
      r
  }

  ghost predicate SortedByOrder(s: seq<OptionRec>)
  {
    forall i, j :: 0 <= i < j < |s| ==> s[i].order <= s[j].order
  }

  /** Inserts `o` before the first option whose order is not smaller (keeps equal orders stable). */
  function InsertByOrder(o: OptionRec, s: seq<OptionRec>): (r: seq<OptionRec>)
    ensures multiset(r) == multiset(s) + multiset{o}
  {
    if s == [] || o.order <= s[0].order then
      [o] + s
    else
      assert s == [s[0]] + s[1..];
      [s[0]] + InsertByOrder(o, s[1..])
  }

  /** An option no later than every option of a sorted list can go in front of it. */
  lemma SortedCons(a: OptionRec, t: seq<OptionRec>)
    requires SortedByOrder(t) && forall x :: x in t ==> a.order <= x.order
    ensures SortedByOrder([a] + t)
  {
    var r := [a] + t;
    forall i, j | 0 <= i < j < |r| ensures r[i].order <= r[j].order {
      assert r[j] == t[j - 1];
      if i > 0 { assert r[i] == t[i - 1]; }
    }
  }

  /** Inserting into a list sorted by order keeps it sorted. */
  lemma {:induction false} InsertKeepsSorted(o: OptionRec, s: seq<OptionRec>)
    requires SortedByOrder(s)
    ensures SortedByOrder(InsertByOrder(o, s))
  {
    if s == [] || o.order <= s[0].order {
      forall x | x in s ensures o.order <= x.order {
        var k :| 0 <= k < |s| && s[k] == x;
        if k > 0 { assert s[0].order <= s[k].order; }
      }
      SortedCons(o, s);
    } else {
      var rest := InsertByOrder(o, s[1..]);
      assert forall k :: 0 <= k < |s[1..]| ==> s[1..][k] == s[k + 1];
      InsertKeepsSorted(o, s[1..]);
      forall x | x in rest ensures s[0].order <= x.order {
        assert x in multiset(rest);
      }
      SortedCons(s[0], rest);
    }
  }

  /** `[...optionsMap.values()].sort((cur, next) => cur.order - next.order)` */
  function SortByOrder(s: seq<OptionRec>): (r: seq<OptionRec>)
    ensures SortedByOrder(r)
    ensures multiset(r) == multiset(s)
  {
    if s == [] then []
    else
      assert s == [s[0]] + s[1..];
      InsertKeepsSorted(s[0], SortByOrder(s[1..]));
      InsertByOrder(s[0], SortByOrder(s[1..]))
  }

  lemma {:induction false} InsertKeepsDistinct(o: OptionRec, s: seq<OptionRec>)
    requires DistinctIds(s)
    requires forall x :: x in s ==> x.id != o.id
    ensures DistinctIds(InsertByOrder(o, s))
  {
    if s != [] && o.order > s[0].order {
      var rest := InsertByOrder(o, s[1..]);
      assert forall k :: 0 <= k < |s[1..]| ==> s[1..][k] == s[k + 1];
      InsertKeepsDistinct(o, s[1..]);
      forall x | x in rest ensures x.id != s[0].id {
        assert x in multiset(rest);
      }
      DistinctCons(s[0], rest);
    }
  }

  /** An option followed by options with other ids, themselves distinct, has distinct ids. */
  lemma DistinctCons(a: OptionRec, t: seq<OptionRec>)
    requires DistinctIds(t) && forall x :: x in t ==> x.id != a.id
    ensures DistinctIds([a] + t)
  {
    var r := [a] + t;
    forall i, j | 0 <= i < j < |r| ensures r[i].id != r[j].id {
      assert r[j] == t[j - 1];
      if i > 0 { assert r[i] == t[i - 1]; }
    }
  }

  /** The tail of a registry with distinct ids has distinct ids, none of them the head's. */
  lemma DistinctTail(s: seq<OptionRec>)
    requires |s| > 0 && DistinctIds(s)
    ensures DistinctIds(s[1..]) && forall x :: x in s[1..] ==> x.id != s[0].id
  {
    assert forall k :: 0 <= k < |s[1..]| ==> s[1..][k] == s[k + 1];
  }

  /** Sorting the registry by order neither loses nor duplicates an id. */
  lemma {:induction false} SortKeepsDistinct(s: seq<OptionRec>)
    requires DistinctIds(s)
    ensures DistinctIds(SortByOrder(s))
  {
    if s != [] {
      assert s == [s[0]] + s[1..];
      SortKeepsDistinct(s[1..]);
      forall x | x in SortByOrder(s[1..]) ensures x.id != s[0].id {
        assert x in multiset(s[1..]);
        var k :| 0 <= k < |s[1..]| && s[1..][k] == x;
        assert s[k + 1] == x;
      }
      InsertKeepsDistinct(s[0], SortByOrder(s[1..]));
    }
  }

  /** Reachable by the arrow keys: not disabled and not hidden by the search. */
  predicate Available(o: OptionRec)
  {
    !o.disabled && o.visible
  }

  /** `options.filter(option => !option.disabled && option.visible)` */
  function AvailableOptions(s: seq<OptionRec>): (r: seq<OptionRec>)
    ensures forall x :: x in r <==> x in s && Available(x)
    ensures |r| <= |s|
  {
    if s == [] then []
    else
      assert s == [s[0]] + s[1..];
      (if Available(s[0]) then [s[0]] else []) + AvailableOptions(s[1..])
  }

  /** The ids `isAllSelected` collects: every option that is not disabled, in list order. */
  function EnabledIds(s: seq<OptionRec>): (r: seq<Value>)
    ensures forall v :: v in r <==> exists x :: x in s && !x.disabled && x.id == v
    ensures |r| <= |s|
  {
    if s == [] then []
    else
      assert s == [s[0]] + s[1..];
      (if !s[0].disabled then [s[0].id] else []) + EnabledIds(s[1..])
  }

  /** Distinct option ids give distinct enabled ids. */
  lemma {:induction false} EnabledIdsDistinct(s: seq<OptionRec>)
    requires DistinctIds(s)
    ensures NoDup(EnabledIds(s))
  {
    if s != [] {
      assert s == [s[0]] + s[1..];
      EnabledIdsDistinct(s[1..]);
      if !s[0].disabled {
        var t := EnabledIds(s[1..]);
        assert forall k :: 0 <= k < |s[1..]| ==> s[1..][k] == s[k + 1];
        assert s[0].id !in t;
        var r := [s[0].id] + t;
        forall i, j | 0 <= i < j < |r| ensures r[i] != r[j] {
          if i == 0 { assert r[j] == t[j - 1]; } else { assert r[i] == t[i - 1] && r[j] == t[j - 1]; }
        }
      }
    }
  }

  // ---------------------------------------------------------------------------
  // Search

  /**
   * How the widget was configured to search: the caller's `filterOption`
   * (given the search term, the option's id and its name), whether transliterated
   * matching is on, and the transliterator, which returns the target string of
   * each token of a name (tokens of the transliterated kind already lower-cased).
   */
  datatype SearchConfig = SearchConfig(
    filterOption: Option<(string, Value, string) -> bool>,
    searchWithPinyin: bool,
    pinyin: string -> seq<string>)

  function Join(tokens: seq<string>): string
  {
    if tokens == [] then "" else tokens[0] + Join(tokens[1..])
  }

  /** `tokens.reduce((res, cur) => res + cur[0], '')`; an empty token contributes the text "undefined". */
  function Initials(tokens: seq<string>): string
  {
    if tokens == [] then ""
    else (if |tokens[0]| > 0 then [tokens[0][0]] else "undefined") + Initials(tokens[1..])
  }

  /** `defaultSearchMethod(term, name, data)` */
  predicate MatchesSearch(cfg: SearchConfig, term: string, name: string, id: Value)
  {
    match cfg.filterOption
    case Some(f) => f(term, id, name)
    case None =>
      if cfg.searchWithPinyin then
        var tokens := cfg.pinyin(name);
        Includes(Join(tokens), term) || Includes(Initials(tokens), term) || Includes(ToLower(name), ToLower(term))
      else
        Includes(ToLower(name), ToLower(term))
  }

  /** The `visible` flag `handleDefaultOptionSearch(term)` gives an option. */
  predicate SearchVisibility(cfg: SearchConfig, term: string, o: OptionRec)
  {
    term == "" || MatchesSearch(cfg, term, o.name, o.id)
  }

  /** A caller-supplied filter alone decides a non-empty search. */
  lemma FilterOptionDecidesAlone(cfg: SearchConfig, term: string, o: OptionRec)
    requires cfg.filterOption.Some? && term != ""
    ensures SearchVisibility(cfg, term, o) <==> cfg.filterOption.value(term, o.id, o.name)
  {
  }

  /** Without a filter, a case-insensitive substring match keeps an option visible in either mode. */
  lemma SubstringMatchIsVisible(cfg: SearchConfig, term: string, o: OptionRec)
    requires cfg.filterOption.None?
    requires Occurs(ToLower(o.name), ToLower(term))
    ensures SearchVisibility(cfg, term, o)
  {
  }

  /** With transliteration off and no filter, visibility is exactly the case-insensitive substring test. */
  lemma PlainSearchIsSubstring(cfg: SearchConfig, term: string, o: OptionRec)
    requires cfg.filterOption.None? && !cfg.searchWithPinyin && term != ""
    ensures SearchVisibility(cfg, term, o) <==> Occurs(ToLower(o.name), ToLower(term))
  {
  }

  /** The search term "A" keeps an option named "Banana" visible: the substring test ignores case. */
  lemma BananaMatchesA(cfg: SearchConfig, id: Value)
    requires cfg.filterOption.None?
    ensures MatchesSearch(cfg, "A", "Banana", id)
  {
    assert ToLower("A") == "a";
    assert ToLower("Banana")[1..2] == "a";
    assert OccursAt(ToLower("Banana"), ToLower("A"), 1);
  }
}
