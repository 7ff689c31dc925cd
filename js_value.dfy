/**
 * The JavaScript primitives that the select widget stores as option ids, labels
 * and bound values, with the few operations of the language it relies on:
 * truthiness, `String(x)`, ASCII `toLowerCase` and `indexOf`.
 */
module JsValue {

  /** A primitive value. Object values and NaN are not modelled. */
  datatype Value = Undefined | Null | Bool(b: bool) | Num(n: int) | Str(s: string)

  /** JavaScript truthiness. */
  predicate Truthy(v: Value)
  {
    match v
    case Undefined => false
    case Null => false
    case Bool(b) => b
    case Num(n) => n != 0
    case Str(s) => s != ""
  }

  /** The expression `a || b`. */
  function Or(a: Value, b: Value): Value
  {
    if Truthy(a) then a else b
  }

  function DigitChar(d: nat): (c: char)
    requires d < 10
    ensures '0' <= c <= '9' && c as int - '0' as int == d
  {
    (48 + d) as char
  }

  /** The number a string of decimal digits spells. */
  function DigitsValue(s: string): nat
    requires forall i :: 0 <= i < |s| ==> '0' <= s[i] <= '9'
  {
    if s == [] then 0 else DigitsValue(s[..|s| - 1]) * 10 + (s[|s| - 1] as int - '0' as int)
  }

  /** `String(n)` for a natural number: its decimal digits, most significant first, with no leading zero. */
  function NatToString(n: nat): (s: string)
    ensures |s| >= 1
    ensures forall i :: 0 <= i < |s| ==> '0' <= s[i] <= '9'
    ensures DigitsValue(s) == n
    ensures s[0] == '0' ==> s == "0"
  {
    if n < 10 then [DigitChar(n)]
    else
      var t := NatToString(n / 10);
      var s := t + [DigitChar(n % 10)];
      assert s[..|s| - 1] == t;
      s
  }

  /** Different numbers spell differently. */
  lemma NatToStringInjective(a: nat, b: nat)
    requires NatToString(a) == NatToString(b)
    ensures a == b
  {
    assert DigitsValue(NatToString(a)) == DigitsValue(NatToString(b));
  }

  /** `String(v)`, which is also the property key a plain object files `v` under. */
  function ToJsString(v: Value): string
  {
    match v
    case Undefined => "undefined"
    case Null => "null"
    case Bool(b) => if b then "true" else "false"
    case Num(n) => if n < 0 then "-" + NatToString(-n) else NatToString(n)
    case Str(s) => s
  }

  /** Two different numbers are filed under different object keys. */
  lemma NumKeysInjective(a: int, b: int)
    requires ToJsString(Num(a)) == ToJsString(Num(b))
    ensures a == b
  {
    if a < 0 && b < 0 {
      var ta, tb := NatToString(-a), NatToString(-b);
      assert ("-" + ta)[1..] == ta && ("-" + tb)[1..] == tb;
      NatToStringInjective(-a, -b);
    } else if a >= 0 && b >= 0 {
      NatToStringInjective(a, b);
    } else {
      var n := if a < 0 then a else b;
      var m := if a < 0 then b else a;
      NegativeKeyIsNotDigits(n, m);
    }
  }

  /** The key of a negative number starts with a sign, the key of any other number with a digit. */
  lemma NegativeKeyIsNotDigits(n: int, m: int)
    requires n < 0 <= m
    ensures ToJsString(Num(n)) != ToJsString(Num(m))
  {
    var t := NatToString(m);
    assert ToJsString(Num(n))[0] == '-';
    assert ToJsString(Num(m)) == t && '0' <= t[0] <= '9';
  }

  /** A number and its decimal string are different values but the same object key. */
  lemma NumberAndStringShareKey()
    ensures Num(1) != Str("1") && ToJsString(Num(1)) == ToJsString(Str("1"))
  {
  }

  function LowerChar(c: char): char
  {
    if IsUpper(c) then (c as int + 32) as char else c
  }

  predicate IsUpper(c: char)
  {
    'A' <= c <= 'Z'
  }

  /** `s.toLowerCase()`, for the ASCII letters only: each capital becomes its small letter, nothing else changes. */
  function ToLower(s: string): (r: string)
    ensures |r| == |s|
    ensures forall i :: 0 <= i < |s| && IsUpper(s[i]) ==> r[i] as int == s[i] as int + 32
    ensures forall i :: 0 <= i < |s| && !IsUpper(s[i]) ==> r[i] == s[i]
    ensures forall i :: 0 <= i < |r| ==> !IsUpper(r[i])
  {
    seq(|s|, i requires 0 <= i < |s| => LowerChar(s[i]))
  }

  /** Lower-casing twice is lower-casing once. */
  lemma ToLowerIdempotent(s: string)
    ensures ToLower(ToLower(s)) == ToLower(s)
  {
    var once := ToLower(s);
    assert forall i :: 0 <= i < |once| ==> ToLower(once)[i] == once[i];
  }

  /** `needle` occurs in `hay` starting at position `i`. */
  predicate OccursAt(hay: string, needle: string, i: int)
  {
    0 <= i && i + |needle| <= |hay| && hay[i..i + |needle|] == needle
  }

  ghost predicate Occurs(hay: string, needle: string)
  {
    exists i :: OccursAt(hay, needle, i)
  }

  /** `hay.indexOf(needle)`: the first position where `needle` occurs, or -1 when it does not occur. */
  function IndexOf(hay: string, needle: string): (r: int)
    ensures -1 <= r <= |hay|
    ensures r >= 0 ==> OccursAt(hay, needle, r)
    ensures r >= 0 ==> forall j :: 0 <= j < r ==> !OccursAt(hay, needle, j)
    ensures r == -1 <==> !Occurs(hay, needle)
  {
    if |needle| > |hay| then
      -1
    else if hay[..|needle|] == needle then
      assert OccursAt(hay, needle, 0);
      0
    else
      var k := IndexOf(hay[1..], needle);
      ShiftOccurs(hay, needle);
      assert !OccursAt(hay, needle, 0);
      if k == -1 then -1 else k + 1
  }

  /** Occurrences in `hay[1..]` are the occurrences in `hay` one position later. */
  lemma ShiftOccurs(hay: string, needle: string)
    requires |hay| >= 1
    ensures forall j :: OccursAt(hay[1..], needle, j) ==> OccursAt(hay, needle, j + 1)
    ensures forall i :: OccursAt(hay, needle, i) && i >= 1 ==> OccursAt(hay[1..], needle, i - 1)
  {
    forall j | OccursAt(hay[1..], needle, j)
      ensures OccursAt(hay, needle, j + 1)
    {
      assert hay[1..][j..j + |needle|] == hay[j + 1..j + 1 + |needle|];
    }
    forall i | OccursAt(hay, needle, i) && i >= 1
      ensures OccursAt(hay[1..], needle, i - 1)
    {
      assert hay[1..][i - 1..i - 1 + |needle|] == hay[i..i + |needle|];
    }
  }

  /** `hay.includes(needle)` */
  predicate Includes(hay: string, needle: string)
  {
    IndexOf(hay, needle) != -1
  }

  /** No value occurs twice. */
  ghost predicate NoDup(vs: seq<Value>)
  {
    forall i, j :: 0 <= i < j < |vs| ==> vs[i] != vs[j]
  }

  /** `vs.findIndex(x => x === v)`: the first position holding `v`, or -1 when there is none. */
  function IndexOfValue(vs: seq<Value>, v: Value): (r: int)
    ensures -1 <= r < |vs|
    ensures r >= 0 ==> vs[r] == v && forall j :: 0 <= j < r ==> vs[j] != v
    ensures r == -1 <==> v !in vs
  {
    if vs == [] then -1
    else if vs[0] == v then 0
    else
      var k := IndexOfValue(vs[1..], v);
      assert vs == [vs[0]] + vs[1..];
      if k == -1 then -1 else k + 1
  }
}
