/**
 * Request input as PHP sees it after JSON decoding, and the few PHP and
 * collection operations the request classes apply to it: `isset`/`??`,
 * `empty()`, the string cast, loose `==`, `collect()->pluck()` and
 * de-duplication. PHP's `array_unique` sorts its input and drops neighbours
 * that compare equal; under an equivalence such as the string comparison
 * (`SORT_STRING`) that loses an element exactly when keeping first
 * occurrences does, which is how `UniqueBy` models it. Loose `==` is not
 * transitive once null, booleans and numeric strings mix, and there the
 * pairwise comparison of `UniqueBy` can find a repeat the sort does not.
 */
module Values {
  import opened Wrappers
  import opened Php

  /** A decoded input value; JSON objects become `Object`, JSON arrays `List`. */
  datatype Value =
    | Null
    | Bool(b: bool)
    | Int(i: int)
    | Str(s: string)
    | List(items: seq<Value>)
    | Object(fields: map<string, Value>)

  /** `isset($v[$key])`: `v` is an array holding a non-null value under `key`. */
  predicate HasKey(v: Value, key: string) {
    v.Object? && key in v.fields && v.fields[key] != Null
  }

  /** `$v[$key] ?? $default`. */
  function Coalesce(v: Value, key: string, default: Value): (r: Value)
    ensures HasKey(v, key) ==> r == v.fields[key] && r != Null
    ensures !HasKey(v, key) ==> r == default
  {
    if HasKey(v, key) then v.fields[key] else default
  }

  /** `isset($data[$key])` on the top-level input. */
  predicate IsSet(data: map<string, Value>, key: string) {
    key in data && data[key] != Null
  }

  /** `$data[$key] ?? null`, which is also what the request's magic property read gives. */
  function Get(data: map<string, Value>, key: string): Value {
    if key in data then data[key] else Null
  }

  /** PHP `empty()`: null, false, 0, "", "0" and the empty array. */
  predicate IsEmptyValue(v: Value) {
    match v
    case Null => true
    case Bool(b) => !b
    case Int(i) => i == 0
    case Str(s) => IsEmptyString(s)
    case List(items) => items == []
    case Object(fields) => fields == map[]
  }

  /** PHP truthiness, as `if ($v)` and `(bool) $v` test it: the negation of `empty()`. */
  predicate Truthy(v: Value) {
    !IsEmptyValue(v)
  }

  /** Decimal rendering of an integer, with a leading "-" for negatives. */
  function IntToString(i: int): (s: string)
    ensures s != []
  {
    if i < 0 then "-" + NatToString(-i) else NatToString(i)
  }

  /** `(string)$v`; an array becomes the string "Array". */
  function StringOf(v: Value): string {
    match v
    case Null => ""
    case Bool(b) => if b then "1" else ""
    case Int(i) => IntToString(i)
    case Str(s) => s
    case List(_) => "Array"
    case Object(_) => "Array"
  }

  /**
   * PHP 8 loose `==` as the collection helpers use it. Scalars follow the
   * language's rules, with numeric strings restricted to integer literals;
   * arrays are equal when both are empty or when they are identical.
   */
  predicate LooseEquals(a: Value, b: Value) {
    match (a, b)
    case (Bool(x), _) => x == !IsEmptyValue(b)
    case (_, Bool(y)) => y == !IsEmptyValue(a)
    case (Null, Null) => true
    case (Null, Str(s)) => s == ""
    case (Str(s), Null) => s == ""
    case (Null, _) => IsEmptyValue(b)
    case (_, Null) => IsEmptyValue(a)
    case (Int(x), Int(y)) => x == y
    case (Int(x), Str(s)) => if IsNumeric(s) then x == NumericValue(s) else IntToString(x) == s
    case (Str(s), Int(y)) => if IsNumeric(s) then NumericValue(s) == y else s == IntToString(y)
    case (Str(s), Str(t)) => if IsNumeric(s) && IsNumeric(t) then NumericValue(s) == NumericValue(t) else s == t
    case (_, _) =>
      (a.List? || a.Object?) && (b.List? || b.Object?) && (a == b || (IsEmptyValue(a) && IsEmptyValue(b)))
  }

  /**
   * `collect($v)`: the items of a list; nothing for null; a single item for a
   * scalar. An object is also kept as a single item: PHP would iterate its
   * values in key order, and the model's objects carry no key order.
   */
  function Items(v: Value): (r: seq<Value>)
    ensures v.List? ==> r == v.items
    ensures v.Null? ==> r == []
  {
    match v
    case Null => []
    case List(items) => items
    case _ => [v]
  }

  /** `->pluck($key)`: each item's value under `key`, null where it has none. */
  function Pluck(items: seq<Value>, key: string): (r: seq<Value>)
    ensures |r| == |items|
    ensures forall i :: 0 <= i < |items| ==>
              r[i] == (if items[i].Object? && key in items[i].fields then items[i].fields[key] else Null)
  {
    if items == [] then []
    else
      var x := items[0];
      [if x.Object? && key in x.fields then x.fields[key] else Null] + Pluck(items[1..], key)
  }

  /** Some element occurs twice, under the equivalence `eq`. */
  ghost predicate HasRepeat<T>(xs: seq<T>, eq: (T, T) -> bool) {
    exists i, j :: 0 <= i < j < |xs| && eq(xs[i], xs[j])
  }

  /**
   * First-occurrence de-duplication: an element is kept when no element kept
   * before it is equal to it under `eq` (`in_array($x, $kept)`).
   */
  function UniqueBy<T>(xs: seq<T>, eq: (T, T) -> bool): (r: seq<T>)
    ensures |r| <= |xs|
    ensures forall y :: y in r ==> y in xs
  {
    if xs == [] then []
    else
      var kept := UniqueBy(xs[..|xs| - 1], eq);
      var x := xs[|xs| - 1];
      if exists k :: 0 <= k < |kept| && eq(kept[k], x) then kept else kept + [x]
  }

  /**
   * De-duplication loses an element exactly when two elements are equal: the
   * count comparison the request classes use detects every repeat and only
   * repeats.
   */
  lemma {:induction false} UniqueByShrinksIffRepeat<T>(xs: seq<T>, eq: (T, T) -> bool)
    ensures |UniqueBy(xs, eq)| < |xs| <==> HasRepeat(xs, eq)
    decreases |xs|
  {
    if xs != [] {
      var init := xs[..|xs| - 1];
      var kept := UniqueBy(init, eq);
      var x := xs[|xs| - 1];
      UniqueByShrinksIffRepeat(init, eq);
      if HasRepeat(init, eq) {
        var i, j :| 0 <= i < j < |init| && eq(init[i], init[j]);
        assert xs[i] == init[i] && xs[j] == init[j];
      } else if exists k :: 0 <= k < |kept| && eq(kept[k], x) {
        var k :| 0 <= k < |kept| && eq(kept[k], x);
        assert kept[k] in init;
        var i :| 0 <= i < |init| && init[i] == kept[k];
        assert xs[i] == init[i];
      } else {
        LastNotRepeated(init, x, eq);
        assert init + [x] == xs;
      }
    }
  }

  /** The last element adds no repeat when nothing before it repeats and no kept element equals it. */
  lemma LastNotRepeated<T>(init: seq<T>, x: T, eq: (T, T) -> bool)
    requires !HasRepeat(init, eq)
    requires |UniqueBy(init, eq)| == |init|
    requires forall k :: 0 <= k < |UniqueBy(init, eq)| ==> !eq(UniqueBy(init, eq)[k], x)
    ensures !HasRepeat(init + [x], eq)
  {
    var xs := init + [x];
    UniqueByKeepsAll(init, eq);
    forall i, j | 0 <= i < j < |xs| ensures !eq(xs[i], xs[j]) {
      if j < |xs| - 1 {
        assert init[i] == xs[i] && init[j] == xs[j];
      } else {
        assert init[i] == xs[i];
      }
    }
  }

  /** When nothing is dropped, de-duplication returns its input. */
  lemma {:induction false} UniqueByKeepsAll<T>(xs: seq<T>, eq: (T, T) -> bool)
    requires |UniqueBy(xs, eq)| == |xs|
    ensures UniqueBy(xs, eq) == xs
    decreases |xs|
  {
    if xs != [] {
      var init := xs[..|xs| - 1];
      assert |UniqueBy(init, eq)| <= |init|;
      UniqueByKeepsAll(init, eq);
      assert init + [xs[|xs| - 1]] == xs;
    }
  }

  /** Strict string equality of the cast values, as `array_unique` compares by default. */
  predicate SameString(a: Value, b: Value) {
    StringOf(a) == StringOf(b)
  }
}
