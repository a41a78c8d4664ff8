/**
 * The part of Laravel's validator the form requests rely on: a field's rule
 * list is checked rule by rule, every failing rule is reported, a failing
 * implicit rule (`required`, `required_with`) stops the field's remaining
 * rules, an absent or blank field is only checked by the implicit rules, and
 * `sometimes` skips an absent field.
 */
module Validation {
  import opened Php
  import opened Values

  datatype Rule =
    | Required
    | RequiredWith(other: string)
    | StringRule
    | NumericRule
    | DigitsRule(length: nat)
    | MinRule(min: nat)
    | MaxRule(max: nat)
    | ArrayRule
    | ExistsRule(known: set<string>)
    | InRule(allowed: set<string>)

  /** A failed rule of a field, named as in the rule string. */
  datatype Failure = Failure(field: string, rule: string)

  function RuleName(rule: Rule): string {
    match rule
    case Required => "required"
    case RequiredWith(_) => "required_with"
    case StringRule => "string"
    case NumericRule => "numeric"
    case DigitsRule(_) => "digits"
    case MinRule(_) => "min"
    case MaxRule(_) => "max"
    case ArrayRule => "array"
    case ExistsRule(_) => "exists"
    case InRule(_) => "in"
  }

  /**
   * The implicit rules, which also run on an absent or blank value. The
   * model uses `required_with:X` only for the entries of a non-empty array
   * `X`, where `X` is always filled, so it demands exactly what `required` does.
   */
  predicate Implicit(rule: Rule) {
    rule.Required? || rule.RequiredWith?
  }

  /** `required`: not null, not a blank string, not an empty array. */
  predicate IsFilled(v: Value) {
    match v
    case Null => false
    case Str(s) => Trim(s) != ""
    case List(items) => items != []
    case Object(fields) => fields != map[]
    case _ => true
  }

  predicate IsScalar(v: Value) {
    v.Bool? || v.Int? || v.Str?
  }

  /** `is_numeric` on a value: an integer, or a string holding an integer literal. */
  predicate IsNumericValue(v: Value) {
    v.Int? || (v.Str? && IsNumeric(v.s))
  }

  /**
   * The size `min`/`max` compare: the number itself for a numeric value of a
   * field with a numeric rule, the element count of an array, and otherwise
   * the length of the value as a string.
   */
  function SizeOf(v: Value, numericField: bool): int {
    if numericField && IsNumericValue(v) then (if v.Int? then v.i else NumericValue(v.s))
    else match v
      case List(items) => |items|
      case Object(fields) => |fields|
      case _ => |StringOf(v)|
  }

  /** Whether one rule accepts a present, non-blank value. */
  predicate Accepts(rule: Rule, v: Value, numericField: bool) {
    match rule
    case Required => IsFilled(v)
    case RequiredWith(_) => IsFilled(v)
    case StringRule => v.Str?
    case NumericRule => IsNumericValue(v)
    case DigitsRule(n) => IsScalar(v) && AllDigits(StringOf(v)) && |StringOf(v)| == n
    case MinRule(n) => SizeOf(v, numericField) >= n
    case MaxRule(n) => SizeOf(v, numericField) <= n
    case ArrayRule => v.List? || v.Object?
    case ExistsRule(known) => IsScalar(v) && StringOf(v) in known
    case InRule(allowed) => IsScalar(v) && StringOf(v) in allowed
  }

  /** The rules run in order; a failing implicit rule ends the list. */
  function RunRules(field: string, v: Value, rules: seq<Rule>, numericField: bool): (r: seq<Failure>)
    ensures r == [] <==> forall i :: 0 <= i < |rules| ==> Accepts(rules[i], v, numericField)
    ensures forall f :: f in r ==> f.field == field
  {
    if rules == [] then []
    else if Accepts(rules[0], v, numericField) then RunRules(field, v, rules[1..], numericField)
    else if Implicit(rules[0]) then [Failure(field, RuleName(rules[0]))]
    else [Failure(field, RuleName(rules[0]))] + RunRules(field, v, rules[1..], numericField)
  }

  /**
   * The failures of one field. `present` says whether the key is in the input
   * at all; `sometimes` skips the field when it is not. An absent field or a
   * blank string fails its first implicit rule, and passes when there is none.
   */
  function FieldFailures(field: string, present: bool, v: Value, rules: seq<Rule>, sometimes: bool): (r: seq<Failure>)
    ensures sometimes && !present ==> r == []
    ensures forall f :: f in r ==> f.field == field
    ensures r == [] <==>
              (sometimes && !present)
              || ((forall i :: 0 <= i < |rules| ==> !Implicit(rules[i])) && (!present || (v.Str? && Trim(v.s) == "")))
              || (present && !(v.Str? && Trim(v.s) == "")
                  && forall i :: 0 <= i < |rules| ==> Accepts(rules[i], v, NumericRule in rules))
  {
    if sometimes && !present then []
    else if !present || (v.Str? && Trim(v.s) == "") then AbsentFailures(field, rules)
    else RunRules(field, v, rules, NumericRule in rules)
  }

  /** An absent or blank value: the failure of the first implicit rule, if any. */
  function AbsentFailures(field: string, rules: seq<Rule>): (r: seq<Failure>)
    ensures r == [] <==> forall i :: 0 <= i < |rules| ==> !Implicit(rules[i])
    ensures r != [] ==>
              exists i :: 0 <= i < |rules| && Implicit(rules[i]) && r == [Failure(field, RuleName(rules[i]))]
                && forall k :: 0 <= k < i ==> !Implicit(rules[k])
  {
    if rules == [] then []
    else if Implicit(rules[0]) then [Failure(field, RuleName(rules[0]))]
    else
      var rest := AbsentFailures(field, rules[1..]);
      if rest != [] then
        var i :| 0 <= i < |rules[1..]| && Implicit(rules[1..][i]) && rest == [Failure(field, RuleName(rules[1..][i]))]
                 && forall k :: 0 <= k < i ==> !Implicit(rules[1..][k]);
        assert Implicit(rules[i + 1]) && forall k :: 0 <= k < i + 1 ==> !Implicit(rules[k]);
        rest
      else rest
  }

  /** A string of decimal digits is a numeric string: white space and sign play no part. */
  lemma DigitsAreNumeric(s: string)
    requires s != [] && AllDigits(s)
    ensures IsNumeric(s)
  {
    assert !IsNumericWhite(s[0]) && !IsNumericWhite(s[|s| - 1]);
    assert SkipLeadingWhite(s) == s;
    assert SkipTrailingWhite(s) == s;
  }

  /** A string of decimal digits has nothing for `trim()` to remove. */
  lemma DigitsAreFilled(s: string)
    requires s != [] && AllDigits(s)
    ensures Trim(s) == s
  {
    assert !IsTrimChar(s[0]) && !IsTrimChar(s[|s| - 1]);
    TrimLeftOfClean(s);
    TrimRightOfClean(s);
  }
}
