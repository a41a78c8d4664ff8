/**
 * The handful of PHP string built-ins the application relies on, written out
 * so that their edge cases are explicit: `empty()` on strings, `trim()`,
 * `is_numeric()`/`intval()` on integer literals, `strtolower()`, `str_pad()`,
 * `implode()` and decimal rendering of row numbers.
 */
module Php {
  import opened Wrappers

  /** `empty($s)` for a string: true for "" and for "0". */
  predicate IsEmptyString(s: string) {
    s == "" || s == "0"
  }

  /** PHP truthiness of a nullable string attribute (null, "" and "0" are false). */
  predicate IsTruthy(v: Option<string>) {
    v.Some? && !IsEmptyString(v.value)
  }

  /** The characters `trim()` strips by default: space, tab, LF, CR, NUL and vertical tab. */
  predicate IsTrimChar(c: char) {
    c == ' ' || c == '\t' || c == '\n' || c == '\r' || c == '\0' || c == '\U{0B}'
  }

  /** `ltrim()`: drops the leading run of trim characters. */
  function TrimLeft(s: string): (r: string)
    ensures |r| <= |s|
    ensures r != [] ==> !IsTrimChar(r[0])
  {
    if s != [] && IsTrimChar(s[0]) then TrimLeft(s[1..]) else s
  }

  /** What `ltrim()` keeps is a suffix of its argument, and what it drops are trim characters. */
  lemma {:induction false} TrimLeftIsSuffix(s: string)
    ensures TrimLeft(s) == s[|s| - |TrimLeft(s)|..]
    ensures forall i :: 0 <= i < |s| - |TrimLeft(s)| ==> IsTrimChar(s[i])
    decreases |s|
  {
    if s != [] && IsTrimChar(s[0]) {
      TrimLeftIsSuffix(s[1..]);
      assert s[1..][|s| - 1 - |TrimLeft(s)|..] == s[|s| - |TrimLeft(s)|..];
      forall i | 1 <= i < |s| - |TrimLeft(s)| ensures IsTrimChar(s[i]) {
        assert s[i] == s[1..][i - 1];
      }
    }
  }

  /** `rtrim()`: drops the trailing run of trim characters. */
  function TrimRight(s: string): (r: string)
    ensures |r| <= |s|
    ensures r != [] ==> !IsTrimChar(r[|r| - 1])
  {
    if s != [] && IsTrimChar(s[|s| - 1]) then TrimRight(s[..|s| - 1]) else s
  }

  /** What `rtrim()` keeps is a prefix of its argument, and what it drops are trim characters. */
  lemma {:induction false} TrimRightIsPrefix(s: string)
    ensures TrimRight(s) == s[..|TrimRight(s)|]
    ensures forall i :: |TrimRight(s)| <= i < |s| ==> IsTrimChar(s[i])
    decreases |s|
  {
    if s != [] && IsTrimChar(s[|s| - 1]) {
      TrimRightIsPrefix(s[..|s| - 1]);
      forall i | |TrimRight(s)| <= i < |s| - 1 ensures IsTrimChar(s[i]) {
        assert s[i] == s[..|s| - 1][i];
      }
    }
  }

  /** `trim()`. */
  function Trim(s: string): (r: string)
    ensures |r| <= |s|
    ensures r != [] ==> !IsTrimChar(r[0]) && !IsTrimChar(r[|r| - 1])
  {
    TrimRightIsPrefix(TrimLeft(s));
    TrimRight(TrimLeft(s))
  }

  /**
   * `trim()` keeps one contiguous piece of its argument and drops only trim
   * characters in front of it and behind it.
   */
  lemma TrimKeepsInfix(s: string)
    ensures var a := |s| - |TrimLeft(s)|;
      a + |Trim(s)| <= |s|
      && Trim(s) == s[a..a + |Trim(s)|]
      && (forall i :: 0 <= i < a ==> IsTrimChar(s[i]))
      && (forall i :: a + |Trim(s)| <= i < |s| ==> IsTrimChar(s[i]))
  {
    var l := TrimLeft(s);
    var a := |s| - |l|;
    TrimLeftIsSuffix(s);
    TrimRightIsPrefix(l);
    forall i | a + |Trim(s)| <= i < |s| ensures IsTrimChar(s[i]) {
      assert s[i] == l[i - a];
    }
  }

  lemma {:induction false} TrimLeftOfClean(s: string)
    requires s == [] || !IsTrimChar(s[0])
    ensures TrimLeft(s) == s
  {
  }

  lemma {:induction false} TrimRightOfClean(s: string)
    requires s == [] || !IsTrimChar(s[|s| - 1])
    ensures TrimRight(s) == s
  {
  }

  /** Trimming twice is the same as trimming once. */
  lemma {:induction false} TrimIdempotent(s: string)
    ensures Trim(Trim(s)) == Trim(s)
  {
    var r := Trim(s);
    TrimRightOfClean(r);
    TrimLeftOfClean(r);
  }

  predicate IsDigit(c: char) {
    '0' <= c <= '9'
  }

  predicate AllDigits(s: string) {
    forall i :: 0 <= i < |s| ==> IsDigit(s[i])
  }

  /** White space that PHP 8 allows around a numeric string: space, \t, \n, \r, \v, \f. */
  predicate IsNumericWhite(c: char) {
    c == ' ' || c == '\t' || c == '\n' || c == '\r' || c == '\U{0B}' || c == '\U{0C}'
  }

  function SkipLeadingWhite(s: string): (r: string)
    ensures |r| <= |s|
    ensures r != [] ==> !IsNumericWhite(r[0])
  {
    if s != [] && IsNumericWhite(s[0]) then SkipLeadingWhite(s[1..]) else s
  }

  function SkipTrailingWhite(s: string): (r: string)
    ensures |r| <= |s|
  {
    if s != [] && IsNumericWhite(s[|s| - 1]) then SkipTrailingWhite(s[..|s| - 1]) else s
  }

  /** The body of a numeric string: white space removed on both sides. */
  function NumericBody(s: string): string {
    SkipTrailingWhite(SkipLeadingWhite(s))
  }

  predicate HasSign(t: string) {
    t != [] && (t[0] == '+' || t[0] == '-')
  }

  function Unsigned(t: string): string {
    if HasSign(t) then t[1..] else t
  }

  /**
   * `is_numeric()` restricted to integer literals: optional white space,
   * an optional sign, at least one decimal digit, optional white space.
   */
  predicate IsNumeric(s: string) {
    var u := Unsigned(NumericBody(s));
    u != [] && AllDigits(u)
  }

  /** The value of a string of decimal digits. */
  function DigitsValue(s: string): (n: nat)
    requires AllDigits(s)
  {
    if s == [] then 0 else 10 * DigitsValue(s[..|s| - 1]) + (s[|s| - 1] as int - '0' as int)
  }

  /** The integer a string that `IsNumeric` accepts denotes, without PHP's integer bounds. */
  function NumericValue(s: string): int
    requires IsNumeric(s)
  {
    var t := NumericBody(s);
    var n: int := DigitsValue(Unsigned(t));
    if HasSign(t) && t[0] == '-' then -n else n
  }

  /** `PHP_INT_MAX` and `PHP_INT_MIN` on a 64-bit build. */
  const PhpIntMax: int := 0x7FFF_FFFF_FFFF_FFFF
  const PhpIntMin: int := -0x8000_0000_0000_0000

  /**
   * `intval()` of a string that `IsNumeric` accepts: the integer it denotes when a PHP
   * integer holds it, and otherwise the bound on its side, since a literal out of range
   * is read as a float and the float-to-integer conversion saturates.
   */
  function IntVal(s: string): (r: int)
    requires IsNumeric(s)
    ensures PhpIntMin <= r <= PhpIntMax
    ensures PhpIntMin <= NumericValue(s) <= PhpIntMax ==> r == NumericValue(s)
    ensures NumericValue(s) > PhpIntMax ==> r == PhpIntMax
    ensures NumericValue(s) < PhpIntMin ==> r == PhpIntMin
  {
    var v := NumericValue(s);
    if v > PhpIntMax then PhpIntMax else if v < PhpIntMin then PhpIntMin else v
  }

  /** Decimal rendering of a natural number, as PHP's string concatenation prints it. */
  function NatToString(n: nat): (s: string)
    ensures s != [] && AllDigits(s)
    ensures n > 0 ==> s[0] != '0'
  {
    if n < 10 then [('0' as int + n) as char]
    else NatToString(n / 10) + [('0' as int + n % 10) as char]
  }

  /** Reading back a rendered number gives the number: the rendering loses nothing. */
  lemma {:induction false} NatToStringRoundTrip(n: nat)
    ensures DigitsValue(NatToString(n)) == n
  {
    var s := NatToString(n);
    if n >= 10 {
      NatToStringRoundTrip(n / 10);
      assert s[..|s| - 1] == NatToString(n / 10);
    } else {
      assert s[..|s| - 1] == [];
    }
  }

  /**
   * A rendered number is numeric, and `intval()` reads it back exactly when a PHP integer
   * holds it; a larger one reads as `PHP_INT_MAX`.
   */
  lemma IntValOfRendered(n: nat)
    ensures IsNumeric(NatToString(n))
    ensures n <= PhpIntMax ==> IntVal(NatToString(n)) == n
    ensures n > PhpIntMax ==> IntVal(NatToString(n)) == PhpIntMax
  {
    var s := NatToString(n);
    assert SkipLeadingWhite(s) == s;
    assert SkipTrailingWhite(s) == s;
    assert Unsigned(s) == s;
    NatToStringRoundTrip(n);
  }

  /** Distinct numbers render to distinct strings, so "Row N" prefixes name rows unambiguously. */
  lemma NatToStringInjective(m: nat, n: nat)
    requires NatToString(m) == NatToString(n)
    ensures m == n
  {
    NatToStringRoundTrip(m);
    NatToStringRoundTrip(n);
  }

  /** `strtolower()` on one character (ASCII letters only, as in PHP 8). */
  function LowerChar(c: char): char {
    if 'A' <= c <= 'Z' then (c as int + 32) as char else c
  }

  /** `strtolower()`. */
  function ToLower(s: string): (r: string)
    ensures |r| == |s|
    ensures forall i :: 0 <= i < |s| ==> r[i] == LowerChar(s[i])
  {
    if s == [] then [] else [LowerChar(s[0])] + ToLower(s[1..])
  }

  function Repeat(c: char, n: nat): (r: string)
    ensures |r| == n && forall i :: 0 <= i < n ==> r[i] == c
  {
    if n == 0 then [] else [c] + Repeat(c, n - 1)
  }

  /** `str_pad($s, $width, $c, STR_PAD_LEFT)`: never truncates. */
  function PadLeft(s: string, width: nat, c: char): (r: string)
    ensures |r| == if |s| >= width then |s| else width
    ensures r[|r| - |s|..] == s
    ensures forall i :: 0 <= i < |r| - |s| ==> r[i] == c
  {
    if |s| >= width then s else Repeat(c, width - |s|) + s
  }

  /** `implode($sep, $parts)`. */
  function Join(parts: seq<string>, sep: string): string {
    if parts == [] then ""
    else if |parts| == 1 then parts[0]
    else parts[0] + sep + Join(parts[1..], sep)
  }
}
