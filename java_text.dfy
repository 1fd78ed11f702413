/**
  The pieces of `java.lang.String`, `java.lang.Integer` and `java.util.regex`
  character classes that the log pipeline relies on, stated over `string`
  (a sequence of `char`).
 */
module JavaText {
  import opened Wrappers

  /** `\w` without UNICODE_CHARACTER_CLASS: [a-zA-Z_0-9]. */
  predicate IsWordChar(c: char) {
    ('a' <= c <= 'z') || ('A' <= c <= 'Z') || ('0' <= c <= '9') || c == '_'
  }

  /** `\d` without UNICODE_CHARACTER_CLASS: [0-9]. */
  predicate IsDigit(c: char) {
    '0' <= c <= '9'
  }

  /** `\s` without UNICODE_CHARACTER_CLASS: [ \t\n\x0B\f\r]. */
  predicate IsWhitespace(c: char) {
    c == ' ' || c == '\t' || c == '\n' || c == '\U{0B}' || c == '\U{0C}' || c == '\r'
  }

  /** The characters `.` does not match when DOTALL is off. */
  predicate IsLineTerminator(c: char) {
    c == '\n' || c == '\r' || c == '\U{85}' || c == '\U{2028}' || c == '\U{2029}'
  }

  /** `t` occurs in `s` at position `i`. */
  predicate OccursAt(s: string, i: nat, t: string) {
    i + |t| <= |s| && s[i..i + |t|] == t
  }

  /** `String.contains`. */
  predicate Contains(s: string, t: string) {
    exists i: nat | i <= |s| :: OccursAt(s, i, t)
  }

  // ---------------------------------------------------------------- Integer.parseInt

  /** The largest `int`. */
  const IntMax: int := 0x7fff_ffff

  predicate AllDigits(d: string) {
    forall k :: 0 <= k < |d| ==> IsDigit(d[k])
  }

  function DigitValue(c: char): nat
    requires IsDigit(c)
  {
    (c as int) - ('0' as int)
  }

  /** The decimal value of a digit string, most significant digit first. */
  function DecimalValue(d: string): nat
    requires AllDigits(d)
  {
    if d == [] then 0 else 10 * DecimalValue(d[..|d| - 1]) + DigitValue(d[|d| - 1])
  }

  function Pow10(n: nat): nat {
    if n == 0 then 1 else 10 * Pow10(n - 1)
  }

  datatype NumberFormatError = NumberFormatError

  /** `Integer.parseInt` on a non-empty run of ASCII digits: the value, or
      NumberFormatException when it does not fit in an `int`. */
  function ParseInt(d: string): (r: Result<int, NumberFormatError>)
    requires |d| > 0 && AllDigits(d)
    ensures r.Success? <==> DecimalValue(d) <= IntMax
    ensures r.Success? ==> 0 <= r.value <= IntMax && r.value == DecimalValue(d)
  {
    var v := DecimalValue(d);
    if v <= IntMax then Success(v) else Failure(NumberFormatError)
  }

  /** A run of n digits stays below 10^n, so up to nine digits always parse. */
  lemma {:induction false} DecimalValueBound(d: string)
    requires AllDigits(d)
    ensures DecimalValue(d) < Pow10(|d|)
    ensures |d| <= 9 ==> DecimalValue(d) <= IntMax
  {
    if d != [] {
      DecimalValueBound(d[..|d| - 1]);
    }
    if |d| <= 9 {
      Pow10Monotone(|d|, 9);
    }
  }

  lemma {:induction false} Pow10Monotone(m: nat, n: nat)
    requires m <= n
    ensures Pow10(m) <= Pow10(n)
  {
    if m < n {
      Pow10Monotone(m, n - 1);
    }
  }

  // ---------------------------------------------------------------- String.compareTo

  /** `String.compareTo`: the difference of the first differing characters,
      otherwise the difference of the lengths. */
  function CompareTo(a: string, b: string): (r: int)
    ensures r == 0 <==> a == b
  {
    if a == [] || b == [] then |a| - |b|
    else if a[0] != b[0] then (a[0] as int) - (b[0] as int)
    else
      assert a == [a[0]] + a[1..] && b == [b[0]] + b[1..];
      CompareTo(a[1..], b[1..])
  }

  /** compareTo is antisymmetric: swapping the arguments negates the result. */
  lemma {:induction false} CompareToAntisymmetric(a: string, b: string)
    ensures CompareTo(b, a) == -CompareTo(a, b)
  {
    if a != [] && b != [] && a[0] == b[0] {
      CompareToAntisymmetric(a[1..], b[1..]);
    }
  }

  /** compareTo is transitive, so `CompareTo(a, b) <= 0` is a total order. */
  lemma {:induction false} CompareToTransitive(a: string, b: string, c: string)
    requires CompareTo(a, b) <= 0 && CompareTo(b, c) <= 0
    ensures CompareTo(a, c) <= 0
  {
    if a != [] && b != [] && c != [] && a[0] == b[0] && b[0] == c[0] {
      CompareToTransitive(a[1..], b[1..], c[1..]);
    }
  }

  // ---------------------------------------------------------------- case

  /** `Character.toLowerCase` on ASCII letters; every other character is kept. */
  function ToLowerChar(c: char): char {
    if 'A' <= c <= 'Z' then ((c as int) + 32) as char else c
  }

  /** `String.toLowerCase`, ASCII letters only. */
  function ToLower(s: string): (r: string)
    ensures |r| == |s|
    ensures forall k :: 0 <= k < |s| ==> r[k] == ToLowerChar(s[k])
  {
    seq(|s|, k requires 0 <= k < |s| => ToLowerChar(s[k]))
  }

  /** `String.equalsIgnoreCase` with an ASCII case mapping: same length and
      each pair of characters equal once both are lower-cased. */
  predicate EqualsIgnoreCase(a: string, b: string) {
    |a| == |b| && forall k :: 0 <= k < |a| ==> ToLowerChar(a[k]) == ToLowerChar(b[k])
  }

  /** Case-insensitive equality is equality of the lower-cased strings. */
  lemma EqualsIgnoreCaseIsLowerEqual(a: string, b: string)
    ensures EqualsIgnoreCase(a, b) <==> ToLower(a) == ToLower(b)
  {
    if ToLower(a) == ToLower(b) {
      assert |a| == |b|;
      forall k | 0 <= k < |a| ensures ToLowerChar(a[k]) == ToLowerChar(b[k]) {
        assert ToLower(a)[k] == ToLower(b)[k];
      }
    }
  }
}
