/**
 * Character classes and case mapping restricted to ASCII: the upper-casing of codes
 * and the case-insensitive, `\w`-based pattern of the product-link parser.
 */
module Ascii {

  predicate IsLowerLetter(c: char) {
    'a' <= c <= 'z'
  }

  /** `\w`: a letter, a digit or the underscore. */
  predicate IsWordChar(c: char) {
    'a' <= c <= 'z' || 'A' <= c <= 'Z' || '0' <= c <= '9' || c == '_'
  }

  /** Upper-case one character; everything but `a`..`z` is left alone. */
  function ToUpper(c: char): (u: char)
    ensures !IsLowerLetter(u)
    ensures IsLowerLetter(c) ==> 'A' <= u <= 'Z' && u as int - 'A' as int == c as int - 'a' as int
    ensures !IsLowerLetter(c) ==> u == c
    ensures IsWordChar(u) <==> IsWordChar(c)
  {
    if IsLowerLetter(c) then (c as int - 32) as char else c
  }

  /** The same character, or the same ASCII letter in the other case. */
  predicate SameIgnoringCase(x: char, y: char) {
    || x == y
    || (IsLowerLetter(x) && y as int == x as int - ('a' as int - 'A' as int))
    || (IsLowerLetter(y) && x as int == y as int - ('a' as int - 'A' as int))
  }

  /** Two characters upper-case alike exactly when they differ at most in ASCII letter case. */
  lemma ToUpperIgnoresCase(x: char, y: char)
    ensures ToUpper(x) == ToUpper(y) <==> SameIgnoringCase(x, y)
  {
    if IsLowerLetter(x) && IsLowerLetter(y) {
      assert ToUpper(x) == ToUpper(y) ==> x == y;
    }
  }

  /** Two texts of the same length that differ at most in the case of their ASCII letters. */
  predicate EqualIgnoringCase(a: string, b: string) {
    |a| == |b| && forall i :: 0 <= i < |a| ==> SameIgnoringCase(a[i], b[i])
  }

  /** No lower-case letter occurs. */
  predicate IsUpperCase(s: string) {
    forall i :: 0 <= i < |s| ==> !IsLowerLetter(s[i])
  }

  /** `String.prototype.toUpperCase` on the ASCII letters. */
  function Upper(s: string): (r: string)
    ensures |r| == |s|
    ensures forall i :: 0 <= i < |s| ==> r[i] == ToUpper(s[i])
    ensures IsUpperCase(r)
    ensures IsUpperCase(s) ==> r == s
  {
    seq(|s|, i requires 0 <= i < |s| => ToUpper(s[i]))
  }

  /** Two texts upper-case alike exactly when they differ at most in ASCII letter case. */
  lemma UpperIgnoresCase(a: string, b: string)
    ensures Upper(a) == Upper(b) <==> EqualIgnoringCase(a, b)
  {
    if |a| == |b| {
      forall i | 0 <= i < |a| ensures Upper(a)[i] == Upper(b)[i] <==> SameIgnoringCase(a[i], b[i]) {
        ToUpperIgnoresCase(a[i], b[i]);
      }
      if EqualIgnoringCase(a, b) {
        assert forall i :: 0 <= i < |a| ==> Upper(a)[i] == Upper(b)[i];
      }
    } else {
      assert |Upper(a)| != |Upper(b)|;
    }
  }
}
