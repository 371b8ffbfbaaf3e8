/** Character classes and case mapping of the ASCII range, as Python 3's `str`
    methods and its `re` module see them. Characters outside ASCII are treated
    as neither letters nor whitespace, and lower-casing leaves them alone. */
module Ascii {

  /** Whitespace for `str.split()` and for the regular-expression class `\s`:
      tab, line feed, vertical tab, form feed and carriage return (9 to 13), the
      four information separators (28 to 31), and the space itself (32). */
  predicate IsSpace(c: char) {
    9 <= c as int <= 13 || 28 <= c as int <= 32
  }

  predicate NotSpace(c: char) {
    !IsSpace(c)
  }

  predicate IsUpper(c: char) {
    'A' <= c <= 'Z'
  }

  predicate NotUpper(c: char) {
    !IsUpper(c)
  }

  predicate IsLower(c: char) {
    'a' <= c <= 'z'
  }

  /** A character of the class `[a-zA-Z]`. */
  predicate IsLetter(c: char) {
    IsUpper(c) || IsLower(c)
  }

  predicate IsLowerOrSpace(c: char) {
    IsLower(c) || IsSpace(c)
  }

  /** `str.lower()` on one ASCII character. */
  function Lower(c: char): (d: char)
    ensures !IsUpper(d)
    ensures IsLetter(d) <==> IsLetter(c)
    ensures IsSpace(d) <==> IsSpace(c)
    ensures !IsUpper(c) ==> d == c
    ensures IsUpper(c) ==> IsLower(d) && d as int - 'a' as int == c as int - 'A' as int
  {
    if IsUpper(c) then (c as int + 32) as char else c
  }

  /** `str.lower()` on a string: every character is lower-cased in place. */
  function LowerString(s: string): (r: string)
    ensures |r| == |s|
    ensures forall i | 0 <= i < |s| :: r[i] == Lower(s[i])
  {
    seq(|s|, i requires 0 <= i < |s| => Lower(s[i]))
  }
}
