/** Character classes used by the normaliser: Python's `\w` for `str`
    patterns and `str.lower()`, both over ASCII and Latin-1. */
module Chars {

  /** Python's `\w` on a `str` pattern: `ch.isalnum() or ch == '_'`.
      Over Latin-1 that is the ASCII letters and digits, the underscore,
      ª ² ³ µ ¹ º ¼ ½ ¾ and the accented letters U+00C0..U+00FF except
      the signs × and ÷. */
  predicate IsWordChar(c: char) {
    ('a' <= c <= 'z') || ('A' <= c <= 'Z') || ('0' <= c <= '9') || c == '_'
    || c == '\U{AA}' || c == '\U{B2}' || c == '\U{B3}' || c == '\U{B5}'
    || c == '\U{B9}' || c == '\U{BA}' || ('\U{BC}' <= c <= '\U{BE}')
    || ('\U{C0}' <= c <= '\U{FF}' && c != '\U{D7}' && c != '\U{F7}')
  }

  /** Portuguese accented letters are word characters, so `\b` never falls
      inside a word such as "adição"; the operator symbols, parentheses, the
      space and punctuation are not, so they always end a word. */
  lemma WordCharClasses(c: char)
    ensures c in "áàâãéêíóôõúüç" || c in "ÁÀÂÃÉÊÍÓÔÕÚÜÇ" ==> IsWordChar(c)
    ensures c in "+-*/() .,?!" ==> !IsWordChar(c)
    ensures IsWordChar(c) ==> c as int <= 0xFF
  {
  }

  /** Upper-case letters of ASCII and Latin-1: A..Z and À..Þ without ×. */
  predicate IsUpper(c: char) {
    ('A' <= c <= 'Z') || ('\U{C0}' <= c <= '\U{DE}' && c != '\U{D7}')
  }

  predicate NoUpper(s: string) {
    forall k :: 0 <= k < |s| ==> !IsUpper(s[k])
  }

  /** `str.lower()` on one character: each upper-case letter of ASCII and
      Latin-1 sits exactly 0x20 below its lower-case form. */
  function LowerChar(c: char): (d: char)
    ensures !IsUpper(d)
    ensures IsWordChar(d) == IsWordChar(c)
    ensures !IsUpper(c) ==> d == c
  {
    if IsUpper(c) then (c as int + 0x20) as char else c
  }

  /** `str.lower()`: characters are mapped one at a time. */
  function Lower(s: string): (r: string)
    ensures |r| == |s|
    ensures NoUpper(r)
    ensures forall k :: 0 <= k < |s| ==> IsWordChar(r[k]) == IsWordChar(s[k])
    ensures NoUpper(s) ==> r == s
  {
    seq(|s|, k requires 0 <= k < |s| => LowerChar(s[k]))
  }

  lemma NoUpperAppend(a: string, b: string)
    ensures NoUpper(a + b) <==> NoUpper(a) && NoUpper(b)
  {
    if NoUpper(a + b) {
      forall k | 0 <= k < |a| ensures !IsUpper(a[k]) { assert a[k] == (a + b)[k]; }
      forall k | 0 <= k < |b| ensures !IsUpper(b[k]) { assert b[k] == (a + b)[k + |a|]; }
    }
  }
}
