/**
  Character classes used by the JavaScript regular expressions the
  filter builds: line terminators (which `.` does not match), the
  whitespace class `\s`, and the case canonicalisation of the `i` flag,
  restricted to ASCII.
 */
module Chars {

  /** The four line terminators of ECMAScript; `.` matches every other character. */
  predicate IsLineTerminator(c: char) {
    c == '\n' || c == '\r' || c == '\U{2028}' || c == '\U{2029}'
  }

  /** The characters of the `\s` class: ECMAScript WhiteSpace and LineTerminator. */
  predicate IsSpace(c: char) {
    || c == '\t' || c == '\U{B}' || c == '\U{C}' || c == ' '
    || c == '\U{A0}' || c == '\U{1680}' || ('\U{2000}' <= c <= '\U{200A}')
    || c == '\U{202F}' || c == '\U{205F}' || c == '\U{3000}' || c == '\U{FEFF}'
    || IsLineTerminator(c)
  }

  /** ASCII case folding: upper-case letters map to lower case, all else is kept. */
  function Fold(c: char): (r: char)
    ensures 'A' <= c <= 'Z' ==> 'a' <= r <= 'z' && r as int - c as int == 32
    ensures !('A' <= c <= 'Z') ==> r == c
  {
    if 'A' <= c <= 'Z' then (c as int + 32) as char else c
  }

  /** Whether a pattern character `p` matches a text character `t`. */
  predicate CharEq(t: char, p: char, ignoreCase: bool) {
    if ignoreCase then Fold(t) == Fold(p) else t == p
  }

  /** Folds every character of a string. */
  function FoldString(s: string): (r: string)
    ensures |r| == |s|
    ensures forall i :: 0 <= i < |s| ==> r[i] == Fold(s[i])
  {
    seq(|s|, i requires 0 <= i < |s| => Fold(s[i]))
  }

  lemma FoldIdempotent(c: char)
    ensures Fold(Fold(c)) == Fold(c)
  {
  }

  /** Case-insensitive comparison is case-sensitive comparison of the folded characters. */
  lemma CharEqFolded(t: char, p: char)
    ensures CharEq(t, p, true) <==> CharEq(Fold(t), Fold(p), false)
  {
    FoldIdempotent(t);
    FoldIdempotent(p);
  }

  /** Folding never turns a line terminator into something else, or vice versa. */
  lemma FoldKeepsLineTerminator(c: char)
    ensures IsLineTerminator(Fold(c)) <==> IsLineTerminator(c)
  {
  }
}
