/** Character classes the parameter parser scans for: Java's
    `Character.isJavaIdentifierStart` and `isJavaIdentifierPart`, restricted
    to ASCII.  On ASCII characters the two predicates agree with Java's;
    other characters are treated as neither. */
module Identifiers {

  /** A character that may begin a parameter name: a letter, `_` or `$`. */
  predicate IsIdentStart(c: char) {
    ('a' <= c <= 'z') || ('A' <= c <= 'Z') || c == '_' || c == '$'
  }

  /** An identifier-ignorable ASCII control character: U+0000 to U+0008,
      U+000E to U+001B, and U+007F.  Java counts these as identifier parts. */
  predicate IsIgnorable(c: char) {
    (c as int <= 8) || (14 <= c as int <= 27) || c as int == 127
  }

  /** A character that may continue a parameter name: a start character, a
      digit or an identifier-ignorable control character. */
  predicate IsIdentPart(c: char) {
    IsIdentStart(c) || ('0' <= c <= '9') || IsIgnorable(c)
  }

  /** A name the parser can recognise: non-empty, starting with a start
      character and made of part characters only. */
  predicate ValidName(n: string) {
    && |n| > 0
    && IsIdentStart(n[0])
    && forall k :: 0 <= k < |n| ==> IsIdentPart(n[k])
  }
}
