/** The title gate of the add dialog: Kotlin's `String.isNotBlank`. */
module Titles {
  /** Kotlin's `Char.isWhitespace`: Java's `Character.isWhitespace` or
      `Character.isSpaceChar` (the Unicode space, line and paragraph
      separators, including the no-break spaces). */
  predicate IsWhitespace(c: char)
    ensures IsWhitespace(c) ==> !('0' <= c <= '9' || 'A' <= c <= 'Z' || 'a' <= c <= 'z')
    ensures IsWhitespace(c) ==> c <= '\U{3000}'
  {
    ('\t' <= c <= '\r') ||                 // tab, line feed, vertical tab, form feed, carriage return
    ('\U{1C}' <= c <= '\U{1F}') ||         // file, group, record and unit separators
    c == ' ' || c == '\U{A0}' || c == '\U{1680}' ||
    ('\U{2000}' <= c <= '\U{200A}') ||     // en quad .. hair space
    c == '\U{2028}' || c == '\U{2029}' ||  // line and paragraph separators
    c == '\U{202F}' || c == '\U{205F}' || c == '\U{3000}'
  }

  /** `CharSequence.isBlank`: empty, or whitespace only. */
  predicate IsBlank(s: string)
    ensures IsBlank(s) <==> forall i :: 0 <= i < |s| ==> IsWhitespace(s[i])
  {
    |s| == 0 || (IsWhitespace(s[0]) && IsBlank(s[1..]))
  }

  /** The confirm button's `enabled = title.isNotBlank()`. */
  predicate IsNotBlank(s: string)
    ensures IsNotBlank(s) <==> exists i :: 0 <= i < |s| && !IsWhitespace(s[i])
  {
    !IsBlank(s)
  }
}
