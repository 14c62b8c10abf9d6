/**
 * The two string predicates the parser relies on: .NET's string.IsNullOrWhiteSpace (the
 * character set of char.IsWhiteSpace), and the NeedQuotes extension the resolver uses to
 * decide how an environment variable's value is wrapped. NeedQuotes is not part of this
 * model; it is taken to be HOCON's rule for unquoted strings (section "Unquoted strings"
 * of the HOCON specification): empty text, white space or a forbidden character needs quotes.
 */
module Strings {
  import opened Wrappers

  /** char.IsWhiteSpace: the Unicode space, line and paragraph separators and U+0009..U+000D, U+0085. */
  predicate IsWhiteSpaceChar(c: char) {
    || ('\U{0009}' <= c <= '\U{000D}')
    || c == '\U{0020}' || c == '\U{0085}' || c == '\U{00A0}' || c == '\U{1680}'
    || ('\U{2000}' <= c <= '\U{200A}')
    || c == '\U{2028}' || c == '\U{2029}' || c == '\U{202F}' || c == '\U{205F}' || c == '\U{3000}'
  }

  /** string.IsNullOrWhiteSpace, with None standing for null. */
  predicate IsNullOrWhiteSpace(s: Option<string>) {
    s.None? || forall i | 0 <= i < |s.value| :: IsWhiteSpaceChar(s.value[i])
  }

  /** The characters HOCON forbids in an unquoted string. */
  predicate IsForbiddenUnquoted(c: char) {
    c in "$\"{}[]:=,+#`^?!@*&\\"
  }

  predicate NeedQuotes(s: string) {
    |s| == 0 || exists i | 0 <= i < |s| :: IsWhiteSpaceChar(s[i]) || IsForbiddenUnquoted(s[i])
  }
}
