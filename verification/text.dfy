/** The string tests the services apply to request fields. */
module Text {
  import opened Wrappers

  /** The characters `char.IsWhiteSpace` accepts: the control characters
      U+0009 to U+000D and U+0085, the Unicode space separators (U+0020,
      U+00A0, U+1680, U+2000 to U+200A, U+202F, U+205F, U+3000), and the
      line and paragraph separators U+2028 and U+2029. */
  predicate IsWhiteSpace(c: char) {
    || c == ' ' || c == '\t' || c == '\n' || c == '\r' || c == '\U{000B}' || c == '\U{000C}'
    || c == '\U{0085}' || c == '\U{00A0}' || c == '\U{1680}'
    || ('\U{2000}' <= c <= '\U{200A}')
    || c == '\U{202F}' || c == '\U{205F}' || c == '\U{3000}'
    || c == '\U{2028}' || c == '\U{2029}'
  }

  /** Empty, or whitespace only. */
  predicate IsBlank(s: string) {
    forall i :: 0 <= i < |s| ==> IsWhiteSpace(s[i])
  }

  /** `string.IsNullOrWhiteSpace`: an absent value counts as blank. */
  predicate IsNullOrWhiteSpace(s: Option<string>) {
    s.None? || IsBlank(s.value)
  }

}
