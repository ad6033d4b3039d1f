/** Character classes of Python's `re` module for `str` patterns. */
module CharClass {

  /** Python's `\s` (and `str.isspace()`, which agrees with it): the C0
      controls TAB..CR and FS..US, SPACE, NEL, the Unicode space separators
      (category Zs, NO-BREAK SPACE among them), and the line and paragraph
      separators U+2028 and U+2029. */
  predicate IsSpace(c: char) {
    || ('\t' <= c <= '\r')
    || ('\U{1C}' <= c <= '\U{1F}')
    || c == ' '
    || c == '\U{85}'
    || c == '\U{A0}'
    || c == '\U{1680}'
    || ('\U{2000}' <= c <= '\U{200A}')
    || c == '\U{2028}'
    || c == '\U{2029}'
    || c == '\U{202F}'
    || c == '\U{205F}'
    || c == '\U{3000}'
  }

  /** Python's `\w`: `str.isalnum()` or `_`. Exact up to U+00FF; above it a
      character counts as a word character unless it is whitespace or lies in
      the General Punctuation block. */
  predicate IsWord(c: char) {
    || ('a' <= c <= 'z')
    || ('A' <= c <= 'Z')
    || ('0' <= c <= '9')
    || c == '_'
    || c == '\U{AA}' || c == '\U{B2}' || c == '\U{B3}' || c == '\U{B5}'
    || c == '\U{B9}' || c == '\U{BA}'
    || ('\U{BC}' <= c <= '\U{BE}')
    || ('\U{C0}' <= c <= '\U{D6}')
    || ('\U{D8}' <= c <= '\U{F6}')
    || ('\U{F8}' <= c <= '\U{FF}')
    || ('\U{FF}' < c && !IsSpace(c) && !('\U{2000}' <= c <= '\U{206F}'))
  }

  /** One of the sentence-ending marks `.`, `?`, `!`. */
  predicate IsTerminal(c: char) {
    c == '.' || c == '?' || c == '!'
  }
}
