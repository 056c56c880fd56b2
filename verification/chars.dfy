/** Character classes used by the title canonicaliser, as the regular expressions of
    ECMAScript (without the `u` flag) define them. */
module Chars {

  predicate IsAsciiUpper(c: char) {
    'A' <= c <= 'Z'
  }

  predicate IsAsciiLower(c: char) {
    'a' <= c <= 'z'
  }

  /** The class `[0-9]`. */
  predicate IsDigit(c: char) {
    '0' <= c <= '9'
  }

  predicate IsNotDigit(c: char) {
    !IsDigit(c)
  }

  /** The class `\w`: ASCII letters, ASCII digits and the underscore. */
  predicate IsWord(c: char) {
    IsAsciiUpper(c) || IsAsciiLower(c) || IsDigit(c) || c == '_'
  }

  /** The class `\s`: the WhiteSpace and LineTerminator code points of ECMAScript.
      `String.prototype.trim` strips exactly the same set. */
  predicate IsSpace(c: char) {
    || c == '\t' || c == '\n' || c == '\U{B}' || c == '\U{C}' || c == '\r'
    || c == ' ' || c == '\U{A0}' || c == '\U{1680}'
    || ('\U{2000}' <= c <= '\U{200A}')
    || c == '\U{2028}' || c == '\U{2029}' || c == '\U{202F}' || c == '\U{205F}'
    || c == '\U{3000}' || c == '\U{FEFF}'
  }

  /** What survives `[^\w\s]` removal. */
  predicate IsWordOrSpace(c: char) {
    IsWord(c) || IsSpace(c)
  }

  /** Lower-casing of one character, restricted to the ASCII letters. */
  function Lower(c: char): (r: char)
    ensures !IsAsciiUpper(r)
    ensures IsAsciiUpper(c) ==> IsAsciiLower(r) && r as int == c as int + 32
    ensures !IsAsciiUpper(c) ==> r == c
  {
    if IsAsciiUpper(c) then (c as int + ('a' as int - 'A' as int)) as char else c
  }
}
