/** The bytes that end a line. */
module Chars {
  predicate IsNewLine(c: char) {
    c == '\n' || c == '\r'
  }
}
