/** The character classes of ctype.h in the C locale. */
module Chars {

  predicate IsUpper(ch: char) { 'A' <= ch <= 'Z' }
  predicate IsLower(ch: char) { 'a' <= ch <= 'z' }
  predicate IsDigit(ch: char) { '0' <= ch <= '9' }

  function ToLower(ch: char): char {
    if IsUpper(ch) then ch - 'A' + 'a' else ch
  }

  function ToUpper(ch: char): char {
    if IsLower(ch) then ch - 'a' + 'A' else ch
  }
}
