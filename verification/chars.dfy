/** Character classes of the JavaScript regular expressions the extension
    uses: `\w`, `\s`, `[A-Z]`, and the one line terminator this model
    recognises. */
module Chars {

  /** `\w`: ASCII letters, digits and underscore. */
  predicate IsWordChar(c: char) {
    ('a' <= c <= 'z') || ('A' <= c <= 'Z') || ('0' <= c <= '9') || c == '_'
  }

  /** `\s`, which is also the set `String.prototype.trim` removes: the
      ECMAScript WhiteSpace and LineTerminator characters. */
  predicate IsSpace(c: char) {
    || c == '\t' || c == '\n' || c == '\U{000B}' || c == '\U{000C}' || c == '\r'
    || c == ' ' || c == '\U{00A0}' || c == '\U{1680}'
    || ('\U{2000}' <= c <= '\U{200A}')
    || c == '\U{2028}' || c == '\U{2029}' || c == '\U{202F}' || c == '\U{205F}'
    || c == '\U{3000}' || c == '\U{FEFF}'
  }

  /** `[A-Z]` */
  predicate IsUpper(c: char) {
    'A' <= c <= 'Z'
  }

  /** `[a-z]`: the only word characters that `toUpperCase` changes. */
  predicate IsLower(c: char) {
    'a' <= c <= 'z'
  }

  /** `[a-zA-Z_]`: the first character of an identifier. */
  predicate IsIdentStart(c: char) {
    IsUpper(c) || IsLower(c) || c == '_'
  }

  /** The line break of a document. */
  predicate IsLineBreak(c: char) {
    c == '\n'
  }

  /** A non-empty run of word characters, such as an identifier the
      resolvers search for. */
  predicate IsWord(s: string) {
    |s| > 0 && forall i :: 0 <= i < |s| ==> IsWordChar(s[i])
  }

  lemma WordCharsAreNotSpaces(c: char)
    ensures IsWordChar(c) ==> !IsSpace(c)
    ensures IsLineBreak(c) ==> IsSpace(c)
  {
  }
}
