/** The character classes of the block and argument patterns, for the two
    block syntaxes: the current fenced one (```` ```genhtml ````, in
    genhtml/genhtml.py) and the legacy one (`::genhtml::`, in genhtml.py). */
module Grammar {

  datatype Dialect = Current | Legacy

  predicate IsAsciiLetter(c: char) { 'a' <= c <= 'z' || 'A' <= c <= 'Z' }

  predicate IsDigit(c: char) { '0' <= c <= '9' }

  /** `\w`, on ASCII. */
  predicate IsWordChar(c: char) { IsAsciiLetter(c) || IsDigit(c) || c == '_' }

  /** `[\w-]`: the characters of an option name. */
  predicate IsFieldChar(c: char) { IsWordChar(c) || c == '-' }

  /** The characters of an option value: `[a-zA-Z0-9,+_-]` now,
      `[a-zA-Z0-9,]` in the legacy syntax. */
  predicate IsValueChar(d: Dialect, c: char) {
    IsAsciiLetter(c) || IsDigit(c) || c == ','
    || (d == Current && (c == '+' || c == '_' || c == '-'))
  }

  /** The characters of the argument part of an opening line:
      `[=\w'" +,_-]` now, `[=\w'" -]` in the legacy syntax. */
  predicate IsArgChar(d: Dialect, c: char) {
    c == '=' || IsWordChar(c) || c == '\'' || c == '"' || c == ' ' || c == '-'
    || (d == Current && (c == '+' || c == ','))
  }

  /** Option values never hold a quote, a space or an equals sign. */
  lemma ValueCharIsPlain(d: Dialect, c: char)
    requires IsValueChar(d, c)
    ensures c != '"' && c != '\'' && c != ' ' && c != '=' && IsArgChar(Current, c)
  {
  }
}
