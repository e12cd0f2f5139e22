/** White space in JavaScript texts (sections 12.2 and 12.3 of ECMA-262). */
module WhiteSpace {

  /** The characters the \s class matches, which are also the ones trim removes. */
  predicate IsSpace(c: char) {
    || c in {'\t', '\n', '\r', ' '}
    || c in {'\U{000B}', '\U{000C}', '\U{00A0}', '\U{1680}', '\U{2028}', '\U{2029}',
             '\U{202F}', '\U{205F}', '\U{3000}', '\U{FEFF}'}
    || '\U{2000}' <= c <= '\U{200A}'
  }
}
