/**
  The character class of isspace in the C locale, section 7.4.1.10 of ISO/IEC 9899:2011.
 */
module CType {
  predicate IsSpace(c: char) {
    c == ' ' || c == '\t' || c == '\n' || c == '\r' || c == '\U{B}' || c == '\U{C}'
  }

  /** The blank and the five ASCII control characters from 9 to 13. */
  lemma SpaceCodes(c: char)
    ensures IsSpace(c) <==> c as int == 32 || 9 <= c as int <= 13
  {
  }
}
