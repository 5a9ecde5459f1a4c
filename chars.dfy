/**
 * Character classes of Python's `re` module (str patterns, Unicode mode) and
 * the lower-case mapping of `str.lower`, restricted to the alphabet the
 * search engine's product descriptions are written in: ASCII, Latin-1 and
 * Cyrillic.
 */
module Chars {

  /** `\d`: a decimal digit (only the ASCII digits are modelled). */
  predicate IsDigit(c: char) {
    '0' <= c <= '9'
  }

  /** `\s`, and the characters `str.strip()` removes: exactly the characters
      for which `str.isspace()` holds. */
  predicate IsSpace(c: char) {
    || c == ' '
    || '\t' <= c <= '\r'
    || '\U{1c}' <= c <= '\U{1f}'
    || c == '\U{85}'
    || c == '\U{a0}'
    || c == '\U{1680}'
    || '\U{2000}' <= c <= '\U{200a}'
    || c == '\U{2028}'
    || c == '\U{2029}'
    || c == '\U{202f}'
    || c == '\U{205f}'
    || c == '\U{3000}'
  }

  /** `\w`: a letter, a digit, a numeric character such as the superscript
      `²`, or the underscore. */
  predicate IsWord(c: char) {
    || 'a' <= c <= 'z'
    || 'A' <= c <= 'Z'
    || IsDigit(c)
    || c == '_'
    || c == 'ª' || c == '²' || c == '³' || c == 'µ' || c == '¹' || c == 'º'
    || '¼' <= c <= '¾'
    || 'À' <= c <= 'Ö'
    || 'Ø' <= c <= 'ö'
    || 'ø' <= c <= 'ÿ'
    || '\U{400}' <= c <= '\U{481}'
    || '\U{48a}' <= c <= '\U{52f}'
  }

  /** `str.lower` on one character: ASCII, Latin-1 and basic Cyrillic capitals
      map to their small letters (`Ё` to `ё`); every other character is kept. */
  function Lower(c: char): (r: char)
    ensures IsDigit(r) <==> IsDigit(c)
    ensures IsSpace(r) <==> IsSpace(c)
    ensures IsWord(r) <==> IsWord(c)
  {
    if 'A' <= c <= 'Z' || ('À' <= c <= 'Þ' && c != '×') || '\U{410}' <= c <= '\U{42f}' then
      (c as int + 32) as char
    else if '\U{400}' <= c <= '\U{40f}' then
      (c as int + 80) as char
    else
      c
  }

  /** Lower-casing a second time changes nothing. */
  lemma LowerIdempotent(c: char)
    ensures Lower(Lower(c)) == Lower(c)
  {
  }
}
