/**
  ASCII character classes and case mappings, as Python's `str` methods
  (`isspace`, `lower`, `upper`, `title`) treat ASCII text.  Characters
  outside ASCII are treated as uncased non-space characters.
 */
module Ascii {

  predicate IsUpper(c: char) { 'A' <= c <= 'Z' }

  predicate IsLower(c: char) { 'a' <= c <= 'z' }

  /** Python's "cased" characters, restricted to ASCII: the letters. */
  predicate IsLetter(c: char) { IsUpper(c) || IsLower(c) }

  /** Python's `str.isspace` on ASCII: TAB, LF, VT, FF, CR, the information
      separators 0x1C-0x1F, and SPACE. */
  predicate IsSpace(c: char) { '\t' <= c <= '\r' || '\U{1C}' <= c <= ' ' }

  function ToLower(c: char): (r: char)
    ensures IsLetter(r) == IsLetter(c)
    ensures !IsUpper(r)
    ensures !IsLetter(c) ==> r == c
  {
    if IsUpper(c) then (c as int + 32) as char else c
  }

  function ToUpper(c: char): (r: char)
    ensures IsLetter(r) == IsLetter(c)
    ensures !IsLower(r)
    ensures !IsLetter(c) ==> r == c
  {
    if IsLower(c) then (c as int - 32) as char else c
  }

  /** Changing case keeps the letter: both mappings agree after folding. */
  lemma CaseFoldInvariant(c: char)
    ensures ToLower(ToUpper(c)) == ToLower(c)
    ensures ToLower(ToLower(c)) == ToLower(c)
  {
  }

  /** A character is determined by its folded form and whether it is upper case. */
  lemma SameFoldSameCase(a: char, b: char)
    requires ToLower(a) == ToLower(b)
    requires IsUpper(a) == IsUpper(b)
    ensures a == b
  {
  }

  /** Python's `str.lower` on ASCII text. */
  function Lower(s: string): string
  {
    seq(|s|, i requires 0 <= i < |s| => ToLower(s[i]))
  }
}
