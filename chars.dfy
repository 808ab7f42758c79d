/** Character classes used by the misspeller: the vowel/consonant partition of the
    ASCII letters, the case and digit tests of Python's str methods restricted to ASCII,
    and Python's whitespace set. */
module Chars {

  predicate IsLower(c: char) { 'a' <= c <= 'z' }

  predicate IsUpper(c: char) { 'A' <= c <= 'Z' }

  /** str.isalpha on one character, ASCII letters only */
  predicate IsAlpha(c: char) { IsLower(c) || IsUpper(c) }

  predicate IsDigit(c: char) { '0' <= c <= '9' }

  /** str.lower on one ASCII character */
  function Lower(c: char): (r: char)
    ensures IsUpper(c) ==> IsLower(r) && r as int == c as int + 32
    ensures !IsUpper(c) ==> r == c
  {
    if IsUpper(c) then (c as int + 32) as char else c
  }

  function LowerString(s: string): (r: string)
    ensures |r| == |s|
    ensures forall i :: 0 <= i < |s| ==> r[i] == Lower(s[i])
  {
    if s == [] then [] else [Lower(s[0])] + LowerString(s[1..])
  }

  /** The vowels "aeiou", matched case-insensitively */
  predicate IsVowel(c: char) { Lower(c) in {'a', 'e', 'i', 'o', 'u'} }

  /** The 21 remaining letters "bcdfghjklmnpqrstvwxyz", matched case-insensitively */
  predicate IsConsonant(c: char) { IsAlpha(c) && !IsVowel(c) }

  /** The three classes the word splitter separates runs by */
  datatype Kind = Vowel | Consonant | Other

  function KindOf(c: char): (k: Kind)
    ensures k == Vowel <==> IsVowel(c)
    ensures k == Consonant <==> IsConsonant(c)
    ensures k == Other <==> !IsAlpha(c)
  {
    if IsVowel(c) then Vowel else if IsConsonant(c) then Consonant else Other
  }

  /** Python's str.isspace / regex \s on one character */
  predicate IsSpace(c: char) {
    c in {' ', '\t', '\n', '\U{B}', '\U{C}', '\r', '\U{1C}', '\U{1D}', '\U{1E}', '\U{1F}',
          '\U{85}', '\U{A0}', '\U{1680}', '\U{2028}', '\U{2029}', '\U{202F}', '\U{205F}', '\U{3000}'}
    || '\U{2000}' <= c <= '\U{200A}'
  }

  /** str.isspace on a whole string: non-empty and all whitespace */
  predicate IsSpaceString(s: string) {
    |s| > 0 && forall i :: 0 <= i < |s| ==> IsSpace(s[i])
  }

  /** The punctuation set that _can_swap lets trade places */
  const Punctuation: string := "!@#$%^&*()_-+=[]{}\\|;:'\",.<>/?`~"

  /** Membership in Punctuation, decided by code point: the set is the 32 ASCII marks */
  predicate IsMark(c: char)
  {
    '!' <= c <= '/' || ':' <= c <= '@' || '[' <= c <= '`' || '{' <= c <= '~'
  }

  lemma MarkIsPunctuation(c: char)
    ensures IsMark(c) <==> c in Punctuation
  {
  }
}
