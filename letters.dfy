/**
 * Letters: the mapping between characters and alphabetic indices
 * (0 for 'a' up to 25 for 'z') used to index the per-letter tables.
 * Characters are taken by their code point; the C locale's `tolower`
 * only changes 'A'..'Z'.
 */
module Letters {

  /** Number of letters in the alphabet, the size of every per-letter table. */
  const AlphabetSize: nat := 26

  predicate IsLower(ch: char) {
    'a' <= ch <= 'z'
  }

  predicate IsUpper(ch: char) {
    'A' <= ch <= 'Z'
  }

  /** A word that consists of lowercase letters only. */
  predicate IsLowerWord(s: string) {
    forall i :: 0 <= i < |s| ==> IsLower(s[i])
  }

  /** `std::tolower` in the C locale. */
  function ToLower(ch: char): (r: char)
    ensures IsUpper(ch) ==> IsLower(r) && r as int - 'a' as int == ch as int - 'A' as int
    ensures !IsUpper(ch) ==> r == ch
  {
    if IsUpper(ch) then (ch as int - 'A' as int + 'a' as int) as char else ch
  }

  /** Alphabetic index of a character: 'a' -> 0, 'b' -> 1, 'c' -> 2, case-insensitively. */
  function AlphabeticIndex(ch: char): (r: int)
    ensures IsLower(ch) ==> 0 <= r < AlphabetSize && r == ch as int - 'a' as int
    ensures IsUpper(ch) ==> 0 <= r < AlphabetSize && r == ch as int - 'A' as int
  {
    ToLower(ch) as int - 'a' as int
  }

  /** Converts an alphabetic index back to its lowercase letter: 0 -> 'a', 1 -> 'b', 2 -> 'c'. */
  function AlphabeticIndexToChar(i: int): (r: char)
    requires 0 <= i < AlphabetSize
    ensures IsLower(r)
    ensures r as int - 'a' as int == i
  {
    ('a' as int + i) as char
  }

  /** A lowercase letter has an index in 0..25 and converts back to itself. */
  lemma IndexRoundTrip(ch: char)
    requires IsLower(ch)
    ensures 0 <= AlphabeticIndex(ch) < AlphabetSize
    ensures AlphabeticIndexToChar(AlphabeticIndex(ch)) == ch
  {
  }

  /** Every index in 0..25 is the index of the letter it converts to. */
  lemma CharRoundTrip(i: int)
    requires 0 <= i < AlphabetSize
    ensures AlphabeticIndex(AlphabeticIndexToChar(i)) == i
  {
  }

  /** An uppercase letter has the index of its lowercase form. */
  lemma IndexIgnoresCase(ch: char)
    requires IsUpper(ch)
    ensures 0 <= AlphabeticIndex(ch) < AlphabetSize
    ensures AlphabeticIndex(ch) == AlphabeticIndex(ToLower(ch))
  {
  }

  /** Two lowercase letters with the same index are the same letter. */
  lemma IndexInjective(a: char, b: char)
    requires IsLower(a) && IsLower(b)
    requires AlphabeticIndex(a) == AlphabeticIndex(b)
    ensures a == b
  {
  }

  /** The examples of the header: 'a' -> 0, 'b' -> 1, 'c' -> 2 and back. */
  lemma HeaderExamples()
    ensures AlphabeticIndex('a') == 0 && AlphabeticIndex('b') == 1 && AlphabeticIndex('c') == 2
    ensures AlphabeticIndexToChar(0) == 'a' && AlphabeticIndexToChar(1) == 'b' && AlphabeticIndexToChar(2) == 'c'
  {
  }
}
