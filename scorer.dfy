/**
 * Scorer: choosing the next letter to guess. Every candidate adds 1/rank to
 * the score of each letter it shows in at least one unknown slot ('\0' in
 * the pattern), once per word; letters already guessed score nothing. The
 * letter with the first maximal score in alphabetic order is proposed.
 * Scores are exact rationals here, where the source uses `double`.
 */
module Scorer {
  import opened Letters
  import opened Words

  /** What the scorer needs of a candidate list: every word covers the
      pattern, has a positive rank and holds a letter at each unknown slot. */
  predicate Scorable(list: seq<Word>, current: seq<char>) {
    forall m :: 0 <= m < |list| ==>
      |current| <= |list[m].str| && list[m].rank >= 1 &&
      forall i :: 0 <= i < |current| && current[i] == '\0' ==>
        0 <= AlphabeticIndex(list[m].str[i]) < AlphabetSize
  }

  /** Some unknown slot before `j` holds, in `s`, the letter with index `k`. */
  predicate OccursUnknown(s: string, current: seq<char>, j: int, k: int)
    requires 0 <= j <= |current| <= |s|
    decreases j
  {
    j > 0 &&
    (OccursUnknown(s, current, j - 1, k) ||
     (current[j - 1] == '\0' && AlphabeticIndex(s[j - 1]) == k))
  }

  /** What one candidate adds to the score of letter `k`: 1/rank at most once. */
  function Weight(w: Word, guessed: seq<bool>, current: seq<char>, k: int): real
    requires |current| <= |w.str| && w.rank >= 1
    requires 0 <= k < AlphabetSize == |guessed|
  {
    if !guessed[k] && OccursUnknown(w.str, current, |current|, k) then 1.0 / (w.rank as real) else 0.0
  }

  /** The score of letter `k`: the sum of the weights of all candidates. */
  function Score(list: seq<Word>, guessed: seq<bool>, current: seq<char>, k: int): real
    requires Scorable(list, current)
    requires 0 <= k < AlphabetSize == |guessed|
    decreases |list|
  {
    if list == [] then 0.0
    else
      var n := |list|;
      Score(list[..n - 1], guessed, current, k) + Weight(list[n - 1], guessed, current, k)
  }

  /** `k` is the first letter, in alphabetic order, with the highest score. */
  ghost predicate IsFirstMax(list: seq<Word>, guessed: seq<bool>, current: seq<char>, k: int)
    requires Scorable(list, current) && |guessed| == AlphabetSize
  {
    0 <= k < AlphabetSize &&
    (forall j :: 0 <= j < AlphabetSize ==> Score(list, guessed, current, j) <= Score(list, guessed, current, k)) &&
    (forall j :: 0 <= j < k ==> Score(list, guessed, current, j) < Score(list, guessed, current, k))
  }

  /** The recursive occurrence test means: some unknown slot before `j` holds letter `k`. */
  lemma {:induction false} OccursUnknownMeans(s: string, current: seq<char>, j: int, k: int)
    requires 0 <= j <= |current| <= |s|
    ensures OccursUnknown(s, current, j, k) <==>
            exists i :: 0 <= i < j && current[i] == '\0' && AlphabeticIndex(s[i]) == k
    decreases j
  {
    if j > 0 {
      OccursUnknownMeans(s, current, j - 1, k);
    }
  }

  /** Scores are never negative. */
  lemma {:induction false} ScoreNonNegative(list: seq<Word>, guessed: seq<bool>, current: seq<char>, k: int)
    requires Scorable(list, current)
    requires 0 <= k < AlphabetSize == |guessed|
    ensures Score(list, guessed, current, k) >= 0.0
    decreases |list|
  {
    if list != [] {
      ScoreNonNegative(list[..|list| - 1], guessed, current, k);
    }
  }

  /** A letter already guessed scores zero. */
  lemma {:induction false} GuessedScoresZero(list: seq<Word>, guessed: seq<bool>, current: seq<char>, k: int)
    requires Scorable(list, current)
    requires 0 <= k < AlphabetSize == |guessed|
    requires guessed[k]
    ensures Score(list, guessed, current, k) == 0.0
    decreases |list|
  {
    if list != [] {
      GuessedScoresZero(list[..|list| - 1], guessed, current, k);
    }
  }

  /** An unguessed letter that some candidate shows in an unknown slot has a positive score. */
  lemma {:induction false} ShownLetterScores(list: seq<Word>, guessed: seq<bool>, current: seq<char>, m: int, i: int)
    requires Scorable(list, current) && |guessed| == AlphabetSize
    requires 0 <= m < |list| && 0 <= i < |current| && current[i] == '\0'
    requires !guessed[AlphabeticIndex(list[m].str[i])]
    ensures Score(list, guessed, current, AlphabeticIndex(list[m].str[i])) > 0.0
    decreases |list|
  {
    var k := AlphabeticIndex(list[m].str[i]);
    var n := |list|;
    ScoreNonNegative(list[..n - 1], guessed, current, k);
    if m < n - 1 {
      assert list[..n - 1][m] == list[m];
      ShownLetterScores(list[..n - 1], guessed, current, m, i);
    } else {
      OccursUnknownMeans(list[m].str, current, |current|, k);
    }
  }

  /** A letter with a positive score is unguessed and shown by some candidate in an unknown slot. */
  lemma {:induction false} ScoringLetterIsShown(list: seq<Word>, guessed: seq<bool>, current: seq<char>, k: int)
    requires Scorable(list, current)
    requires 0 <= k < AlphabetSize == |guessed|
    requires Score(list, guessed, current, k) > 0.0
    ensures !guessed[k]
    ensures exists m, i :: 0 <= m < |list| && 0 <= i < |current| && current[i] == '\0' &&
                           AlphabeticIndex(list[m].str[i]) == k
    decreases |list|
  {
    var n := |list|;
    var last := list[n - 1];
    if !guessed[k] && OccursUnknown(last.str, current, |current|, k) {
      OccursUnknownMeans(last.str, current, |current|, k);
      var i :| 0 <= i < |current| && current[i] == '\0' && AlphabeticIndex(last.str[i]) == k;
      assert 0 <= n - 1 < |list| && list[n - 1].str[i] == last.str[i];
    } else {
      ScoringLetterIsShown(list[..n - 1], guessed, current, k);
      var m, i :| 0 <= m < n - 1 && 0 <= i < |current| && current[i] == '\0' &&
                  AlphabeticIndex(list[..n - 1][m].str[i]) == k;
      assert list[..n - 1][m] == list[m];
    }
  }

  /** The first maximum is unique: the scores determine the proposal. */
  lemma FirstMaxUnique(list: seq<Word>, guessed: seq<bool>, current: seq<char>, k1: int, k2: int)
    requires Scorable(list, current) && |guessed| == AlphabetSize
    requires IsFirstMax(list, guessed, current, k1) && IsFirstMax(list, guessed, current, k2)
    ensures k1 == k2
  {
    assert Score(list, guessed, current, k1) == Score(list, guessed, current, k2);
  }

  /** With all scores zero the first maximum is 'a'. */
  lemma AllZeroPicksA(list: seq<Word>, guessed: seq<bool>, current: seq<char>, k: int)
    requires Scorable(list, current) && |guessed| == AlphabetSize
    requires forall j :: 0 <= j < AlphabetSize ==> Score(list, guessed, current, j) == 0.0
    requires IsFirstMax(list, guessed, current, k)
    ensures k == 0
  {
    assert Score(list, guessed, current, 0) == Score(list, guessed, current, k);
  }

  /**
   * While some candidate shows an unguessed letter in an unknown slot, the
   * proposal is an unguessed letter that some candidate shows in an unknown slot.
   */
  lemma ProposalIsFresh(list: seq<Word>, guessed: seq<bool>, current: seq<char>, k: int, m: int, i: int)
    requires Scorable(list, current) && |guessed| == AlphabetSize
    requires IsFirstMax(list, guessed, current, k)
    requires 0 <= m < |list| && 0 <= i < |current| && current[i] == '\0'
    requires !guessed[AlphabeticIndex(list[m].str[i])]
    ensures !guessed[k]
    ensures exists m', i' :: 0 <= m' < |list| && 0 <= i' < |current| && current[i'] == '\0' &&
                             AlphabeticIndex(list[m'].str[i']) == k
  {
    ShownLetterScores(list, guessed, current, m, i);
    ScoringLetterIsShown(list, guessed, current, k);
  }

  /**
   * Proposes the most likely letter: adds each candidate's 1/rank into a
   * 26-entry score table, at most once per letter and word, then scans the
   * table for its first maximum.
   */
  method GetMostLikelyLetter(list: seq<Word>, alreadyGuessed: seq<bool>, current: seq<char>) returns (ch: char)
    requires |alreadyGuessed| == AlphabetSize
    requires Scorable(list, current)
    ensures IsLower(ch)
    ensures IsFirstMax(list, alreadyGuessed, current, AlphabeticIndex(ch))
  {
    var words := new real[AlphabetSize](_ => 0.0);
    var n := 0;
    while n < |list|
      invariant 0 <= n <= |list|
      invariant forall k :: 0 <= k < AlphabetSize ==> words[k] == Score(list[..n], alreadyGuessed, current, k)
    {
      var word := list[n];
      var charsInThisWord := new bool[AlphabetSize](_ => false);
      var i := 0;
      while i != |current|
        invariant 0 <= i <= |current|
        invariant forall k :: 0 <= k < AlphabetSize ==>
          charsInThisWord[k] == (!alreadyGuessed[k] && OccursUnknown(word.str, current, i, k))
        invariant forall k :: 0 <= k < AlphabetSize ==>
          words[k] == Score(list[..n], alreadyGuessed, current, k) +
                      (if charsInThisWord[k] then 1.0 / (word.rank as real) else 0.0)
      {
        if current[i] == '\0' {
          var charIndex := AlphabeticIndex(word.str[i]);
          if !alreadyGuessed[charIndex] && !charsInThisWord[charIndex] {
            words[charIndex] := words[charIndex] + 1.0 / (word.rank as real);
            charsInThisWord[charIndex] := true;
          }
        }
        i := i + 1;
      }
      assert list[..n + 1][..n] == list[..n];
      n := n + 1;
    }
    assert list[..|list|] == list;
    var best := 0;
    var k := 1;
    while k < AlphabetSize
      invariant 1 <= k <= AlphabetSize
      invariant 0 <= best < k
      invariant forall j :: 0 <= j < k ==> words[j] <= words[best]
      invariant forall j :: 0 <= j < best ==> words[j] < words[best]
    {
      if words[best] < words[k] {
        best := k;
      }
      k := k + 1;
    }
    ch := AlphabeticIndexToChar(best);
  }
}
