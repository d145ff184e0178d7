/**
 * Loader: building the candidate list from the word source. The source is
 * a sequence of whitespace-separated tokens, most common first; a token's
 * rank is its 1-based position among ALL tokens, also those of other lengths.
 */
module Loader {
  import opened Words

  /** The words of length `size` among `tokens`, in input order, each
      ranked by its position in the whole token sequence. */
  function Ranked(tokens: seq<string>, size: int): seq<Word>
    decreases |tokens|
  {
    if tokens == [] then []
    else
      var n := |tokens|;
      Ranked(tokens[..n - 1], size)
        + (if |tokens[n - 1]| == size then [Word(tokens[n - 1], n)] else [])
  }

  /** Every ranked word is the token at position rank - 1 and has length `size`. */
  ghost predicate RanksPointToTokens(words: seq<Word>, tokens: seq<string>, size: int) {
    forall k :: 0 <= k < |words| ==>
      1 <= words[k].rank <= |tokens| &&
      tokens[words[k].rank - 1] == words[k].str &&
      |words[k].str| == size
  }

  /** Ranks grow strictly along the list, so the list keeps the input order. */
  ghost predicate StrictlyIncreasingRanks(words: seq<Word>) {
    forall k, l :: 0 <= k < l < |words| ==> words[k].rank < words[l].rank
  }

  /** Every token of length `size` is kept, with its position as rank. */
  ghost predicate KeepsAllOfSize(words: seq<Word>, tokens: seq<string>, size: int) {
    forall j :: 0 <= j < |tokens| && |tokens[j]| == size ==> Word(tokens[j], j + 1) in words
  }

  /** Every ranked word is the token its rank points to, of length `size`. */
  lemma {:induction false} RankedPointsToTokens(tokens: seq<string>, size: int)
    ensures RanksPointToTokens(Ranked(tokens, size), tokens, size)
    decreases |tokens|
  {
    if tokens != [] {
      var n := |tokens|;
      var front := tokens[..n - 1];
      RankedPointsToTokens(front, size);
      var prev := Ranked(front, size);
      var r := Ranked(tokens, size);
      assert r == prev + (if |tokens[n - 1]| == size then [Word(tokens[n - 1], n)] else []);
      forall k | 0 <= k < |r|
        ensures 1 <= r[k].rank <= n && tokens[r[k].rank - 1] == r[k].str && |r[k].str| == size
      {
        if k < |prev| {
          assert r[k] == prev[k];
          assert tokens[prev[k].rank - 1] == front[prev[k].rank - 1];
        }
      }
    }
  }

  /** Ranks grow strictly along the ranked list. */
  lemma {:induction false} RankedIncreasing(tokens: seq<string>, size: int)
    ensures StrictlyIncreasingRanks(Ranked(tokens, size))
    ensures forall k :: 0 <= k < |Ranked(tokens, size)| ==> Ranked(tokens, size)[k].rank <= |tokens|
    decreases |tokens|
  {
    if tokens != [] {
      var n := |tokens|;
      var front := tokens[..n - 1];
      RankedIncreasing(front, size);
      var prev := Ranked(front, size);
      var r := Ranked(tokens, size);
      assert r == prev + (if |tokens[n - 1]| == size then [Word(tokens[n - 1], n)] else []);
      assert forall k :: 0 <= k < |prev| ==> r[k] == prev[k];
    }
  }

  /** No token of length `size` is dropped. */
  lemma {:induction false} RankedKeepsAll(tokens: seq<string>, size: int)
    ensures KeepsAllOfSize(Ranked(tokens, size), tokens, size)
    decreases |tokens|
  {
    if tokens != [] {
      var n := |tokens|;
      var front := tokens[..n - 1];
      RankedKeepsAll(front, size);
      var prev := Ranked(front, size);
      var r := Ranked(tokens, size);
      assert r == prev + (if |tokens[n - 1]| == size then [Word(tokens[n - 1], n)] else []);
      forall j | 0 <= j < n && |tokens[j]| == size
        ensures Word(tokens[j], j + 1) in r
      {
        if j < n - 1 {
          assert front[j] == tokens[j];
          assert Word(tokens[j], j + 1) in prev;
        } else {
          assert r[|r| - 1] == Word(tokens[j], j + 1);
        }
      }
    }
  }

  /**
   * Reads the tokens one by one and keeps those of length `size`, giving each
   * kept word as rank the running token counter.
   */
  method ReadAllWordsWithSize(tokens: seq<string>, size: int) returns (possibleWords: seq<Word>)
    ensures possibleWords == Ranked(tokens, size)
    ensures RanksPointToTokens(possibleWords, tokens, size)
    ensures StrictlyIncreasingRanks(possibleWords)
    ensures KeepsAllOfSize(possibleWords, tokens, size)
  {
    possibleWords := [];
    var rank := 1;
    while rank <= |tokens|
      invariant 1 <= rank <= |tokens| + 1
      invariant possibleWords == Ranked(tokens[..rank - 1], size)
    {
      var str := tokens[rank - 1];
      assert tokens[..rank][..rank - 1] == tokens[..rank - 1];
      if |str| == size {
        possibleWords := possibleWords + [Word(str, rank)];
      }
      rank := rank + 1;
    }
    assert tokens[..|tokens|] == tokens;
    RankedPointsToTokens(tokens, size);
    RankedIncreasing(tokens, size);
    RankedKeepsAll(tokens, size);
  }
}
