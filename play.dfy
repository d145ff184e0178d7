/**
 * Play: one game of the computer guessing the player's word. The state is the
 * candidate list, the revealed pattern `guess` ('\0' at unknown slots), the
 * two counters and the table of letters confirmed by a hit. A round checks
 * whether the game is over, proposes a letter and applies the player's answer.
 */
module Play {
  import opened Letters
  import opened Words
  import opened Loader
  import opened Filters
  import opened Scorer
  import opened Indexes
  import opened GameState

  /** The largest word length the player may choose. */
  const MaxWordSize: nat := 50

  /** The number of revealed slots of a pattern. */
  function KnownCount(s: seq<char>): (n: nat)
    ensures n <= |s|
    decreases |s|
  {
    if s == [] then 0
    else KnownCount(s[..|s| - 1]) + (if s[|s| - 1] != '\0' then 1 else 0)
  }

  /** The pattern `s` with every slot in `pos` set to `c`. */
  function Fill(s: seq<char>, pos: set<int>, c: char): seq<char> {
    seq(|s|, i requires 0 <= i < |s| => if i in pos then c else s[i])
  }

  /** A pattern with no slot revealed counts zero revealed slots. */
  lemma {:induction false} KnownCountNone(s: seq<char>)
    requires forall i :: 0 <= i < |s| ==> s[i] == '\0'
    ensures KnownCount(s) == 0
    decreases |s|
  {
    if s != [] {
      KnownCountNone(s[..|s| - 1]);
    }
  }

  /** All slots are revealed exactly when the count reaches the length. */
  lemma {:induction false} AllKnownMeans(s: seq<char>)
    ensures KnownCount(s) == |s| <==> forall i :: 0 <= i < |s| ==> s[i] != '\0'
    decreases |s|
  {
    if s != [] {
      var n := |s|;
      AllKnownMeans(s[..n - 1]);
      assert forall i :: 0 <= i < n - 1 ==> s[..n - 1][i] == s[i];
    }
  }

  /** The slots of `pos` below `n`. */
  ghost function SlotsBelow(pos: set<int>, n: int): set<int> {
    set p | p in pos && 0 <= p < n
  }

  /** Filling unknown slots adds one revealed slot per filled slot inside the pattern. */
  lemma {:induction false} KnownCountFillBelow(s: seq<char>, pos: set<int>, c: char)
    requires c != '\0'
    requires forall p :: p in pos && 0 <= p < |s| ==> s[p] == '\0'
    ensures KnownCount(Fill(s, pos, c)) == KnownCount(s) + |SlotsBelow(pos, |s|)|
    decreases |s|
  {
    if s == [] {
      assert SlotsBelow(pos, 0) == {};
    } else {
      var n := |s|;
      var front := s[..n - 1];
      KnownCountFillBelow(front, pos, c);
      assert Fill(s, pos, c)[..n - 1] == Fill(front, pos, c);
      if n - 1 in pos {
        assert SlotsBelow(pos, n) == SlotsBelow(pos, n - 1) + {n - 1};
      } else {
        assert SlotsBelow(pos, n) == SlotsBelow(pos, n - 1);
      }
    }
  }

  /** Filling a set of unknown slots with a letter adds the size of the set. */
  lemma KnownCountFill(s: seq<char>, pos: set<int>, c: char)
    requires c != '\0'
    requires forall p :: p in pos ==> 0 <= p < |s| && s[p] == '\0'
    ensures KnownCount(Fill(s, pos, c)) == KnownCount(s) + |pos|
  {
    KnownCountFillBelow(s, pos, c);
    assert SlotsBelow(pos, |s|) == pos;
  }

  /**
   * A candidate agrees with everything revealed so far: it is a lowercase word
   * of the pattern's length with a positive rank, it has the revealed letter at
   * every revealed slot, and at every unknown slot a letter that neither a hit
   * nor a miss has named.
   */
  ghost predicate Consistent(w: Word, guess: seq<char>, alreadyGuessed: seq<bool>, missed: set<char>)
    requires |alreadyGuessed| == AlphabetSize
  {
    |w.str| == |guess| && w.rank >= 1 && IsLowerWord(w.str) &&
    forall i :: 0 <= i < |guess| ==>
      if guess[i] != '\0' then w.str[i] == guess[i]
      else !alreadyGuessed[AlphabeticIndex(w.str[i])] && w.str[i] !in missed
  }

  /** A candidate that survives a hit agrees with the pattern after the hit. */
  lemma HitKeepsConsistent(w: Word, guess: seq<char>, alreadyGuessed: seq<bool>, missed: set<char>,
                           c: char, pos: set<int>)
    requires |alreadyGuessed| == AlphabetSize && IsLower(c)
    requires Consistent(w, guess, alreadyGuessed, missed)
    requires Fits(w, Hit(c, pos))
    ensures Consistent(w, Fill(guess, pos, c), alreadyGuessed[AlphabeticIndex(c) := true], missed)
  {
    var guess' := Fill(guess, pos, c);
    var guessed' := alreadyGuessed[AlphabeticIndex(c) := true];
    forall i | 0 <= i < |guess'| && guess'[i] == '\0'
      ensures !guessed'[AlphabeticIndex(w.str[i])]
    {
      assert w.str[i] != c;
      if AlphabeticIndex(w.str[i]) == AlphabeticIndex(c) {
        IndexInjective(w.str[i], c);
      }
    }
  }

  /** A candidate that survives a miss agrees with the history after the miss. */
  lemma MissKeepsConsistent(w: Word, guess: seq<char>, alreadyGuessed: seq<bool>, missed: set<char>, c: char)
    requires |alreadyGuessed| == AlphabetSize
    requires Consistent(w, guess, alreadyGuessed, missed)
    requires Fits(w, Miss(c))
    ensures Consistent(w, guess, alreadyGuessed, missed + {c})
  {
    forall i | 0 <= i < |guess| && guess[i] == '\0' ensures w.str[i] != c {
      assert w.str[i] in w.str;
    }
  }

  /** Every candidate of `list` agrees with the history. */
  ghost predicate AllConsistent(list: seq<Word>, guess: seq<char>, alreadyGuessed: seq<bool>, missed: set<char>)
    requires |alreadyGuessed| == AlphabetSize
  {
    forall m :: 0 <= m < |list| ==> Consistent(list[m], guess, alreadyGuessed, missed)
  }

  /** Every survivor of a hit agrees with the pattern after the hit. */
  lemma HitKeepsAllConsistent(list: seq<Word>, survivors: seq<Word>, guess: seq<char>,
                              alreadyGuessed: seq<bool>, missed: set<char>, c: char, pos: set<int>)
    requires |alreadyGuessed| == AlphabetSize && IsLower(c)
    requires AllConsistent(list, guess, alreadyGuessed, missed)
    requires survivors == Survivors(list, Hit(c, pos))
    ensures AllConsistent(survivors, Fill(guess, pos, c), alreadyGuessed[AlphabeticIndex(c) := true], missed)
  {
    SurvivorsMembers(list, Hit(c, pos));
    forall m | 0 <= m < |survivors|
      ensures Consistent(survivors[m], Fill(guess, pos, c), alreadyGuessed[AlphabeticIndex(c) := true], missed)
    {
      var w := survivors[m];
      assert w in survivors;
      var m0 :| 0 <= m0 < |list| && list[m0] == w;
      HitKeepsConsistent(w, guess, alreadyGuessed, missed, c, pos);
    }
  }

  /** Every survivor of a miss agrees with the history after the miss. */
  lemma MissKeepsAllConsistent(list: seq<Word>, survivors: seq<Word>, guess: seq<char>,
                               alreadyGuessed: seq<bool>, missed: set<char>, c: char)
    requires |alreadyGuessed| == AlphabetSize
    requires AllConsistent(list, guess, alreadyGuessed, missed)
    requires survivors == Survivors(list, Miss(c))
    ensures AllConsistent(survivors, guess, alreadyGuessed, missed + {c})
  {
    SurvivorsMembers(list, Miss(c));
    forall m | 0 <= m < |survivors|
      ensures Consistent(survivors[m], guess, alreadyGuessed, missed + {c})
    {
      var w := survivors[m];
      assert w in survivors;
      var m0 :| 0 <= m0 < |list| && list[m0] == w;
      MissKeepsConsistent(w, guess, alreadyGuessed, missed, c);
    }
  }

  /**
   * The game invariant over the state's values: a pattern of a legal length
   * holding letters and unknown slots, a 26-entry guessed table, the counter
   * equal to the number of revealed slots, and every candidate consistent.
   */
  ghost predicate Invariant(possibleWords: seq<Word>, guess: seq<char>, alreadyGuessed: seq<bool>,
                            correctGuessCount: nat, missed: set<char>)
  {
    1 <= |guess| <= MaxWordSize &&
    |alreadyGuessed| == AlphabetSize &&
    (forall i :: 0 <= i < |guess| ==> guess[i] == '\0' || IsLower(guess[i])) &&
    correctGuessCount == KnownCount(guess) &&
    AllConsistent(possibleWords, guess, alreadyGuessed, missed)
  }

  /** A hit at unknown slots keeps the invariant. */
  lemma HitKeepsInvariant(list: seq<Word>, guess: seq<char>, alreadyGuessed: seq<bool>,
                          correctGuessCount: nat, missed: set<char>, c: char, pos: set<int>)
    requires Invariant(list, guess, alreadyGuessed, correctGuessCount, missed) && IsLower(c)
    requires forall p :: p in pos ==> 0 <= p < |guess| && guess[p] == '\0'
    ensures Invariant(Survivors(list, Hit(c, pos)), Fill(guess, pos, c),
                      alreadyGuessed[AlphabeticIndex(c) := true], correctGuessCount + |pos|, missed)
  {
    KnownCountFill(guess, pos, c);
    HitKeepsAllConsistent(list, Survivors(list, Hit(c, pos)), guess, alreadyGuessed, missed, c, pos);
  }

  /** A miss keeps the invariant. */
  lemma MissKeepsInvariant(list: seq<Word>, guess: seq<char>, alreadyGuessed: seq<bool>,
                           correctGuessCount: nat, missed: set<char>, c: char)
    requires Invariant(list, guess, alreadyGuessed, correctGuessCount, missed)
    ensures Invariant(Survivors(list, Miss(c)), guess, alreadyGuessed, correctGuessCount, missed + {c})
  {
    MissKeepsAllConsistent(list, Survivors(list, Miss(c)), guess, alreadyGuessed, missed, c);
  }

  /** Writes `c` into every slot of `pos`, in ascending slot order. */
  method Reveal(guess: seq<char>, pos: set<int>, c: char) returns (revealed: seq<char>)
    requires forall p :: p in pos ==> 0 <= p < |guess|
    ensures revealed == Fill(guess, pos, c)
  {
    revealed := guess;
    for i := 0 to |guess|
      invariant |revealed| == |guess|
      invariant forall j :: 0 <= j < |guess| ==> revealed[j] == if j < i && j in pos then c else guess[j]
    {
      if i in pos {
        revealed := revealed[i := c];
      }
    }
  }

  class Game {
    /** The wrong-guess budget: the number of gallows frames after the first. */
    const maxGuess: nat
    var possibleWords: seq<Word>
    var guess: seq<char>
    var wrongGuessCount: nat
    var correctGuessCount: nat
    /** Per alphabetic index: confirmed by a hit. Misses are not recorded here. */
    var alreadyGuessed: seq<bool>
    /** The letters the player has answered as misses. */
    ghost var missed: set<char>

    /** The game invariant. */
    ghost predicate Valid()
      reads this
    {
      Invariant(possibleWords, guess, alreadyGuessed, correctGuessCount, missed)
    }

    /** The wrong guesses have not gone past the budget. */
    ghost predicate WithinBudget()
      reads this
    {
      wrongGuessCount <= maxGuess
    }

    /**
     * Starts a game on words of length `size` read from `tokens`, with an
     * empty pattern, zero counters and no letter guessed.
     */
    constructor (tokens: seq<string>, size: int, maxGuess: nat)
      requires 1 <= size <= MaxWordSize
      requires forall j :: 0 <= j < |tokens| && |tokens[j]| == size ==> IsLowerWord(tokens[j])
      ensures Valid() && WithinBudget()
      ensures this.maxGuess == maxGuess
      ensures possibleWords == Ranked(tokens, size)
      ensures guess == seq(size, _ => '\0')
      ensures wrongGuessCount == 0 && correctGuessCount == 0
      ensures alreadyGuessed == seq(AlphabetSize, _ => false) && missed == {}
    {
      var words := ReadAllWordsWithSize(tokens, size);
      this.maxGuess := maxGuess;
      possibleWords := words;
      guess := seq(size, _ => '\0');
      wrongGuessCount, correctGuessCount := 0, 0;
      alreadyGuessed := seq(AlphabetSize, _ => false);
      missed := {};
      new;
      KnownCountNone(guess);
      forall m | 0 <= m < |possibleWords|
        ensures Consistent(possibleWords[m], guess, alreadyGuessed, missed)
      {
        assert tokens[possibleWords[m].rank - 1] == possibleWords[m].str;
      }
    }

    /**
     * The start of a round: the termination check and, while the game goes
     * on, the letter the computer proposes (`'\0'` once the game is over).
     */
    method Propose() returns (state: ReturnCode, chGuess: char)
      requires Valid()
      ensures state == CheckGameState(possibleWords, guess, wrongGuessCount, correctGuessCount, maxGuess)
      ensures state == GameOver ==> chGuess == '\0'
      ensures state == Success ==>
                IsLower(chGuess) && Scorable(possibleWords, guess) &&
                IsFirstMax(possibleWords, alreadyGuessed, guess, AlphabeticIndex(chGuess))
      ensures state == Success ==> !alreadyGuessed[AlphabeticIndex(chGuess)] && chGuess !in missed
    {
      state := CheckGameState(possibleWords, guess, wrongGuessCount, correctGuessCount, maxGuess);
      if state == GameOver {
        chGuess := '\0';
        return;
      }
      assert Scorable(possibleWords, guess) by {
        forall m | 0 <= m < |possibleWords|
          ensures |guess| <= |possibleWords[m].str| && possibleWords[m].rank >= 1
          ensures forall i :: 0 <= i < |guess| && guess[i] == '\0' ==>
                    0 <= AlphabeticIndex(possibleWords[m].str[i]) < AlphabetSize
        {
          assert Consistent(possibleWords[m], guess, alreadyGuessed, missed);
        }
      }
      chGuess := GetMostLikelyLetter(possibleWords, alreadyGuessed, guess);
      var k := AlphabeticIndex(chGuess);
      AllKnownMeans(guess);
      var i :| 0 <= i < |guess| && guess[i] == '\0';
      assert Consistent(possibleWords[0], guess, alreadyGuessed, missed);
      ProposalIsFresh(possibleWords, alreadyGuessed, guess, k, 0, i);
      var m', i' :| 0 <= m' < |possibleWords| && 0 <= i' < |guess| && guess[i'] == '\0' &&
                    AlphabeticIndex(possibleWords[m'].str[i']) == k;
      assert Consistent(possibleWords[m'], guess, alreadyGuessed, missed);
      IndexInjective(possibleWords[m'].str[i'], chGuess);
    }

    /**
     * Applies the player's answer `indices` to the proposed letter `chGuess`.
     * A hit reveals the named slots, counts them and narrows the list; an empty
     * answer is a miss that counts a wrong guess and narrows the list; an
     * illegal answer changes nothing.
     */
    method Round(chGuess: char, indices: seq<int>) returns (code: ReturnCode)
      requires Valid() && IsLower(chGuess)
      requires forall j :: 0 <= j < |indices| ==> IsInt32(indices[j])
      modifies this
      ensures Valid()
      ensures code == Verdict(old(guess), indices)
      ensures code == Success ==>
                correctGuessCount == old(correctGuessCount) + |Slots(indices)| &&
                guess == Fill(old(guess), Slots(indices), chGuess) &&
                possibleWords == Survivors(old(possibleWords), Hit(chGuess, Slots(indices))) &&
                alreadyGuessed == old(alreadyGuessed)[AlphabeticIndex(chGuess) := true] &&
                wrongGuessCount == old(wrongGuessCount) && missed == old(missed)
      ensures code == NoInput ==>
                wrongGuessCount == old(wrongGuessCount) + 1 &&
                possibleWords == Survivors(old(possibleWords), Miss(chGuess)) &&
                guess == old(guess) && correctGuessCount == old(correctGuessCount) &&
                alreadyGuessed == old(alreadyGuessed) && missed == old(missed) + {chGuess}
      ensures code == IllegalInput ==> unchanged(this)
      ensures |guess| == |old(guess)|
      ensures forall i :: 0 <= i < |guess| && old(guess)[i] != '\0' ==> guess[i] == old(guess)[i]
      ensures IsSubsequence(possibleWords, old(possibleWords)) && |possibleWords| <= |old(possibleWords)|
    {
      var pos;
      code, pos := ReadIndexes(guess, indices);
      if code == Success {
        SuccessSlotsAreUnknown(guess, indices);
        ApplyHit(chGuess, pos);
      } else if code == NoInput {
        ApplyMiss(chGuess);
      } else {
        SubsequenceReflexive(possibleWords);
      }
    }

    /** The hit arm of a round: reveal, count, narrow, mark the letter guessed. */
    method ApplyHit(chGuess: char, pos: set<int>)
      requires Valid() && IsLower(chGuess)
      requires forall p :: p in pos ==> 0 <= p < |guess| && guess[p] == '\0'
      modifies this
      ensures Valid()
      ensures correctGuessCount == old(correctGuessCount) + |pos|
      ensures guess == Fill(old(guess), pos, chGuess)
      ensures possibleWords == Survivors(old(possibleWords), Hit(chGuess, pos))
      ensures alreadyGuessed == old(alreadyGuessed)[AlphabeticIndex(chGuess) := true]
      ensures wrongGuessCount == old(wrongGuessCount) && missed == old(missed)
      ensures IsSubsequence(possibleWords, old(possibleWords)) && |possibleWords| <= |old(possibleWords)|
    {
      HitKeepsInvariant(possibleWords, guess, alreadyGuessed, correctGuessCount, missed, chGuess, pos);
      var revealed := Reveal(guess, pos, chGuess);
      var survivors := FilterGuessed(possibleWords, chGuess, pos);
      correctGuessCount, guess, possibleWords, alreadyGuessed :=
        correctGuessCount + |pos|, revealed, survivors, alreadyGuessed[AlphabeticIndex(chGuess) := true];
    }

    /** The miss arm of a round: count a wrong guess and narrow the list. */
    method ApplyMiss(chGuess: char)
      requires Valid()
      modifies this
      ensures Valid()
      ensures wrongGuessCount == old(wrongGuessCount) + 1
      ensures possibleWords == Survivors(old(possibleWords), Miss(chGuess))
      ensures guess == old(guess) && correctGuessCount == old(correctGuessCount)
      ensures alreadyGuessed == old(alreadyGuessed) && missed == old(missed) + {chGuess}
      ensures IsSubsequence(possibleWords, old(possibleWords)) && |possibleWords| <= |old(possibleWords)|
    {
      MissKeepsInvariant(possibleWords, guess, alreadyGuessed, correctGuessCount, missed, chGuess);
      wrongGuessCount := wrongGuessCount + 1;
      possibleWords := FilterFailedToGuess(possibleWords, chGuess);
      missed := missed + {chGuess};
    }

    /**
     * One pass of the game loop: check, propose, apply the answer. A game that
     * is over stays as it is; otherwise the proposal is a letter that neither a
     * hit nor a miss has named before.
     */
    method Turn(indices: seq<int>) returns (state: ReturnCode, chGuess: char, code: ReturnCode)
      requires Valid()
      requires forall j :: 0 <= j < |indices| ==> IsInt32(indices[j])
      modifies this
      ensures Valid()
      ensures state == old(CheckGameState(possibleWords, guess, wrongGuessCount, correctGuessCount, maxGuess))
      ensures state == GameOver ==> code == GameOver && unchanged(this)
      ensures state == Success ==>
                IsLower(chGuess) && !old(alreadyGuessed)[AlphabeticIndex(chGuess)] &&
                chGuess !in old(missed) && code == Verdict(old(guess), indices)
      ensures state == Success ==>
                Scorable(old(possibleWords), old(guess)) &&
                IsFirstMax(old(possibleWords), old(alreadyGuessed), old(guess), AlphabeticIndex(chGuess))
      ensures state == Success && code == Success ==>
                correctGuessCount == old(correctGuessCount) + |Slots(indices)| &&
                guess == Fill(old(guess), Slots(indices), chGuess) &&
                possibleWords == Survivors(old(possibleWords), Hit(chGuess, Slots(indices))) &&
                alreadyGuessed == old(alreadyGuessed)[AlphabeticIndex(chGuess) := true] &&
                wrongGuessCount == old(wrongGuessCount) && missed == old(missed)
      ensures state == Success && code == NoInput ==>
                wrongGuessCount == old(wrongGuessCount) + 1 &&
                possibleWords == Survivors(old(possibleWords), Miss(chGuess)) &&
                guess == old(guess) && correctGuessCount == old(correctGuessCount) &&
                alreadyGuessed == old(alreadyGuessed) && missed == old(missed) + {chGuess}
      ensures state == Success && code == IllegalInput ==> unchanged(this)
      ensures old(WithinBudget()) ==> WithinBudget()
      ensures old(wrongGuessCount) <= wrongGuessCount && old(correctGuessCount) <= correctGuessCount
      ensures IsSubsequence(possibleWords, old(possibleWords)) && |possibleWords| <= |old(possibleWords)|
    {
      state, chGuess := Propose();
      if state == GameOver {
        code := GameOver;
        SubsequenceReflexive(possibleWords);
        return;
      }
      code := Round(chGuess, indices);
    }
  }

  /** The counter reaches the word length exactly when no slot is unknown. */
  lemma RevealedMeansNoUnknownSlot(g: Game)
    requires g.Valid()
    ensures g.correctGuessCount == |g.guess| <==> forall i :: 0 <= i < |g.guess| ==> g.guess[i] != '\0'
  {
    AllKnownMeans(g.guess);
  }
}
