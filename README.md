# Hangman guessing engine, modelled in Dafny

This project models the guessing core of a hangman game in which the
computer guesses the player's word. The player picks a word length. The
computer loads every word of that length from a word list ordered by how
common the words are, most common first. It then plays rounds:

- it checks whether the game is over;
- it proposes the letter most likely to occur;
- it applies the player's answer. The answer is either the 1-based slots
  where the letter occurs (a hit) or nothing (a miss).

Modules, one per part of `hangman.cpp` and `hangman.h`:

- `Words`: the `Word` record (string and rank) and the `ReturnCode` enum.
- `Letters`: `alphabeticIndex` and `alphabeticIndexToChar`, with the C
  locale's `tolower`.
- `Loader`: `readAllWordsWithSize` over a sequence of already-split tokens.
  The spec function `Ranked` gives each kept word its 1-based position among
  all tokens as its rank.
- `Filters`: `filterGuessed` and `filterFailedToGuess`, as loops over the
  list. They are specified by `Survivors`, the survivors of one piece of
  evidence (`Hit(letter, slots)` or `Miss(letter)`). The subsequence relation
  `IsSubsequence` says what "only removes words" means.
- `Scorer`: `getMostLikelyLetter`, as the source's nested loops over a
  26-entry score table, followed by the first-maximum scan. It is specified by
  the function `Score`, the sum of `1/rank` over the candidates that show the
  letter in an unknown slot, and the predicate `IsFirstMax`.
- `Indexes`: `readIndexes` over already-parsed `int`s. It includes the
  `size_t` wrap-around of the range test.
- `GameState`: `checkGameState` with its three ordered ending conditions.
- `Play`: the state of `play` as a class `Game`. Its fields are the candidate
  list, the pattern `guess` (`'\0'` at unknown slots), the two counters and
  the `alreadyGuessed` table. `Game.Round` is the update of one round.
  `Game.Turn` is one pass of the game loop. `Valid()` is the invariant every
  method keeps:
  - the counter of correct guesses equals the number of revealed slots;
  - every remaining candidate agrees with every hit and every miss so far.

  The invariant yields the main game-level facts:
  - while the game goes on, the proposed letter is never one the player has
    already answered with a hit or a miss. After an illegal answer the state
    is unchanged, so the same letter is proposed again, as in the source;
  - revealed slots never change;
  - the candidate list only loses words.

A miss does not mark the letter in `alreadyGuessed`; only a hit does
(hangman.cpp:54, 57-60). `Game` keeps the missed letters in the ghost set
`missed`, which exists only for the proof. With it, `Game.Turn` proves that a
missed letter is not proposed again: it has been filtered out of every
candidate.

`readIndexes` rejects every slot already revealed, whatever letter it holds
(hangman.cpp:90); `Indexes.Admissible` models this.

## Model

| member | source | states |
|---|---|---|
| Words.Word | hangman.h:27-30 | a word is a string paired with an integer rank |
| Words.ReturnCode | hangman.h:33 | the return code has exactly the four values Success, NoInput, IllegalInput and GameOver |
| Letters.AlphabeticIndex | hangman.cpp:75-77 | a lowercase letter gets its distance from 'a' and an uppercase letter its distance from 'A', both in 0..25 |
| Letters.AlphabeticIndexToChar | hangman.cpp:79-81 | every index 0..25 maps to a lowercase letter whose distance from 'a' is the index |
| Letters.ToLower | hangman.cpp:76 | an uppercase letter maps to the lowercase letter at the same distance from 'a'; every other character is unchanged |
| Letters.IndexRoundTrip | hangman.cpp:75-81 | a lowercase letter has an index in 0..25, and converting that index back gives the letter |
| Letters.CharRoundTrip | hangman.cpp:75-81 | converting an index in 0..25 to a letter and back gives the index |
| Letters.IndexIgnoresCase | hangman.cpp:75-77 | an uppercase letter has the index of its lowercase form, in 0..25 |
| Letters.IndexInjective | hangman.cpp:75-77 | two lowercase letters with the same index are equal |
| Letters.HeaderExamples | hangman.h:70-74 | 'a', 'b', 'c' map to 0, 1, 2, and 0, 1, 2 map back to 'a', 'b', 'c' |
| Loader.ReadAllWordsWithSize | hangman.cpp:245-258 | the loop's result is `Ranked(tokens, size)`. Every kept word is the token at position rank-1 and has length `size`. Ranks strictly increase. Every token of length `size` is kept, ranked by its 1-based position |
| Loader.RankedPointsToTokens | hangman.cpp:250-255 | each ranked word is the token its rank points to, has length `size`, and has a rank in 1..number of tokens |
| Loader.RankedIncreasing | hangman.cpp:250-255 | ranks along the kept list strictly increase and never exceed the number of tokens |
| Loader.RankedKeepsAll | hangman.cpp:251-255 | no token of length `size` is dropped: each is kept with its 1-based position as rank |
| Filters.SubsequenceReflexive | hangman.h:41-52 | a list is a subsequence of itself: removing nothing is allowed |
| Filters.SubsequenceShorter | hangman.h:41-52 | a subsequence is never longer than its list |
| Filters.SubsequenceTransitive | hangman.cpp:53-59 | after filtering twice, the result is still a subsequence of the original list |
| Filters.SurvivorsMembers | hangman.cpp:156-178 | a word survives exactly when it was in the list and fits the evidence. For a hit: the letter is at every given slot and at no other slot. For a miss: the letter is nowhere in the word |
| Filters.SurvivorsSubsequence | hangman.cpp:156-178 | the survivors are a subsequence of the list: the original order is kept and words are only removed |
| Filters.SurvivorsCount | hangman.cpp:156-178 | each fitting word keeps as many copies as it had in the list, and a word that does not fit keeps none |
| Filters.SurvivorsAllFit | hangman.cpp:158-170 | a list whose words all fit the evidence comes through unchanged |
| Filters.SurvivorsIdempotent | hangman.cpp:156-178 | filtering again with the same evidence removes nothing more |
| Filters.MissOnAbsentLetter | hangman.cpp:173-178 | a miss on a letter that no word contains leaves the list unchanged |
| Filters.Contradicts | hangman.cpp:158-170 | the removal test answers true exactly when the word does not fit the hit (some slot in `pos` lacks the letter, or some slot outside it has the letter) |
| Filters.FilterGuessed | hangman.cpp:156-171 | the result is the hit's survivors. It is a subsequence of the list and is never longer |
| Filters.FilterFailedToGuess | hangman.cpp:173-178 | the result is the miss's survivors. It is a subsequence of the list and is never longer |
| Scorer.OccursUnknownMeans | hangman.cpp:135-140 | the per-word test holds exactly when some unknown slot of the word holds the letter |
| Scorer.ScoreNonNegative | hangman.cpp:128-144 | every score is at least zero |
| Scorer.GuessedScoresZero | hangman.cpp:139 | a letter already guessed scores zero |
| Scorer.ShownLetterScores | hangman.cpp:136-144 | an unguessed letter that some candidate shows in an unknown slot has a positive score |
| Scorer.ScoringLetterIsShown | hangman.cpp:136-144 | a letter with a positive score is unguessed and sits in an unknown slot of some candidate |
| Scorer.FirstMaxUnique | hangman.cpp:151-153 | the first maximal letter is unique, so the scores determine the proposal |
| Scorer.AllZeroPicksA | hangman.cpp:151-153 | when every score is zero the proposal is 'a' |
| Scorer.ProposalIsFresh | hangman.cpp:124-154 | while some candidate shows an unguessed letter in an unknown slot, the proposal is an unguessed letter shown in an unknown slot |
| Scorer.GetMostLikelyLetter | hangman.cpp:124-154 | the result is a lowercase letter. Its score is at least every other letter's score and strictly above every earlier letter's score. Each score is the sum of `1/rank` over the candidates that show the letter, unguessed, in at least one unknown slot |
| Indexes.SizeTMinusOne | hangman.cpp:90 | `static_cast<size_t>(i) - 1` lies in 0..2^64-1; it is i-1 for a positive i and wraps to 2^64+i-1 for i <= 0 |
| Indexes.WrappedTestMeansAdmissible | hangman.cpp:90 | for an `int` index, the wrapped `size_t` test accepts exactly the indices 1..length whose slot is still unknown |
| Indexes.FirstIllegal | hangman.cpp:89-93 | every index before the result is admissible, and the index at the result, if any, is not |
| Indexes.SuccessSlotsAreUnknown | hangman.cpp:94-96 | a successful answer names a non-empty set of slots, each inside the word and unknown |
| Indexes.ReadIndexes | hangman.cpp:83-97 | IllegalInput exactly when some index is out of range or names a revealed slot. Otherwise NoInput exactly when there are no indices, and Success exactly when there are indices and all are admissible. `pos` holds the 0-based slots up to the first illegal index, and on a legal answer all of them, duplicates collapsed |
| GameState.Classify | hangman.cpp:106-121 | the budget is tested first, then full revelation, then an empty list; each outcome holds exactly when its condition holds and the earlier ones do not |
| GameState.CheckGameState | hangman.cpp:99-122 | GameOver exactly when the wrong guesses reach the budget, or every slot is counted, or no candidate is left; Success otherwise, and never any other code |
| Play.KnownCountNone | hangman.cpp:20-21 | a pattern with no revealed slot counts zero revealed slots |
| Play.KnownCountFill | hangman.cpp:49-51 | writing a letter into a set of unknown slots adds the size of the set, the amount the counter grows by |
| Play.AllKnownMeans | hangman.cpp:111 | the revealed count equals the length exactly when no slot is unknown |
| Play.HitKeepsConsistent | hangman.cpp:50-54 | a word that fits a hit still agrees with the pattern and the guessed table after the hit |
| Play.MissKeepsConsistent | hangman.cpp:57-59 | a word without the missed letter still agrees with the history after the miss |
| Play.HitKeepsAllConsistent | hangman.cpp:53 | every survivor of a hit agrees with the updated pattern and table |
| Play.MissKeepsAllConsistent | hangman.cpp:59 | every survivor of a miss agrees with the history including the miss |
| Play.HitKeepsInvariant | hangman.cpp:48-55 | a hit at unknown slots keeps the game invariant. The counter grown by the number of slots still equals the revealed count |
| Play.MissKeepsInvariant | hangman.cpp:57-60 | a miss keeps the game invariant |
| Play.Reveal | hangman.cpp:50-51 | exactly the slots in `pos` become the letter; every other slot is unchanged |
| Play.Game.constructor | hangman.cpp:13-23 | the game starts valid: all words of the chosen length, ranked; an all-unknown pattern; both counters zero; no letter guessed |
| Play.Game.Propose | hangman.cpp:33-39 | the state is `checkGameState`'s verdict. Once the game is over no letter is proposed. While it goes on, the proposal is the scorer's first maximum and a letter no hit or miss has named |
| Play.Game.Round | hangman.cpp:46-69 | on Success the revealed-slot counter grows by the number of named slots, exactly those slots take the letter, the list is narrowed by the hit, and the letter is marked guessed. On NoInput the wrong-guess counter grows by one and the list is narrowed by the miss, but the guessed table is unchanged. On IllegalInput nothing changes. Revealed slots never change, the list only loses words, and the invariant is kept |
| Play.Game.ApplyHit | hangman.cpp:48-55 | the hit arm: the counter grows by the number of slots, the pattern is filled, the list is narrowed, the letter is marked guessed, and nothing else changes |
| Play.Game.ApplyMiss | hangman.cpp:57-60 | the miss arm: the wrong-guess counter grows by one, the list is narrowed, and the pattern, the other counter and the table stay as they were |
| Play.Game.Turn | hangman.cpp:28-69 | one loop pass. At the start, the state is `checkGameState`'s verdict on the old state, and a finished game stays unchanged. Otherwise the proposal is the scorer's first maximum over the old candidates, table and pattern, and is a letter no hit or miss has named. The answer's code is the validation verdict. Success, NoInput and IllegalInput each give the whole new state, as in `Round`. The counters never decrease, a game within the wrong-guess budget stays within it, and the list only loses words |
| Play.RevealedMeansNoUnknownSlot | hangman.cpp:111 | in a valid game, "I win" (counter equal to the length) holds exactly when no slot is unknown |

## Left out

- Console output is not modelled: `printWord`, `displayThinking`, `clearScreen`, the prompts and the result messages of `checkGameState`. It has no effect on the state.
- `getValidWordSize` is not modelled, since it is console input. `Play.Game.constructor` requires the length it guarantees, 1..50, and the early return on a failed read (hangman.cpp:15-16) is not modelled.
- The `std::cin.peek`/`ignore` calls (hangman.cpp:25-26, 63-64) are left out, since they are console input.
- Indexes.ReadIndexes: the line reading and the `int` parsing are left out. The function receives the parsed numbers, so a parse that stops at a non-number token is the shorter sequence of numbers before it.
- Loader.ReadAllWordsWithSize: opening and reading the file are left out. The function receives the whitespace-separated tokens, and a missing file is the empty token sequence.
- Scorer.GetMostLikelyLetter: scores are exact rationals, where the source uses `double`, so float rounding and the ties it could create are not modelled.
- Scorer.GetMostLikelyLetter: the source's tables have 127 entries; the model keeps the 26 for 'a'..'z'. The model requires every candidate letter at an unknown slot to have an index in 0..25. Entries 26 and above only ever hold zero, so they do not change the first maximum.
- `hangmanFrames.h` is not part of this model. The guess budget `maxGuess` (frame count minus one) is a constructor parameter, and the frame printing is left out.
- The outer `while (true)` loop of `play` is not modelled as a loop, because it progresses only on player input. `Play.Game.Turn` models one pass, so the game's termination is not proved.
- Filters.FilterGuessed: `std::list::remove_if` removes nodes in place. The model returns the new sequence, so node identity and iterator validity are not modelled.
- Filters.FilterFailedToGuess: the same as FilterGuessed, the model returns a new sequence rather than removing nodes in place.
- Letters.AlphabeticIndexToChar: it is modelled only on 0..25. The source's narrowing `char` cast of other integers is not modelled, because the scorer only passes indices 0..25.
- Loader.ReadAllWordsWithSize: `rank` is an unbounded integer, so the `int` overflow past 2^31-1 tokens is not modelled. Likewise the `size_t` counters of `play` are unbounded naturals.
- Candidate words hold only 'a'..'z' and have the chosen length. `Play.Game.constructor` requires this of the tokens of that length: other characters index outside the letter tables in the source.

