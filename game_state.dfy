/**
 * GameState: the termination test run at the start of every round. Three
 * conditions end the game and are tested in a fixed order: the wrong-guess
 * budget is used up, every slot is revealed, no candidate is left.
 */
module GameState {
  import opened Words

  /** Why the game is over, in the order the conditions are tested. */
  datatype Outcome = InProgress | GuessesExhausted | WordRevealed | NoCandidateLeft

  /** The first of the three ending conditions that holds, if any. */
  function Classify(possibleWords: seq<Word>, guess: seq<char>, wrongGuessCount: nat,
                    correctGuessCount: nat, maxGuess: nat): (r: Outcome)
    ensures r == GuessesExhausted <==> wrongGuessCount == maxGuess
    ensures r == WordRevealed <==> wrongGuessCount != maxGuess && correctGuessCount == |guess|
    ensures r == NoCandidateLeft <==>
              wrongGuessCount != maxGuess && correctGuessCount != |guess| && possibleWords == []
  {
    if wrongGuessCount == maxGuess then GuessesExhausted
    else if correctGuessCount == |guess| then WordRevealed
    else if possibleWords == [] then NoCandidateLeft
    else InProgress
  }

  /** GameOver when the game has ended for any of the three reasons, Success otherwise. */
  function CheckGameState(possibleWords: seq<Word>, guess: seq<char>, wrongGuessCount: nat,
                          correctGuessCount: nat, maxGuess: nat): (r: ReturnCode)
    ensures r == GameOver <==>
              wrongGuessCount == maxGuess || correctGuessCount == |guess| || possibleWords == []
    ensures r == Success || r == GameOver
  {
    if Classify(possibleWords, guess, wrongGuessCount, correctGuessCount, maxGuess) == InProgress
    then Success
    else GameOver
  }
}
