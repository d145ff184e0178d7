/**
 * Words: the value types the guessing engine works on.
 */
module Words {

  /** A dictionary word and its rank, its 1-based position in the
      commonality-ordered word list (lower is more common). */
  datatype Word = Word(str: string, rank: int)

  /** The generic return code of the engine's operations. */
  datatype ReturnCode = Success | NoInput | IllegalInput | GameOver
}
