/** The configuration constants of the script (doc_maker.py:17-24, 115-117; `GENERATED_CHARS` is the bound of `range(1000)` at doc_maker.py:163). */
module Config {

  /** Window length of a training example. */
  const MAX_SEQUENCE_LENGTH: nat := 50

  /** Stride between the starts of two consecutive windows. */
  const SKIP: nat := 2

  /** Line cap of the corpus accumulation loop. */
  const LINES_TO_READ: nat := 2000

  /** Seed of every generation pass. */
  const STARTING_TEXT: string := "computers are amazing"

  /** Number of characters drawn in one generation pass. */
  const GENERATED_CHARS: nat := 1000
}
