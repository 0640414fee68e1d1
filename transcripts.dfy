/** What the two debate scripts share: the transcript entry, the cleaning
    of an agent's answer, and how many entries a debate of a given length
    appends. */
module Transcripts {
  import Text

  type Name = string

  /** One `(name, utterance)` entry of the debate history. */
  datatype Turn = Turn(speaker: Name, utterance: string)

  /** The characters `answer.strip('" ')` removes. */
  const QuotesAndSpaces: set<char> := {'"', ' '}

  /** `answer.strip('" ')`: the answer without surrounding quotes and
      spaces. */
  function Clean(answer: string): (u: string)
    ensures Text.EdgesOutside(u, QuotesAndSpaces)
  {
    Text.Strip(answer, QuotesAndSpaces)
  }

  /** Cleaning an already cleaned answer changes nothing. */
  lemma CleanIdempotent(answer: string)
    ensures Clean(Clean(answer)) == Clean(answer)
  {
    Text.StripIdempotent(answer, QuotesAndSpaces);
  }

  /** The number of entries a debate with `n` turns appends: none for
      `n <= 0`, otherwise a whole number of two-speaker rounds,
      `2 * ceil(n / 2)`. */
  function EntryCount(n: int): nat
  {
    if n <= 0 then 0 else 2 * ((n + 1) / 2)
  }

  /** An even positive turn count is met exactly, an odd one overshoots by
      one entry, so the counter ends at 0 or -1. */
  lemma EntryCountOvershoot(n: int)
    requires n > 0
    ensures n % 2 == 0 ==> EntryCount(n) == n
    ensures n % 2 == 1 ==> EntryCount(n) == n + 1
  {
  }
}
