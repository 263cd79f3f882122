/** Words of the lexicon and the five letter positions every component compares. */
module Lexicon {

  /** Number of letter positions the scorer and the filter look at. */
  const WordLength: nat := 5

  /** A letter position that the scorer and the filter index. */
  type Position = p: nat | p < WordLength

  /** A word that can be indexed at every position; the source panics on a shorter one. */
  predicate Playable(w: string)
  {
    |w| >= WordLength
  }

  /** Every word of the lexicon can be indexed at every position. */
  predicate AllPlayable(ws: seq<string>)
  {
    forall w :: w in ws ==> Playable(w)
  }
}
