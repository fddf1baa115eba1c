/**
 Predicates that most proofs only pass on are folded up behind a quantifier, and unfolded where
 their parts are needed.
 */
module Folding {
  /** Asserting it of some number unfolds what is folded up. */
  predicate Unfold(z: int) { z == z }
}
