/** Definitions that a proof sees only where it asks for them. A predicate of the form
    `forall k {:trigger Unfold(k)} | Unfold(k) :: P` says just `P`, but stays folded until `Unfold` is mentioned. */
module Folding {

  /** Always true. */
  ghost predicate Unfold(k: int) {
    k == k
  }

  /** The same, for definitions that are to be unfolded apart from the others. */
  ghost predicate Open(k: int) {
    k == k
  }
}
