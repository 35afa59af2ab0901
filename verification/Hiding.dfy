/** Unfolding on demand: a body behind `Look` is used only in proofs that mention `Look`. */
module Hiding {
  ghost predicate Look(n: int) { true }
}
