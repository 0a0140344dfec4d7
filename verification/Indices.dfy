/** Which positions of a sequence a filter keeps. */
module Indices {

  /** Positions below `n`, in ascending order. */
  ghost predicate Ascending(kept: seq<nat>, n: nat) {
    && (forall j | 0 <= j < |kept| :: kept[j] < n)
    && forall i, j | 0 <= i < j < |kept| :: kept[i] < kept[j]
  }
}
