/** Successor pruning (Sources/Core/Algorithms/Pruning/AStarPrunning.swift):
    branch-and-bound on the cost so far, and a domain hook that prunes
    nothing. */
module AStarPruning {
  import opened Wrappers
  import opened VimState

  /** `shouldPruneByBound`: prune once the cost so far reaches the incumbent's
      cost, when there is an incumbent. */
  function ShouldPruneByBound(gCost: real, incumbentBound: Option<real>): bool {
    incumbentBound.Some? && gCost >= incumbentBound.value
  }

  /** `shouldPruneByDomain`: no domain rule is implemented. */
  function ShouldPruneByDomain(state: State, target: State): bool {
    false
  }

  /** Without an incumbent nothing is pruned; with one, exactly the costs at or
      above it are. */
  lemma BoundPruningExactly(gCost: real, bound: real)
    ensures !ShouldPruneByBound(gCost, None)
    ensures ShouldPruneByBound(gCost, Some(bound)) <==> gCost >= bound
  {
  }

  /** Pruning is monotone: a cost that is pruned stays pruned when it grows
      or when the incumbent improves. */
  lemma BoundPruningMonotone(g: real, g': real, b: real, b': real)
    requires g <= g' && b' <= b
    ensures ShouldPruneByBound(g, Some(b)) ==> ShouldPruneByBound(g', Some(b))
    ensures ShouldPruneByBound(g, Some(b)) ==> ShouldPruneByBound(g, Some(b'))
  {
  }
}
