/** A search node (Sources/Core/Models/AstarNode.swift): a state, the
    keystrokes that reached it, its parent, the cost so far and the estimate
    of the cost to go. Swift's `Double`s are reals. */
module AStarNode {
  import opened Wrappers
  import opened VimState
  import opened VimKeystrokes

  datatype Node = Node(state: State, path: seq<Keystroke>, parent: Option<Node>, cost: real, heuristic: real)

  /** `priority`: what the open pool orders by. */
  function Priority(n: Node): real {
    n.cost + n.heuristic
  }

  /** `==`: nodes are the same node exactly when their states are; `hash`
      feeds only the state to the hasher. */
  predicate SameNode(a: Node, b: Node) {
    a.state == b.state
  }

  function HashInput(n: Node): State {
    n.state
  }
}
