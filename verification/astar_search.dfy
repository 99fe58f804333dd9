/** The sequential search loop (Sources/Core/Algorithms/AStarAlgorithm.swift).
    The editor, the neighbour generator, the pruning rule and the heuristic
    are the search's collaborators and appear here as functions; the clock
    becomes fuel, one unit per popped node. */
module AStarSearch {
  import opened Wrappers
  import opened VimState
  import VimKeystrokes
  import opened AStarNode
  import opened AStarNodePool

  /** `SearchError`, plus the error a failing engine call propagates. */
  datatype SearchError = Timeout | NoPathFound | EngineFailed

  /** What a search runs against. `exec` is the engine started in `initial`
      replaying a whole keystroke path; `None` is a thrown error. */
  datatype Env = Env(
    initial: State,
    target: State,
    exec: seq<VimKeystrokes.Keystroke> -> Option<State>,
    next: (State, State) -> seq<VimKeystrokes.Keystroke>,
    prune: (State, State, Pool) -> bool,
    estimate: (State, State) -> real)

  /** The state a path leads to: the initial state for the empty path, the
      engine's answer otherwise. */
  predicate Leads(env: Env, path: seq<VimKeystrokes.Keystroke>, s: State) {
    if |path| == 0 then s == env.initial else env.exec(path) == Some(s)
  }

  /** What holds of every node the search creates: its state is where its
      path leads and its cost is the path's length. */
  predicate Reached(env: Env, n: Node) {
    Leads(env, n.path, n.state) && n.cost == |n.path| as real
  }

  predicate AllReached(env: Env, h: Heap) {
    forall n :: n in h ==> Reached(env, n)
  }

  /** `n` is a successor of `current` by one of `ks`. */
  predicate IsChild(env: Env, current: Node, ks: seq<VimKeystrokes.Keystroke>, n: Node) {
    && n.parent == Some(current)
    && |n.path| == |current.path| + 1
    && n.path[..|current.path|] == current.path
    && n.path[|current.path|] in ks
    && n.cost == current.cost + 1.0
    && n.heuristic == env.estimate(n.state, env.target)
    && env.exec(n.path) == Some(n.state)
  }

  /** The root: the initial state, an empty path, cost 0 and the initial
      state's estimate. */
  function Root(env: Env): Node {
    Node(env.initial, [], None, 0.0, env.estimate(env.initial, env.target))
  }

  /** Every node of `after` was already in `before` or is a successor of
      `current` by one of `ks`. */
  predicate Grown(env: Env, before: Heap, after: Heap, current: Node, ks: seq<VimKeystrokes.Keystroke>) {
    forall n :: n in after ==> n in before || IsChild(env, current, ks, n)
  }

  /** The body of the `for keystroke in nextKeystrokes` loop: replay the
      extended path, skip pruned states, queue the rest. */
  function Expand(env: Env, pool: Pool, current: Node, ks: seq<VimKeystrokes.Keystroke>): (r: Result<Pool, SearchError>)
    requires Valid(pool) && Reached(env, current)
    ensures r.Failure? ==> r.error == EngineFailed
    ensures r.Success? ==> Valid(r.value) && pool.nodeSet <= r.value.nodeSet
    ensures r.Success? ==> Grown(env, pool.heap, r.value.heap, current, ks)
    decreases |ks|
  {
    if |ks| == 0 then Success(pool)
    else
      var newPath := current.path + [ks[0]];
      match env.exec(newPath)
      case None => Failure(EngineFailed)
      case Some(newState) =>
        if env.prune(newState, env.target, pool) then
          var r := Expand(env, pool, current, ks[1..]);
          if r.Success? then GrownTail(env, pool.heap, pool.heap, r.value.heap, current, ks, None); r
          else r
        else
          var n := Node(newState, newPath, Some(current), current.cost + 1.0, env.estimate(newState, env.target));
          var pool' := Add(pool, n);
          AddedOrOld(pool, n);
          var r := Expand(env, pool', current, ks[1..]);
          if r.Success? then GrownTail(env, pool.heap, pool'.heap, r.value.heap, current, ks, Some(n)); r
          else r
  }

  /** Whatever `add` leaves in the heap was there before or is the new node. */
  lemma AddedOrOld(pool: Pool, n: Node)
    requires Valid(pool)
    ensures forall x :: x in Add(pool, n).heap ==> x in pool.heap || x == n
  {
    forall x | x in Add(pool, n).heap ensures x in pool.heap || x == n {
      assert x in multiset(Add(pool, n).heap);
    }
  }

  /** One keystroke's step, followed by the rest of the list, grows the pool
      by successors only. */
  lemma GrownTail(env: Env, before: Heap, middle: Heap, after: Heap, current: Node,
                  ks: seq<VimKeystrokes.Keystroke>, added: Option<Node>)
    requires |ks| > 0
    requires Grown(env, middle, after, current, ks[1..])
    requires added.None? ==> middle == before
    requires added.Some? ==> forall x :: x in middle ==> x in before || x == added.value
    requires added.Some? ==> added.value.path == current.path + [ks[0]] && added.value.parent == Some(current)
                             && added.value.cost == current.cost + 1.0
                             && added.value.heuristic == env.estimate(added.value.state, env.target)
                             && env.exec(added.value.path) == Some(added.value.state)
    ensures Grown(env, before, after, current, ks)
  {
    forall n | n in after ensures n in before || IsChild(env, current, ks, n) {
      if n !in before && added.Some? && n == added.value {
        assert n.path[..|current.path|] == current.path;
        assert n.path[|current.path|] == ks[0];
      }
    }
  }

  /** Expanding a node that was reached keeps every queued node reached. */
  lemma ExpandKeepsReached(env: Env, pool: Pool, current: Node, ks: seq<VimKeystrokes.Keystroke>)
    requires Valid(pool) && Reached(env, current) && AllReached(env, pool.heap)
    ensures var r := Expand(env, pool, current, ks);
            r.Success? ==> AllReached(env, r.value.heap)
  {
    var r := Expand(env, pool, current, ks);
    if r.Success? {
      forall n | n in r.value.heap ensures Reached(env, n) {
        if !(n in pool.heap) {
          assert IsChild(env, current, ks, n);
          assert |n.path| > 0;
        }
      }
    }
  }

  /** The `while let currentNode = nodePool.pop()` loop. */
  function Loop(env: Env, pool: Pool, fuel: nat): (r: Result<seq<VimKeystrokes.Keystroke>, SearchError>)
    requires Valid(pool) && AllReached(env, pool.heap)
    ensures r.Success? ==> Leads(env, r.value, env.target)
    ensures |pool.heap| == 0 ==> r == Failure(NoPathFound)
    decreases fuel
  {
    var (rest, top) := Pop(pool);
    match top
    case None => Failure(NoPathFound)
    case Some(current) =>
      assert current in pool.heap;
      if fuel == 0 then Failure(Timeout)
      else if current.state == env.target then Success(current.path)
      else
        ReachedAfterPop(env, pool);
        ExpandKeepsReached(env, rest, current, env.next(current.state, env.target));
        match Expand(env, rest, current, env.next(current.state, env.target))
        case Failure(e) => Failure(e)
        case Success(pool') => Loop(env, pool', fuel - 1)
  }

  /** Popping keeps the remaining nodes reached. */
  lemma ReachedAfterPop(env: Env, pool: Pool)
    requires Valid(pool) && AllReached(env, pool.heap)
    ensures AllReached(env, Pop(pool).0.heap)
  {
    var (rest, top) := Pop(pool);
    if top.Some? {
      forall n | n in rest.heap ensures Reached(env, n) {
        assert n in multiset(rest.heap);
        assert n in multiset(pool.heap);
      }
    }
  }

  /** The pool `search` starts from holds the root alone. */
  lemma StartPool(env: Env)
    ensures Valid(AddAll(EmptyPool, [Root(env)]))
    ensures AddAll(EmptyPool, [Root(env)]).heap == [Root(env)]
    ensures AllReached(env, AddAll(EmptyPool, [Root(env)]).heap)
  {
    var p := Add(EmptyPool, Root(env));
    assert [Root(env)][1..] == [];
    assert AddAll(EmptyPool, [Root(env)]) == AddAll(p, []);
    assert multiset(p.heap) == multiset{Root(env)};
    assert |p.heap| == 1;
    assert p.heap[0] in multiset(p.heap);
  }

  /** `search`: seed the pool with the root and run the loop. A path it
      returns leads from the initial state to the target. */
  function Search(env: Env, fuel: nat): (r: Result<seq<VimKeystrokes.Keystroke>, SearchError>)
    ensures r.Success? ==> Leads(env, r.value, env.target)
  {
    StartPool(env);
    Loop(env, AddAll(EmptyPool, [Root(env)]), fuel)
  }

  /** Starting at the target returns the empty path, given time for one pop. */
  lemma {:induction false} SearchFromTarget(env: Env, fuel: nat)
    requires env.initial == env.target && fuel >= 1
    ensures Search(env, fuel) == Success([])
  {
    StartPool(env);
  }

  /** With no neighbours and a different target, the pool runs dry. */
  lemma {:induction false} NoNeighboursNoPath(env: Env, fuel: nat)
    requires env.initial != env.target && fuel >= 1
    requires forall s, t :: env.next(s, t) == []
    ensures Search(env, fuel) == Failure(NoPathFound)
  {
    StartPool(env);
    var pool := AddAll(EmptyPool, [Root(env)]);
    var (rest, top) := Pop(pool);
    assert top == Some(Root(env));
    assert multiset(rest.heap) + multiset{Root(env)} == multiset{Root(env)};
    assert |rest.heap| == 0;
  }

  /** A successor that the pruning rule rejects is never queued: if every
      extended path replays and is pruned, expansion leaves the pool as it
      was. */
  lemma {:induction false} PrunedNeverQueued(env: Env, pool: Pool, current: Node, ks: seq<VimKeystrokes.Keystroke>)
    requires Valid(pool) && Reached(env, current)
    requires forall k :: k in ks ==> env.exec(current.path + [k]).Some?
    requires forall s :: env.prune(s, env.target, pool)
    ensures Expand(env, pool, current, ks) == Success(pool)
    decreases |ks|
  {
    if |ks| > 0 {
      assert ks[0] in ks;
      assert forall k :: k in ks[1..] ==> k in ks;
      PrunedNeverQueued(env, pool, current, ks[1..]);
    }
  }
}
