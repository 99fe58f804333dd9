/** The bookkeeping of the concurrent search
    (Sources/Core/Algorithms/AStarAlgorithmConcurrent.swift): the clamp on the
    number of concurrent expansions, the `SearchTrackers` actor, the
    dispatcher's decision for one turn of its loop and one expansion task run
    on its own. Tasks, actors, sleeping and the clock are not modelled; each
    operation here is one actor call taken in isolation. */
module AStarConcurrent {
  import opened Wrappers
  import opened VimState
  import VimKeystrokes
  import opened AStarNode
  import opened AStarNodePool
  import opened AStarPruning
  import AStarSearch

  type Path = seq<VimKeystrokes.Keystroke>

  /** `init(maxConcurrentExpansions:)`: at least one expansion at a time. */
  function MaxConcurrentExpansions(requested: int): (r: int)
    ensures r >= 1
    ensures requested >= 1 ==> r == requested
    ensures requested < 1 ==> r == 1
  {
    if requested >= 1 then requested else 1
  }

  const DefaultMaxConcurrentExpansions: int := 4

  // ---------------------------------------------------------- SearchTrackers

  /** `SearchTrackers`: the number of expansions in flight and the best goal
      path seen so far. */
  datatype Trackers = Trackers(inFlight: int, best: Option<Path>)

  const InitialTrackers: Trackers := Trackers(0, None)

  /** `inc`. */
  function Inc(t: Trackers): (r: Trackers)
    ensures r.inFlight == t.inFlight + 1 && r.best == t.best
  {
    t.(inFlight := t.inFlight + 1)
  }

  /** `dec`: never below zero. */
  function Dec(t: Trackers): (r: Trackers)
    ensures r.inFlight >= 0 && r.best == t.best
    ensures t.inFlight >= 1 ==> r.inFlight == t.inFlight - 1
    ensures t.inFlight <= 0 ==> r.inFlight == 0
  {
    t.(inFlight := if t.inFlight - 1 >= 0 then t.inFlight - 1 else 0)
  }

  /** `consider`: the first path is kept, and afterwards only a strictly
      shorter one replaces it. */
  function Consider(t: Trackers, path: Path): (r: Trackers)
    ensures r.inFlight == t.inFlight && r.best.Some?
    ensures t.best.None? ==> r.best == Some(path)
    ensures t.best.Some? ==> |r.best.value| <= |t.best.value|
    ensures t.best.Some? && |path| >= |t.best.value| ==> r == t
    ensures t.best.Some? && |path| < |t.best.value| ==> r.best == Some(path)
  {
    match t.best
    case Some(best) => if |path| < |best| then t.(best := Some(path)) else t
    case None => t.(best := Some(path))
  }

  /** `bestBound`: the best path's length, when there is one. */
  function BestBound(t: Trackers): (r: Option<real>)
    ensures r.None? <==> t.best.None?
    ensures r.Some? ==> r.value == |t.best.value| as real
  {
    match t.best
    case Some(best) => Some(|best| as real)
    case None => None
  }

  /** An actor call on the trackers. */
  datatype TrackerCall = IncCall | DecCall | ConsiderCall(path: Path)

  function Apply(t: Trackers, calls: seq<TrackerCall>): Trackers
    decreases |calls|
  {
    if |calls| == 0 then t
    else
      var t' := match calls[0]
        case IncCall => Inc(t)
        case DecCall => Dec(t)
        case ConsiderCall(p) => Consider(t, p);
      Apply(t', calls[1..])
  }

  /** Whatever the calls, the in-flight count stays non-negative and the best
      length never grows. */
  lemma {:induction false} ApplyKeepsBounds(t: Trackers, calls: seq<TrackerCall>)
    requires t.inFlight >= 0
    ensures Apply(t, calls).inFlight >= 0
    ensures t.best.Some? ==> Apply(t, calls).best.Some? && |Apply(t, calls).best.value| <= |t.best.value|
    decreases |calls|
  {
    if |calls| > 0 {
      var t' := match calls[0]
        case IncCall => Inc(t)
        case DecCall => Dec(t)
        case ConsiderCall(p) => Consider(t, p);
      ApplyKeepsBounds(t', calls[1..]);
    }
  }

  function Considers(paths: seq<Path>): (r: seq<TrackerCall>)
    ensures |r| == |paths|
    ensures forall i :: 0 <= i < |paths| ==> r[i] == ConsiderCall(paths[i])
  {
    seq(|paths|, i requires 0 <= i < |paths| => ConsiderCall(paths[i]))
  }

  /** `paths[i]` is the earliest of the shortest paths. */
  predicate FirstShortest(paths: seq<Path>, i: int) {
    && 0 <= i < |paths|
    && (forall j :: 0 <= j < |paths| ==> |paths[i]| <= |paths[j]|)
    && (forall j :: 0 <= j < i ==> |paths[j]| > |paths[i]|)
  }

  /** Considering goal paths one after another keeps the earliest of the
      shortest. */
  lemma {:induction false} ConsiderKeepsFirstShortest(paths: seq<Path>)
    requires |paths| > 0
    ensures Apply(InitialTrackers, Considers(paths)).best.Some?
    ensures exists i :: FirstShortest(paths, i) && Apply(InitialTrackers, Considers(paths)).best.value == paths[i]
    decreases |paths|
  {
    var n := |paths| - 1;
    if n == 0 {
      assert FirstShortest(paths, 0);
      ApplyConsidersSplit(paths[..0], paths[0]);
      assert paths[..0] + [paths[0]] == paths;
    } else {
      var init := paths[..n];
      ConsiderKeepsFirstShortest(init);
      var i :| FirstShortest(init, i) && Apply(InitialTrackers, Considers(init)).best.value == init[i];
      ApplyConsidersSplit(init, paths[n]);
      assert init + [paths[n]] == paths;
      if |paths[n]| < |init[i]| {
        assert FirstShortest(paths, n);
      } else {
        assert FirstShortest(paths, i);
      }
    }
  }

  /** Considering one more path after a list is one more `consider`. */
  lemma {:induction false} ApplyConsidersSplit(init: seq<Path>, last: Path)
    ensures Apply(InitialTrackers, Considers(init + [last]))
            == Consider(Apply(InitialTrackers, Considers(init)), last)
  {
    ApplyAppend(InitialTrackers, Considers(init), [ConsiderCall(last)]);
    assert Considers(init + [last]) == Considers(init) + [ConsiderCall(last)];
    assert [ConsiderCall(last)][1..] == [];
  }

  lemma {:induction false} ApplyAppend(t: Trackers, a: seq<TrackerCall>, b: seq<TrackerCall>)
    ensures Apply(t, a + b) == Apply(Apply(t, a), b)
    decreases |a|
  {
    if |a| > 0 {
      var t' := match a[0]
        case IncCall => Inc(t)
        case DecCall => Dec(t)
        case ConsiderCall(p) => Consider(t, p);
      assert (a + b)[0] == a[0];
      assert (a + b)[1..] == a[1..] + b;
      ApplyAppend(t', a[1..], b);
    } else {
      assert a + b == b;
    }
  }

  // ----------------------------------------------------------- the goal test

  /** The concurrent search's goal test: buffer and mode only. */
  predicate IsGoal(s: State, target: State) {
    s.buffer == target.buffer && s.mode == target.mode
  }

  /** Every state equal to the target passes, and so do states whose cursor
      is elsewhere: the test is strictly weaker than the sequential search's
      full equality. */
  lemma GoalIgnoresCursor(target: State, cursor: Point)
    ensures IsGoal(target, target)
    ensures IsGoal(target.(cursor := cursor), target)
    ensures cursor != target.cursor ==> target.(cursor := cursor) != target
  {
  }

  // --------------------------------------------------------- the dispatcher

  /** What one turn of the dispatcher loop does. */
  datatype Turn =
    | ReturnIncumbent(path: Path)
    | Backoff
    | Finish(result: Result<Path, AStarSearch.SearchError>)
    | Idle
    | Dispatch(node: Node, open: Pool, trackers: Trackers)

  /** `Double(best.count) <= minF` for every queued node. */
  predicate BoundBelowOpen(bound: real, open: Pool) {
    forall k :: 0 <= k < |open.heap| ==> bound <= Priority(open.heap[k])
  }

  /** One turn of the `while true` loop after the timeout check: the safe
      termination test, the backoff, the pop, and the goal check before the
      expansion is dispatched. */
  function DispatcherTurn(t: Trackers, open: Pool, target: State, maxExpansions: int): (r: Turn)
    requires Valid(open)
    ensures r.ReturnIncumbent? ==> (t.inFlight == 0 && t.best == Some(r.path)
                                    && |open.heap| > 0 && BoundBelowOpen(|r.path| as real, open))
    ensures r.Finish? ==> |open.heap| == 0 && t.inFlight == 0
    ensures r.Finish? ==> ((r.result.Success? <==> t.best.Some?)
                           && (t.best.Some? ==> r.result.value == t.best.value)
                           && (t.best.None? ==> r.result == Failure(AStarSearch.NoPathFound)))
    ensures r.Backoff? ==> t.inFlight >= maxExpansions
    ensures r.Idle? ==> |open.heap| == 0 && t.inFlight != 0
    ensures r.Dispatch? ==> (Some(r.node) == Peek(open) && Valid(r.open)
                             && r.open.nodeSet == open.nodeSet - {r.node.state}
                             && r.trackers.inFlight == t.inFlight + 1)
    ensures r.Dispatch? && IsGoal(r.node.state, target) ==>
              r.trackers.best.Some? && |r.trackers.best.value| <= |r.node.path|
    ensures r.Dispatch? && !IsGoal(r.node.state, target) ==> r.trackers.best == t.best
  {
    var top := Peek(open);
    if BestBound(t).Some? && t.inFlight == 0 && top.Some? && BestBound(t).value <= Priority(top.value) then
      ReturnIncumbent(t.best.value)
    else if t.inFlight >= maxExpansions then Backoff
    else
      var (rest, popped) := Pop(open);
      match popped
      case None =>
        if t.inFlight == 0 then Finish(if t.best.Some? then Success(t.best.value) else Failure(AStarSearch.NoPathFound))
        else Idle
      case Some(current) =>
        var t' := if IsGoal(current.state, target) then Consider(t, current.path) else t;
        Dispatch(current, rest, Inc(t'))
  }

  // ------------------------------------------------------- expansion tasks

  /** A cost the incumbent does not rule out. */
  predicate UnderBound(t: Trackers, cost: real) {
    t.best.None? || cost < |t.best.value| as real
  }

  /** Every node of `after` was already in `before`, or is a child of
      `current` whose cost the trackers `t` did not rule out. */
  predicate QueuedUnderBound(before: Heap, after: Heap, current: Node, t: Trackers) {
    forall n :: n in after ==> n in before || (n.parent == Some(current) && n.cost == current.cost + 1.0
                                               && |n.path| == |current.path| + 1 && UnderBound(t, n.cost))
  }

  /** The `for key in nextKeystrokes` loop of an expansion task, run alone:
      bound pruning before the state is computed, the engine call (`try!`, so
      a failure traps and gives `None`), domain pruning, the goal check and
      the `add`. */
  function ExpandKeys(env: AStarSearch.Env, t: Trackers, open: Pool, current: Node, ks: Path): (r: Option<(Trackers, Pool)>)
    requires Valid(open)
    ensures r.Some? ==> Valid(r.value.1) && r.value.0.inFlight == t.inFlight
    ensures r.Some? && t.best.Some? ==> r.value.0.best.Some? && |r.value.0.best.value| <= |t.best.value|
    ensures r.Some? ==> open.nodeSet <= r.value.1.nodeSet
    ensures r.Some? ==> QueuedUnderBound(open.heap, r.value.1.heap, current, t)
    decreases |ks|
  {
    if |ks| == 0 then Some((t, open))
    else
      var newPath := current.path + [ks[0]];
      var gCost := current.cost + 1.0;
      if ShouldPruneByBound(gCost, BestBound(t)) then
        ExpandKeys(env, t, open, current, ks[1..])
      else
        match env.exec(newPath)
        case None => None
        case Some(s) =>
          if ShouldPruneByDomain(s, env.target) then ExpandKeys(env, t, open, current, ks[1..])
          else
            var succ := Node(s, newPath, Some(current), gCost, env.estimate(s, env.target));
            var t' := if IsGoal(s, env.target) then Consider(t, newPath) else t;
            var open' := Add(open, succ);
            var r := ExpandKeys(env, t', open', current, ks[1..]);
            if r.Some? then QueuedStep(open.heap, open'.heap, r.value.1.heap, current, t, t', succ); r
            else r
  }

  /** One `add` followed by the rest of the loop keeps every new node under
      the original bound, because the bound only tightens. */
  lemma QueuedStep(before: Heap, middle: Heap, after: Heap, current: Node, t: Trackers, t': Trackers, succ: Node)
    requires QueuedUnderBound(middle, after, current, t')
    requires multiset(middle) == multiset(before) + multiset{succ} || middle == before
    requires succ.parent == Some(current) && succ.cost == current.cost + 1.0
             && |succ.path| == |current.path| + 1 && UnderBound(t, succ.cost)
    requires t.best.Some? ==> t'.best.Some? && |t'.best.value| <= |t.best.value|
    ensures QueuedUnderBound(before, after, current, t)
  {
    forall n | n in after
      ensures n in before || (n.parent == Some(current) && n.cost == current.cost + 1.0
                              && |n.path| == |current.path| + 1 && UnderBound(t, n.cost))
    {
      if n in middle && n !in before {
        assert n in multiset(middle);
      }
    }
  }

  /** An expansion task: the loop, then the deferred `dec`. */
  function ExpansionTask(env: AStarSearch.Env, t: Trackers, open: Pool, current: Node): (r: Option<(Trackers, Pool)>)
    requires Valid(open)
    ensures r.Some? ==> Valid(r.value.1) && r.value.0.inFlight == (if t.inFlight >= 1 then t.inFlight - 1 else 0)
    ensures r.Some? ==> QueuedUnderBound(open.heap, r.value.1.heap, current, t)
  {
    match ExpandKeys(env, t, open, current, env.next(current.state, env.target))
    case None => None
    case Some((t', open')) => Some((Dec(t'), open'))
  }

  /** Once the incumbent is no longer than the successors' cost, a task asks
      the engine for nothing and queues nothing, whatever the engine would
      answer. */
  lemma {:induction false} BoundSkipsBeforeExec(env: AStarSearch.Env, t: Trackers, open: Pool, current: Node, ks: Path)
    requires Valid(open)
    requires t.best.Some? && current.cost + 1.0 >= |t.best.value| as real
    ensures ExpandKeys(env, t, open, current, ks) == Some((t, open))
    ensures ExpandKeys(env.(exec := _ => None), t, open, current, ks) == Some((t, open))
    decreases |ks|
  {
    if |ks| > 0 {
      BoundSkipsBeforeExec(env, t, open, current, ks[1..]);
    }
  }
}
