/** The open list of the search (Sources/Core/Models/AStarNodePool.swift): a
    binary min-heap of nodes ordered by priority, together with the set of
    states it holds, so that a state is never queued twice. The actor's
    isolation is left out: the pool is a value and each operation returns the
    new one. */
module AStarNodePool {
  import opened Wrappers
  import opened VimState
  import opened AStarNode

  type Heap = seq<Node>

  function Parent(j: nat): nat
    requires j > 0
  {
    (j - 1) / 2
  }

  /** Every node's priority is at least its parent's. */
  predicate IsHeap(h: Heap) {
    forall j :: 0 < j < |h| ==> Priority(h[Parent(j)]) <= Priority(h[j])
  }

  /** The heap order holds for every edge except the one into `i`. */
  predicate HeapExcept(h: Heap, i: nat) {
    forall j :: 0 < j < |h| && j != i ==> Priority(h[Parent(j)]) <= Priority(h[j])
  }

  /** The heap order holds for every edge except those into and out of `i`. */
  predicate HeapAround(h: Heap, i: nat) {
    forall j :: 0 < j < |h| && j != i && Parent(j) != i ==> Priority(h[Parent(j)]) <= Priority(h[j])
  }

  /** `i`'s parent is no larger than `i`'s children. */
  predicate Bridge(h: Heap, i: nat) {
    i > 0 && i < |h| ==> forall j :: 0 < j < |h| && Parent(j) == i ==> Priority(h[Parent(i)]) <= Priority(h[j])
  }

  function Swap(h: Heap, i: nat, j: nat): (r: Heap)
    requires i < |h| && j < |h|
    ensures |r| == |h| && r[i] == h[j] && r[j] == h[i]
    ensures forall k :: 0 <= k < |h| && k != i && k != j ==> r[k] == h[k]
    ensures multiset(r) == multiset(h)
  {
    h[i := h[j]][j := h[i]]
  }

  /** `heapifyUp`: the node at `i` climbs while it is smaller than its parent. */
  function HeapifyUp(h: Heap, i: nat): (r: Heap)
    requires i < |h| && HeapExcept(h, i) && Bridge(h, i)
    ensures IsHeap(r) && multiset(r) == multiset(h) && |r| == |h|
    decreases i
  {
    if i > 0 && Priority(h[i]) < Priority(h[Parent(i)]) then
      var h' := Swap(h, i, Parent(i));
      HeapifyUp(h', Parent(i))
    else h
  }

  /** The smaller of `i` and its children. */
  function Smallest(h: Heap, i: nat): (m: nat)
    requires i < |h|
    ensures m < |h| && (m == i || (m > 0 && Parent(m) == i)) && Priority(h[m]) <= Priority(h[i])
    ensures forall j :: 0 < j < |h| && Parent(j) == i ==> Priority(h[m]) <= Priority(h[j])
    ensures m != i ==> Priority(h[m]) < Priority(h[i])
  {
    var left := 2 * i + 1;
    var right := 2 * i + 2;
    var smallest := if left < |h| && Priority(h[left]) < Priority(h[i]) then left else i;
    if right < |h| && Priority(h[right]) < Priority(h[smallest]) then right else smallest
  }

  /** `heapifyDown`: the node at `i` sinks while a child is smaller, trading
      places with the smaller child. Only `i` and the nodes below it move; the
      edge into `i` is left as good as it was. */
  function HeapifyDown(h: Heap, i: nat): (r: Heap)
    requires i < |h| && HeapAround(h, i) && Bridge(h, i)
    ensures HeapExcept(r, i) && Bridge(r, i) && multiset(r) == multiset(h) && |r| == |h|
    ensures r[..i] == h[..i]
    ensures i > 0 && Priority(h[Parent(i)]) <= Priority(h[i]) ==> IsHeap(r)
    decreases |h| - i
  {
    var m := Smallest(h, i);
    if m != i then
      var h' := Swap(h, i, m);
      SinkStep(h, i, m);
      var r := HeapifyDown(h', m);
      SinkDone(h, h', r, i, m);
      r
    else
      assert HeapExcept(h, i);
      h
  }

  /** After trading places with its smaller child `m`, the edges around `m`
      are the only ones left to check. */
  lemma SinkStep(h: Heap, i: nat, m: nat)
    requires i < |h| && HeapAround(h, i) && Bridge(h, i)
    requires m == Smallest(h, i) && m != i
    ensures var h' := Swap(h, i, m);
            HeapAround(h', m) && Bridge(h', m) && Priority(h'[Parent(m)]) <= Priority(h'[m])
            && (i > 0 ==> Priority(h'[Parent(i)]) <= Priority(h'[i]))
  {
    var h' := Swap(h, i, m);
    forall j | 0 < j < |h'| && j != m && Parent(j) != m ensures Priority(h'[Parent(j)]) <= Priority(h'[j]) {
      if j == i {
        assert Priority(h[Parent(i)]) <= Priority(h[m]);
      } else if Parent(j) == i {
        assert Priority(h[m]) <= Priority(h[j]);
      }
    }
  }

  lemma SinkDone(h: Heap, h': Heap, r: Heap, i: nat, m: nat)
    requires i < m < |h| && h' == Swap(h, i, m) && Parent(m) == i
    requires |r| == |h| && IsHeap(r) && r[..m] == h'[..m] && multiset(r) == multiset(h')
    ensures HeapExcept(r, i) && Bridge(r, i) && multiset(r) == multiset(h) && r[..i] == h[..i]
  {
    assert r[..i] == h'[..m][..i];
    if i > 0 {
      forall j | 0 < j < |r| && Parent(j) == i ensures Priority(r[Parent(i)]) <= Priority(r[j]) {
        assert Priority(r[Parent(i)]) <= Priority(r[i]);
      }
    }
  }

  /** In a heap the root has the least priority. */
  lemma {:induction false} RootIsMinimal(h: Heap, k: nat)
    requires IsHeap(h) && k < |h|
    ensures Priority(h[0]) <= Priority(h[k])
    decreases k
  {
    if k > 0 {
      RootIsMinimal(h, Parent(k));
    }
  }

  /** Nothing drawn from a heap lies below its root. */
  lemma RootBelowAll(h: Heap, rest: Heap)
    requires IsHeap(h) && |h| > 0 && multiset(rest) <= multiset(h)
    ensures forall k :: 0 <= k < |rest| ==> Priority(h[0]) <= Priority(rest[k])
  {
    forall k | 0 <= k < |rest| ensures Priority(h[0]) <= Priority(rest[k]) {
      assert rest[k] in multiset(h);
      var k' :| 0 <= k' < |h| && h[k'] == rest[k];
      RootIsMinimal(h, k');
    }
  }

  // ---------------------------------------------------------------- states

  function StatesOf(h: Heap): set<State> {
    set k | 0 <= k < |h| :: h[k].state
  }

  lemma SameElementsSameStates(a: Heap, b: Heap)
    requires multiset(a) == multiset(b)
    ensures StatesOf(a) == StatesOf(b)
  {
    forall x | x in StatesOf(a) ensures x in StatesOf(b) {
      var k :| 0 <= k < |a| && a[k].state == x;
      assert a[k] in multiset(b);
      var k' :| 0 <= k' < |b| && b[k'] == a[k];
    }
    forall x | x in StatesOf(b) ensures x in StatesOf(a) {
      var k :| 0 <= k < |b| && b[k].state == x;
      assert b[k] in multiset(a);
      var k' :| 0 <= k' < |a| && a[k'] == b[k];
    }
  }

  lemma {:induction false} StatesOfBound(h: Heap)
    ensures |StatesOf(h)| <= |h|
    decreases |h|
  {
    if |h| > 0 {
      var init := h[..|h| - 1];
      StatesOfBound(init);
      assert StatesOf(h) == StatesOf(init) + {h[|h| - 1].state};
    }
  }

  /** A heap with as many states as nodes holds each state once. */
  lemma DistinctStates(h: Heap, i: nat, j: nat)
    requires |StatesOf(h)| == |h| && i < |h| && j < |h| && i != j
    ensures h[i].state != h[j].state
  {
    if h[i].state == h[j].state {
      var rest := h[..j] + h[j + 1..];
      assert StatesOf(rest) == StatesOf(h) by {
        forall k | 0 <= k < |h| ensures h[k].state in StatesOf(rest) {
          if k < j {
            assert rest[k] == h[k];
          } else if k > j {
            assert rest[k - 1] == h[k];
          } else if i < j {
            assert rest[i] == h[i];
          } else {
            assert rest[i - 1] == h[i];
          }
        }
      }
      StatesOfBound(rest);
    }
  }

  /** Dropping index `i` by moving the last node into its place. */
  function Unlink(h: Heap, i: nat): (r: Heap)
    requires i < |h|
    ensures |r| == |h| - 1
    ensures i < |r| ==> r[i] == h[|h| - 1]
    ensures forall k :: 0 <= k < |r| && k != i ==> r[k] == h[k]
    ensures multiset(r) + multiset{h[i]} == multiset(h)
  {
    var last := |h| - 1;
    if i == last then
      assert h == h[..last] + [h[last]];
      h[..last]
    else
      UnlinkMultiset(h, i);
      h[i := h[last]][..last]
  }

  lemma UnlinkMultiset(h: Heap, i: nat)
    requires i < |h| - 1
    ensures multiset(h[i := h[|h| - 1]][..|h| - 1]) + multiset{h[i]} == multiset(h)
  {
    var last := |h| - 1;
    var r := h[i := h[last]][..last];
    assert h[i := h[last]] == r + [h[last]];
    assert multiset(h[i := h[last]]) == multiset(h) - multiset{h[i]} + multiset{h[last]};
  }

  lemma UnlinkStates(h: Heap, i: nat)
    requires i < |h| && |StatesOf(h)| == |h|
    ensures StatesOf(Unlink(h, i)) == StatesOf(h) - {h[i].state}
    ensures |StatesOf(Unlink(h, i))| == |Unlink(h, i)|
  {
    var r := Unlink(h, i);
    forall x | x in StatesOf(r) ensures x in StatesOf(h) - {h[i].state} {
      var k :| 0 <= k < |r| && r[k].state == x;
      if k == i {
        DistinctStates(h, i, |h| - 1);
      } else {
        DistinctStates(h, i, k);
      }
    }
    forall x | x in StatesOf(h) - {h[i].state} ensures x in StatesOf(r) {
      var k :| 0 <= k < |h| && h[k].state == x;
      if k == |h| - 1 {
        assert r[i] == h[k];
      } else {
        assert r[k] == h[k];
      }
    }
  }

  // ---------------------------------------------------------------- the pool

  datatype Pool = Pool(heap: Heap, nodeSet: set<State>)

  /** The pool's invariant: the heap order, `nodeSet` holding exactly the
      heap's states, and no state twice. */
  predicate Valid(p: Pool) {
    IsHeap(p.heap) && p.nodeSet == StatesOf(p.heap) && |p.nodeSet| == |p.heap|
  }

  const EmptyPool: Pool := Pool([], {})

  /** `add`: a node whose state is already queued is dropped, whatever its
      priority. */
  function Add(p: Pool, n: Node): (r: Pool)
    requires Valid(p)
    ensures Valid(r)
    ensures n.state in p.nodeSet ==> r == p
    ensures n.state !in p.nodeSet ==> r.nodeSet == p.nodeSet + {n.state}
                                      && multiset(r.heap) == multiset(p.heap) + multiset{n}
  {
    if n.state in p.nodeSet then p
    else
      var h := p.heap + [n];
      var r := HeapifyUp(h, |h| - 1);
      StatesOfAppend(p.heap, n);
      SameElementsSameStates(r, h);
      Pool(r, p.nodeSet + {n.state})
  }

  lemma StatesOfAppend(heap: seq<Node>, n: Node)
    ensures StatesOf(heap + [n]) == StatesOf(heap) + {n.state}
  {
    var h := heap + [n];
    forall x | x in StatesOf(h) ensures x in StatesOf(heap) + {n.state} {
      var k :| 0 <= k < |h| && h[k].state == x;
      if k < |heap| {
        assert h[k] == heap[k];
      }
    }
    forall x | x in StatesOf(heap) ensures x in StatesOf(h) {
      var k :| 0 <= k < |heap| && heap[k].state == x;
      assert h[k] == heap[k];
    }
    assert h[|heap|] == n;
  }

  /** `peek`. */
  function Peek(p: Pool): (r: Option<Node>)
    requires Valid(p)
    ensures r.None? <==> |p.heap| == 0
    ensures r.Some? ==> r.value in p.heap && forall k :: 0 <= k < |p.heap| ==> Priority(r.value) <= Priority(p.heap[k])
  {
    if |p.heap| == 0 then None
    else
      forall k | 0 <= k < |p.heap| ensures Priority(p.heap[0]) <= Priority(p.heap[k]) {
        RootIsMinimal(p.heap, k);
      }
      Some(p.heap[0])
  }

  /** `pop`: the node `peek` shows leaves the pool, its state with it, so it
      may be queued again later. */
  function Pop(p: Pool): (r: (Pool, Option<Node>))
    requires Valid(p)
    ensures Valid(r.0) && r.1 == Peek(p)
    ensures r.1.None? ==> r.0 == p
    ensures r.1.Some? ==> r.0.nodeSet == p.nodeSet - {r.1.value.state}
                          && multiset(r.0.heap) + multiset{r.1.value} == multiset(p.heap)
    ensures r.1.Some? ==> forall k :: 0 <= k < |r.0.heap| ==> Priority(r.1.value) <= Priority(r.0.heap[k])
  {
    if |p.heap| == 0 then (p, None)
    else
      var top := p.heap[0];
      var h := Unlink(p.heap, 0);
      UnlinkStates(p.heap, 0);
      var heap := SiftRoot(h);
      SameElementsSameStates(heap, h);
      RootBelowAll(p.heap, heap);
      (Pool(heap, p.nodeSet - {top.state}), Some(top))
  }

  /** Two pops in a row come out in priority order, and the pool `peek`
      showed is the pool `pop` started from. */
  lemma PopsInOrder(p: Pool)
    requires Valid(p)
    ensures var (p1, a) := Pop(p);
            var (_, b) := Pop(p1);
            a.Some? && b.Some? ==> Priority(a.value) <= Priority(b.value)
  {
    var (p1, a) := Pop(p);
    var (_, b) := Pop(p1);
    if a.Some? && b.Some? {
      var k :| 0 <= k < |p1.heap| && p1.heap[k] == b.value;
    }
  }

  /** `heapifyDown(0)` after the last node has been moved to the root. */
  function SiftRoot(h: Heap): (r: Heap)
    requires HeapAround(h, 0)
    ensures IsHeap(r) && multiset(r) == multiset(h) && |r| == |h|
  {
    if |h| == 0 then h else HeapifyDown(h, 0)
  }

  /** The index of the queued node with `n`'s state. */
  function IndexOf(h: Heap, s: State): (i: nat)
    requires s in StatesOf(h)
    ensures i < |h| && h[i].state == s
    ensures forall k :: 0 <= k < i ==> h[k].state != s
  {
    if h[0].state == s then 0
    else
      assert s in StatesOf(h[1..]) by {
        var k :| 0 <= k < |h| && h[k].state == s;
        assert h[1..][k - 1] == h[k];
      }
      1 + IndexOf(h[1..], s)
  }

  /** `remove`: the queued node with `n`'s state (not necessarily `n`
      itself) leaves; removing an absent state changes nothing. */
  function Remove(p: Pool, n: Node): (r: Pool)
    requires Valid(p)
    ensures Valid(r)
    ensures n.state !in p.nodeSet ==> r == p
    ensures n.state in p.nodeSet ==> r.nodeSet == p.nodeSet - {n.state}
                                     && multiset(r.heap) + multiset{p.heap[IndexOf(p.heap, n.state)]} == multiset(p.heap)
  {
    if n.state !in p.nodeSet then p
    else
      var i := IndexOf(p.heap, n.state);
      var h := Unlink(p.heap, i);
      UnlinkStates(p.heap, i);
      if i == |h| then Pool(h, p.nodeSet - {n.state})
      else
        UnlinkKeepsOrder(p.heap, i);
        var down := HeapifyDown(h, i);
        var heap := HeapifyUp(down, i);
        SameElementsSameStates(heap, h);
        Pool(heap, p.nodeSet - {n.state})
  }

  /** Moving the last node into slot `i` breaks the order only around `i`,
      and `i`'s parent still bounds `i`'s children. */
  lemma UnlinkKeepsOrder(heap: Heap, i: nat)
    requires IsHeap(heap) && i < |heap| - 1
    ensures HeapAround(Unlink(heap, i), i) && Bridge(Unlink(heap, i), i)
  {
    var h := Unlink(heap, i);
    if i > 0 {
      forall j | 0 < j < |h| && Parent(j) == i ensures Priority(h[Parent(i)]) <= Priority(h[j]) {
        assert Priority(heap[Parent(i)]) <= Priority(heap[i]) <= Priority(heap[j]);
      }
    }
  }

  function Count(p: Pool): (c: nat)
    requires Valid(p)
    ensures c == |p.nodeSet|
  {
    |p.heap|
  }

  function IsEmpty(p: Pool): (b: bool)
    requires Valid(p)
    ensures b <==> p.nodeSet == {}
  {
    |p.heap| == 0
  }

  function Contains(p: Pool, n: Node): (b: bool)
    requires Valid(p)
    ensures b <==> exists k :: 0 <= k < |p.heap| && SameNode(p.heap[k], n)
  {
    n.state in p.nodeSet
  }

  /** `initialize(with:)`, as a fold. */
  function AddAll(p: Pool, nodes: seq<Node>): (r: Pool)
    requires Valid(p)
    ensures Valid(r)
    decreases |nodes|
  {
    if |nodes| == 0 then p else AddAll(Add(p, nodes[0]), nodes[1..])
  }

  /** `initialize(with:)`: the loop adding the nodes in order. */
  method Initialize(p: Pool, nodes: seq<Node>) returns (r: Pool)
    requires Valid(p)
    ensures Valid(r) && r == AddAll(p, nodes)
    ensures forall k :: 0 <= k < |nodes| ==> nodes[k].state in r.nodeSet
  {
    r := p;
    var i := 0;
    while i < |nodes|
      invariant 0 <= i <= |nodes| && Valid(r)
      invariant AddAll(p, nodes) == AddAll(r, nodes[i..])
      invariant forall k :: 0 <= k < i ==> nodes[k].state in r.nodeSet
    {
      assert nodes[i..][1..] == nodes[i + 1..];
      r := Add(r, nodes[i]);
      i := i + 1;
    }
  }
}
