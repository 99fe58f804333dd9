/** The keystrokes-to-state cache (Sources/Interface/Vim/VimStateLRU.swift):
    a dictionary plus a doubly linked recency list between two sentinels.
    Here the list is a sequence, most recently used first, and the key is
    the keystroke sequence itself rather than its string encoding. */
module VimStateLRU {
  import opened Wrappers
  import opened VimState
  import VimKeystrokes

  type Key = seq<VimKeystrokes.Keystroke>

  /** `init(capacity:)`'s default. */
  const DefaultCapacity: int := 1000

  /** `cache` is `entries`; `order` lists the keys from `head.next` to
      `tail.prev`. */
  datatype Cache = Cache(capacity: int, entries: map<Key, State>, order: seq<Key>)

  predicate Distinct(order: seq<Key>) {
    forall i, j :: 0 <= i < j < |order| ==> order[i] != order[j]
  }

  /** The list and the dictionary hold the same keys, once each, and there
      are never more than the capacity (or none, for a capacity below one). */
  predicate Valid(c: Cache) {
    && Distinct(c.order)
    && (forall k :: k in c.order ==> k in c.entries)
    && (forall k :: k in c.entries ==> k in c.order)
    && |c.entries| <= (if c.capacity >= 0 then c.capacity else 0)
  }

  /** A freshly initialised cache. */
  function New(capacity: int): (c: Cache)
    ensures Valid(c) && Count(c) == 0
  {
    Cache(capacity, map[], [])
  }

  // ------------------------------------------------------------ list helpers

  /** `removeNode`: unlink `k` from the list; the keys before and after it
      keep their places and their order. */
  function RemoveNode(order: seq<Key>, k: Key): (r: seq<Key>)
    ensures forall x :: x in r <==> x in order && x != k
    ensures Distinct(order) ==> Distinct(r)
    ensures k !in order ==> r == order
    ensures Distinct(order) && k in order ==> |r| == |order| - 1
    ensures Distinct(order) ==> forall i :: 0 <= i < |order| && order[i] == k ==> r == order[..i] + order[i + 1..]
  {
    if |order| == 0 then []
    else if order[0] == k then
      var rest := RemoveNode(order[1..], k);
      assert Distinct(order) ==> k !in order[1..] && rest == order[1..];
      rest
    else
      var rest := RemoveNode(order[1..], k);
      assert Distinct(order) ==> order[0] !in order[1..];
      assert Distinct(order) ==> forall i :: 0 <= i < |order| && order[i] == k ==> [order[0]] + rest == order[..i] + order[i + 1..] by {
        if Distinct(order) {
          assert Distinct(order[1..]);
          forall i | 0 <= i < |order| && order[i] == k
            ensures [order[0]] + rest == order[..i] + order[i + 1..]
          {
            assert order[1..][i - 1] == k;
            SpliceCons(order, i);
          }
        }
      }
      [order[0]] + rest
  }

  /** Cutting position `i` out of a list is cutting `i - 1` out of its tail,
      with the head put back. */
  lemma SpliceCons(order: seq<Key>, i: nat)
    requires 1 <= i < |order|
    ensures [order[0]] + (order[1..][..i - 1] + order[1..][i..]) == order[..i] + order[i + 1..]
  {
  }

  /** `addToHead`. */
  function AddToHead(order: seq<Key>, k: Key): (r: seq<Key>)
    ensures |r| == |order| + 1 && r[0] == k && r[1..] == order
  {
    [k] + order
  }

  /** `moveToHead`: unlink, then add at the head. */
  function MoveToHead(order: seq<Key>, k: Key): (r: seq<Key>)
    requires Distinct(order) && k in order
    ensures |r| == |order| && r[0] == k && Distinct(r)
    ensures forall x :: x in r <==> x in order
    ensures forall i :: 0 <= i < |order| && order[i] == k ==> r == [k] + order[..i] + order[i + 1..]
  {
    AddToHead(RemoveNode(order, k), k)
  }

  /** `removeTail`: the least recently used key, unless the list is empty. */
  function RemoveTail(order: seq<Key>): (r: Option<(seq<Key>, Key)>)
    ensures r.None? <==> |order| == 0
    ensures r.Some? ==> r.value.0 + [r.value.1] == order
  {
    if |order| == 0 then None else Some((order[..|order| - 1], order[|order| - 1]))
  }

  // -------------------------------------------------------------- operations

  /** `count`: the number of cached keys, which is also the list's length. */
  function Count(c: Cache): (n: nat)
    requires Valid(c)
    ensures n == |c.order|
  {
    DistinctCard(c.order, c.entries);
    |c.entries|
  }

  lemma {:induction false} DistinctCard(order: seq<Key>, entries: map<Key, State>)
    requires Distinct(order) && forall k :: k in order <==> k in entries
    ensures |entries| == |order|
    decreases |order|
  {
    if |order| == 0 {
      assert entries.Keys == {};
    } else {
      var k := order[0];
      var entries' := entries - {k};
      assert entries'.Keys == entries.Keys - {k};
      forall x ensures x in order[1..] <==> x in entries' {
        if x in order[1..] {
          var j :| 1 <= j < |order| && order[j] == x;
        }
        if x in entries' {
          var j :| 0 <= j < |order| && order[j] == x;
          assert j != 0;
          assert order[1..][j - 1] == x;
        }
      }
      DistinctCard(order[1..], entries');
    }
  }

  /** `get`: an absent key changes nothing; a present one is returned and
      becomes the most recently used. */
  function Get(c: Cache, k: Key): (r: (Cache, Option<State>))
    requires Valid(c)
    ensures Valid(r.0)
    ensures k !in c.entries ==> r == (c, None)
    ensures k in c.entries ==> r.1 == Some(c.entries[k]) && |r.0.order| == |c.order| && r.0.order[0] == k
                               && r.0.entries == c.entries && r.0.capacity == c.capacity
    ensures forall i :: 0 <= i < |c.order| && c.order[i] == k ==> r.0.order == [k] + c.order[..i] + c.order[i + 1..]
  {
    if k !in c.entries then (c, None)
    else (c.(order := MoveToHead(c.order, k)), Some(c.entries[k]))
  }

  /** `set`: an existing key takes the new value and moves to the head; a new
      key goes to the head, and when that overflows the capacity the tail is
      evicted. */
  function Set(c: Cache, k: Key, v: State): (r: Cache)
    requires Valid(c)
    ensures Valid(r) && r.capacity == c.capacity
    ensures k in c.entries ==> r.entries == c.entries[k := v] && |r.order| == |c.order| && r.order[0] == k
    ensures forall i :: 0 <= i < |c.order| && c.order[i] == k ==> r.order == [k] + c.order[..i] + c.order[i + 1..]
    ensures k !in c.entries && |c.entries| + 1 <= c.capacity ==>
              r.entries == c.entries[k := v] && r.order == [k] + c.order
    ensures k !in c.entries && |c.entries| + 1 > c.capacity && |c.order| > 0 ==>
              (var lru := c.order[|c.order| - 1];
               r.entries == c.entries[k := v] - {lru} && r.order == [k] + c.order[..|c.order| - 1])
    ensures k !in c.entries && |c.entries| + 1 > c.capacity && |c.order| == 0 ==> r.entries == map[]
  {
    if k in c.entries then Update(c, k, v) else Insert(c, k, v)
  }

  /** `set` of a cached key. */
  function Update(c: Cache, k: Key, v: State): (r: Cache)
    requires Valid(c) && k in c.entries
    ensures Valid(r) && r.capacity == c.capacity
    ensures r.entries == c.entries[k := v] && |r.order| == |c.order| && r.order[0] == k
    ensures forall i :: 0 <= i < |c.order| && c.order[i] == k ==> r.order == [k] + c.order[..i] + c.order[i + 1..]
  {
    var entries := c.entries[k := v];
    assert entries.Keys == c.entries.Keys;
    assert |entries| == |c.entries|;
    Cache(c.capacity, entries, MoveToHead(c.order, k))
  }

  /** `set` of a new key: add it at the head, then evict if over capacity. */
  function Insert(c: Cache, k: Key, v: State): (r: Cache)
    requires Valid(c) && k !in c.entries
    ensures Valid(r) && r.capacity == c.capacity
    ensures |c.entries| + 1 <= c.capacity ==> r.entries == c.entries[k := v] && r.order == [k] + c.order
    ensures |c.entries| + 1 > c.capacity && |c.order| > 0 ==>
              (var lru := c.order[|c.order| - 1];
               r.entries == c.entries[k := v] - {lru} && r.order == [k] + c.order[..|c.order| - 1])
    ensures |c.entries| + 1 > c.capacity && |c.order| == 0 ==> r.entries == map[]
  {
    AddNewKey(c.order, c.entries, k, v);
    if |c.entries| + 1 > c.capacity then Evict(c, k, v)
    else Cache(c.capacity, c.entries[k := v], AddToHead(c.order, k))
  }

  /** The overflowing `set`: `removeTail` and drop its key from the dictionary. */
  function Evict(c: Cache, k: Key, v: State): (r: Cache)
    requires Valid(c) && k !in c.entries && |c.entries| + 1 > c.capacity
    ensures Valid(r) && r.capacity == c.capacity
    ensures |c.order| > 0 ==>
              (var lru := c.order[|c.order| - 1];
               r.entries == c.entries[k := v] - {lru} && r.order == [k] + c.order[..|c.order| - 1])
    ensures |c.order| == 0 ==> r.entries == map[]
  {
    var entries := c.entries[k := v];
    var order := AddToHead(c.order, k);
    if |c.order| == 0 then
      // the new node is the only one, so it is the tail that goes
      assert entries - {k} == map[];
      Cache(c.capacity, entries - {k}, [])
    else
      AddNewKey(c.order, c.entries, k, v);
      DistinctCard(c.order, c.entries);
      EvictStep(c.capacity, order, entries);
      ConsTail(k, c.order);
      Cache(c.capacity, entries - {order[|order| - 1]}, order[..|order| - 1])
  }

  /** The tail of a list with a new head is the old tail. */
  lemma ConsTail(k: Key, order: seq<Key>)
    requires |order| > 0
    ensures ([k] + order)[|order|] == order[|order| - 1]
    ensures ([k] + order)[..|order|] == [k] + order[..|order| - 1]
  {
  }

  /** Putting a new key at the head keeps the list and dictionary in step. */
  lemma AddNewKey(order: seq<Key>, entries: map<Key, State>, k: Key, v: State)
    requires Distinct(order) && (forall x :: x in order <==> x in entries) && k !in entries
    ensures Distinct([k] + order) && (forall x :: x in [k] + order <==> x in entries[k := v])
    ensures |entries[k := v]| == |order| + 1
  {
    var order' := [k] + order;
    forall i, j | 0 <= i < j < |order'| ensures order'[i] != order'[j] {
      if i == 0 {
        assert order'[j] == order[j - 1];
      }
    }
    DistinctCard(order', entries[k := v]);
  }

  /** Dropping the tail from a distinct list drops exactly that key, and the
      resulting cache is valid when the list was one over the limit. */
  lemma EvictStep(capacity: int, order: seq<Key>, entries: map<Key, State>)
    requires |order| > 0 && Distinct(order) && (forall k :: k in order <==> k in entries)
    requires |order| - 1 <= (if capacity >= 0 then capacity else 0)
    ensures Valid(Cache(capacity, entries - {order[|order| - 1]}, order[..|order| - 1]))
  {
    var rest, lru := order[..|order| - 1], order[|order| - 1];
    assert forall i :: 0 <= i < |rest| ==> rest[i] == order[i];
    assert order[|order| - 1] == lru;
    assert forall x :: x in rest <==> x in entries && x != lru;
    DistinctCard(order, entries);
    DistinctCard(rest, entries - {lru});
  }

  /** `remove`: only that key goes; an absent key changes nothing. */
  function Remove(c: Cache, k: Key): (r: Cache)
    requires Valid(c)
    ensures Valid(r) && r.capacity == c.capacity
    ensures k !in c.entries ==> r == c
    ensures k in c.entries ==> r.entries == c.entries - {k}
                               && Count(r) == Count(c) - 1
    ensures forall i :: 0 <= i < |c.order| && c.order[i] == k ==> r.order == c.order[..i] + c.order[i + 1..]
  {
    if k in c.entries then
      var r := Cache(c.capacity, c.entries - {k}, RemoveNode(c.order, k));
      assert r.entries.Keys == c.entries.Keys - {k};
      DistinctCard(c.order, c.entries);
      DistinctCard(r.order, r.entries);
      r
    else c
  }

  /** `clear`. */
  function Clear(c: Cache): (r: Cache)
    requires Valid(c)
    ensures Valid(r) && Count(r) == 0 && r.capacity == c.capacity
    ensures forall k :: Get(r, k).1 == None
  {
    Cache(c.capacity, map[], [])
  }

  // ---------------------------------------------------------------- lemmas

  /** A value just stored is what `get` returns, for any capacity of at least
      one, the empty keystroke sequence included. */
  lemma GetAfterSet(c: Cache, k: Key, v: State)
    requires Valid(c) && c.capacity >= 1
    ensures Get(Set(c, k, v), k).1 == Some(v)
  {
    var r := Set(c, k, v);
    if k !in c.entries && |c.entries| + 1 > c.capacity {
      assert |c.order| > 0 by {
        DistinctCard(c.order, c.entries);
      }
      var lru := c.order[|c.order| - 1];
      assert k != lru;
      assert k in r.entries.Keys;
    }
  }

  /** Reading or overwriting a cached key leaves the eviction victim alone:
      unless that key was the least recently used one, the same key stays
      last in the list. */
  lemma TouchKeepsVictim(c: Cache, k: Key, v: State)
    requires Valid(c) && k in c.entries && c.order[|c.order| - 1] != k
    ensures Get(c, k).0.order[|c.order| - 1] == c.order[|c.order| - 1]
    ensures Set(c, k, v).order[|c.order| - 1] == c.order[|c.order| - 1]
  {
  }

  /** Storing a key does not disturb another key that stays cached. */
  lemma SetLeavesOthers(c: Cache, k: Key, v: State, other: Key)
    requires Valid(c) && other != k
    ensures other in Set(c, k, v).entries ==> other in c.entries && Set(c, k, v).entries[other] == c.entries[other]
  {
  }

  /** The count never exceeds a non-negative capacity. */
  lemma CountWithinCapacity(c: Cache, k: Key, v: State)
    requires Valid(c) && c.capacity >= 0
    ensures Count(Set(c, k, v)) <= c.capacity
  {
  }
}
