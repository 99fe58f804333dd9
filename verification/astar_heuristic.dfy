/** The cost-to-go estimates (Sources/Core/Algorithms/Heuristics/AStarHeuristic.swift).
    Both compare the two buffers joined with newlines: either by edit
    distance scaled into [0, 1] or by counting the positions where the
    characters differ. Swift counts `Character`s; here a string is a sequence
    of `char`. */
module AStarHeuristic {
  import opened Wrappers
  import opened VimState
  import Text

  datatype Mode = NormalizedLevenshtein | PositionalDifference

  /** `init(mode:)`'s default. */
  const DefaultMode: Mode := PositionalDifference

  function Min3(a: int, b: int, c: int): int {
    if a <= b && a <= c then a else if b <= c then b else c
  }

  function Max(a: int, b: int): int {
    if a >= b then a else b
  }

  function Abs(a: int): int {
    if a >= 0 then a else -a
  }

  // ------------------------------------------------------------ edit distance

  /** The edit distance: the fewest insertions, deletions and substitutions,
      each costing 1, that turn `s` into `t`. */
  function Dist(s: string, t: string): nat
    decreases |s| + |t|
  {
    if |s| == 0 then |t|
    else if |t| == 0 then |s|
    else
      Min3(Dist(s[..|s| - 1], t) + 1,
           Dist(s, t[..|t| - 1]) + 1,
           Dist(s[..|s| - 1], t[..|t| - 1]) + (if s[|s| - 1] == t[|t| - 1] then 0 else 1))
  }

  /** The recurrence on prefixes, as the DP reads it. */
  lemma DistStep(s: string, t: string, i: nat, j: nat)
    requires 1 <= i <= |s| && 1 <= j <= |t|
    ensures Dist(s[..i], t[..j])
            == Min3(Dist(s[..i - 1], t[..j]) + 1,
                    Dist(s[..i], t[..j - 1]) + 1,
                    Dist(s[..i - 1], t[..j - 1]) + (if s[i - 1] == t[j - 1] then 0 else 1))
  {
    assert s[..i][..i - 1] == s[..i - 1];
    assert t[..j][..j - 1] == t[..j - 1];
  }

  /** Edit distance does not depend on which side is which. */
  lemma {:induction false} DistSymmetric(s: string, t: string)
    ensures Dist(s, t) == Dist(t, s)
    decreases |s| + |t|
  {
    if |s| > 0 && |t| > 0 {
      DistSymmetric(s[..|s| - 1], t);
      DistSymmetric(s, t[..|t| - 1]);
      DistSymmetric(s[..|s| - 1], t[..|t| - 1]);
    }
  }

  /** It lies between the difference and the larger of the lengths. */
  lemma {:induction false} DistBounds(s: string, t: string)
    ensures Abs(|s| - |t|) <= Dist(s, t) <= Max(|s|, |t|)
    decreases |s| + |t|
  {
    if |s| > 0 && |t| > 0 {
      DistBounds(s[..|s| - 1], t);
      DistBounds(s, t[..|t| - 1]);
      DistBounds(s[..|s| - 1], t[..|t| - 1]);
    }
  }

  /** It is 0 exactly for equal strings. */
  lemma DistZeroIffEqual(s: string, t: string)
    ensures Dist(s, t) == 0 <==> s == t
  {
    DistSelf(s);
    if Dist(s, t) == 0 {
      DistZeroMeansEqual(s, t);
    }
  }

  lemma {:induction false} DistSelf(s: string)
    ensures Dist(s, s) == 0
    decreases |s|
  {
    if |s| > 0 {
      DistSelf(s[..|s| - 1]);
    }
  }

  /** Every edit costs 1, so distance 0 leaves only matching last
      characters over prefixes at distance 0. */
  lemma {:induction false} DistZeroMeansEqual(s: string, t: string)
    requires Dist(s, t) == 0
    ensures s == t
    decreases |s| + |t|
  {
    if |s| > 0 && |t| > 0 {
      var s', t' := s[..|s| - 1], t[..|t| - 1];
      assert Dist(s', t') == 0 && s[|s| - 1] == t[|t| - 1];
      DistZeroMeansEqual(s', t');
      assert s == s' + [s[|s| - 1]] && t == t' + [t[|t| - 1]];
    }
  }

  /** `levenshteinDistance`: the two-row dynamic programme, run with the
      shorter string down the side. */
  method LevenshteinDistance(lhs: string, rhs: string) returns (d: nat)
    ensures d == Dist(lhs, rhs)
    decreases if |lhs| > |rhs| then 1 else 0
  {
    var s, t := lhs, rhs;
    if |s| == 0 {
      return |t|;
    }
    if |t| == 0 {
      return |s|;
    }
    if |s| > |t| {
      d := LevenshteinDistance(rhs, lhs);
      DistSymmetric(rhs, lhs);
      return;
    }
    var n, m := |s|, |t|;
    var previous := new nat[m + 1](j => j);
    var current := new nat[m + 1];
    forall j | 0 <= j <= m ensures previous[j] == Dist(s[..0], t[..j]) {
      assert s[..0] == [];
    }
    for i := 1 to n + 1
      invariant fresh(previous) && fresh(current)
      invariant previous.Length == m + 1 && current.Length == m + 1 && previous != current
      invariant forall j :: 0 <= j <= m ==> previous[j] == Dist(s[..i - 1], t[..j])
    {
      FillRow(s, t, i, previous, current);
      previous, current := current, previous;
    }
    assert s[..n] == s && t[..m] == t;
    d := previous[m];
  }

  /** One row of the table: the distances from the first `i` characters of
      `s` to every prefix of `t`, from the row for `i - 1` characters. */
  method FillRow(s: string, t: string, i: nat, previous: array<nat>, current: array<nat>)
    requires 1 <= i <= |s|
    requires previous.Length == |t| + 1 && current.Length == |t| + 1 && previous != current
    requires forall k :: 0 <= k <= |t| ==> previous[k] == Dist(s[..i - 1], t[..k])
    modifies current
    ensures forall k :: 0 <= k <= |t| ==> current[k] == Dist(s[..i], t[..k])
  {
    current[0] := i;
    assert t[..0] == [];
    for j := 1 to |t| + 1
      invariant forall k :: 0 <= k < j ==> current[k] == Dist(s[..i], t[..k])
    {
      var cost := if s[i - 1] == t[j - 1] then 0 else 1;
      DistStep(s, t, i, j);
      current[j] := Min3(previous[j] + 1, current[j - 1] + 1, previous[j - 1] + cost);
    }
  }

  // ------------------------------------------------------- the two estimates

  /** `normalizedLevenshtein`: 0 for equal strings, 1 when one side is empty,
      otherwise the edit distance over the longer length. */
  method NormalizedLevenshteinOf(a: string, b: string) returns (r: real)
    ensures r == NormalizedDistance(a, b)
  {
    if a == b {
      return 0.0;
    }
    if |a| == 0 {
      return 1.0;
    }
    if |b| == 0 {
      return 1.0;
    }
    var dist := LevenshteinDistance(a, b);
    DistBounds(a, b);
    r := Ratio(dist, Max(|a|, |b|));
  }

  /** The normalised edit distance: the distance over the longer length, and
      0 for two empty strings. */
  function NormalizedDistance(a: string, b: string): (r: real)
    ensures 0.0 <= r <= 1.0
    ensures r == 0.0 <==> a == b
  {
    if |a| == 0 && |b| == 0 then 0.0
    else
      DistBounds(a, b);
      DistZeroIffEqual(a, b);
      Ratio(Dist(a, b), Max(|a|, |b|))
  }

  /** `Double(d) / Double(m)` for a count `d` out of `m`. */
  function Ratio(d: nat, m: nat): (r: real)
    requires d <= m && m > 0
    ensures 0.0 <= r <= 1.0
    ensures r == 0.0 <==> d == 0
    ensures r == 1.0 <==> d == m
  {
    d as real / m as real
  }

  /** The fast paths agree with the ratio: one empty side gives exactly 1. */
  lemma NormalizedFastPaths(a: string, b: string)
    requires (|a| == 0) != (|b| == 0)
    ensures NormalizedDistance(a, b) == 1.0
  {
  }

  /** The character at `i`, if there is one. */
  function At(s: string, i: nat): (r: Option<char>)
    ensures r.Some? <==> i < |s|
  {
    if i < |s| then Some(s[i]) else None
  }

  /** The number of positions below `n` where `a` and `b` differ, a missing
      character counting as different. */
  function Differences(a: string, b: string, n: nat): nat {
    if n == 0 then 0 else Differences(a, b, n - 1) + (if At(a, n - 1) != At(b, n - 1) then 1 else 0)
  }

  /** `positionalDifference`: the loop over the positions of the longer
      string. */
  method PositionalDifferenceOf(a: string, b: string) returns (r: real)
    ensures r == Differences(a, b, Max(|a|, |b|)) as real
  {
    var maxLength := Max(|a|, |b|);
    var differences := 0;
    for i := 0 to maxLength
      invariant differences == Differences(a, b, i)
    {
      if At(a, i) != At(b, i) {
        differences := differences + 1;
      }
    }
    r := differences as real;
  }

  lemma {:induction false} DifferencesBounded(a: string, b: string, n: nat)
    ensures Differences(a, b, n) <= n
    ensures Differences(a, b, n) >= Min(n, Max(|a|, |b|)) - Min(|a|, |b|)
    ensures Differences(a, b, n) == 0 <==> a[..Min(n, |a|)] == b[..Min(n, |b|)] && (n <= |a| <==> n <= |b|)
  {
    if n > 0 {
      DifferencesBounded(a, b, n - 1);
    }
  }

  function Min(a: int, b: int): int {
    if a <= b then a else b
  }

  // ---------------------------------------------------------------- estimate

  /** `buffer.joined(separator: "\n")`. */
  function JoinLines(lines: seq<string>): string {
    Text.Join(lines, "\n")
  }

  /** `estimate`. */
  method Estimate(mode: Mode, state: State, target: State) returns (r: real)
    ensures r == EstimateOf(mode, state, target)
  {
    var a := JoinLines(state.buffer);
    var b := JoinLines(target.buffer);
    match mode
    case NormalizedLevenshtein =>
      r := NormalizedLevenshteinOf(a, b);
    case PositionalDifference =>
      r := PositionalDifferenceOf(a, b);
  }

  /** What `estimate` computes: only the buffers are looked at, not the cursor
      or the mode. */
  function EstimateOf(mode: Mode, state: State, target: State): (r: real)
    ensures r >= 0.0
    ensures r == 0.0 <==> JoinLines(state.buffer) == JoinLines(target.buffer)
  {
    var a := JoinLines(state.buffer);
    var b := JoinLines(target.buffer);
    match mode
    case NormalizedLevenshtein => NormalizedDistance(a, b)
    case PositionalDifference =>
      DifferencesBounded(a, b, Max(|a|, |b|));
      Differences(a, b, Max(|a|, |b|)) as real
  }

  /** Because the buffers are compared as joined text, a zero estimate does
      not mean equal buffers: splitting a line differently, or an empty buffer
      against one empty line, is invisible to it. */
  lemma EstimateSeesOnlyJoinedText(mode: Mode, cursor: Point, vimMode: VimMode)
    ensures EstimateOf(mode, State(["a", "b"], cursor, vimMode), State(["a\nb"], cursor, vimMode)) == 0.0
    ensures EstimateOf(mode, State([], cursor, vimMode), State([""], cursor, vimMode)) == 0.0
  {
    assert JoinLines(["a", "b"]) == "a" + "\n" + Text.Join(["b"], "\n");
  }
}
