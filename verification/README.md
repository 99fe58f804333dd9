# vim.cafe in Dafny

vim.cafe searches for short Vim keystroke sequences that turn one editor
state into another. It runs A* over editor states and uses a live Neovim or
Vim process as the transition function. This project models the sequential
logic of that system in Dafny and proves what the code promises about it:

- the MessagePack codec and MessagePack-RPC framing of the Neovim session
  (`NvimRPC`), and the older client (`NvimClient`) with its own decoder and
  response accessors;
- the A* machinery: search nodes, the binary-heap node pool, bound pruning,
  the two heuristics (a two-row Levenshtein table and a positional count),
  the sequential search loop and the bookkeeping of the concurrent search;
- the LRU cache of editor states keyed by keystroke sequence;
- the keystroke alphabet and the editor-state record;
- the string and index conversions of the two Vim client-server sessions
  (`GvimSession`, `VimSession`): quoting, 0- and 1-based line numbers,
  parsing what `--remote-expr` prints, and the Ex commands that rewrite a
  buffer, checked against a small model of what Vim does with them;
- the orchestration over an abstract session: the engine's fallback to the
  last non-blocking state, the default `getStateBundle`, and the session
  registry.

Processes, pipes and the editor itself are not modelled. What an editor
answers comes in as a parameter, so every property holds for every answer the
editor could give: the engine gets one answer per state read, numbered in the
order the reads are made (the read before the loop, one per keystroke, then
the final one, so no two reads are forced to agree); each send gets its own
success or failure, numbered by keystroke or input; the sessions get the
text or bytes of each reply.

Modules follow the source files: `Bytes`, `Text` and `Wrappers` hold shared
definitions; `MsgPack`, `IntFormat`, `NvimRpc`, `NvimRpcProperties`,
`NvimResponses` and `NvimSession` cover `NvimSession.swift`; `NvimClient` and
`NvimClientProperties` cover `NvimClient.swift`; `VimRemote` is the part of
Vim's behaviour the client-server sessions rely on; the remaining modules are
named after the Swift type they model.

`NvimClient.swift` repeats `NvimSession.swift`'s response accessors and
message-id counter word for word; they are defined once, in `NvimResponses`
and `NvimSession.NextMessageId`. Where a session's command is wrong (see
"## Findings"), the as-written command is modelled next to a corrected one,
a lemma exhibits the difference, and the session operation
(`GvimSession.SetBufferLines`, `VimSession.SendInput`,
`VimSession.SetBufferLines`) and everything above it use the corrected one.
The same holds for the integer encoder: `NvimRpc.EncodeValue` and
`NvimClient.EncodeValue` use the corrected `IntFormat.EncodeInt`, and so does
everything that encodes through them (`NvimRpc.Encode`,
`NvimClient.EncodeMessagePack`, `NvimSession.CallRpc` and the session
operations that send integers).

## Model

| member | source | states |
|---|---|---|
| AStarNode.SameNode | Sources/Core/Models/AstarNode.swift:28-36 | definition: `==` on nodes compares the states alone, whatever the path, parent, cost and heuristic, and `hash` feeds only the state (`AStarNode.HashInput`), so equal nodes hash alike |
| AStarNode.Priority | Sources/Core/Models/AstarNode.swift:24-26 | definition: the key the open pool orders by, cost plus heuristic; `AStarNodePool.Peek`, `Pop` and `PopsInOrder` state what ordering by it gives |
| AStarPruning.ShouldPruneByBound | Sources/Core/Algorithms/Pruning/AStarPrunning.swift:9-15 | definition of the bound test; `AStarPruning.BoundPruningExactly` and `AStarPruning.BoundPruningMonotone` state when it prunes |
| AStarPruning.BoundPruningExactly | Sources/Core/Algorithms/Pruning/AStarPrunning.swift:9-15 | with no incumbent nothing is pruned; with incumbent bound b a cost g is pruned exactly when g >= b |
| AStarPruning.BoundPruningMonotone | Sources/Core/Algorithms/Pruning/AStarPrunning.swift:10-12 | a pruned cost stays pruned when it grows and when the bound shrinks |
| AStarPruning.ShouldPruneByDomain | Sources/Core/Algorithms/Pruning/AStarPrunning.swift:17-23 | definition: the domain hook returns false for every state and target, so no state is pruned by it |
| AStarNodePool.HeapifyUp | Sources/Core/Models/AStarNodePool.swift:88-94 | from a heap broken only at i, climbing restores the heap order and keeps the same nodes |
| AStarNodePool.Smallest | Sources/Core/Models/AStarNodePool.swift:97-107 | picks i or one of its children, of priority no greater than i's and no greater than any child's, and strictly smaller when it is not i |
| AStarNodePool.HeapifyDown | Sources/Core/Models/AStarNodePool.swift:96-113 | sinking keeps the nodes and everything above i, and restores the heap order when i's parent already bounded it |
| AStarNodePool.RootIsMinimal | Sources/Core/Models/AStarNodePool.swift:33-35 | in a heap the root's priority is at most every node's |
| AStarNodePool.DistinctStates | Sources/Core/Models/AStarNodePool.swift:9-10 | a heap with as many states as nodes never holds two nodes with the same state |
| AStarNodePool.Valid | Sources/Core/Models/AStarNodePool.swift:9-10 | definition of the pool invariant: heap order on priority, `nodeSet` holding exactly the heap's states, and no state twice; `Add`, `Pop`, `Remove` and `Initialize` keep it |
| AStarNodePool.Add | Sources/Core/Models/AStarNodePool.swift:20-30 | keeps the pool valid; a node whose state is queued leaves the pool exactly as it was, whatever its priority; otherwise its state joins nodeSet and it joins the heap |
| AStarNodePool.Peek | Sources/Core/Models/AStarNodePool.swift:33-35 | nothing exactly on an empty pool, otherwise a queued node of least priority |
| AStarNodePool.Pop | Sources/Core/Models/AStarNodePool.swift:37-53 | returns what peek shows; the pool stays valid, loses exactly that node and its state, and every remaining node has priority at least the popped one's |
| AStarNodePool.PopsInOrder | Sources/Core/Models/AStarNodePool.swift:37-53 | two pops in a row come out in non-decreasing priority |
| AStarNodePool.Remove | Sources/Core/Models/AStarNodePool.swift:55-70 | removing an absent state changes nothing; otherwise the queued node with that state, and only it, leaves, and the pool stays valid |
| AStarNodePool.UnlinkStates | Sources/Core/Models/AStarNodePool.swift:59-65 | moving the last node into the freed slot drops exactly that state from the heap's states |
| AStarNodePool.Count | Sources/Core/Models/AStarNodePool.swift:72-74 | the heap's length is the number of distinct queued states |
| AStarNodePool.IsEmpty | Sources/Core/Models/AStarNodePool.swift:76-78 | empty exactly when no state is queued |
| AStarNodePool.Contains | Sources/Core/Models/AStarNodePool.swift:80-82 | true exactly when some queued node is the same node (has the same state) |
| AStarNodePool.AddAll | Sources/Core/Models/AStarNodePool.swift:14-18 | adding nodes one after another keeps the pool valid |
| AStarNodePool.Initialize | Sources/Core/Models/AStarNodePool.swift:14-18 | the loop equals adding the nodes one by one, and afterwards every given node's state is queued |
| AStarHeuristic.DistStep | Sources/Core/Algorithms/Heuristics/AStarHeuristic.swift:80-86 | the edit distance of two non-empty prefixes is the least of deletion, insertion and substitution from the shorter prefixes |
| AStarHeuristic.DistSymmetric | Sources/Core/Algorithms/Heuristics/AStarHeuristic.swift:66-69 | the edit distance does not depend on the order of the strings, which is what makes the swap sound |
| AStarHeuristic.DistBounds | Sources/Core/Algorithms/Heuristics/AStarHeuristic.swift:58-91 | the distance lies between the difference of the lengths and the larger length |
| AStarHeuristic.DistZeroIffEqual | Sources/Core/Algorithms/Heuristics/AStarHeuristic.swift:58-91 | the distance is 0 exactly for equal strings |
| AStarHeuristic.LevenshteinDistance | Sources/Core/Algorithms/Heuristics/AStarHeuristic.swift:58-91 | the two-row table, empty-side shortcuts and operand swap included, returns the recursive edit distance |
| AStarHeuristic.FillRow | Sources/Core/Algorithms/Heuristics/AStarHeuristic.swift:78-86 | from the row for i - 1 characters, one pass fills the row for i characters |
| AStarHeuristic.NormalizedLevenshteinOf | Sources/Core/Algorithms/Heuristics/AStarHeuristic.swift:32-44 | with its fast paths, returns the normalised distance |
| AStarHeuristic.NormalizedDistance | Sources/Core/Algorithms/Heuristics/AStarHeuristic.swift:32-44 | lies in [0, 1] and is 0 exactly for equal strings |
| AStarHeuristic.Ratio | Sources/Core/Algorithms/Heuristics/AStarHeuristic.swift:41-43 | a count out of a positive total lies in [0, 1], 0 exactly for none and 1 exactly for all |
| AStarHeuristic.NormalizedFastPaths | Sources/Core/Algorithms/Heuristics/AStarHeuristic.swift:37-38 | exactly one empty side gives 1 |
| AStarHeuristic.PositionalDifferenceOf | Sources/Core/Algorithms/Heuristics/AStarHeuristic.swift:46-56 | the loop counts the positions below the longer length where the characters differ, a missing character counting as different |
| AStarHeuristic.Differences | Sources/Core/Algorithms/Heuristics/AStarHeuristic.swift:46-56 | definition: the positions where the strings differ, a missing character counting as different; `AStarHeuristic.PositionalDifferenceOf` and `DifferencesBounded` state the loop's result and bounds |
| AStarHeuristic.DifferencesBounded | Sources/Core/Algorithms/Heuristics/AStarHeuristic.swift:46-56 | the count lies between the length difference and the larger length, and is 0 exactly when the strings agree on those positions |
| AStarHeuristic.JoinLines | Sources/Core/Algorithms/Heuristics/AStarHeuristic.swift:21-22 | definition: the buffer joined with newlines |
| AStarHeuristic.Estimate | Sources/Core/Algorithms/Heuristics/AStarHeuristic.swift:20-30 | joins each buffer with newlines and applies the chosen measure |
| AStarHeuristic.EstimateOf | Sources/Core/Algorithms/Heuristics/AStarHeuristic.swift:20-30 | never negative, and 0 exactly when the joined buffers are equal, whatever the cursor and mode |
| AStarHeuristic.EstimateSeesOnlyJoinedText | Sources/Core/Algorithms/Heuristics/AStarHeuristic.swift:21-22 | buffers that differ only in where lines break, or an empty buffer against one empty line, estimate 0 |
| AStarSearch.Expand | Sources/Core/Algorithms/AStarAlgorithm.swift:28-48 | the keystroke loop keeps the pool valid, drops no queued state, and adds only children of the current node whose path extends its path by one listed keystroke, whose cost is one more and whose state is the engine's answer; an engine failure stops it |
| AStarSearch.ExpandKeepsReached | Sources/Core/Algorithms/AStarAlgorithm.swift:29-45 | if every queued node's state is where its path leads and its cost is its path's length, that still holds after expanding |
| AStarSearch.Loop | Sources/Core/Algorithms/AStarAlgorithm.swift:17-51 | a returned path leads to the target; an empty pool gives noPathFound |
| AStarSearch.ReachedAfterPop | Sources/Core/Algorithms/AStarAlgorithm.swift:17 | popping keeps every remaining node reached |
| AStarSearch.StartPool | Sources/Core/Algorithms/AStarAlgorithm.swift:11-14 | the first pool holds the root alone: the initial state, an empty path, cost 0 and the initial state's estimate |
| AStarSearch.Search | Sources/Core/Algorithms/AStarAlgorithm.swift:9-52 | a path it returns takes the initial state to the target state |
| AStarSearch.SearchFromTarget | Sources/Core/Algorithms/AStarAlgorithm.swift:22-24 | starting at the target returns the empty path |
| AStarSearch.NoNeighboursNoPath | Sources/Core/Algorithms/AStarAlgorithm.swift:17-51 | with no neighbours and a different target the pool runs dry and the search throws noPathFound |
| AStarSearch.PrunedNeverQueued | Sources/Core/Algorithms/AStarAlgorithm.swift:32-34 | when every successor is pruned, expansion leaves the pool unchanged |
| AStarConcurrent.MaxConcurrentExpansions | Sources/Core/Algorithms/AStarAlgorithmConcurrent.swift:13-15 | at least 1; the request when it is at least 1, else 1 |
| AStarConcurrent.Inc | Sources/Core/Algorithms/AStarAlgorithmConcurrent.swift:162 | one more in flight, best path unchanged |
| AStarConcurrent.Dec | Sources/Core/Algorithms/AStarAlgorithmConcurrent.swift:163 | one fewer in flight but never below 0, best path unchanged |
| AStarConcurrent.Consider | Sources/Core/Algorithms/AStarAlgorithmConcurrent.swift:166-172 | the first path is stored; afterwards only a strictly shorter one replaces it, so the best length never grows |
| AStarConcurrent.BestBound | Sources/Core/Algorithms/AStarAlgorithmConcurrent.swift:174-177 | nil exactly when there is no best path, otherwise its length |
| AStarConcurrent.Apply | Sources/Core/Algorithms/AStarAlgorithmConcurrent.swift:158-180 | definition: the tracker calls applied in order; `AStarConcurrent.ApplyKeepsBounds` states what they keep |
| AStarConcurrent.ApplyKeepsBounds | Sources/Core/Algorithms/AStarAlgorithmConcurrent.swift:158-179 | under any sequence of inc, dec and consider calls, the in-flight count stays non-negative and the best length never grows |
| AStarConcurrent.Considers | Sources/Core/Algorithms/AStarAlgorithmConcurrent.swift:166-172 | one `consider` call per goal path, in order |
| AStarConcurrent.FirstShortest | Sources/Core/Algorithms/AStarAlgorithmConcurrent.swift:166-172 | definition: the earliest of the shortest paths |
| AStarConcurrent.ConsiderKeepsFirstShortest | Sources/Core/Algorithms/AStarAlgorithmConcurrent.swift:166-172 | after considering a list of paths, the best is the earliest of the shortest |
| AStarConcurrent.IsGoal | Sources/Core/Algorithms/AStarAlgorithmConcurrent.swift:77 | definition: a state is a goal when its buffer and mode equal the target's; `AStarConcurrent.GoalIgnoresCursor` states that the cursor is ignored |
| AStarConcurrent.GoalIgnoresCursor | Sources/Core/Algorithms/AStarAlgorithmConcurrent.swift:77 | the goal test passes the target and also states whose cursor differs, unlike the sequential search's full equality |
| AStarConcurrent.DispatcherTurn | Sources/Core/Algorithms/AStarAlgorithmConcurrent.swift:51-82 | returns the incumbent only with nothing in flight and its length at most every queued priority; backs off when saturated; with an empty pool and nothing in flight returns the best path or noPathFound; otherwise pops the least node, records it when it is a goal and counts one more expansion in flight |
| AStarConcurrent.ExpandKeys | Sources/Core/Algorithms/AStarAlgorithmConcurrent.swift:86-112 | keeps the pool valid and its states, never lengthens the best path, and queues only children of the current node whose cost the incumbent did not rule out |
| AStarConcurrent.ExpansionTask | Sources/Core/Algorithms/AStarAlgorithmConcurrent.swift:83-113 | the loop followed by the deferred dec: one fewer in flight, floored at 0, and only children under the bound queued |
| AStarConcurrent.BoundSkipsBeforeExec | Sources/Core/Algorithms/AStarAlgorithmConcurrent.swift:89-94 | once the incumbent is no longer than the successors' cost, a task leaves pool and trackers unchanged whatever the engine would answer, so the engine is never asked |
| VimStateLRU.Valid | Sources/Interface/Vim/VimStateLRU.swift:26-27 | definition of the cache invariant: list and dictionary hold the same keys once each, never more than the capacity |
| VimStateLRU.New | Sources/Interface/Vim/VimStateLRU.swift:31-35 | a new cache is consistent and empty |
| VimStateLRU.RemoveNode | Sources/Interface/Vim/VimStateLRU.swift:93-96 | unlinking cuts exactly that key out of a distinct list: the keys before and after it keep their order; a list without the key is unchanged |
| VimStateLRU.AddToHead | Sources/Interface/Vim/VimStateLRU.swift:86-91 | the key goes in front of the unchanged list |
| VimStateLRU.MoveToHead | Sources/Interface/Vim/VimStateLRU.swift:98-101 | the key is cut out and put first; every other key keeps its relative order |
| VimStateLRU.RemoveTail | Sources/Interface/Vim/VimStateLRU.swift:103-109 | nothing exactly for an empty list; otherwise the last key, and the list before it |
| VimStateLRU.Count | Sources/Interface/Vim/VimStateLRU.swift:82-84 | the dictionary's size is the recency list's length |
| VimStateLRU.Get | Sources/Interface/Vim/VimStateLRU.swift:37-46 | an absent key returns nil and changes nothing; a present key returns its value, keeps every entry, and moves to the front while the other keys keep their recency order |
| VimStateLRU.Set | Sources/Interface/Vim/VimStateLRU.swift:48-65 | an existing key takes the new value and moves to the front, the others keeping their recency order; a new key goes in front, and when that overflows the capacity exactly the least recently used key is evicted |
| VimStateLRU.Update | Sources/Interface/Vim/VimStateLRU.swift:51-53 | an existing key takes the new value and moves to the front, the other keys keeping their recency order |
| VimStateLRU.Insert | Sources/Interface/Vim/VimStateLRU.swift:54-63 | a new key goes in front; within capacity nothing else changes, over it the old tail leaves |
| VimStateLRU.Evict | Sources/Interface/Vim/VimStateLRU.swift:59-63 | the overflowing insertion drops the key at the tail of the list, which is the new key itself when the list was empty |
| VimStateLRU.Remove | Sources/Interface/Vim/VimStateLRU.swift:67-74 | only that key goes, the remaining keys keep their order and the count drops by one; an absent key changes nothing |
| VimStateLRU.Clear | Sources/Interface/Vim/VimStateLRU.swift:76-80 | the count is 0 and every get afterwards is nil |
| VimStateLRU.GetAfterSet | Sources/Interface/Vim/VimStateLRU.swift:37-65 | with capacity at least 1, a value just stored is what get returns, for every key including the empty keystroke sequence |
| VimStateLRU.TouchKeepsVictim | Sources/Interface/Vim/VimStateLRU.swift:37-65 | reading or overwriting a cached key that is not the least recently used leaves the same key last in line for eviction |
| VimStateLRU.SetLeavesOthers | Sources/Interface/Vim/VimStateLRU.swift:48-65 | storing a key leaves every other key that stays cached with its old value |
| VimStateLRU.CountWithinCapacity | Sources/Interface/Vim/VimStateLRU.swift:54-63 | the count never exceeds a non-negative capacity |
| VimKeystrokes.Bracket | Sources/Interface/Vim/VimKeystrokes.swift:25-29 | a bracketed name is the name between `<` and `>` |
| VimKeystrokes.Parse | Sources/Interface/Vim/VimKeystrokes.swift:10-84 | whatever the notation reader accepts is a declared key whose raw value is exactly the text read |
| VimKeystrokes.BracketedRaw | Sources/Interface/Vim/VimKeystrokes.swift:25-84 | a bracketed text that reads as a declared key is exactly that key's raw value |
| VimKeystrokes.ParseNameRaw | Sources/Interface/Vim/VimKeystrokes.swift:10-84 | a bracketed name reads only as the key whose notation it is |
| VimKeystrokes.SpecialOfName | Sources/Interface/Vim/VimKeystrokes.swift:10-84 | a special name reads as the key whose name it is |
| VimKeystrokes.DirectionOfName | Sources/Interface/Vim/VimKeystrokes.swift:10-84 | an arrow name reads as the arrow whose name it is |
| VimKeystrokes.FunctionNumberName | Sources/Interface/Vim/VimKeystrokes.swift:10-84 | a function-key number reads as F1 .. F12 with that very name |
| VimKeystrokes.SpecialRoundTrip | Sources/Interface/Vim/VimKeystrokes.swift:25-29 | each special key's name reads back as that key |
| VimKeystrokes.DirectionRoundTrip | Sources/Interface/Vim/VimKeystrokes.swift:60 | each arrow's name reads back as that arrow and as no special key |
| VimKeystrokes.FunctionRoundTrip | Sources/Interface/Vim/VimKeystrokes.swift:66-67 | `F1` to `F12` read back as the function keys |
| VimKeystrokes.LetterKeyRoundTrip | Sources/Interface/Vim/VimKeystrokes.swift:70-79 | `C-x` and `M-x` for a lower-case letter read back as the Ctrl and Meta keys |
| VimKeystrokes.ModifiedRoundTrip | Sources/Interface/Vim/VimKeystrokes.swift:82-84 | a modifier letter, a dash and a direction read back as that modified arrow |
| VimKeystrokes.Valid | Sources/Interface/Vim/VimKeystrokes.swift:10-84 | definition of the declared cases: the character keys, the special keys, the arrows, F1-F12, Ctrl and Meta with a lower-case letter, and Ctrl, Shift and Meta with an arrow |
| VimKeystrokes.SpecialName | Sources/Interface/Vim/VimKeystrokes.swift:25-63 | definition of the special keys' names; `VimKeystrokes.SpecialRoundTrip` states that they read back |
| VimKeystrokes.DirectionName | Sources/Interface/Vim/VimKeystrokes.swift:60 | definition of the arrow names; `VimKeystrokes.DirectionRoundTrip` states that they read back |
| VimKeystrokes.FunctionName | Sources/Interface/Vim/VimKeystrokes.swift:66-67 | definition of `F1` .. `F12`; `VimKeystrokes.FunctionRoundTrip` states that they read back |
| VimKeystrokes.ParseName | Sources/Interface/Vim/VimKeystrokes.swift:10-84 | definition of reading the name between `<` and `>`; `VimKeystrokes.ParseNameRaw` states that it gives back exactly the key so named |
| VimKeystrokes.Raw | Sources/Interface/Vim/VimKeystrokes.swift:10-84 | definition: the raw value, a character key as itself and every other key as its `<…>` notation; `VimKeystrokes.ParseRaw`, `RawInjective` and `ParseExactly` state that it reads back |
| VimKeystrokes.ParseRaw | Sources/Interface/Vim/VimKeystrokes.swift:10-84 | every key's raw value reads back as that key |
| VimKeystrokes.ParseBracket | Sources/Interface/Vim/VimKeystrokes.swift:25-84 | the bracketed name of a declared key reads as that key |
| VimKeystrokes.ParseExactly | Sources/Interface/Vim/VimKeystrokes.swift:10-84 | `init(rawValue:)` gives key k for a string exactly when k is declared and its raw value is that string |
| VimKeystrokes.RawInjective | Sources/Interface/Vim/VimKeystrokes.swift:10-84 | the raw values are pairwise distinct |
| VimKeystrokes.BracketedName | Sources/Interface/Vim/VimKeystrokes.swift:25-84 | every key that is not a single character is a bracketed name of at least two characters |
| VimKeystrokes.RawShape | Sources/Interface/Vim/VimKeystrokes.swift:10-84 | a raw value is one character exactly for the character keys, and `<…>` of length at least 4 otherwise |
| VimKeystrokes.Spellings | Sources/Interface/Vim/VimKeystrokes.swift:21-29 | `<` is spelled `<lt>` and is not a key by itself; space is both `" "` and `<Space>`, two different keys |
| VimKeystrokes.SymbolAt | Sources/Interface/Vim/VimKeystrokes.swift:21-25 | the 32 symbol keys are printable, neither letters nor digits, and each sits at its declared position |
| VimKeystrokes.SymbolOf | Sources/Interface/Vim/VimKeystrokes.swift:21-25 | every printable character that is not a letter, a digit or `<` is one of the 32 symbol keys |
| VimKeystrokes.OrdKeyAt | Sources/Interface/Vim/VimKeystrokes.swift:10-84 | every position in declaration order names a declared key, and that key's position is the position |
| VimKeystrokes.KeyAtOrd | Sources/Interface/Vim/VimKeystrokes.swift:10-84 | every declared key sits at its own position |
| VimKeystrokes.AllCases | Sources/Interface/Vim/VimKeystrokes.swift:10-84 | the enum has 187 cases |
| VimKeystrokes.AllCasesDistinct | Sources/Interface/Vim/VimKeystrokes.swift:10-84 | every case is listed once, and exactly the declared keys are listed |
| VimKeystrokes.AllowedKeys | Sources/Interface/Vim/VimKeystrokes.swift:35-57 | `allowedKeys` has 103 entries: the cases declared on lines 12-29, in order |
| VimKeystrokes.OrdAllowed | Sources/Interface/Vim/VimKeystrokes.swift:35-57 | a key is declared before the arrow keys exactly when it is a character key or an editing key |
| VimKeystrokes.AllowedKeysExactly | Sources/Interface/Vim/VimKeystrokes.swift:35-84 | `allowedKeys` lists each key once and holds exactly the character and editing keys: no arrow, navigation, function, Ctrl, Meta or modified key |
| VimKeystrokes.Neighbors | Sources/Core/Algorithms/Neighbors/AStarNeighbors.swift:9-11 | every state gets the 103 allowed keys as successors, whatever the state and target |
| SessionProtocol.RawValue | Sources/Interface/Vim/Sessions/SessionProtocol.swift:28-31 | definition: the raw values `nvim` and `vim`; `SessionProtocol.RawValueRoundTrip` states that they read back |
| SessionProtocol.DisplayName | Sources/Interface/Vim/Sessions/SessionProtocol.swift:33-40 | definition: `Neovim` and `Vim`; `SessionProtocol.TypeNames` states that they tell the kinds apart |
| SessionProtocol.FromRawValue | Sources/Interface/Vim/Sessions/SessionProtocol.swift:29-41 | a kind read from a string has that string as its raw value |
| SessionProtocol.RawValueRoundTrip | Sources/Interface/Vim/Sessions/SessionProtocol.swift:29-41 | `nvim` and `vim` read back as their kinds, and no other string names a kind |
| SessionProtocol.TypeNames | Sources/Interface/Vim/Sessions/SessionProtocol.swift:29-41 | there are two kinds, each listed once, with different raw values and the display names `Neovim` and `Vim` |
| SessionProtocol.GetStateBundle | Sources/Interface/Vim/Sessions/SessionProtocol.swift:45-56 | the mode is asked for first and its error stops the rest; a blocking mode returns no buffer and cursor (0, 0) without further queries; otherwise the whole buffer and then the window's cursor are asked for, and the bundle holds exactly those answers |
| SessionProtocol.BundleBlocking | Sources/Interface/Vim/Sessions/SessionProtocol.swift:46-55 | a bundle is blocking exactly when the mode is, and a blocking mode asks for nothing else, so buffer and cursor errors cannot surface |
| VimEngine.GetState | Sources/Interface/Vim/VimEngine.swift:35-43 | no state exactly when the mode blocks; a state exactly when mode, buffer 1 and window 0's cursor are all readable, and then it holds those answers |
| VimEngine.GetStateIsBundle | Sources/Interface/Vim/VimEngine.swift:35-43 | the engine's read is the default state bundle: same queries, same errors, nothing exactly when blocking, otherwise the bundle's contents |
| VimEngine.Run | Sources/Interface/Vim/VimEngine.swift:18-25 | the keystrokes typed are a prefix of those asked for, all of them when the run succeeds; every failure is the session's own |
| VimEngine.ExecKeystrokes | Sources/Interface/Vim/VimEngine.swift:12-25 | a session that is not running is refused before anything is typed, and only then is `nvimNotRunning` returned; otherwise the keystrokes are typed in order until the first error |
| VimEngine.RunTypedOnlyDelivered | Sources/Interface/Vim/VimEngine.swift:18-23 | every keystroke typed was preceded by a readable state read of its own and was itself sent successfully |
| VimEngine.StateAt | Sources/Interface/Vim/VimEngine.swift:35-43 | definition: the state read, when readable and not blocking |
| VimEngine.Keep | Sources/Interface/Vim/VimEngine.swift:17-21 | definition: a state read replaces the kept one, none keeps it |
| VimEngine.LastNonBlocking | Sources/Interface/Vim/VimEngine.swift:11-26 | definition: the latest non-blocking state read so far |
| VimEngine.Expected | Sources/Interface/Vim/VimEngine.swift:11-26 | definition of what `execKeystrokes` returns: the latest non-blocking state, else the empty one; `VimEngine.RunReturnsExpected` and `ExecReturnsLastNonBlocking` state that it does |
| VimEngine.RunReturnsExpected | Sources/Interface/Vim/VimEngine.swift:16-25 | the loop's fallback state is always the latest non-blocking state read so far |
| VimEngine.ExecReturnsLastNonBlocking | Sources/Interface/Vim/VimEngine.swift:16-25 | a successful run answers the final read's state when it is not blocking, else the latest non-blocking state among all earlier reads (the one before the loop included), else the empty state |
| VimEngine.NoneSeenGivesEmpty | Sources/Interface/Vim/VimEngine.swift:16 | when every state read was blocking or unreadable, there is no non-blocking state to fall back to |
| VimEngine.NoKeystrokes | Sources/Interface/Vim/VimEngine.swift:16-25 | no keystrokes types nothing but still reads twice; it succeeds exactly when both reads do, and answers the second read's state, else the first's, else the empty state |
| VimEngine.ExecInFreshSession | Sources/Interface/Vim/VimEngine.swift:28-33 | the fresh session is stopped exactly when it started; a failed start is reported, otherwise the run is that of a running session |
| SessionManager.CreateSessionInstance | Sources/Interface/Vim/Sessions/SessionManager.swift:91-98 | definition: `.vim` makes a GVim session and `.nvim` a Neovim one; `SessionManager.SessionClasses` states that they differ |
| SessionManager.SessionClasses | Sources/Interface/Vim/Sessions/SessionManager.swift:91-98 | `.vim` makes a GVim session and `.nvim` a Neovim one, one class per kind |
| SessionManager.GetSession | Sources/Interface/Vim/Sessions/SessionManager.swift:65-71 | a registered id yields its session; any other fails with `sessionNotFound` carrying the id |
| SessionManager.ActiveSessionCount | Sources/Interface/Vim/Sessions/SessionManager.swift:87-89 | the count is 0 exactly when nothing is registered |
| SessionManager.CreateAndStartSession | Sources/Interface/Vim/Sessions/SessionManager.swift:17-24 | a failed start registers nothing and reports the error; a started session is registered under its id |
| SessionManager.CreateWithDefault | Sources/Interface/Vim/Sessions/SessionManager.swift:26-38 | success exactly when start, and with a default state also the buffer and cursor calls, succeed; a failure registers nothing; a default state replaces all of buffer 1 and then sets window 0's cursor |
| SessionManager.Replay | Sources/Interface/Vim/Sessions/SessionManager.swift:56-63 | inputs are fed in order and the recorded inputs grow by a prefix of them; all of them exactly when every send succeeds |
| SessionManager.CopyFromInputs | Sources/Interface/Vim/Sessions/SessionManager.swift:56-63 | a failed start changes nothing; otherwise only the new id is added, with the kind asked for and a prefix of the inputs, and success means every input was sent |
| SessionManager.CopySession | Sources/Interface/Vim/Sessions/SessionManager.swift:40-54 | an unknown id fails with `sessionNotFound` and changes nothing; a known one is copied from its kind and recorded inputs |
| SessionManager.CopyReplaysInputs | Sources/Interface/Vim/Sessions/SessionManager.swift:40-63 | a successful copy is a session of the original's kind that got exactly the original's inputs in order, is reachable by its new id, and leaves every other session untouched |
| SessionManager.StopSession | Sources/Interface/Vim/Sessions/SessionManager.swift:73-78 | exactly that id leaves the registry, every other session stays, and only a registered session is stopped |
| SessionManager.StopSessionForgets | Sources/Interface/Vim/Sessions/SessionManager.swift:65-89 | after stopping, the id is unknown, the count dropped by one if it was registered, and an unknown id changed nothing |
| SessionManager.StopAllSessions | Sources/Interface/Vim/Sessions/SessionManager.swift:80-85 | every registered session is stopped and the count is then 0 |
| SessionManager.CreateThenGet | Sources/Interface/Vim/Sessions/SessionManager.swift:17-24 | a session just created is the one `getSession` finds, and the count grew by one unless the id was taken |
| IntFormat.EncodeUInt32 | Sources/Interface/Vim/Sessions/NvimSession.swift:189-206 | positive fixint up to 127, uint 8 up to 255, uint 16 up to 65535 and uint 32 above, with the value's bytes |
| IntFormat.EncodeInt | Sources/Interface/Vim/Sessions/NvimSession.swift:208-229 | the intended encoder: negative fixint from -32, int 8 from -128, int 16 from -32768, int 32 below, non-negative values as unsigned |
| IntFormat.EncodeIntRoundTrip | Sources/Interface/Vim/Sessions/NvimSession.swift:189-229 | a MessagePack integer reader recovers every encoded integer and its length, whatever bytes follow |
| IntFormat.UInt8Checked | Sources/Interface/Vim/Sessions/NvimSession.swift:219 | definition of `UInt8(_:)`: a byte when the value fits, a trap otherwise |
| IntFormat.EmitInt16 | Sources/Interface/Vim/Sessions/NvimSession.swift:216-220 | definition of the int 16 branch as written |
| IntFormat.EmitInt32 | Sources/Interface/Vim/Sessions/NvimSession.swift:221-228 | definition of the int 32 branch as written |
| IntFormat.EncodeIntAsWritten | Sources/Interface/Vim/Sessions/NvimSession.swift:208-229 | definition of `encodeInt` as written, with a trap where Swift's conversions trap; `IntFormat.AsWrittenTrapsBelowInt8` states where it traps |
| IntFormat.AsWrittenTrapsBelowInt8 | Sources/Interface/Vim/Sessions/NvimSession.swift:208-229 | the encoder as written emits bytes exactly for -128 up to 2^32 - 1, and there agrees with the intended one; every int 16 and int 32 value traps |
| IntFormat.AsWrittenTrapsOnMinus200 | Sources/Interface/Vim/Sessions/NvimSession.swift:216-220 | encoding -200 traps where `D1 FF 38` was intended |
| NvimRpc.CreateRequest | Sources/Interface/Vim/Sessions/NvimSession.swift:126-128 | a request is the four-element array: type 0, the id, the method name and the parameters |
| NvimRpc.Encode | Sources/Interface/Vim/Sessions/NvimSession.swift:130-134 | `encode` succeeds exactly on the encodable values and fails only with `communicationFailed` |
| NvimRpc.Decode | Sources/Interface/Vim/Sessions/NvimSession.swift:136-144 | `decode` fails exactly when reading the first value fails, always with `invalidResponse`, and empty data is "Unexpected end" |
| NvimRpc.EncodeValue | Sources/Interface/Vim/Sessions/NvimSession.swift:146-155 | encoding succeeds exactly on values without null, maps, or strings and arrays past 65535; every failure is `communicationFailed`; output is never empty. Integers go through the corrected encoder (see "## Left out") |
| NvimRpc.EncodeArray | Sources/Interface/Vim/Sessions/NvimSession.swift:157-169 | fixarray up to 15 elements, array 16 above; fails exactly when the array or an element cannot be encoded |
| NvimRpc.EncodeItems | Sources/Interface/Vim/Sessions/NvimSession.swift:168 | the elements encode exactly when each does |
| NvimRpc.EncodeString | Sources/Interface/Vim/Sessions/NvimSession.swift:171-187 | fixstr up to 31 bytes, str 8 up to 255, str 16 up to 65535 followed by the bytes; longer strings fail with "String too large" |
| NvimRpc.SessionRejects | Sources/Interface/Vim/Sessions/NvimSession.swift:278-280 | definition of the format bytes the session decoder turns away |
| NvimRpc.DecodeValue | Sources/Interface/Vim/Sessions/NvimSession.swift:250-281 | a successful read consumes at least one byte and stays inside the data; failures are `invalidResponse` |
| NvimRpc.DecodeArray | Sources/Interface/Vim/Sessions/NvimSession.swift:231-248 | a successful read is an array and consumes at least its header |
| NvimRpc.DecodeItems | Sources/Interface/Vim/Sessions/NvimSession.swift:245-246 | the loop appends exactly the announced number of values |
| NvimRpc.DecodeMap | Sources/Interface/Vim/Sessions/NvimSession.swift:283-298 | a successful read is a map and consumes at least its header |
| NvimRpc.DecodeEntries | Sources/Interface/Vim/Sessions/NvimSession.swift:288-296 | the loop stays inside the data and fails only with `invalidResponse` |
| NvimRpc.StringBody | Sources/Interface/Vim/Sessions/NvimSession.swift:304-308 | succeeds exactly when the declared length fits the data and the bytes are valid UTF-8; a length past the end is "String length exceeds data" |
| NvimRpc.DecodeString | Sources/Interface/Vim/Sessions/NvimSession.swift:300-309 | a fixstr read consumes its header and body |
| NvimRpc.DecodeString8 | Sources/Interface/Vim/Sessions/NvimSession.swift:311-321 | a str 8 read consumes its header and body |
| NvimRpc.DecodeString16 | Sources/Interface/Vim/Sessions/NvimSession.swift:323-333 | a str 16 read consumes its header and body |
| NvimRpcProperties.DecodableIsEncodable | Sources/Interface/Vim/Sessions/NvimSession.swift:146-281 | every value the decoder can return an encoding of is one the encoder accepts |
| NvimRpcProperties.Enc | Sources/Interface/Vim/Sessions/NvimSession.swift:130-134 | an encoding is never empty |
| NvimRpcProperties.EncArrayShape | Sources/Interface/Vim/Sessions/NvimSession.swift:157-169 | a short array is its fixarray header followed by its elements' encodings |
| NvimRpcProperties.DecodeEncoded | Sources/Interface/Vim/Sessions/NvimSession.swift:146-333 | where a decodable value's encoding sits, the decoder reads that value and stops just past it, whatever follows |
| NvimRpcProperties.DecodeEncodedArray | Sources/Interface/Vim/Sessions/NvimSession.swift:231-248 | the same for arrays |
| NvimRpcProperties.DecodeEncodedString | Sources/Interface/Vim/Sessions/NvimSession.swift:171-187 | every string encoding, whichever header, reads back as the string |
| NvimRpcProperties.FixstrBody | Sources/Interface/Vim/Sessions/NvimSession.swift:300-309 | a fixstr encoding reads back as its string |
| NvimRpcProperties.Str8Body | Sources/Interface/Vim/Sessions/NvimSession.swift:311-321 | a str 8 encoding reads back as its string |
| NvimRpcProperties.Str16Body | Sources/Interface/Vim/Sessions/NvimSession.swift:323-333 | a str 16 encoding reads back as its string |
| NvimRpcProperties.DecodeItemsEncoded | Sources/Interface/Vim/Sessions/NvimSession.swift:245-246 | the array loop reads back the encoded elements after what it already has |
| NvimRpcProperties.DecodeRejectsEncoded | Sources/Interface/Vim/Sessions/NvimSession.swift:250-281 | an encodable value outside the decodable subset never decodes |
| NvimRpcProperties.DecodeItemsRejected | Sources/Interface/Vim/Sessions/NvimSession.swift:245-246 | one such element makes the whole array fail |
| NvimRpcProperties.DecodeTruncatedFails | Sources/Interface/Vim/Sessions/NvimSession.swift:231-333 | every strict prefix of a decodable value's encoding fails |
| NvimRpcProperties.DecodeItemsTruncated | Sources/Interface/Vim/Sessions/NvimSession.swift:245-246 | a truncated run of elements fails |
| NvimRpcProperties.RoundTrip | Sources/Interface/Vim/Sessions/NvimSession.swift:130-144 | `decode(encode(v))` is v's elements for an array and `[v]` otherwise, trailing bytes ignored |
| NvimRpcProperties.RoundTripExactlyOnDecodable | Sources/Interface/Vim/Sessions/NvimSession.swift:130-144 | for an encodable value the round trip succeeds exactly on the decodable subset |
| NvimRpcProperties.TrailingBytesIgnored | Sources/Interface/Vim/Sessions/NvimSession.swift:136-144 | bytes after the first value do not change the result |
| NvimRpcProperties.ScalarLooksLikeSingleton | Sources/Interface/Vim/Sessions/NvimSession.swift:139-143 | a scalar and the one-element array holding it decode alike |
| NvimRpcProperties.StrictPrefixRejected | Sources/Interface/Vim/Sessions/NvimSession.swift:136-144 | every strict prefix of an encoding, the empty one included, is `invalidResponse` |
| NvimRpcProperties.UnsupportedFormatsExactly | Sources/Interface/Vim/Sessions/NvimSession.swift:250-281 | "Unsupported format" is reported exactly for the format bytes outside the handled ones |
| NvimRpcProperties.WideIntsAndLongArraysRejected | Sources/Interface/Vim/Sessions/NvimSession.swift:157-281 | the encoder's uint, int and array 16 outputs are rejected by the decoder at their first byte |
| NvimRpcProperties.EntryWalkTail | Sources/Interface/Vim/Sessions/NvimSession.swift:283-296 | the entries after the first are again a run of string-keyed entries |
| NvimRpcProperties.EntriesWalked | Sources/Interface/Vim/Sessions/NvimSession.swift:283-296 | reading a run of string-keyed entries assigns them, in order, into the dictionary being built |
| NvimRpcProperties.EntriesRejectKey | Sources/Interface/Vim/Sessions/NvimSession.swift:283-296 | after a run of string-keyed entries, a non-string key fails the whole map with "Map key must be string" once its value is read |
| NvimRpcProperties.FixmapWalked | Sources/Interface/Vim/Sessions/NvimSession.swift:283-296 | a fixmap reads as the dictionary its entries build in order, so a repeated key keeps its last value |
| NvimRpcProperties.NonStringKeyRejected | Sources/Interface/Vim/Sessions/NvimSession.swift:283-296 | a fixmap whose key at any entry, after any number of string-keyed entries, is not a string fails with "Map key must be string" once that key and its value are read |
| NvimRpcProperties.OverlongStringRejected | Sources/Interface/Vim/Sessions/NvimSession.swift:300-304 | a fixstr running past the data fails with "String length exceeds data" |
| NvimResponses.BufferLines | Sources/Interface/Vim/Sessions/NvimSession.swift:69-74 | succeeds exactly when element 3 is an array of strings, and returns those strings in order |
| NvimResponses.CursorPosition | Sources/Interface/Vim/Sessions/NvimSession.swift:82-87 | succeeds exactly when element 3 is an array of at least two integers; the row comes back one less, the column as is |
| NvimResponses.Mode | Sources/Interface/Vim/Sessions/NvimSession.swift:95-102 | succeeds exactly when element 3 is a map with a string under "mode"; blocking exactly when "blocking" holds true |
| NvimResponses.ResultElementOnly | Sources/Interface/Vim/Sessions/NvimSession.swift:69-102 | only element 3 of the reply matters |
| NvimResponses.BlockingDefaultsToFalse | Sources/Interface/Vim/Sessions/NvimSession.swift:100 | a missing "blocking" entry reads as not blocking |
| NvimResponses.CursorShiftInverse | Sources/Interface/Vim/Sessions/NvimSession.swift:82-91 | the getter's row shift undoes the setter's `row + 1` |
| NvimResponses.ShortReplyRejected | Sources/Interface/Vim/Sessions/NvimSession.swift:70-98 | a reply of fewer than four elements fails every accessor with its own message |
| NvimSession.Start | Sources/Interface/Vim/Sessions/NvimSession.swift:16-36 | a failed launch changes nothing and is `startupFailed`; otherwise the session runs, the message counter kept |
| NvimSession.Stop | Sources/Interface/Vim/Sessions/NvimSession.swift:38-47 | the session no longer runs and the counter is kept |
| NvimSession.NextMessageId | Sources/Interface/Vim/Sessions/NvimSession.swift:105-108 | the counter goes up by one and the new value is the id |
| NvimSession.CallRpc | Sources/Interface/Vim/Sessions/NvimSession.swift:56-62 | an id is used up even on a stopped session, which fails with `notRunning`; a running session writes exactly when the request encodes; an empty answer is "No data received", any other is decoded |
| NvimSession.CallMethod | Sources/Interface/Vim/Sessions/NvimSession.swift:56-62 | a call of one of the session's own methods is `callRPC` with that method's name |
| NvimSession.Parsed | Sources/Interface/Vim/Sessions/NvimSession.swift:56-62 | a failed call's error passes through, otherwise the parser sees the reply |
| NvimSession.MethodName | Sources/Interface/Vim/Sessions/NvimSession.swift:65-95 | the method names are short valid UTF-8 |
| NvimSession.SendInput | Sources/Interface/Vim/Sessions/NvimSession.swift:64-66 | `nvim_input` with the input; success exactly when the answer decodes |
| NvimSession.GetBufferLines | Sources/Interface/Vim/Sessions/NvimSession.swift:68-75 | `nvim_buf_get_lines` with buffer, start, end and false; the result is read from a decoded answer |
| NvimSession.SetBufferLines | Sources/Interface/Vim/Sessions/NvimSession.swift:77-79 | `nvim_buf_set_lines` with the lines as strings; success exactly when the answer decodes |
| NvimSession.LinesValue | Sources/Interface/Vim/Sessions/NvimSession.swift:78 | the lines go out as an array of their strings, in order |
| NvimSession.GetCursorPosition | Sources/Interface/Vim/Sessions/NvimSession.swift:81-88 | `nvim_win_get_cursor` with the window; the result is read from a decoded answer |
| NvimSession.CursorParams | Sources/Interface/Vim/Sessions/NvimSession.swift:91 | the window and `[row + 1, col]` |
| NvimSession.SetCursorPosition | Sources/Interface/Vim/Sessions/NvimSession.swift:90-92 | `nvim_win_set_cursor` with those parameters; success exactly when the answer decodes |
| NvimSession.GetMode | Sources/Interface/Vim/Sessions/NvimSession.swift:94-103 | `nvim_get_mode` without parameters; the result is read from a decoded answer |
| NvimSession.Run | Sources/Interface/Vim/Sessions/NvimSession.swift:56-62 | one call per request |
| NvimSession.IdsCountUp | Sources/Interface/Vim/Sessions/NvimSession.swift:105-108 | the k-th call of a run uses id k + 1 past the start and leaves the counter there, running or not |
| NvimSession.IdsIncrease | Sources/Interface/Vim/Sessions/NvimSession.swift:105-108 | ids strictly increase along a run |
| NvimSession.SentDecodesToRequest | Sources/Interface/Vim/Sessions/NvimSession.swift:56-115 | a running session always writes a small request, and decoding what it wrote gives the request's elements |
| NvimSession.CursorAnswerDecodes | Sources/Interface/Vim/Sessions/NvimSession.swift:81-88 | an encoded cursor response decodes to its elements and reads as (row, col) |
| NvimSession.GetCursorReadsReply | Sources/Interface/Vim/Sessions/NvimSession.swift:81-88 | a running session reads the cursor from whatever the answer decodes to |
| NvimSession.CursorRoundTrip | Sources/Interface/Vim/Sessions/NvimSession.swift:81-92 | answering the getter with the pair the setter sent gives back the original position |
| NvimClient.CreateRpcRequest | Sources/Interface/Vim/NVimRPC/NvimClient.swift:135-137 | the client builds the same `[0, id, method, params]` request as the session |
| NvimClient.EncodeValue | Sources/Interface/Vim/NVimRPC/NvimClient.swift:202-217 | the client's encoder accepts exactly the encodable values and emits the session encoder's bytes, integers through the corrected encoder (see "## Left out") |
| NvimClient.EncodeArray | Sources/Interface/Vim/NVimRPC/NvimClient.swift:219-234 | its array encoder is the session's |
| NvimClient.EncodeItems | Sources/Interface/Vim/NVimRPC/NvimClient.swift:230-232 | its element loop is the session's |
| NvimClient.EncodeString | Sources/Interface/Vim/NVimRPC/NvimClient.swift:236-254 | its string encoder is the session's |
| NvimClient.EncodeMessagePack | Sources/Interface/Vim/NVimRPC/NvimClient.swift:191-195 | `encodeMessagePack` is the session's `encode` |
| NvimClient.DecodeMessagePack | Sources/Interface/Vim/NVimRPC/NvimClient.swift:197-200 | a first byte that is no array header is "Invalid array format"; every failure is `invalidResponse` |
| NvimClient.DecodeArray | Sources/Interface/Vim/NVimRPC/NvimClient.swift:304-331 | a successful read consumes at least its header and stays inside the data |
| NvimClient.ClientRejects | Sources/Interface/Vim/NVimRPC/NvimClient.swift:405-408 | definition of the format bytes the client decoder turns away |
| NvimClient.DecodeValue | Sources/Interface/Vim/NVimRPC/NvimClient.swift:333-409 | a successful read consumes at least one byte and stays inside the data; failures are `invalidResponse` |
| NvimClient.DecodeItems | Sources/Interface/Vim/NVimRPC/NvimClient.swift:325-328 | the array loops append exactly the announced number of values |
| NvimClient.DecodeEntries | Sources/Interface/Vim/NVimRPC/NvimClient.swift:420-432 | the map loops stay inside the data |
| NvimClient.DecodeMap | Sources/Interface/Vim/NVimRPC/NvimClient.swift:411-435 | a successful read is a map |
| NvimClient.DecodeString32 | Sources/Interface/Vim/NVimRPC/NvimClient.swift:508-529 | a str 32 read is a string; a length field cut short is "Unexpected end of data" |
| NvimClient.DecodeArray16 | Sources/Interface/Vim/NVimRPC/NvimClient.swift:531-546 | an array 16 read is an array; a count cut short is "Unexpected end of data" |
| NvimClient.DecodeArray32 | Sources/Interface/Vim/NVimRPC/NvimClient.swift:548-563 | an array 32 read is an array; a count cut short is "Unexpected end of data" |
| NvimClient.DecodeMap16 | Sources/Interface/Vim/NVimRPC/NvimClient.swift:565-587 | a map 16 read is a map; a count cut short is "Unexpected end of data" |
| NvimClient.DecodeMap32 | Sources/Interface/Vim/NVimRPC/NvimClient.swift:589-611 | a map 32 read is a map; a count cut short is "Unexpected end of data" |
| NvimClientProperties.ClientDecodableIsEncodable | Sources/Interface/Vim/NVimRPC/NvimClient.swift:202-409 | every value whose encoding the client reads back is one the encoder accepts |
| NvimClientProperties.SessionDecodableIsClientDecodable | Sources/Interface/Vim/NVimRPC/NvimClient.swift:333-409 | everything the session decoder reads, the client decoder reads too |
| NvimClientProperties.EncArray16Shape | Sources/Interface/Vim/NVimRPC/NvimClient.swift:223-226 | a long array is `0xDC`, its big-endian count and its elements' encodings |
| NvimClientProperties.ClientDecodeEncoded | Sources/Interface/Vim/NVimRPC/NvimClient.swift:333-409 | where a client-decodable value's encoding sits, the client reads that value and stops just past it |
| NvimClientProperties.ClientDecodeEncodedArray | Sources/Interface/Vim/NVimRPC/NvimClient.swift:304-331 | both the top-level reader and `decodeValue` read an encoded array back |
| NvimClientProperties.FixarrayDecodes | Sources/Interface/Vim/NVimRPC/NvimClient.swift:355-357 | a fixarray encoding reads back |
| NvimClientProperties.Array16Decodes | Sources/Interface/Vim/NVimRPC/NvimClient.swift:531-546 | an array 16 encoding reads back with its count, also where fixarray would do |
| NvimClientProperties.ClientItemsEncoded | Sources/Interface/Vim/NVimRPC/NvimClient.swift:325-328 | the array loop reads back the encoded elements |
| NvimClientProperties.ClientRejectsEncoded | Sources/Interface/Vim/NVimRPC/NvimClient.swift:333-409 | an encoding holding an integer outside -32 .. 127 never decodes |
| NvimClientProperties.ClientRejectsArray | Sources/Interface/Vim/NVimRPC/NvimClient.swift:304-331 | one such element makes an array fail |
| NvimClientProperties.ClientItemsRejected | Sources/Interface/Vim/NVimRPC/NvimClient.swift:325-328 | one such element makes the loop fail |
| NvimClientProperties.ClientTruncatedFails | Sources/Interface/Vim/NVimRPC/NvimClient.swift:462-563 | every strict prefix of a client-decodable encoding fails |
| NvimClientProperties.ClientTruncatedArray | Sources/Interface/Vim/NVimRPC/NvimClient.swift:304-331 | every strict prefix of an encoded array fails |
| NvimClientProperties.ClientItemsTruncated | Sources/Interface/Vim/NVimRPC/NvimClient.swift:325-328 | a truncated run of elements fails |
| NvimClientProperties.MessageRoundTrip | Sources/Interface/Vim/NVimRPC/NvimClient.swift:191-200 | an encoded message decodes to its elements, bytes after it ignored |
| NvimClientProperties.MessageRoundTripExactlyOnDecodable | Sources/Interface/Vim/NVimRPC/NvimClient.swift:191-200 | for an encodable array the round trip succeeds exactly when the client can decode it |
| NvimClientProperties.TopLevelScalarRejected | Sources/Interface/Vim/NVimRPC/NvimClient.swift:197-200 | anything but an array at the top level is "Invalid array format" |
| NvimClientProperties.TruncatedMessageRejected | Sources/Interface/Vim/NVimRPC/NvimClient.swift:197-200 | every strict prefix of an encoded message, the empty one included, is `invalidResponse` |
| NvimClientProperties.ClientUnsupportedFormatsExactly | Sources/Interface/Vim/NVimRPC/NvimClient.swift:333-409 | "Unsupported format" exactly for 0xC1 and 0xC4 .. 0xD8, every uint and int family among them |
| NvimClientProperties.ClientRejectsLess | Sources/Interface/Vim/NVimRPC/NvimClient.swift:385-404 | what the session rejects the client rejects too, except str 32, array 16 and 32 and map 16 and 32 |
| NvimClientProperties.ShortLengthFieldRejected | Sources/Interface/Vim/NVimRPC/NvimClient.swift:462-611 | a length field cut short is "Unexpected end of data" in every format that has one |
| NvimClientProperties.Str32Accepted | Sources/Interface/Vim/NVimRPC/NvimClient.swift:508-529 | str 32 is read with its big-endian length |
| NvimClientProperties.Array32Reads | Sources/Interface/Vim/NVimRPC/NvimClient.swift:548-563 | array 32 is read with its big-endian count |
| NvimClientProperties.EntryWalkTail | Sources/Interface/Vim/NVimRPC/NvimClient.swift:422-432 | the entries after the first are again a run of string-keyed entries |
| NvimClientProperties.EntriesWalked | Sources/Interface/Vim/NVimRPC/NvimClient.swift:422-432 | reading a run of string-keyed entries assigns them, in order, into the dictionary being built |
| NvimClientProperties.EntriesRejectKey | Sources/Interface/Vim/NVimRPC/NvimClient.swift:422-432 | after a run of string-keyed entries, a non-string key fails the whole map with "Map key must be string" once its value is read |
| NvimClientProperties.MapWalked | Sources/Interface/Vim/NVimRPC/NvimClient.swift:411-611 | a map in any of the three formats reads as the dictionary its entries build in order |
| MsgPack.StoredLastWins | Sources/Interface/Vim/NVimRPC/NvimClient.swift:422-432 | assigning entries in order leaves every assigned key present with the value of its last occurrence, and every other key as it was |
| NvimClientProperties.RepeatedKeyKeepsLast | Sources/Interface/Vim/NVimRPC/NvimClient.swift:411-611 | in fixmap, map 16 and map 32 alike, when entries i < j share a key and no later entry has it, the map read holds entry j's value, and its keys are exactly the keys read |
| NvimClientProperties.NonStringKeyRejected | Sources/Interface/Vim/NVimRPC/NvimClient.swift:411-611 | in fixmap, map 16 and map 32 alike, a key at any entry that is not a string fails the map with "Map key must be string" once that key and its value are read |
| GvimSession.Valid | Sources/Interface/Vim/Sessions/GvimSession.swift:10-16 | definition of the session invariant: a running session has a server name |
| GvimSession.IsRunning | Sources/Interface/Vim/Sessions/GvimSession.swift:68-70 | definition: the running flag |
| GvimSession.GetInputs | Sources/Interface/Vim/Sessions/GvimSession.swift:81-83 | definition: the inputs recorded so far; `GvimSession.InputsRecordedWhileStopped` and `SendAllInputsRecords` state what they hold |
| GvimSession.Send | Sources/Interface/Vim/Sessions/GvimSession.swift:222-245 | a command reaches the server only when there is one; otherwise `notRunning` and nothing changes |
| GvimSession.SendAll | Sources/Interface/Vim/Sessions/GvimSession.swift:42-43 | with a server, every command is sent in order |
| GvimSession.Start | Sources/Interface/Vim/Sessions/GvimSession.swift:32-46 | a running session is left alone; a failed launch or a server that never shows up is an error; otherwise the session runs and has typed the startup keys; the inputs are kept |
| GvimSession.Stop | Sources/Interface/Vim/Sessions/GvimSession.swift:48-66 | a stopped session is left alone; otherwise `:qall!` goes to the server if there is one, and the server is forgotten; the inputs are kept |
| GvimSession.SendInput | Sources/Interface/Vim/Sessions/GvimSession.swift:72-79 | the input is recorded first, whether or not the session runs; it is sent exactly when the session runs, else `notRunning` |
| GvimSession.CheckRunning | Sources/Interface/Vim/Sessions/GvimSession.swift:86-88 | the running check passes exactly for a running session with a server |
| GvimSession.CheckBuffer | Sources/Interface/Vim/Sessions/GvimSession.swift:85-104 | after the running check, only buffers 0 and 1 pass; any other is `invalidResponse` |
| GvimSession.ExprOutput | Sources/Interface/Vim/Sessions/GvimSession.swift:343-350 | a query fails with `communicationFailed` exactly when the command exits with an error |
| GvimSession.BufferLinesQuery | Sources/Interface/Vim/Sessions/GvimSession.swift:325-332 | definition of the `--remote-expr` text; `GvimSession.BufferLinesQueryText` states its first and last line arguments |
| GvimSession.BufferLinesQueryText | Sources/Interface/Vim/Sessions/GvimSession.swift:325-332 | the start line is at least 1 and end -1 becomes `'$'` |
| GvimSession.BufferLines | Sources/Interface/Vim/Sessions/GvimSession.swift:350-358 | the lines read from output are never an empty list |
| GvimSession.Unquoted | Sources/Interface/Vim/Sessions/GvimSession.swift:352-358 | the lines read from trimmed output are never an empty list |
| GvimSession.ParseBufferLines | Sources/Interface/Vim/Sessions/GvimSession.swift:350-358 | the lines read are never an empty list |
| GvimSession.GetBufferLines | Sources/Interface/Vim/Sessions/GvimSession.swift:85-95 | succeeds exactly when the checks pass and the query answers, and then returns the parsed output |
| GvimSession.ParseBufferLinesRoundTrip | Sources/Interface/Vim/Sessions/GvimSession.swift:350-358 | lines printed one per line read back as themselves, when no line holds a newline and the text neither starts nor ends blank nor is wrapped in quotes |
| GvimSession.ParseBufferLinesDropsQuotes | Sources/Interface/Vim/Sessions/GvimSession.swift:353-354 | a pair of surrounding quotes is dropped |
| GvimSession.ParseBufferLinesPadded | Sources/Interface/Vim/Sessions/GvimSession.swift:350 | blank space around the text is ignored |
| GvimSession.ParseBufferLinesBlank | Sources/Interface/Vim/Sessions/GvimSession.swift:350-358 | output that is only blank space, the empty text that stands in for no output included, reads as one empty line |
| GvimSession.WholeInsertsAppend | Sources/Interface/Vim/Sessions/GvimSession.swift:367-374 | the lines after the first are appended at the end, in order |
| GvimSession.SetLinesPlan | Sources/Interface/Vim/Sessions/GvimSession.swift:361-400 | definition of the commands sent as written; `GvimSession.WholeBufferReplaced`, `RangeAtTopOverwrites` and `RangeBelowTopOneEarly` state what they do to a buffer |
| GvimSession.WholeInserts | Sources/Interface/Vim/Sessions/GvimSession.swift:366-374 | definition: `setline(1, …)` for the first line, then `append(line('$'), …)` for each later one; `GvimSession.WholeInsertsAppend` states their effect |
| GvimSession.RangeInserts | Sources/Interface/Vim/Sessions/GvimSession.swift:386-398 | definition of the range path's insertions as written; `GvimSession.RangeAtTopOverwrites` and `RangeBelowTopOneEarly` show where they put the lines |
| GvimSession.WholeBufferReplaced | Sources/Interface/Vim/Sessions/GvimSession.swift:363-375 | replacing the whole buffer leaves exactly the new lines, one empty line for none, whatever start is |
| GvimSession.RangeAtTopOverwrites | Sources/Interface/Vim/Sessions/GvimSession.swift:376-398 | as written, a range at the top shorter than the buffer overwrites the first line kept |
| GvimSession.RangeBelowTopOneEarly | Sources/Interface/Vim/Sessions/GvimSession.swift:387-396 | as written, a line inserted below the top lands one line early |
| GvimSession.CorrectedSetLinesPlan | Sources/Interface/Vim/Sessions/GvimSession.swift:361-400 | definition of the corrected commands: each line appended after the one before its place, then the old range deleted; `GvimSession.CorrectedSetLinesMeetsReplacement` states that they replace the range |
| GvimSession.CorrectedSetLinesMeetsReplacement | Sources/Interface/Vim/Sessions/GvimSession.swift:361-400 | the corrected commands replace the range by the lines, as intended, and Vim rejects none of them |
| GvimSession.CorrectedRange | Sources/Interface/Vim/Sessions/GvimSession.swift:376-398 | for a range inside the buffer the corrected commands keep what is before and after the range |
| GvimSession.AppendsInsertAll | Sources/Interface/Vim/Sessions/GvimSession.swift:387-397 | appending each line after the one before puts all of them after line `start` in order |
| GvimSession.ExDeleteShifted | Sources/Interface/Vim/Sessions/GvimSession.swift:382-384 | the old range, once shifted down by the inserted lines, is deleted exactly |
| GvimSession.KeysOf | Sources/Interface/Vim/Sessions/GvimSession.swift:222-232 | one keystroke string per command, each `:`, the command text and Enter, in the plan's order |
| GvimSession.SetBufferLines | Sources/Interface/Vim/Sessions/GvimSession.swift:97-107 | after the checks every command goes to the server; a failed check changes nothing |
| GvimSession.VimIndex | Sources/Interface/Vim/Sessions/GvimSession.swift:130-131 | definition: the 1-based Vim position, at least 1 |
| GvimSession.ZeroBased | Sources/Interface/Vim/Sessions/GvimSession.swift:312-313 | definition: the 0-based position, at least 0; `GvimSession.IndexRoundTrip` states that the two cancel on non-negative positions |
| GvimSession.IndexRoundTrip | Sources/Interface/Vim/Sessions/GvimSession.swift:130-313 | the 1-based index is at least 1, and the 0-based reading undoes it for every index from 0 |
| GvimSession.SetCursorPosition | Sources/Interface/Vim/Sessions/GvimSession.swift:121-135 | after the running and window checks, `:{row}<CR>` then `{col}|` with both indices at least 1; a failed check changes nothing |
| GvimSession.ParseCursor | Sources/Interface/Vim/Sessions/GvimSession.swift:307-317 | a position read is never negative; every failure is `invalidResponse` |
| GvimSession.ParseFields | Sources/Interface/Vim/Sessions/GvimSession.swift:311-317 | four or more fields are needed, and the second and third give line and column |
| GvimSession.CursorRoundTrip | Sources/Interface/Vim/Sessions/GvimSession.swift:130-317 | the position Vim prints after the setter's shift reads back as the original row and column |
| GvimSession.GetposComponents | Sources/Interface/Vim/Sessions/GvimSession.swift:309 | the printed `getpos` list splits back into its four fields |
| GvimSession.BracketedComponents | Sources/Interface/Vim/Sessions/GvimSession.swift:309 | a printed list of clean fields splits back into those fields |
| GvimSession.FieldsSplitBack | Sources/Interface/Vim/Sessions/GvimSession.swift:309 | splitting joined fields at commas gives them back |
| GvimSession.PrintedField | Sources/Interface/Vim/Sessions/GvimSession.swift:312-313 | a printed number after a space is clean and reads back as itself |
| GvimSession.ParseCursorNoComma | Sources/Interface/Vim/Sessions/GvimSession.swift:307-317 | output without a comma is a single field and so `invalidResponse` |
| GvimSession.CursorComponents | Sources/Interface/Vim/Sessions/GvimSession.swift:306-309 | no output at all reads as a single empty field |
| GvimSession.Components | Sources/Interface/Vim/Sessions/GvimSession.swift:307-309 | definition of the fields of printed output; `GvimSession.GetposComponents`, `BlankComponents` and `CommaFreeComponents` state how many fields it gives |
| GvimSession.CommaFreeComponents | Sources/Interface/Vim/Sessions/GvimSession.swift:307-309 | output without a comma is one field, whatever it holds |
| GvimSession.FieldValue | Sources/Interface/Vim/Sessions/GvimSession.swift:312-313 | definition: a field read as an integer, 1 when it is not one; `GvimSession.PrintedField` and `FieldWithoutDigit` state both cases |
| GvimSession.BlankComponents | Sources/Interface/Vim/Sessions/GvimSession.swift:307-309 | blank output, the empty text that stands in for no output included, is one empty field, so `invalidResponse` |
| GvimSession.ParseFieldsNoDigits | Sources/Interface/Vim/Sessions/GvimSession.swift:311-314 | with four fields, a line and column that hold no digit count as 1, so as 0 after the shift, not as an error |
| GvimSession.FieldWithoutDigit | Sources/Interface/Vim/Sessions/GvimSession.swift:312-313 | a field that holds no digit falls back to 1 |
| GvimSession.GetCursorPosition | Sources/Interface/Vim/Sessions/GvimSession.swift:109-119 | the running check, then the window check, then the query; its error or its parsed output |
| GvimSession.ParseMode | Sources/Interface/Vim/Sessions/GvimSession.swift:275 | the mode has no quote left, and no output reads as `n` |
| GvimSession.ParseModeReads | Sources/Interface/Vim/Sessions/GvimSession.swift:275 | for any padding of whitespace and newlines, a quoted mode reads back as its quote-free body and a bare mode with non-blank ends reads back as itself: the output is trimmed and every quote removed |
| GvimSession.ParseModeExamples | Sources/Interface/Vim/Sessions/GvimSession.swift:275 | two examples: `i` followed by a newline reads as `i`, and `'v'` reads as `v` |
| GvimSession.GetMode | Sources/Interface/Vim/Sessions/GvimSession.swift:137-143 | the running check, then the query; the mode is never blocking |
| GvimSession.StartThenStop | Sources/Interface/Vim/Sessions/GvimSession.swift:32-66 | a started session stops by quitting its server, stopping again changes nothing, and the inputs survive |
| GvimSession.InputsRecordedWhileStopped | Sources/Interface/Vim/Sessions/GvimSession.swift:72-83 | a session that never started still lists every input given to it, and sent none |
| GvimSession.SendAllInputs | Sources/Interface/Vim/Sessions/GvimSession.swift:72-79 | feeding inputs keeps the session's state valid and its running flag |
| GvimSession.SendAllInputsRecords | Sources/Interface/Vim/Sessions/GvimSession.swift:72-83 | every input is recorded in order, and sent exactly when the session runs |
| VimRemote.NonEmpty | Sources/Interface/Vim/Sessions/VimSession.swift:250-251 | a Vim buffer always has a line: one empty line stands for no lines, and any other buffer is itself |
| VimRemote.SingleQuoted | Sources/Interface/Vim/Sessions/GvimSession.swift:368-390 | each quote of the line is doubled, one extra character per quote, and a quote-free line is written as it is; `VimRemote.ReadSingleQuotedInverse` and `VimRemote.ReadSingleQuotedUnique` state that Vim reads the literal back as exactly the line |
| VimRemote.QuoteAll | Sources/Interface/Vim/Sessions/VimSession.swift:119-123 | one literal per line, each the quote-doubled line, in order (the list the corrected `setBufferLines` sends, without the backslash doubling that `VimSession.BackslashQuoteAll` models as written); `VimRemote.ReadAllQuoteAll` states that the list reads back as the lines |
| VimRemote.DoubleQuoted | Sources/Interface/Vim/Sessions/VimSession.swift:89-91 | backslashes are doubled and quotes escaped, so the body is at least one character longer per backslash, and text with neither is written as it is; `VimRemote.ReadDoubleQuotedInverse` states that Vim reads the body back as the input |
| VimRemote.ReadSingleQuotedInverse | Sources/Interface/Vim/Sessions/GvimSession.swift:368-395 | doubling every quote gives the body of a Vim single-quoted literal that reads back as the line |
| VimRemote.ReadSingleQuotedUnique | Sources/Interface/Vim/Sessions/GvimSession.swift:368-395 | it is the only body that reads as that line |
| VimRemote.ReadAllQuoteAll | Sources/Interface/Vim/Sessions/VimSession.swift:119-123 | a list of quote-doubled literals reads back as the lines |
| VimRemote.ReadDoubleQuotedInverse | Sources/Interface/Vim/Sessions/VimSession.swift:87-95 | doubling backslashes first and then escaping quotes gives a double-quoted body Vim reads back as the input |
| VimRemote.Resolve | Sources/Interface/Vim/Sessions/VimSession.swift:113-131 | a line argument has a number unless it is the bare `$`, which Vim cannot evaluate |
| VimRemote.ExDeleteTexts | Sources/Interface/Vim/Sessions/GvimSession.swift:365-383 | the delete commands are `1,$d` and `{first},{last}d` |
| VimRemote.SetLineText | Sources/Interface/Vim/Sessions/GvimSession.swift:370 | the first line goes in with `call setline(1, '…')` |
| VimRemote.QuoteDoubled | Sources/Interface/Vim/Sessions/GvimSession.swift:368 | a quote in a line is doubled inside the literal |
| VimRemote.AppendText | Sources/Interface/Vim/Sessions/GvimSession.swift:372 | later lines go in with `call append(line('$'), '…')` |
| VimRemote.DeleteBufLineTexts | Sources/Interface/Vim/Sessions/VimSession.swift:114-134 | `deletebufline` is written with a quoted `'$'` in one place and a bare `$` in the other |
| VimRemote.AppendBufLineText | Sources/Interface/Vim/Sessions/VimSession.swift:138-139 | `call appendbufline(buf, start, ['…', '…'])` |
| VimRemote.RunConcat | Sources/Interface/Vim/Sessions/VimSession.swift:128-139 | running two command lists in turn is running their concatenation, rejections added up |
| VimRemote.AppendQuoted | Sources/Interface/Vim/Sessions/GvimSession.swift:372-395 | `append(n, '…')` of a quoted line inserts exactly that line after line n |
| VimRemote.SetLineQuoted | Sources/Interface/Vim/Sessions/GvimSession.swift:370-393 | `setline(n, '…')` of a quoted line replaces line n by exactly that line |
| VimRemote.ExDeleteRange | Sources/Interface/Vim/Sessions/GvimSession.swift:383 | `:{first},{last}d` inside the buffer removes exactly those lines |
| VimRemote.AppendBufLineQuoted | Sources/Interface/Vim/Sessions/VimSession.swift:138-139 | `appendbufline` of quoted lines inserts exactly those lines after line n |
| VimRemote.DeleteBufLineRange | Sources/Interface/Vim/Sessions/VimSession.swift:134 | `deletebufline` inside the buffer removes exactly those lines |
| VimRemote.DeleteBufLineToEnd | Sources/Interface/Vim/Sessions/VimSession.swift:131 | `deletebufline(buf, first, '$')` removes everything from line first on |
| VimRemote.GetBufLine | Sources/Interface/Vim/Sessions/VimSession.swift:102 | `getbufline` cannot evaluate a bare `$` |
| VimRemote.GetBufLineRange | Sources/Interface/Vim/Sessions/VimSession.swift:97-106 | reading from `start + 1` to `end` returns exactly the 0-based lines `start` up to `end` |
| VimRemote.Replacement | Sources/Interface/Vim/Sessions/SessionProtocol.swift:19 | the meaning of `setBufferLines`: defined exactly for ranges inside the buffer, it keeps what is before and after the range and puts the lines in between |
| VimRemote.ReplacementExtremes | Sources/Interface/Vim/Sessions/SessionProtocol.swift:19 | an empty range replaced by nothing changes nothing; the whole buffer replaced leaves exactly the new lines |
| VimSession.Keys | Sources/Interface/Vim/Sessions/VimSession.swift:198-205 | definition: the keys `--remote-send` types for a command, `:`, the command, Enter |
| VimSession.ExecuteRemote | Sources/Interface/Vim/Sessions/VimSession.swift:198-216 | a command is typed as `:`, the command and Enter, and only a non-zero exit fails, with `communicationFailed` |
| VimSession.SendCommands | Sources/Interface/Vim/Sessions/VimSession.swift:128-139 | consecutive commands keep the process and fail only with `communicationFailed` |
| VimSession.SendCommandsDelivered | Sources/Interface/Vim/Sessions/VimSession.swift:128-139 | when every run exits cleanly every command arrives, in order |
| VimSession.SendCommandsFirstFails | Sources/Interface/Vim/Sessions/VimSession.swift:128-139 | when the first run fails nothing arrives |
| VimSession.ExecuteRemoteExpr | Sources/Interface/Vim/Sessions/VimSession.swift:218-244 | a non-zero exit is `communicationFailed`, output that is not text is `invalidResponse`, otherwise the output |
| VimSession.Start | Sources/Interface/Vim/Sessions/VimSession.swift:30-66 | success exactly when Vim launched and its server is listed; every failure is `startupFailed` |
| VimSession.Stop | Sources/Interface/Vim/Sessions/VimSession.swift:68-81 | `:qa!` is sent whatever the state, its failure ignored, and the process dropped |
| VimSession.IsRunning | Sources/Interface/Vim/Sessions/VimSession.swift:83-85 | a session without a process never runs |
| VimSession.StopAlwaysQuits | Sources/Interface/Vim/Sessions/VimSession.swift:68-85 | stopping twice sends `:qa!` twice, and a stopped session never runs |
| VimSession.SendInputCommandAsWritten | Sources/Interface/Vim/Sessions/VimSession.swift:87-95 | definition of the command `sendInput` sends as written; `VimSession.SendInputAsWrittenFeedsNothing` states that it queues nothing |
| VimSession.SendInputAsWrittenFeedsNothing | Sources/Interface/Vim/Sessions/VimSession.swift:94 | as written the command lacks `call`, so Vim queues no keys at all |
| VimSession.FeedkeysCall | Sources/Interface/Vim/Sessions/VimSession.swift:88-94 | definition of the `feedkeys` call text, with the input escaped for a double-quoted string |
| VimSession.SendInputCommand | Sources/Interface/Vim/Sessions/VimSession.swift:87-95 | definition of the corrected command, `call feedkeys(…)`; `VimSession.SendInputFeedsInput` states that it queues exactly the input |
| VimSession.SendInputFeedsInput | Sources/Interface/Vim/Sessions/VimSession.swift:87-95 | with `call` the command queues exactly the input |
| VimSession.SendInput | Sources/Interface/Vim/Sessions/VimSession.swift:87-95 | one command, which queues the input when it arrives; otherwise `communicationFailed` and nothing changes |
| VimSession.BufferLinesQuery | Sources/Interface/Vim/Sessions/VimSession.swift:97-103 | definition of the `getbufline` expression; `VimSession.BufferLinesQueryText` and `BufferLinesQueryReads` state its text and meaning |
| VimSession.QueryLast | Sources/Interface/Vim/Sessions/VimSession.swift:100 | definition: `'$'` for -1, otherwise `end` itself |
| VimSession.BufferLinesQueryText | Sources/Interface/Vim/Sessions/VimSession.swift:99-102 | `getbufline` from `start + 1` to `end`, or `'$'` for -1 |
| VimSession.BufferLinesQueryReads | Sources/Interface/Vim/Sessions/VimSession.swift:97-106 | the query returns exactly the 0-based lines `start` up to `end` |
| VimSession.ParseVimList | Sources/Interface/Vim/Sessions/VimSession.swift:246-263 | never empty, one empty line for blank output, and no line holds a newline |
| VimSession.GetBufferLines | Sources/Interface/Vim/Sessions/VimSession.swift:97-107 | succeeds exactly when the query answers with text, and then returns it parsed |
| VimSession.ParseVimListRoundTrip | Sources/Interface/Vim/Sessions/VimSession.swift:246-263 | printed lines read back as themselves, when none holds a newline and the text neither starts nor ends blank |
| VimSession.ParseVimListDropsTrailingEmpty | Sources/Interface/Vim/Sessions/VimSession.swift:247-255 | a trailing empty line is lost in reading |
| VimSession.ParseVimListBlank | Sources/Interface/Vim/Sessions/VimSession.swift:246-251 | output that is only blank space, as Vim prints for no lines, reads as one empty line |
| VimSession.SetLinesPlanAsWritten | Sources/Interface/Vim/Sessions/VimSession.swift:109-140 | definition of the commands `setBufferLines` sends as written; `RangeDeletesOneExtra`, `WholeReplaceLeavesEmptyLine`, `ClearWholeRejected` and `BackslashDoubled` state what they do |
| VimSession.RangeDeletesOneExtra | Sources/Interface/Vim/Sessions/VimSession.swift:126-134 | as written, `end + 1` deletes one line past the range |
| VimSession.WholeReplaceLeavesEmptyLine | Sources/Interface/Vim/Sessions/VimSession.swift:129-139 | as written, replacing the whole buffer leaves an extra empty line, which reading back hides |
| VimSession.ClearWholeRejected | Sources/Interface/Vim/Sessions/VimSession.swift:110-115 | as written, clearing the whole buffer passes a bare `$` and the buffer stays as it was |
| VimSession.BackslashQuoted | Sources/Interface/Vim/Sessions/VimSession.swift:119-123 | definition of the literal written for a line as written: backslashes doubled, then quotes doubled; `VimSession.BackslashDoubled` states what Vim reads from it |
| VimSession.BackslashQuoteAll | Sources/Interface/Vim/Sessions/VimSession.swift:119-123 | one literal per line |
| VimSession.BackslashDoubled | Sources/Interface/Vim/Sessions/VimSession.swift:119-122 | as written, a backslash arrives doubled |
| VimSession.CorrectedSetLinesPlan | Sources/Interface/Vim/Sessions/VimSession.swift:109-140 | definition of the corrected commands: one `appendbufline` after line `start`, then the old range deleted below the new lines; `VimSession.CorrectedSetLinesMeetsReplacement` states that they replace the range |
| VimSession.CorrectedSetLinesMeetsReplacement | Sources/Interface/Vim/Sessions/VimSession.swift:109-140 | the corrected commands replace the range by the lines, as intended, with no command rejected |
| VimSession.CorrectedToEnd | Sources/Interface/Vim/Sessions/VimSession.swift:129-131 | replacing to the end keeps the lines before `start` and puts the new ones after them |
| VimSession.CorrectedRange | Sources/Interface/Vim/Sessions/VimSession.swift:132-134 | replacing a range keeps what is before and after it |
| VimSession.DeleteShiftedRange | Sources/Interface/Vim/Sessions/VimSession.swift:134 | the old range, shifted down by the inserted lines, is deleted exactly |
| VimSession.CorrectedInsert | Sources/Interface/Vim/Sessions/VimSession.swift:138-139 | an empty range only inserts |
| VimSession.WriteThenRead | Sources/Interface/Vim/Sessions/VimSession.swift:97-140 | writing the whole buffer and reading it back gives the lines |
| VimSession.SetBufferLines | Sources/Interface/Vim/Sessions/VimSession.swift:109-140 | the commands keep the process and fail only with `communicationFailed`; when the runs exit cleanly the corrected commands all arrive |
| VimSession.GetCursorPosition | Sources/Interface/Vim/Sessions/VimSession.swift:142-154 | succeeds exactly when both answers are numbers, and returns each less one |
| VimSession.PositionOf | Sources/Interface/Vim/Sessions/VimSession.swift:147-153 | the 0-based position plus one is what Vim printed; anything but two numbers is `invalidResponse` |
| VimSession.SetCursorPosition | Sources/Interface/Vim/Sessions/VimSession.swift:156-159 | `call cursor(row + 1, col + 1)`; the window is ignored |
| VimSession.ParseNumber | Sources/Interface/Vim/Sessions/VimSession.swift:147-148 | definition: trimmed output read as an integer; `VimSession.PrintedNumber` and `CursorRejectsText` state what it accepts |
| VimSession.PrintedNumber | Sources/Interface/Vim/Sessions/VimSession.swift:147-148 | a printed number reads back as itself |
| VimSession.CursorCommand | Sources/Interface/Vim/Sessions/VimSession.swift:156-159 | definition of `call cursor(row + 1, col + 1)` |
| VimSession.CursorRoundTrip | Sources/Interface/Vim/Sessions/VimSession.swift:142-159 | the getter reads back the 0-based position the setter gave |
| VimSession.CursorNotClamped | Sources/Interface/Vim/Sessions/VimSession.swift:153 | nothing is clamped: whatever reads as line 0 and column 0 gives row -1 and column -1 |
| VimSession.CursorRejectsText | Sources/Interface/Vim/Sessions/VimSession.swift:147-150 | text that is no number is `invalidResponse`, not a default |
| VimSession.GetMode | Sources/Interface/Vim/Sessions/VimSession.swift:161-170 | the mode is the trimmed answer, blocking exactly when it holds `r` or `!` |
| VimSession.Blocking | Sources/Interface/Vim/Sessions/VimSession.swift:167 | definition: a mode blocks when it contains `r` or `!`; `VimSession.BlockingModes` classifies the modes |
| VimSession.BlockingModes | Sources/Interface/Vim/Sessions/VimSession.swift:167 | the prompts and a running shell command block, while normal, insert, visual and replace do not; the command-line overstrike modes do too |
| Bytes.Split16 | Sources/Interface/Vim/Sessions/NvimSession.swift:180-182 | `count >> 8` and `count & 0xFF` are the two big-endian bytes that read back as the count |
| Bytes.Split32 | Sources/Interface/Vim/Sessions/NvimSession.swift:200-204 | the four shifted and masked bytes read back as the value |
| Text.Trim | Sources/Interface/Vim/Sessions/VimSession.swift:163 | trimming drops only characters of the given class, from both ends, and leaves none of them at either end |
| Text.TrimBlank | Sources/Interface/Vim/Sessions/VimSession.swift:247 | `trimmingCharacters(in: .whitespacesAndNewlines)`: no longer than the text, and neither end is blank |
| Text.TrimSpaces | Sources/Interface/Vim/Sessions/GvimSession.swift:312-313 | `trimmingCharacters(in: .whitespaces)`: no longer than the text, and neither end is a space |
| Text.TrimIdempotent | Sources/Interface/Vim/Sessions/VimSession.swift:163 | trimming twice is trimming once |
| Text.TrimKeeps | Sources/Interface/Vim/Sessions/VimSession.swift:163 | trimming never brings in a character the text did not hold |
| Text.TrimAllDropped | Sources/Interface/Vim/Sessions/VimSession.swift:247-251 | a text made only of dropped characters trims to nothing |
| Text.TrimPadded | Sources/Interface/Vim/Sessions/VimSession.swift:147-148 | a text padded with blank space on both sides trims back to itself |
| Text.Replace | Sources/Interface/Vim/Sessions/VimSession.swift:89-91 | replacing a character leaves a text free of it unchanged |
| Text.ReplaceAppend | Sources/Interface/Vim/Sessions/VimSession.swift:89-91 | replacing works piece by piece |
| Text.ReplaceRemoves | Sources/Interface/Vim/Sessions/VimSession.swift:89-91 | after replacing a character by text without it, the character is gone |
| Text.Remove | Sources/Interface/Vim/Sessions/GvimSession.swift:275 | removing a character keeps exactly the other characters |
| Text.RemoveIsReplace | Sources/Interface/Vim/Sessions/GvimSession.swift:275 | removing is replacing with nothing |
| Text.Split | Sources/Interface/Vim/Sessions/VimSession.swift:255 | splitting gives at least one piece, none holding a separator |
| Text.SplitJoin | Sources/Interface/Vim/Sessions/VimSession.swift:255 | splitting joined pieces gives them back when no piece holds a separator |
| Text.JoinSplit | Sources/Interface/Vim/Sessions/GvimSession.swift:357 | joining the pieces of a split gives back the text |
| Text.Join | Sources/Interface/Vim/Sessions/VimSession.swift:123 | joining nothing is empty and joining one piece is that piece |
| Text.ParseInt | Sources/Interface/Vim/Sessions/VimSession.swift:147-148 | a number read fits in 64 bits, and empty text is no number |
| Text.IntToString | Sources/Interface/Vim/Sessions/VimSession.swift:158 | an interpolated integer is never empty |
| Text.ParseIntToString | Sources/Interface/Vim/Sessions/VimSession.swift:147-148 | a printed integer reads back as itself |
| Text.ParseIntNeedsDigit | Sources/Interface/Vim/Sessions/VimSession.swift:147-148 | a text without any digit is no number |
| Text.ParseIntRejects | Sources/Interface/Vim/Sessions/VimSession.swift:147-148 | text starting with anything but a digit or a sign is no number |

## Left out

- Processes, pipes, temporary files and the editor itself: `Process` launch, `--remote-send`/`--remote-expr` invocations, Neovim's stdio pipe and reading its reply. What the editor answers is a parameter of each operation.
- The 5-second reply timeout of `receiveResponse` (Sources/Interface/Vim/NVimRPC/NvimClient.swift:148-189), and every other wall-clock timeout, sleep and retry delay. The search's time limit becomes fuel: one unit per node popped, with `Timeout` when it runs out.
- Concurrency: Swift actors are treated as sequential objects. The concurrent search's task groups, dispatching and sleeping are not modelled; only its shared bookkeeping is (in-flight count, best path, bound pruning).
- Progress printing and statistics: `printSearchTable`, `formatBuffer` and `avgSpeed` (Sources/Core/Algorithms/AStarAlgorithmConcurrent.swift:122-154), and verbose logging everywhere.
- Floating point: costs, heuristics and priorities are `real`, so rounding is not modelled.
- Swift `Character`s (grapheme clusters) are `char`s, so the heuristics count code points. MessagePack strings are UTF-8 byte sequences, and well-formed UTF-8 is defined directly rather than by a library decoder.
- The LRU cache is keyed by the keystroke sequence itself; the source's string encoding of that key (`encodeKeystrokes`) is left out, so two sequences share an entry only when they are equal.
- Hashing: `Hashable` conformances are derived in the source and are not modelled beyond "equal states hash alike". The `AStarNode` initialiser is the datatype's constructor.
- Vim's behaviour is modelled only as far as the sessions use it (`VimRemote`). Left out are `<...>` key notation and control characters in `--remote-send` input, buffer numbers (there is one buffer), negative line numbers, and the cursor clamping that `cursor()` does.
- Session start-up details: `VimSession`'s launch arguments and server name; its `start` not checking for an earlier process; `GvimSession`'s temporary directory, UUID server names and polling for the server list. The polling is summarised by one parameter: whether the server ever appeared.
- Session ids: a new session's UUID is a parameter. `stopAllSessions` returns the set of ids stopped, because the source's dictionary order is unspecified.
- `NvimSession` has no `getInputs`; the registry keeps the inputs itself (`SessionManager.Handle`).
- The `NvimClient` session methods beyond its codec, accessors and counter: they send the same requests as `NvimSession`'s and are not modelled a second time.
- Errors that are declared but never thrown: `SessionManagerError.noViableSessionType` and `SessionManagerError.sessionCreationFailed` (Sources/Interface/Vim/Sessions/SessionManager.swift:104-105), `VimEngineError.nvimStartupFailed` and `VimEngineError.invalidResponse` (Sources/Interface/Vim/VimEngine.swift:48-49), and `VimSessionError.notRunning` (Sources/Interface/Vim/Sessions/VimSession.swift:270). They are mentioned in doc comments only.
- The engine builds states whose mode is a string, while `VimState` has a mode enumeration; the model keeps the engine's own `EngineState` rather than reconciling the two.
- Files that only declare interfaces, the package manifest and the Python test script. Test expectations that the code as written cannot meet (decoding `nil` to `NSNull`, the integer round trip of 12345 and -42 through a wrapped array) are not modelled.
- The sequential search builds its engine with `try VimEngine(initialState:)` (Sources/Core/Algorithms/AStarAlgorithm.swift:15), an initialiser that Sources/Interface/Vim/VimEngine.swift does not declare; the model's `AStarSearch.Search` starts with a working engine, so a failure at that step is not modelled.
- Error message texts: `NvimSession.swift` and `NvimClient.swift` word four of their errors differently, and each constructor of `MsgPack.CommFailure` and `MsgPack.DecodeFailure` stands for both texts: `UnexpectedEnd` for "Unexpected end" (Sources/Interface/Vim/Sessions/NvimSession.swift:232) and "Unexpected end of data" (Sources/Interface/Vim/NVimRPC/NvimClient.swift:306), `InvalidUtf8` for "Invalid UTF-8" (NvimSession.swift:307) and "Invalid UTF-8 string" (NvimClient.swift:456), `NoDataReceived` for "No data received" (NvimSession.swift:120) and "No data received from nvim" (NvimClient.swift:185), and `UnsupportedType` for "Unsupported type" (NvimSession.swift:153) and "Unsupported type for encoding" (NvimClient.swift:215). The model therefore does not tell the two decoders apart by their message text.
- NvimSession.NextMessageId: requires the counter to be below `UInt32.max`, so the trap of `messageId += 1` on a `UInt32` that has reached its maximum (Sources/Interface/Vim/Sessions/NvimSession.swift:14, 105-108; the client's copy at Sources/Interface/Vim/NVimRPC/NvimClient.swift:25, 130-133) is not modelled; `NvimSession.CallRpc`, `CallMethod`, every session operation built on them and `NvimSession.Run` carry the same requirement instead of the trap.
- MsgPack.Representable: integers handed to the encoder must lie in [-2^31, 2^32), so the traps of `UInt32(value)` and `Int32(value)` in `encodeInt` (Sources/Interface/Vim/Sessions/NvimSession.swift:210, 222) for integers outside that range are not modelled; the session operations that send buffer numbers, line numbers, windows, rows and columns (`NvimSession.GetBufferLines`, `SetBufferLines`, `GetCursorPosition`, `SetCursorPosition`) require their integers in that range (`NvimSession.Int32`) rather than trapping.
- NvimRpc.EncodeValue: uses the corrected integer encoder, so it succeeds on every representable integer; as written (Sources/Interface/Vim/Sessions/NvimSession.swift:216-228) integers in [-2^31, -129] trap in `UInt8(_:)` (`IntFormat.EncodeIntAsWritten`, `IntFormat.AsWrittenTrapsBelowInt8`).
- NvimClient.EncodeValue: uses the corrected integer encoder, so it succeeds on every representable integer; as written (Sources/Interface/Vim/NVimRPC/NvimClient.swift:284-296) integers in [-2^31, -129] trap in `UInt8(_:)` (`IntFormat.EncodeIntAsWritten`, `IntFormat.AsWrittenTrapsBelowInt8`).
- GvimSession.Send: `--remote-send` is taken to succeed whenever a server name is known; its non-zero exit status (`communicationFailed`, Sources/Interface/Vim/Sessions/GvimSession.swift:240-244) is not modelled, unlike `VimSession.ExecuteRemote`, which models the same check.
- GvimSession.CorrectedSetLinesMeetsReplacement: requires `start == 0` when `end == -1`, because the whole-buffer path (Sources/Interface/Vim/Sessions/GvimSession.swift:363-375) replaces the entire buffer whatever `start` is, and the corrected plan keeps that path (`GvimSession.WholeBufferReplaced` states what it does).
- NvimSession.SentDecodesToRequest: covers message ids and parameter counts small enough for the session's own decoder to read back (fixint ids, fixarray parameters), because `decodeValue` has no branches for wider forms.

## Findings

| source | as written | input that shows it | evidently intended | confidence | as-written member | corrected member |
|---|---|---|---|---|---|---|
| Sources/Interface/Vim/Sessions/NvimSession.swift:216-228 | `encodeInt` converts `value >> 8` (and `>> 24`) to `UInt8` directly; for a negative value that conversion traps, so every integer below -128 crashes the encoder (the same code is at NvimClient.swift:284-296) | -200 | the two's-complement bytes `D1 FF 38` (int16) | not executed | IntFormat.AsWrittenTrapsOnMinus200 | IntFormat.EncodeIntRoundTrip |
| Sources/Interface/Vim/Sessions/GvimSession.swift:388-393 | for a range starting at line 0, the first new line is written with `setline(1, …)` after the range was deleted, overwriting the first line that followed the range | buffer a, b, c; start 0, end 1, lines x: gives x, c | x, b, c | not executed | GvimSession.RangeAtTopOverwrites | GvimSession.CorrectedSetLinesMeetsReplacement |
| Sources/Interface/Vim/Sessions/GvimSession.swift:387-395 | for a range starting below line 0, new lines are appended after line `max(1, start) - 1`, one line too early | buffer a, b; start 1, end 1, lines x: gives x, a, b | a, x, b | not executed | GvimSession.RangeBelowTopOneEarly | GvimSession.CorrectedSetLinesMeetsReplacement |
| Sources/Interface/Vim/Sessions/VimSession.swift:94 | `sendInput` sends `:feedkeys(…)` without `call`, which Vim reads as an unknown Ex command, so no key is fed | any input | `:call feedkeys(…)`, feeding exactly the input | not executed | VimSession.SendInputAsWrittenFeedsNothing | VimSession.SendInputFeedsInput |
| Sources/Interface/Vim/Sessions/VimSession.swift:126-134 | the range's last line is `end + 1`, so the exclusive end line is deleted too | buffer a, b, c; start 0, end 1, lines x: gives x, c | x, b, c | not executed | VimSession.RangeDeletesOneExtra | VimSession.CorrectedSetLinesMeetsReplacement |
| Sources/Interface/Vim/Sessions/VimSession.swift:129-139 | replacing the whole buffer deletes every line, which leaves one empty line, then appends the new lines above it | buffer a; start 0, end -1, lines x: gives x and an empty line | x | not executed | VimSession.WholeReplaceLeavesEmptyLine | VimSession.CorrectedSetLinesMeetsReplacement |
| Sources/Interface/Vim/Sessions/VimSession.swift:112-114 | clearing the whole buffer passes a bare `$` as an expression, which Vim rejects, so nothing is deleted | buffer a; start 0, end -1, no lines | one empty line | not executed | VimSession.ClearWholeRejected | VimSession.CorrectedSetLinesMeetsReplacement |
| Sources/Interface/Vim/Sessions/VimSession.swift:119-123 | backslashes are doubled inside a single-quoted Vim string, where a backslash is literal, so each arrives doubled | buffer z; start 0, end 0, lines `\` | `\`, z | not executed | VimSession.BackslashDoubled | VimSession.CorrectedSetLinesMeetsReplacement |
