# breach-protocol-camera: a Dafny model of the solver and the frame tracker

This project models the core of `breach-protocol-camera`, an iOS app that
reads a "breach protocol" puzzle through the camera and solves it. The
puzzle is a square grid of two-character hex codes plus a list of target
sequences. A chain is a path through the grid of exactly `bufferSize` nodes
(one when `bufferSize <= 0`).
Its moves alternate between a column (vertical) move and a row (horizontal)
move, and it starts in the top row. No node is visited twice. The chain's
buffer is the codes it passes over. A solution is a chain together with the
set of targets that occur contiguously in its buffer.

Modules and what they cover:

- `Chains` (chains.dfy): nodes, chains, navigation steps (`Node.-`),
  `lastNodeAvailable`, and the validity and lexicographic order of chains.
- `Subarray` (subarray.dfy): `isSubarray(ofArray:)`.
- `Grid` (grid.dfy): `Matrix.transpose`, `asText` and `fromText`.
- `ChainModifier` and `Enumeration` (modifier.dfy): `addNode`,
  `propogateLast`, `removeLast`, `buildChain` and `nextChain`. `Enumeration`
  proves that `buildChain` gives the lexicographically least valid extension
  and `nextChain` the immediate lexicographic successor.
- `Frontier` and `FrontierSources` (frontier.dfy): the solution-list update
  inside `solve`.
- `Solver`, `SolverProperties` and `SolverCompleteness` (solver.dfy,
  solver_properties.dfy): `solve`, `matchedTargetsIndexes` and `render`, with
  soundness and completeness of the returned list.
- `Modes` (mode_detector.dfy): `ModeDetector`.
- `TextAnalyzer` (text_analyzer.dfy): `applyCorrections(to:)`.
- `Tracker`, `TrackerRender` and `TrackerHistory` (task_tracker.dfy,
  tracker_render.dfy, tracker_history.dfy): `MatrixMap.render(atSize:)`,
  `MatrixIndex` and `TaskTracker`. `TrackerHistory` states what the tracker
  reports after any sequence of calls.
- `Text` (text.dfy): Swift's `joined(separator:)` and `split(separator:)`.
- `Wrappers` (wrappers.dfy): `Option`, and `Run`, explained next.

Swift can trap at run time (out-of-range index, `removeLast` on an empty
array) and `buildChain` can loop forever. So the operations that can do
either return `Run<T> = Returns(T) | Hangs | Traps`. This way no
operation needs a precondition the source does not impose. The lemmas then
say when each outcome happens. For `solve` that is stated for nil, for
ragged, square and taller puzzles, and for one-token buffers; "## Left out"
names what stays open. Classes with mutable state (`ModeDetector`, `TaskTracker`)
become immutable records. A mutating call returns the new record. A getter
that fills a cache returns its answer together with the new record.

## Model

| member | source | states |
|---|---|---|
| Chains.Minus | breach-protocol-camera/Solver.swift:77-87 | The step is vertical exactly when the columns agree, and then `Down` iff `lhs.y > rhs.y`. Otherwise it is horizontal, and `Right` iff `lhs.x > rhs.x`. The width is the absolute distance along that axis. |
| Chains.MoveMinus | breach-protocol-camera/Solver.swift:77-87 | For axis-aligned nodes, moving `rhs` by `lhs - rhs` gives back `lhs`: the step is an exact inverse. |
| Chains.ReplaySteps | breach-protocol-camera/Solver.swift:77-87 | Replaying the steps of an axis-aligned chain from its first node rebuilds the whole chain. |
| Chains.ValidChainReplays | breach-protocol-camera/Solver.swift:77-87 | Every valid chain is rebuilt by replaying its printed steps from its first node. |
| Chains.StepsAlternate | breach-protocol-camera/Solver.swift:77-87 | In a valid chain, step `i` is vertical exactly when `i` is even, and every step has a positive width. |
| Subarray.IsSubarray | breach-protocol-camera/Solver.swift:105-118 | True iff `p` occurs contiguously at some index of `a`. Always false when `p` is longer than `a`; always true for an empty `p`. |
| Grid.Transpose | breach-protocol-camera/Solver.swift:4-9 | Empty for an empty matrix. Otherwise it has one row per column of the first row, each as long as the matrix, with `t[i][j] == m[j][i]`. It is only defined when no row is shorter than the first; `Solve` traps otherwise. |
| Grid.TransposeInvolution | breach-protocol-camera/Solver.swift:4-9 | On a rectangular matrix, transposing twice gives the matrix back. |
| Grid.FromText | breach-protocol-camera/Solver.swift:19-23 | Every token it produces is non-empty and contains no space. |
| Grid.FromTextAsText | breach-protocol-camera/Solver.swift:11-23 | `fromText(asText(m)) == m` for every matrix of non-empty rows whose tokens are non-empty and contain no space or newline. |
| ChainModifier.AddNode | breach-protocol-camera/Solver.swift:122-131 | The empty chain becomes `[(0,0)]`. Otherwise one node is appended, linked to the last along the alternating axis, with free coordinate 0; the old chain is its prefix. |
| ChainModifier.PropogateLast | breach-protocol-camera/Solver.swift:133-145 | An empty chain comes back unchanged, with failure. Otherwise only the last node changes: its free coordinate gains 1, and success holds iff the new coordinate is still `< n`. |
| ChainModifier.RemoveLast | breach-protocol-camera/Solver.swift:147-151 | Returns the chain without its last node when it is non-empty, and traps on the empty chain. |
| ChainModifier.Settle | breach-protocol-camera/Solver.swift:158-167 | The inner loop of `buildChain` never traps. When it returns, the last node has moved forward along its free axis to the first position that repeats no earlier node, still inside the grid. When it hangs, every position from the current one to the grid's edge repeats an earlier node. |
| ChainModifier.InnerLoopNeverExits | breach-protocol-camera/Solver.swift:161-166 | Once `propogateLast` fails, the literal loop (with `removeLast`'s result discarded) never succeeds again after any number of rounds. The chain keeps its length, so `count == 1` never becomes true, and the last node stays past the edge. |
| ChainModifier.Grow | breach-protocol-camera/Solver.swift:156-168 | Never traps. When it returns, the chain has been extended to the requested length (or kept when already longer) and the input is its prefix. |
| ChainModifier.BuildChain | breach-protocol-camera/Solver.swift:153-170 | Never traps. It is nil exactly when `length > n*n`. A returned chain keeps the initial chain as prefix and has length `max(count, length)`. |
| ChainModifier.BacktrackOutcome | breach-protocol-camera/Solver.swift:176-185 | The loop of `nextChain` either returns a bump of the chain or nil. A bump cuts the chain after some index `j`, moves node `j` to its next new position, and every deeper index is exhausted. Nil comes only when the chain has at least 2 nodes and every index from 1 on is exhausted. |
| ChainModifier.NextChain | breach-protocol-camera/Solver.swift:172-187 | Never traps on a chain of two or more nodes. A returned chain has the same length and the same first node. |
| Enumeration.BuildChainValid | breach-protocol-camera/Solver.swift:153-170 | From a valid chain, a returned chain is valid and extends the input with greedy choices: each new node is the first free position that repeats no earlier node. |
| Enumeration.GrowHangs | breach-protocol-camera/Solver.swift:156-168 | When the extension loop hangs, some greedy extension shorter than the target length is stuck: every position for its next node repeats a node. |
| Enumeration.BuildChainHangs | breach-protocol-camera/Solver.swift:153-170 | `buildChain` hangs exactly when `length <= n*n` and some greedy extension shorter than `length` is stuck. |
| Enumeration.BuildChainLeast | breach-protocol-camera/Solver.swift:153-170 | A returned chain is the lexicographically least valid chain of its length that extends the initial chain. |
| Enumeration.NextChainValid | breach-protocol-camera/Solver.swift:172-187 | The successor of a valid chain is valid. |
| Enumeration.NextChainAdvances | breach-protocol-camera/Solver.swift:172-187 | The successor is lexicographically greater than the chain. |
| Enumeration.NextChainNone | breach-protocol-camera/Solver.swift:172-187 | On a valid chain of at least 2 nodes, `nextChain` returns nil exactly when every index from 1 on is exhausted. |
| Enumeration.NextChainNoneComplete | breach-protocol-camera/Solver.swift:172-187 | When `nextChain` returns nil, no valid chain with the same length and first node is lexicographically greater. |
| Enumeration.NextChainIsSuccessor | breach-protocol-camera/Solver.swift:172-187 | The successor is the immediate one: no valid chain with the same length and first node lies strictly between the chain and it. |
| Solver.Render | breach-protocol-camera/Solver.swift:251-253 | Returns exactly when every node indexes the matrix, and traps otherwise. The buffer has one token per node, `t[x][y]`. |
| Solver.MatchedTargets | breach-protocol-camera/Solver.swift:241-249 | Exactly the indices of the targets that occur contiguously in the buffer. |
| Solver.Visit | breach-protocol-camera/Solver.swift:204-235 | Never hangs, and returns exactly when the chain can be rendered. |
| Solver.Solve | breach-protocol-camera/Solver.swift:194-239 | Traps when the matrix is ragged (a row shorter than the first). |
| Frontier.Offer | breach-protocol-camera/Solver.swift:209-233 | When the candidate is appended it is last. When it is not, the list is unchanged and already covers the candidate's targets. A solution is dropped only when the candidate is appended and includes its targets. |
| Frontier.OfferOnAntichain | breach-protocol-camera/Solver.swift:209-233 | On an antichain, the candidate is appended iff no kept solution covers its targets. It is then placed after the kept solutions it does not include, in order; otherwise the list is unchanged. |
| Frontier.OfferAllTargets | breach-protocol-camera/Solver.swift:209-233 | When the candidate includes every kept solution's targets, an append leaves exactly the candidate. |
| Frontier.OfferKeepsAntichain | breach-protocol-camera/Solver.swift:209-233 | The update keeps the antichain property: no kept solution's targets include another's. |
| Frontier.OfferCovers | breach-protocol-camera/Solver.swift:209-233 | Afterwards the candidate's targets are covered, and any set covered before is still covered. |
| FrontierSources.OfferFrom | breach-protocol-camera/Solver.swift:209-233 | Every solution in the updated list was in the old list or is the candidate. |
| SolverProperties.VisitSound | breach-protocol-camera/Solver.swift:204-235 | One enumeration step keeps the list an antichain of sound solutions. |
| SolverProperties.VisitAllTargets | breach-protocol-camera/Solver.swift:228-233 | On an antichain of sound solutions, when the step reports that every target matched, the list is exactly the one new solution. |
| SolverProperties.SolveSound | breach-protocol-camera/Solver.swift:194-239 | A returned list is an antichain. Each solution is a valid chain of `bufferSize` nodes that starts in the top row, and it records exactly the non-empty set of targets its buffer matches. |
| SolverProperties.RenderReadsPuzzle | breach-protocol-camera/Solver.swift:194-253 | After the transpose, node `(x, y)` reads row `y`, column `x` of the puzzle as given. |
| SolverProperties.SolveNil | breach-protocol-camera/Solver.swift:198-203 | `solve` returns nil exactly when the matrix is non-empty and not ragged, and the buffer is longer than the grid has cells. |
| SolverProperties.SolveTallNoTrap | breach-protocol-camera/Solver.swift:194-239 | On a puzzle with at least as many rows as its first row has tokens (square ones included) and a buffer of at least 2, `solve` never traps. |
| SolverProperties.SolveOneRowTraps | breach-protocol-camera/Solver.swift:194-253 | On a one-row puzzle of two or more tokens with a buffer of 2, `solve` traps. The first chain steps down to a row the puzzle does not have, and `render` reads past the end. |
| SolverCompleteness.EnumerateSingleCovers | breach-protocol-camera/Solver.swift:204-236 | With one-node chains the inner loop never hangs. It returns only through the `break` after a solution matching every target was appended, so the list then covers every set of targets. |
| SolverCompleteness.SolveComplete | breach-protocol-camera/Solver.swift:194-239 | Every valid top-row chain of `bufferSize` nodes (one when `bufferSize <= 1`) that matches some target has its targets covered by a returned solution. |
| OneToken.EnumerateCoveredTraps | breach-protocol-camera/Solver.swift:172-187 | Once the list covers every target (or there are no targets), one-node chains never end the column. The enumeration runs to the last column, where `nextChain` drops the node and then calls `removeLast` on the empty chain and traps. |
| OneToken.SolveOneToken | breach-protocol-camera/Solver.swift:194-239 | With `bufferSize <= 1`, the exact outcome of `solve`: the empty list when the first row is empty. A one-column puzzle whose top-left token matches every one of a non-empty target list gives that single solution. Every other puzzle traps. |
| Modes.Init | breach-protocol-camera/Utils.swift:85-87 | A new detector is consistent and has no mode. |
| Modes.Track | breach-protocol-camera/Utils.swift:89-100 | A frozen detector is unchanged. Otherwise the item is counted, the leader's count grows by at most one and never passes the threshold, and the leader changes only to the item, when its count strictly exceeds the old leader's. |
| Modes.Mode | breach-protocol-camera/Utils.swift:102-105 | There is a mode exactly when the detector is frozen (threshold at least 1), and it is the leader. |
| Modes.Reset | breach-protocol-camera/Utils.swift:107-111 | Returns the new detector for the same threshold, which has no mode. |
| Modes.ModeFrozen | breach-protocol-camera/Utils.swift:89-90 | Once a mode exists, tracking changes nothing, so the mode never changes. |
| Modes.ReachedSpec | breach-protocol-camera/Utils.swift:89-105 | The reference mode `Reached(xs, t)` is absent iff no item occurs `t` times. Otherwise it is an item of `xs` that occurs at least `t` times. |
| Modes.TrackAllMode | breach-protocol-camera/Utils.swift:85-105 | After tracking `xs` from a new detector, the mode is the first item of `xs` whose count reaches the threshold. |
| Modes.TrackAllKeepsMode | breach-protocol-camera/Utils.swift:89-90 | Tracking any further items on a detector with a mode leaves it unchanged. |
| TextAnalyzer.ApplyCorrections | breach-protocol-camera/Utils.swift:63-68 | A code outside the table comes back unchanged. A code in the table becomes a corrected code, and the result is never a key of the table unless the input was. |
| TextAnalyzer.ApplyCorrectionsPairs | breach-protocol-camera/Utils.swift:50-68 | Each of the ten misreadings maps to its own correction (B0, BO, 80, 8D to BD; EG, EY to E9; IC to 1C; 65, 66, 56 to 55), and the four corrected codes are unchanged. |
| TextAnalyzer.ApplyCorrectionsIdempotent | breach-protocol-camera/Utils.swift:50-68 | Correcting twice is the same as correcting once, and a corrected code is never a key of the table. |
| Tracker.LogMatrix | breach-protocol-camera/TaskTracker.swift:62-71 | The size is tracked once. Each logged index is tracked once, with a new threshold-5 detector for an unseen index. Every other detector and both caches are unchanged. |
| Tracker.BestMatrix | breach-protocol-camera/TaskTracker.swift:74-89 | Nil with no size mode. A new answer is the grid of cell modes, and it exists only when every cell has a mode; it is cached. The state changes only by filling the empty cache. |
| Tracker.LogTargets | breach-protocol-camera/TaskTracker.swift:91-96 | Nothing changes when the list is empty or a mode already exists. The cell detectors, the size detector and both caches never change. |
| Tracker.BestTargets | breach-protocol-camera/TaskTracker.swift:98-103 | A cached answer is returned as is. Without a cache and without a mode the answer is nil. Otherwise it is the mode split on `TargetsSeparator`, and it is cached. |
| Tracker.Reset | breach-protocol-camera/TaskTracker.swift:105-112 | All detectors are cleared and both caches emptied; a tracker with the standard thresholds becomes a new tracker. |
| TrackerRender.RenderMapCells | breach-protocol-camera/TaskTracker.swift:13-26 | The rendering is the cells, each followed by one space. |
| TrackerRender.CellsLayout | breach-protocol-camera/TaskTracker.swift:13-26 | There are `n*n` cells in row-major order. Cell `(i, j)` is the digits at that index, or `--` when the index is missing. |
| TrackerRender.RenderMapSplit | breach-protocol-camera/TaskTracker.swift:13-26 | When no digits contain a space, splitting the rendering on spaces gives back the `n*n` cells. |
| TrackerRender.RenderMapIgnoresOutside | breach-protocol-camera/TaskTracker.swift:13-26 | Entries outside the `n`-by-`n` grid do not affect the rendering. |
| TrackerHistory.LogMatrixExplains | breach-protocol-camera/TaskTracker.swift:62-71 | After a logged frame, each detector is still the fold of every value logged for it. |
| TrackerHistory.LogTargetsExplains | breach-protocol-camera/TaskTracker.swift:91-96 | After a logged target list, the targets detector is still the fold of the non-empty lists logged, joined with `TargetsSeparator`. |
| TrackerHistory.BestMatrixSpec | breach-protocol-camera/TaskTracker.swift:74-89 | After any sequence of calls, the matrix getter answers the reference. The size is the first size logged five times, and each cell is the first digits logged there five times; the answer is nil while a cell has none. |
| TrackerHistory.BestTargetsSpec | breach-protocol-camera/TaskTracker.swift:98-103 | After any sequence of calls, the targets getter answers the first non-empty list logged five times, split on `TargetsSeparator`. |
| TrackerHistory.BestMatrixEvidence | breach-protocol-camera/TaskTracker.swift:73-89 | A returned matrix is square, its size was logged at least five times, and each cell's digits were logged at that index at least five times. |
| TrackerHistory.BestTargetsLogged | breach-protocol-camera/TaskTracker.swift:91-103 | When no target contains `TargetsSeparator` or is empty, a returned list is non-empty, was itself logged, and was logged at least five times. |
| TrackerHistory.BestMatrixStable | breach-protocol-camera/TaskTracker.swift:74-89 | Once a matrix is returned, every later call sequence without a reset returns the same matrix. |
| TrackerHistory.BestTargetsStable | breach-protocol-camera/TaskTracker.swift:98-103 | Once a target list is returned, every later call sequence without a reset returns the same list. |
| TrackerHistory.ResetFresh | breach-protocol-camera/TaskTracker.swift:105-112 | After any history, a reset gives a new tracker, and both getters answer nil. |
| Text.SplitJoin | breach-protocol-camera/TaskTracker.swift:94-101 | Splitting a join gives back the pieces when every piece is non-empty and free of the separator. |

## Left out

- Integer width. Swift's `Int` is 64 bits. Coordinates, counts and `matrixSize*matrixSize` (Solver.swift:154) are unbounded `int` here, so overflow traps are not modelled. In particular, `Hangs` stands for a loop that in Swift would end only with an overflow trap, after about 2^63 `+= 1` steps of `propogateLast`.
- `removeLast` in `buildChain`. The discarded `_ = removeLast(chain: chain)` at Solver.swift:162 is modelled as written: the chain does not shrink, so once the last node overflows, the loop at Solver.swift:161-166 spins. `ChainModifier.InnerLoopNeverExits` proves this on the literal loop, and `Enumeration.BuildChainHangs` says exactly which inputs reach it. `BuildChain` returns `Hangs` there instead of a shortened chain.
- Strings. Strings are sequences of `char`, not Swift grapheme clusters. `split`/`joined` therefore differ from Swift on inputs where clustering matters, e.g. `"\r\n"` is one `Character` in Swift but two `char`s here.
- `MatrixInfo.size` is a `nat`, not an `Int`. Its only caller logs a frame only when `size > 3` (ViewController.swift:291). `Array(repeating:count:)` in `bestMatrixCandidate` would trap on a negative size.
- The view controller (camera capture, Vision text recognition, drawing, `partitionAndSplit`), `makeTargets`, `correctAllKnownMisdetections`, and the floating-point geometry helpers in Utils.swift are not modelled. They are platform glue, not puzzle logic.
- `Solution.debugDescription`, the navigation-step descriptions, and `Node`'s description strings are not modelled. Their output depends on Swift's `Set` iteration order and string interpolation.
- Access to the tracker from several dispatch queues is not modelled: every call is a step on one immutable record.
- `Enumeration.BuildChainLeast` requires a non-empty initial chain; `solve` and `nextChain` only call `buildChain` with one.
- `SolverProperties.SolveTallNoTrap` assumes `bufferSize >= 2`. For `bufferSize <= 1` the outcome is given exactly by `OneToken.SolveOneToken`: `solve` traps unless the puzzle has one column whose top-left token matches every target (then that single chain is the answer) or an empty first row.
- `Solver.Solve`: traps on puzzles wider than they are tall are not characterised in general. Such a puzzle traps as soon as the enumeration reaches a chain that renders past the last row, unless the `break` or a hang comes first. `SolverProperties.SolveOneRowTraps` shows one such case. The app only solves the tracker's square size-by-size matrix, with a buffer of 8 (ViewController.swift:316).
- `Solver.Visit` and `Solver.Solve` state only their trap and termination behaviour in their own contracts. What they compute is stated by the lemmas about them in `SolverProperties` and `SolverCompleteness`.
- `ChainModifier.NextChain` states only shape in its own contract. Validity, order, and the successor property are the `Enumeration` lemmas.
