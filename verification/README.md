# Eight queens: search engines and board, in Dafny

A model of the core of pawbor/eight-queens. It covers:

- the generic backtracking engine, both the eager depth-first search and the resumable stepper that hands out one step per call;
- the generic A* engine;
- the N-Queens graph the A* engine is run on;
- the pure logic of the click-to-place board.

Each operation is a pure function over immutable datatypes. Lemmas relate it to an independent reference: the pre-order of the successor tree, walks of the graph, valid placements of queens, or the chess relation "shares a line".

| file | module | models |
|---|---|---|
| maybes.dfy | `Maybes` | `Maybe` (the `@pawbor/maybe` wrapper) and `Result` (a value or a thrown error) |
| seqs.dfy | `Seqs` | `Array.prototype.filter`, subsequences, distinctness |
| arithmetic.dfy | `Arithmetic` | quotient and remainder on exact positions |
| geometry.dfy | `Geometry` | two squares share a column, row, diagonal or anti-diagonal |
| backtracking.dfy, backtracking_theory.dfy | `Backtracking`, `BacktrackingTheory` | src/backtracking.ts |
| backtracking_as_written.dfy | `BacktrackingAsWritten` | the end-of-list test as written (see Findings) |
| a_star.dfy, a_star_theory.dfy | `AStar`, `AStarTheory` | src/a-star.ts |
| a_star_examples.dfy | `AStarExamples` | the three scenarios of src/a-star.test.ts |
| n_queens.dfy, n_queens_theory.dfy, n_queens_examples.dfy | `NQueens`, `NQueensTheory`, `NQueensExamples` | src/n-queens-problem.ts |
| board.dfy, board_theory.dfy | `Board`, `BoardTheory` | the pure functions of src/App.tsx |

Modelling choices:

- **Closures of the stepper.** They are the datatype `Continue`, a chain of frames. Each frame holds the successors still to try and the parent frame. Calling a closure is `Backtracking.Invoke`.
- **Termination of the eager search.** The model takes a ghost `rank` that decreases from every node to each of its successors. The program needs no such argument.
- **The A* `Map`.** It is a sequence of records in insertion order, keyed by `node`.
  - `Map.set` on an existing key keeps that key's position.
  - The stable `sort` of `findCheapest` therefore breaks f-score ties by first insertion.
  - The predecessor of a record is kept by value. That record is closed before it is captured, and a closed record is never rewritten, so the copy equals what the table holds under its key. `AStarTheory.SearchGood` carries this as part of its invariant.
- **Fuel.** The `while (true)` loop of `aStar` runs at most `fuel` passes. An `OutOfFuel` result stands for a loop still running. The theory shows that on a finite graph, fuel above the number of reachable nodes is enough.
- **Thrown errors.** They become `Failure` values.
  - A board size of 0 or less makes `generateAllCoordinates` call `reduce` without a seed on an empty array. That throws, and the model returns `Failure(EmptyBoard)`.
  - Calling the closure of a final step throws "solution already found", modelled as `Failure(SolutionAlreadyFound)`.
- **Square ids on the board.** They are values: the coordinates and the two diagonal indices. The program interns ids in a cache by the key `row/column`, so `===` on ids compares coordinates. Value equality is therefore faithful.
- **JavaScript's `%`.** It truncates toward zero. `Board.JsRemainder` writes that out for negative operands.

Behaviour the model follows exactly as the code has it:

- `computeNodeMeta` replaces an open record on every rediscovery, whatever the f-scores (src/a-star.ts:122-132). The test `persistedMeta.fScore > freshMeta.fScore` at src/a-star.ts:128 suggests that only a cheaper record was meant to replace an open one. When the fresh record is not cheaper, though, the mapping function returns `undefined`, and `getValue(freshMeta)` at src/a-star.ts:132 then supplies the fresh record anyway. The test "selects optimistic solution" (src/a-star.test.ts:38-55) expects `[1, 3, 2]`, which the overwrite produces; `AStarExamples.OptimisticPath` proves that run.
- The N-Queens edge cost is minus the free squares of the node the edge leaves (`from`), not of the node it enters (src/n-queens-problem.ts:27).
- The N-Queens adapter is wired to A* only. No incremental N-Queens solver exists in the source, so none is modelled.

## Model

| member | source | states |
|---|---|---|
| Seqs.Filter | src/a-star.ts:96 | a filter is never longer than its input |
| Seqs.FilterFacts | src/App.tsx:115 | a filter keeps exactly the elements that pass, in their order (a subsequence of the input) |
| Seqs.FilterFilter | src/n-queens-problem.ts:87-95 | two successive filters are one filter by the conjunction of the tests |
| Seqs.FilterAppend | src/App.tsx:104-115 | filtering a list with one more element at the end filters the list, then keeps or drops that element |
| Seqs.DistinctCardinality | src/a-star.test.ts:32-35 | a duplicate-free list has as many elements as its set |
| Backtracking.ResolveWithBacktracking | src/backtracking.ts:6-27 | a solution root is returned as is; any result returned satisfies `checkIfSolution` |
| Backtracking.TrySuccessors | src/backtracking.ts:16-26 | the loop over the successors returns only solutions |
| Backtracking.CreateFinalSolution | src/backtracking.ts:77-87 | a final step carries the given candidate and the throwing closure |
| Backtracking.ResolvePartiallyWithBacktracking | src/backtracking.ts:37-57 | the step's candidate is the current node, and it is final exactly when the node is a solution; with a well-formed predecessor chain the step is well formed |
| Backtracking.FirstStep | src/backtracking.ts:37-42 | the first step, called without a predecessor, has the root as candidate and is final exactly when the root is a solution |
| Backtracking.Invoke | src/backtracking.ts:69-74 | calling a chain's closure always yields a well-formed step; calling the closure of a final step fails with "solution already found" |
| Backtracking.TryToResolveWithNextSuccessor | src/backtracking.ts:59-75 | moving to the next successor, or falling back on the predecessor, never fails on a chain of frames |
| Backtracking.Advance | src/backtracking.ts:29-35 | advancing a well-formed step fails exactly when the step is final, and otherwise yields a well-formed step |
| BacktrackingTheory.FirstIsLeftmost | src/backtracking.ts:16-26 | the reference "first solution" is a member, a solution, and preceded by none; it is absent exactly when no element is a solution |
| BacktrackingTheory.ResolveIsFirstInPreOrder | src/backtracking.ts:6-27 | the eager search returns the first solution of the successor tree's pre-order |
| BacktrackingTheory.TrySuccessorsIsFirstInPreOrder | src/backtracking.ts:15-26 | successors are tried strictly left to right, each subtree exhausted before the next |
| BacktrackingTheory.ResolveFindsReachableSolution | src/backtracking.ts:11-24 | a defined result is a solution reached from the root by a chain of successors |
| BacktrackingTheory.ResolveNothingMeansNoSolution | src/backtracking.ts:16-20 | `undefined` means that no node reachable from the root is a solution |
| BacktrackingTheory.ChainEndInPreOrder | src/backtracking.ts:15-22 | every node reachable by successors is visited by the pre-order |
| BacktrackingTheory.NextSuccessorEntersNextPending | src/backtracking.ts:59-75 | one closure call enters exactly the next node still pending, across frames; with nothing pending it ends in a final step without a candidate |
| BacktrackingTheory.AdvanceEntersNextPending | src/backtracking.ts:50-55 | advancing a non-final step enters the next pending node, final exactly when that node is a solution |
| BacktrackingTheory.Drain | src/backtracking.ts:37-75 | advancing until a step is final stops; it ends at the first pending solution, and needs one advance per node entered |
| BacktrackingTheory.StepperAgreesWithEagerSearch | src/backtracking.ts:6-75 | stepping from the root ends with what `resolveWithBacktracking` returns; the candidates are the nodes it tests, in order; the advances number one per node expanded |
| BacktrackingTheory.AdvancingFinalStepFails | src/backtracking.ts:77-86 | advancing any final step fails, the exhausted one included |
| BacktrackingAsWritten.ResolveAsWritten | src/backtracking.ts:16-20 | the search with the truthiness test as written returns only solutions |
| BacktrackingAsWritten.AsWrittenAgreesOnTruthyNodes | src/backtracking.ts:17-18 | when no node is falsy, the search as written equals the modelled one |
| BacktrackingAsWritten.FalsyNodeEndsSearch | src/backtracking.ts:17-20 | with numeric nodes, a successor 0 ends the search before the solution 2 after it |
| AStar.IndexOfFirst | src/a-star.ts:122 | `Map.get` finds the first record under a key, and none exactly when no record has that key |
| AStar.SetInPlace | src/a-star.ts:98 | `Map.set` replaces the record under the key in place, or appends a new key |
| AStar.FindCheapestIsCheapest | src/a-star.ts:52-61 | the pick is open, of least f-score, and the earliest such; there is none exactly when every record is closed |
| AStar.FindCheapestUnique | src/a-star.ts:55-60 | an open record of least f-score with no open record of equal f-score before it is the one picked |
| AStar.FindPath | src/a-star.ts:63-77 | the path is the chain of predecessors from the start to the record, followed by the path so far |
| AStar.ComputeNodeMeta | src/a-star.ts:102-133 | a closed record is returned unchanged; otherwise the record is the fresh one with g-score prev.g + edge, f-score g + estimate and the just-closed predecessor |
| AStar.IterateExhausted | src/a-star.ts:36-39 | a pass stops with `[]` exactly when every record is closed |
| AStarTheory.SetAllFacts | src/a-star.ts:97-99 | setting the records one after the other keeps the keys distinct and in place |
| AStarTheory.AddNeighborsFacts | src/a-star.ts:79-100 | expanding a node touches no closed record; makes every neighbour a key; writes only fresh records of neighbours |
| AStarTheory.LineageIsWalk | src/a-star.ts:63-77 | the path rebuilt from a record walks the graph from the start and costs the record's g-score |
| AStarTheory.ExpandClosed | src/a-star.ts:86-99 | an expansion closes no record |
| AStarTheory.IterateFacts | src/a-star.ts:35-49 | each pass closes exactly one open record, tests its node, and returns a walk to it or keeps the invariant |
| AStarTheory.SearchCount | src/a-star.ts:35-49 | each pass of the loop tests one node |
| AStarTheory.SearchGood | src/a-star.ts:35-49 | the invariant of the records and the test log holds wherever the loop stops |
| AStarTheory.GoalAtStart | src/a-star.ts:27-46 | a start node that passes the goal test is returned alone; it is the only node tested, and no neighbour is looked up |
| AStarTheory.ResultIsWalkToGoal | src/a-star.ts:43-45 | a non-empty result is a walk from the start to a node that passes the goal test; every earlier test failed; the walk costs the goal's g-score |
| AStarTheory.GoalTestedOncePerNode | src/a-star.ts:41-43 | the goal test runs at most once per node, and exactly on the nodes whose records are closed |
| AStarTheory.ExhaustedMeansNoReachableGoal | src/a-star.ts:36-39 | after `[]`, every node reachable from the start was tested and failed |
| AStarTheory.FiniteGraphTerminates | src/a-star.ts:35-49 | on a finite graph, fuel above its node count is enough for the loop to return |
| AStarTheory.NoGoalTestsEveryReachableNodeOnce | src/a-star.test.ts:18-36 | with a goal test that always fails on a finite graph, the result is `[]` after every reachable node was tested exactly once |
| AStarExamples.StartIsGoal | src/a-star.test.ts:4-16 | when every node is a goal, the search from 0 returns `[0]` |
| AStarExamples.EachNodeTestedOnce | src/a-star.test.ts:18-36 | on the complete graph over 0..3 with no goal, the result is `[]`; each of the four nodes was tested once |
| AStarExamples.FirstPass | src/a-star.test.ts:38-55 | the first pass closes 1 and opens 0 and 3 |
| AStarExamples.ThirdPass | src/a-star.ts:122-132 | rediscovering 2 from 3 at the same f-score replaces its open record |
| AStarExamples.FourPasses | src/a-star.ts:35-49 | three expanding passes and one goal pass make a run that tests four nodes and returns the last pass's path |
| AStarExamples.OptimisticPath | src/a-star.test.ts:38-55 | on the integer line from 1 to 2, the search tests 1, 0, 3, 2 and returns `[1, 3, 2]` |
| NQueens.ConcatAll | src/n-queens-problem.ts:54 | joining rows with `reduce` and no seed fails exactly on an empty list of rows |
| NQueens.FilterAvailableSquares | src/n-queens-problem.ts:83-96 | the filtered squares are never more than the input |
| NQueensTheory.RowsPrefix | src/n-queens-problem.ts:48-55 | the first m rows joined are the first m·n squares in row-major order |
| NQueensTheory.GenerateAllCoordinatesRowMajor | src/n-queens-problem.ts:48-55 | a size of 0 or less throws; otherwise every square is listed in row-major order |
| NQueensTheory.RowMajorCovers | src/n-queens-problem.ts:49-53 | the row-major list holds exactly the squares of the board |
| NQueensTheory.FilterAvailableSquaresUnattacked | src/n-queens-problem.ts:83-96 | the filters keep, in order, exactly the squares the new queen does not attack |
| NQueensTheory.EmptyNode | src/n-queens-problem.ts:38-46 | the first node has no queens and every one of the n² squares free; a size of 0 or less throws |
| NQueensTheory.CreateGraphNodeIsNode | src/n-queens-problem.ts:66-81 | placing a queen on a placement's node gives the node of the longer placement, counts included |
| NQueensTheory.NextRowOfNode | src/n-queens-problem.ts:58-60 | the next row is the one after the last queen's, 0 with no queen |
| NQueensTheory.ExtendValid | src/n-queens-problem.ts:57-64 | one more queen keeps a placement valid exactly when it goes on an unattacked square of the next row |
| NQueensTheory.NeighborIsExtension | src/n-queens-problem.ts:57-64 | every neighbour of a placement's node is the node of a valid placement extending it by one queen |
| NQueensTheory.ExtensionIsNeighbor | src/n-queens-problem.ts:57-64 | every valid one-queen extension is among the neighbours |
| NQueensTheory.ChildrenExtend | src/n-queens-problem.ts:61-63 | each child places one queen on an available square of the next row |
| NQueensTheory.ChildrenInOrder | src/n-queens-problem.ts:61-63 | children come in the order of the available squares |
| NQueensTheory.EveryFreeSquareHasChild | src/n-queens-problem.ts:61-63 | every available square of the next row gives a child |
| NQueensTheory.ChildHasFewerSquares | src/n-queens-problem.ts:70-78 | a placement leaves strictly fewer available squares, and the cached count is their number |
| NQueensTheory.WalkFromEmpty | src/n-queens-problem.ts:38-96 | every node reached from the first node is the node of a valid placement with one queen per step |
| NQueensTheory.PrefixNodesWalk | src/n-queens-problem.ts:57-81 | every valid placement is reached from the first node through the nodes of its prefixes |
| NQueensTheory.SolutionIsValid | src/n-queens-problem.ts:19-36 | a returned placement has n queens, one per row, on the board, none attacking another |
| NQueensTheory.NoSolutionMeansNone | src/n-queens-problem.ts:33-35 | when no placement is returned, no valid placement of n queens exists |
| NQueensTheory.SolutionExactlyWhenOneExists | src/n-queens-problem.ts:19-36 | once the search returns, it returns a placement exactly when a valid placement of n queens exists |
| NQueensTheory.PlacementNodesClosed | src/n-queens-problem.ts:57-64 | the placement nodes, a finite set, hold the first node and every neighbour of each of their nodes |
| NQueensTheory.SearchTerminates | src/n-queens-problem.ts:23-31 | for n > 0, fuel above the number of placement nodes is enough for the search to return |
| NQueensExamples.OneQueen | src/n-queens-problem.ts:19-36 | on a one-square board, the queen is placed on (0, 0) |
| NQueensExamples.NoTwoQueens | src/n-queens-problem.ts:26 | no two queens fit on a 2 by 2 board |
| NQueensExamples.NoThreeQueens | src/n-queens-problem.ts:26 | no three queens fit on a 3 by 3 board |
| NQueensExamples.NoSolutionForTwoOrThree | src/n-queens-problem.ts:33-35 | for sizes 2 and 3 the search returns no placement |
| Board.CreateEmptyBoardState | src/App.tsx:79-83 | the board starts with no queens |
| Board.JsRemainder | src/App.tsx:179 | JavaScript's `a % b`: `a` minus the result is a multiple of `b`, the result lies strictly between `-b` and `b`, and it is not of the opposite sign to `a` |
| BoardTheory.JsRemainderUnique | src/App.tsx:179 | those three facts leave exactly one value, so the contract of `JsRemainder` determines JavaScript's remainder |
| Board.ComputeBlockedDiagonals | src/App.tsx:232-236 | two blocked indices per queen |
| BoardTheory.JsRemainderTwo | src/App.tsx:179 | `a % 2` is non-zero exactly for odd `a`, negative ones included |
| BoardTheory.ColorIsParity | src/App.tsx:178-182 | a square is black exactly when row + column is odd |
| BoardTheory.NeighboursDifferInColor | src/App.tsx:178-182 | squares next to each other in a row or a column differ in colour |
| BoardTheory.SquareIdsIdentifySquares | src/App.tsx:159-176 | two ids are equal exactly when their coordinates are; an id is on the board exactly when its coordinates are |
| BoardTheory.BlockedDiagonalsAre | src/App.tsx:232-236 | the blocked indices are the two diagonal indices of each queen |
| BoardTheory.DiagonalRangesApart | src/App.tsx:166-176 | on the board a diagonal index never equals an anti-diagonal index; equal indices mean a shared diagonal |
| BoardTheory.BlockedIffAttacked | src/App.tsx:198-236 | a square of the board is blocked exactly when some queen shares its column, row or a diagonal |
| BoardTheory.PooledIndicesClashOffBoard | src/App.tsx:226-230 | off the board, the pooled indices block a square no queen attacks |
| BoardTheory.ContentMeaning | src/App.tsx:184-196 | a square shows a queen when one stands on it, blocked when free but attacked, empty when not attacked |
| BoardTheory.FilterKeepsPeace | src/App.tsx:110-119 | removing queens keeps non-attacking queens non-attacking |
| BoardTheory.RemoveQueenKeepsOthers | src/App.tsx:110-119 | every queen equal to the clicked square is removed; the others stay, in order |
| BoardTheory.ClickKeepsPeace | src/App.tsx:85-119 | a click on any square keeps the queens non-attacking and on the board |
| BoardTheory.ClickTwiceRestores | src/App.tsx:85-119 | clicking an empty square places a queen there, and clicking it again gives back the board as it was |
| BoardTheory.BoardDescriptorShape | src/App.tsx:121-141 | `boardSize` rows (none for a negative size) of `boardSize` squares; square j of row i has id (i, j) |
| BoardTheory.BoardShows | src/App.tsx:143-157 | square (i, j) of the drawn board has the colour of the parity of i + j and the content `ContentMeaning` describes |
| BoardTheory.StartsEmpty | src/App.tsx:79-83 | every square of the starting board is empty |

## Left out

- React rendering is left out: the `App` class, `render`, `handleSquareClick` and the components of src/Board/index.tsx. They do layout only.
- The `squareIds` cache and the string key of a square id are left out. Ids are values compared by coordinates, which is what interning gives `===`.
- `@pawbor/maybe` is not part of this model. It is `Maybes.Maybe`, where a mapping that gives `undefined` yields `Nothing`.
- Floating-point numbers are left out. Every score and count in the core is an integer, so the model uses `int`.
- `AStar.AStarSearch`: the loop is bounded by `fuel`, which stands for the program's unbounded `while (true)`. `AStarTheory.FiniteGraphTerminates` and `NQueensTheory.SearchTerminates` give fuel that suffices. An infinite graph with no reachable goal does not return in the program, and the model reports `OutOfFuel` there.
- `Backtracking.ResolveWithBacktracking`: the model needs a rank that decreases on every successor edge of the whole node type, not only on the tree below the root. It therefore excludes any problem with a cycle among nodes, even among nodes the root never reaches, and any infinite descending chain of successors. On an infinite tree the program may not return.
- `Backtracking.TryToResolveWithNextSuccessor`: the test for the end of the list is "no successor left". The program tests the successor for truthiness, at src/backtracking.ts:18 and src/backtracking.ts:65. The two agree for object nodes, which are never falsy (see Findings).
- `NQueens.FindNQueensProblemSolution`: a non-integer board size (`Array.from` truncates it) is not modelled; the size is an `int`.
- `shift` mutating the successor arrays is left out: the model passes successor lists by value. This is faithful only under two assumptions about the caller.
  - `findSortedSuccessors` returns a fresh array on each call. The program takes the array it gets at src/backtracking.ts:15 and src/backtracking.ts:49 and empties it with `shift` (src/backtracking.ts:17 and src/backtracking.ts:64), so a problem that hands out a shared array would see it drained.
  - Each step's `continue` is called at most once. In the program a second call on the same step sees the array already shifted and moves on: from a root 1 with successors [3, 4] and no solution, the first call gives the step for 3 and the second call gives the step for 4. In the model `Backtracking.Invoke` is a function, so the second call gives the step for 3 again.
- `Map` reference identity is left out: A* records are keyed by their `node` value. For number nodes, as in src/a-star.test.ts, `Map` compares keys by value too. The N-Queens nodes are objects built afresh by each expansion; a node's `solution` ends with the one queen added to its parent, and the parent is expanded once, so no two node objects are equal as values and keying by value merges nothing. A problem whose `findNeighbors` returns equal but distinct objects would get separate records in the program and one record in the model.
- `createBoardDescriptor` called with a size above 8 is not covered by the semantic lemmas. They assume the 8 by 8 board the application draws: ids use the constant 8 as the anti-diagonal offset. `BoardTheory.PooledIndicesClashOffBoard` shows what goes wrong off that board.

## Findings

| source | as written | input that shows it | evidently intended | confidence | as-written member | corrected member |
|---|---|---|---|---|---|---|
| src/backtracking.ts:17-20 | the loop stops when `successors.shift()` returns a falsy value | numeric nodes: 1 has successors [0, 2], and 2 is the solution; the search from 1 gives up at 0 and returns `undefined` | stop only when the successor list is empty | low: not executed; no node type in the repository is ever falsy | BacktrackingAsWritten.FalsyNodeEndsSearch | BacktrackingTheory.ResolveNothingMeansNoSolution |
