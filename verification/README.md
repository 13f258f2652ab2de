# Slider puzzle: board and A* solver

This project models, in Dafny, the core of a solver for the N-by-N sliding-tile
puzzle (the generalised 8-puzzle). It covers two source files.

- `Board` (module `Boards`, `board.dfy`) is an immutable N-by-N grid. Its cells hold
  0..N²−1, and 0 is the blank. A board is a `seq<seq<int>>` value. `ValidBoard`
  holds when the grid is square and its cells are a permutation of 0..N²−1. Each
  operation of the class is a method with the source's loops and the source's
  counters. Each is proved against a specification function (`HammingDistance`,
  `ManhattanDistance`, `IsGoalBoard`, `TwinOf`, `NeighborsOf`, …). Lemmas then prove
  what the source promises about those functions. `twin()`, `swap()` and
  `copySquareArray()` work on a fresh `array2<int>` copy, as the source does.
- `Solver` (module `Solvers`, `solver.dfy`) holds the `SearchNode` record and the
  priority order `compareTo`. Its constructor runs two A* searches in lock step: one
  from the initial board and one from its twin. Each round removes a
  minimum-priority node from both frontiers. The main frontier is checked for a goal
  first, then the twin frontier. Each removed node is then expanded, and a neighbour
  equal to its predecessor's board is skipped. `isSolvable()`, `moves()` and
  `solution()` read the result. The priority queue is a class whose state is the
  multiset of nodes it holds. Its `DelMin` removes some node of minimum priority,
  and ties are not specified.

The loop invariant of the search (`Frontier`) has three parts:

- every node in either frontier lies on a chain of moves (`ChainFrom`) from that
  frontier's seed board;
- every removed node does too (`Explored`);
- before the first round each frontier holds exactly its root node.

Beside it the search keeps a ghost history of each queue (`Removals`): the queue
before every round, the node that round removed, and the queue the round left.
The first queue holds only the seed's root node. Each removed node is a minimum of
the queue it came from (`IsMinimum`). The next queue is the previous one minus that
node plus its children (`Expands`). The `Solver` object keeps both histories with
its outcome (`SearchRecord`).

From these the queries get their guarantees: the returned path starts at the
initial board, ends at a goal, and each board in it is a neighbour of the one
before it.

## Model

| member | source | states |
|---|---|---|
| Boards.Dimension | src/8puzzle/Board.java:14-16 | on a square grid every row has as many cells as the dimension |
| Boards.Hamming | src/8puzzle/Board.java:19-32 | the loop returns the number of cells whose value differs from row·N+col+1, minus one; on a valid board of positive dimension this equals the number of non-blank tiles out of place |
| Boards.HammingCountsTilesAway | src/8puzzle/Board.java:19-32 | on a valid board of positive dimension the mismatch count is one more than the number of misplaced tiles: the blank's cell always mismatches, since no cell expects 0, and a tile mismatches exactly when it is out of place |
| Boards.GoalIffTilesHome | src/8puzzle/Board.java:19-32 | a valid board has every non-blank tile in its goal cell exactly when it is the goal board |
| Boards.HammingZeroIffGoal | src/8puzzle/Board.java:19-32 | the Hamming distance is 0 exactly on the goal board |
| Boards.HammingBounds | src/8puzzle/Board.java:19-32 | what hamming() returns is never negative on a valid board of positive dimension, and is 0 exactly on the goal board |
| Boards.Manhattan | src/8puzzle/Board.java:35-52 | the loop returns the sum of the tiles' Manhattan distances, using Java's truncating division; the sum is non-negative, and on a valid board it is 0 exactly on the goal board |
| Boards.JavaDiv | src/8puzzle/Board.java:44 | Java's `/` by a positive divisor agrees with Euclidean division on non-negative operands; in general the quotient's magnitude is the number of whole divisors in the dividend's magnitude, and its sign is the dividend's (truncation toward zero) |
| Boards.JavaRem | src/8puzzle/Board.java:45 | Java's `%` satisfies a == (a/n)·n + a%n, agrees with Euclidean remainder on non-negative operands, and is in (−n, 0] for negative ones |
| Boards.TileDistanceZero | src/8puzzle/Board.java:40-48 | a cell contributes nothing exactly when it is the blank or holds the tile that belongs there |
| Boards.ManhattanZeroIffGoal | src/8puzzle/Board.java:35-52 | the Manhattan distance of a valid board is 0 exactly on the goal board |
| Boards.IsGoal | src/8puzzle/Board.java:55-67 | the loop returns true exactly when every cell except the bottom-right one holds row·N+col+1, and on a valid board exactly when the board is the goal |
| Boards.InOrderIffGoal | src/8puzzle/Board.java:55-67 | on a valid board, having every cell but the last in order is the same as being the goal board |
| Boards.LastCellIsBlank | src/8puzzle/Board.java:59-60 | on a valid board that passes the isGoal() test, the bottom-right cell is forced to hold the blank |
| Boards.GoalIsValid | src/8puzzle/Board.java:55-67 | the goal board of every dimension is a valid board |
| Boards.SmallBoardsAreGoals | src/8puzzle/Board.java:55-67 | a valid board of dimension 0 or 1 is the goal board |
| Boards.CopySquareArray | src/8puzzle/Board.java:93-101 | the copy is a fresh N-by-N array holding exactly the board's cells |
| Boards.Twin | src/8puzzle/Board.java:70-90 | twin() returns the board with the first row-major horizontally adjacent pair of non-blank tiles exchanged, or an unchanged copy when no such pair exists |
| Boards.ExchangeInCopy | src/8puzzle/Board.java:78-85 | the two writes into the copy leave it equal to the board with cells (row, col) and (row, col+1) exchanged |
| Boards.FirstPairIs | src/8puzzle/Board.java:75-87 | a swappable pair with no swappable pair before it is the one the labelled loop stops at |
| Boards.FirstPairExists | src/8puzzle/Board.java:75-87 | on a valid board of dimension at least 2 a swappable pair always exists |
| Boards.TwinChangesFirstPair | src/8puzzle/Board.java:75-87 | for dimension at least 2 the twin is valid and differs from the board; it holds the pair's two values exchanged, and every other cell is unchanged |
| Boards.ExchangedValid | src/8puzzle/Board.java:82-83 | exchanging two cells of a valid board gives a valid board |
| Boards.TwinValid | src/8puzzle/Board.java:70-90 | the twin of a valid board is valid |
| Boards.TwinTwice | src/8puzzle/Board.java:75-87 | taking the twin twice gives back the original board |
| Boards.EqualsAsWritten | src/8puzzle/Board.java:104-118 | equals() as written: null gives false, a board gives true exactly when it has the same cells, and an object of another class throws ClassCastException |
| Boards.EqualsAsWrittenThrows | src/8puzzle/Board.java:107-108 | for an object that is not a board the class test has no effect, and the cast throws instead of returning false |
| Boards.Equals | src/8puzzle/Board.java:104-118 | equals() with the class test taking effect: true exactly when the argument is a board with the same cells; on boards it agrees with the code as written |
| Boards.FirstZeroIs | src/8puzzle/Board.java:124-133 | a blank cell with no blank before it in row-major order is where the labelled search stops |
| Boards.BlankIs | src/8puzzle/Board.java:124-133 | on a valid board the search stops at the board's unique blank |
| Boards.BlankExists | src/8puzzle/Board.java:124-133 | a valid board of positive dimension has a blank for the search to find |
| Boards.Targets | src/8puzzle/Board.java:134-153 | the cells tried are exactly the in-grid cells orthogonally adjacent to the blank, each once |
| Boards.Neighbors | src/8puzzle/Board.java:121-155 | neighbors() returns the boards for the moves up, left, down and right that stay in the grid, in that order; a board of dimension 0 has none |
| Boards.EnqueueMoves | src/8puzzle/Board.java:134-154 | the four guarded enqueues produce exactly the neighbour sequence of the board |
| Boards.Enqueue | src/8puzzle/Board.java:136-137 | each enqueue appends the board with the blank moved to the next target |
| Boards.Swap | src/8puzzle/Board.java:157-163 | swap() returns the board whose old blank cell holds the tile from the new cell, whose new cell holds 0, and whose other cells are unchanged |
| Boards.BlankMovedIsExchange | src/8puzzle/Board.java:157-163 | moving the blank is the same as exchanging the two cells |
| Boards.BlankMovedProperties | src/8puzzle/Board.java:157-163 | moving the blank of a valid board to an adjacent cell gives a valid, different board whose blank is at that cell; moving it back restores the board |
| Boards.NeighborsAreMoves | src/8puzzle/Board.java:121-163 | a board is among the neighbours exactly when it is the board with the blank moved to an orthogonally adjacent in-grid cell |
| Boards.NeighborIsMove | src/8puzzle/Board.java:121-163 | every entry of the neighbour sequence is such a move |
| Boards.MoveIsNeighbor | src/8puzzle/Board.java:121-163 | every such move appears in the neighbour sequence |
| Boards.NeighborsValid | src/8puzzle/Board.java:121-163 | every neighbour of a valid board is valid and differs from it |
| Boards.NeighborsSymmetric | src/8puzzle/Board.java:134-163 | a board is among the neighbours of each of its neighbours |
| Boards.NeighborCount | src/8puzzle/Board.java:134-153 | a valid board of dimension at least 2 has between 2 and 4 neighbours |
| Boards.NeighborsDistinct | src/8puzzle/Board.java:134-153 | the neighbours are pairwise distinct |
| Solvers.NewSearchNode | src/8puzzle/Solver.java:10-19 | a new node has 0 moves exactly when it has no predecessor, and otherwise one more move than its predecessor; its priority is manhattan() plus moves, so it is at least moves, with equality exactly on the goal board |
| Solvers.CompareTo | src/8puzzle/Solver.java:21-23 | compareTo() is negative, zero or positive exactly as this priority is below, equal to or above that priority |
| Solvers.CompareToOrder | src/8puzzle/Solver.java:21-23 | compareTo() is antisymmetric and transitive |
| Solvers.PriorityBounds | src/8puzzle/Solver.java:10-19 | on a chain a node's priority is at least its moves, with equality exactly at a goal board |
| Solvers.MinPQ.constructor | src/8puzzle/Solver.java:28-29 | a new priority queue is empty |
| Solvers.MinPQ.Insert | src/8puzzle/Solver.java:30-31 | insert() adds one occurrence of the node |
| Solvers.MinPQ.DelMin | src/8puzzle/Solver.java:33-34 | delMin() removes and returns one node of the queue that compares at or below every node in it |
| Solvers.MinimumExists | src/8puzzle/Solver.java:33-34 | a non-empty queue has a minimum-priority node, so delMin() can always answer |
| Solvers.Start | src/8puzzle/Solver.java:28-31 | the main frontier starts with exactly the root node of the initial board, and the twin frontier with exactly the root node of its twin |
| Solvers.Round | src/8puzzle/Solver.java:33-54 | one round removes a minimum of each frontier as it stood before the round; it reports a goal on the main node first and tests the twin node only otherwise; when neither is a goal, each queue becomes its old contents minus the removed node plus that node's children, and the frontier invariant holds again; when one is a goal, each queue just loses its removed node |
| Solvers.Expand | src/8puzzle/Solver.java:43-48 | one for loop over neighbors() adds exactly the children of the node to the queue |
| Solvers.InsertChildren | src/8puzzle/Solver.java:43-48 | after the loop the queue holds its old nodes plus the node's children |
| Solvers.InsertChild | src/8puzzle/Solver.java:45-46 | one iteration inserts a new node for the neighbour unless the neighbour equals the predecessor's board |
| Solvers.ChildrenUpToMembers | src/8puzzle/Solver.java:43-48 | a node is among the children built from the first k neighbours exactly when it is the new node for one of them that the critical optimization keeps |
| Solvers.ChildrenOfMembers | src/8puzzle/Solver.java:43-48 | the children are exactly the new nodes for the kept neighbours, each pointing back at the expanded node |
| Solvers.ChildrenChain | src/8puzzle/Solver.java:43-48 | every child of a node on a chain from a seed lies on a chain from that seed, and its board is never the predecessor's board |
| Solvers.ChildrenNonEmpty | src/8puzzle/Solver.java:43-48 | a valid node that is not a goal has at least one child, so its frontier does not become empty |
| Solvers.ExpandChain | src/8puzzle/Solver.java:43-54 | expanding a node on a chain adds exactly that node's children to the queue, keeps every queued node on a chain from the seed and leaves the queue non-empty |
| Solvers.ExploredFirst | src/8puzzle/Solver.java:30-34 | the first node removed from a frontier is the root node of its seed |
| Solvers.ExploredSnoc | src/8puzzle/Solver.java:33-34 | removing another node that lies on a chain from the seed extends the record of removed nodes |
| Solvers.NoGoalSnoc | src/8puzzle/Solver.java:35-42 | a round that finds no goal extends the goal-free record |
| Solvers.RemovalsStart | src/8puzzle/Solver.java:28-34 | a queue history starts with the seed's root node alone, and holds one queue per round plus possibly the one left over |
| Solvers.RemovalsMinima | src/8puzzle/Solver.java:33-34 | in a queue history every removed node is a minimum of the queue it was removed from |
| Solvers.RemovalsSteps | src/8puzzle/Solver.java:33-54 | in a queue history each queue is the previous one minus that round's removed node plus its children |
| Solvers.RemovalsStop | src/8puzzle/Solver.java:33-42 | a round that removes a minimum and then stops closes the history with that node |
| Solvers.RemovalsExpand | src/8puzzle/Solver.java:33-54 | a round that removes a minimum and expands it extends the history by the queue it leaves |
| Solvers.StoppedHistory | src/8puzzle/Solver.java:33-42 | the deciding round closes both queue histories with the nodes it removed |
| Solvers.DecidedOutcome | src/8puzzle/Solver.java:33-42 | a goal on the main or the twin node ends the search, with the main node as result exactly when it is a goal, and both queue histories closed |
| Solvers.MainGoalOutcome | src/8puzzle/Solver.java:35-38 | a goal on the main node ends the search with that node as result, even when the twin node is a goal too |
| Solvers.TwinGoalOutcome | src/8puzzle/Solver.java:39-42 | a goal on the twin node alone ends the search with no result |
| Solvers.ExhaustedOutcome | src/8puzzle/Solver.java:32-55 | when the round bound is used up, no removed node held a goal, and both histories end with the queues left over |
| Solvers.Search | src/8puzzle/Solver.java:27-56 | the search loop ends in one of three ways: the last main node is a goal and the result; the last twin node alone is a goal and there is no result; or the bound ran out with no goal seen. A result, when there is one, lies on a chain of moves from the initial board and holds a goal. Both queues start with their seed's root node, and in every round each removed node is a minimum of its queue, whose next state is that queue minus the node plus its children |
| Solvers.Solver.constructor | src/8puzzle/Solver.java:27-56 | the constructor runs the search and records its outcome together with the history of both queues: what each round removed, that it was a minimum, and what the expansion left |
| Solvers.Solver.IsSolvable | src/8puzzle/Solver.java:59-61 | isSolvable() is true exactly when there is a result; then the initial board has a solution, and otherwise its twin has one |
| Solvers.Solver.Moves | src/8puzzle/Solver.java:64-69 | moves() is −1 exactly when there is no result, and otherwise it is the length of a solution of the initial board |
| Solvers.Solver.Solution | src/8puzzle/Solver.java:72-83 | solution() is absent exactly when there is no result; otherwise it holds moves()+1 boards, which start at the initial board, end at a goal, and step from neighbour to neighbour |
| Solvers.PushPath | src/8puzzle/Solver.java:76-82 | following the predecessor links and pushing each board gives the chain's boards from its first node to the result |
| Solvers.PathProperties | src/8puzzle/Solver.java:72-83 | the path of a chain from a seed has moves+1 valid boards, starts at the seed and ends at the node's board |
| Solvers.PathMoves | src/8puzzle/Solver.java:43-46 | along a chain's path each board is a neighbour of the one before it |
| Solvers.ChainToGoalIsSolution | src/8puzzle/Solver.java:72-83 | a chain from a seed that ends at a goal gives a solution of the seed with moves+1 boards |

## Left out

- `Board.toString` and `Solver.main`: text formatting, file input and console output.
- The internals of the library classes `MinPQ`, `Queue` and `Stack`. The priority
  queue is a multiset with a specified `delMin`. A queue or stack is a `seq`, so
  neighbours come out in enqueue order, and a stack is read from the last push.
- The board constructor keeps the caller's array without copying it. A board is an
  immutable value here, so aliasing through that array is not modelled.
- The identity shortcut `y == this` in `equals()`. It gives the same answer as the
  cell-wise comparison, and object identity has no counterpart on values.
- Solvers.Search: the source loops with `while (true)`, and whether it ends is not
  proved. The model runs at most `fuel` rounds and records whether it decided
  (`finished`).
- Solvers.Solver.IsSolvable: requires `finished`, which always holds in the
  unbounded source. The same holds for Solvers.Solver.Moves and
  Solvers.Solver.Solution.
- That the solution found is a shortest one, and that exactly one of a board and its
  twin is solvable. Both rest on A* optimality and on permutation parity, which are
  not part of the code.
- Boards.Manhattan: 32-bit overflow of the sum is not modelled. The same holds for
  the priority in Solvers.NewSearchNode, for the subtraction in Solvers.CompareTo,
  and for the counters of Boards.Hamming and Boards.IsGoal. All use unbounded
  integers.
- Boards.Neighbors: requires a blank on a board of positive dimension. Without one
  the source reads past the end of the array and throws, and that exception is not
  modelled.
- Every Board operation (Boards.Hamming, Boards.Manhattan, Boards.IsGoal,
  Boards.Twin, Boards.Equals, Boards.Neighbors, Boards.Swap,
  Boards.CopySquareArray) and Solvers.NewSearchNode require a square grid, the
  shape every board of the program has. A ragged array is not modelled.

## Findings

| source | as written | input that shows it | evidently intended | confidence | as-written member | corrected member |
|---|---|---|---|---|---|---|
| src/8puzzle/Board.java:107 | the class test ends in `;`, so it has no effect and the cast on line 108 always runs | `board.equals(y)` with `y` a non-null object that is not a Board throws ClassCastException | return false when `y` is not a Board | not executed | Boards.EqualsAsWrittenThrows | Boards.Equals |
