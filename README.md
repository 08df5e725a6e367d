# Sliding-tile puzzle engine: board and depth-first solvers, in Dafny

This project models the engine of the SlidingNumberPuzzle game, an N x N
sliding-tile puzzle (8-puzzle, 15-puzzle, ...). It covers four parts.

- **Board** (`Board.dfy`, with the value-level meaning in `BoardCells.dfy`).
  A board is an N x N grid stored row-major in an `int` array, with
  `Empty = -1` for the blank cell. The model covers the all-empty and copy
  constructors, `Clone`, `Set`/`Get`, the `IsSolved` scan, the in-place
  `Swap` and `Play(row, col)`. `Play` checks the four neighbours one after
  another without `else`, so the last neighbour holding Empty wins; it
  returns a swapped clone, or null.
- **TreeSolver** (`TreeSolver.dfy`, over the shared tree in `SearchTree.dfy`).
  A recursive depth-first search that grows a heap tree of `Vertex` and
  `Edge` objects. At each visit it checks, in order:
  1. the cancel flag;
  2. the solution quota;
  3. whether the board is solved;
  4. the depth bound.

  At a solved vertex it counts the solution. When no path is recorded yet,
  or this vertex is strictly shallower than the recorded path is long, it
  rebuilds the path by walking parent links and reversing, and keeps it. When it expands a vertex, it
  drops every move that already labels one of the parent's outgoing edges.
- **Solver** (`Solver.dfy`). The older first-solution variant: the same
  search with no quota; once a solution is recorded, every later visit
  returns at once.
- **StrategicSolver** (`StrategicSolver.dfy`).
  - `IndexOfTileToActOn`: a scan for the first cell that does not hold its
    own index.
  - `DestinationForTileIndex`: `(index / N, index % N)` with C#'s
    truncating `/` and `%`.
  - The `Next` stub.

The board is a class whose methods are proved against pure functions on the
cell sequence (`Cells()`). The solvers are classes whose fields
(`solution`, `solutionsFound`, `canceled`) change during the recursion. The
tree is a set of heap objects whose `moves` and `incomingEdge` fields are
assigned as in the source. A ghost set `vertices` names the tree built so
far. The invariant `SearchTree.WellBuilt` says three things:
- every vertex's path from the root is consistent with its parent links;
- replaying that path from the initial cells with `Play(tile)` gives the
  vertex's board;
- only unsolved vertices above the depth bound are expanded, and always
  without the parent's moves.

Soundness of the search is the invariant that a recorded solution replays
from the initial board to a solved board (`BoardCells.SolvesFrom`).

`Find`, `FindEmptySpace`, `Get(index)`, `AvailableMoves` and `Play(tile)`
are called by the solvers but are not defined in `Board.cs`. They appear
here as `GetAt`, `Find`, `FindEmptySpace`, `AvailableMoves` and `PlayTile`,
as minimal definitions:
- `AvailableMoves` gives the tiles above, below, left and right of the
  first Empty;
- `Play(tile)` is `Find` followed by `Play(row, col)`.

Their rows below cite the lines that call them.

Behaviour of the code as written, which the model keeps:
- **Several empty neighbours.** `Board.cs:105-130` runs the four
  neighbour checks without `else`, so the last neighbour holding Empty
  wins.
- **1 x 1 boards.** `IsSolved` (`Board.cs:47-53`) starts the expected
  value at 0 and switches to Empty only after offset n - 2, so a 1 x 1
  board is solved when its single cell holds 0 (`BoardCells.SolvedValue`).
- **Play(p) is never null-checked.** `TreeSolver.cs:127-145` makes a child
  for every filtered move without testing `Play(p)` for null. The model
  therefore requires the initial board to hold distinct values. That makes
  every offered move playable (`BoardCells.AvailableMovesPlayable`), and
  every board in the tree keeps distinct values.
- **The scan compares with indices.** `StrategicSolver.cs:44` compares each
  cell with its index, not with the solved board's value there (see
  Findings).

## Model

| member | source | states |
|---|---|---|
| Boards.Board.constructor | Assets/Scripts/Board.cs:9-17 | the new board has size * size cells, every one Empty, in a fresh array |
| Boards.Board.Copy | Assets/Scripts/Board.cs:19-27 | same size and the same cells as the source board, in fresh storage, so later changes to either leave the other alone |
| Boards.Board.Clone | Assets/Scripts/Board.cs:29 | a fresh board with its own fresh array, equal in size and cells to the receiver |
| Boards.Board.Set | Assets/Scripts/Board.cs:31-34 | only the cell at offset row * size + col changes, and it holds the new value; only the array is modified |
| BoardCells.Idx | Assets/Scripts/Board.cs:33 | the row-major offset row * size + col used by Set, Get and Swap; an in-grid cell's offset lies in the array |
| Boards.Board.Get | Assets/Scripts/Board.cs:36-39 | the value at offset row * size + col; after Set at that cell it is the value set |
| Boards.Board.IsSolved | Assets/Scripts/Board.cs:43-63 | the scan answers true exactly when cell i holds i and the last cell (of two or more) holds Empty, as the expected value runs 0, 1, ..., then Empty |
| BoardCells.SolvedValue | Assets/Scripts/Board.cs:47-53 | the value the scan expects at offset i of n cells: i below the last offset, and Empty at the last offset when there are two or more cells |
| BoardCells.IsSolvedCells | Assets/Scripts/Board.cs:43-63 | every cell holds the value the scan expects there; a solved board of two or more cells holds Empty in its last cell, and a solved 1 x 1 board holds 0 |
| BoardCells.SolvedCharacterisation | Assets/Scripts/Board.cs:43-63 | for two or more cells, solved iff cells 0..n-2 hold their index and the last holds Empty |
| BoardCells.SwapUnsolves | Assets/Scripts/Board.cs:43-72 | no swap of two different cells of a solved board is solved |
| Boards.Board.Swap | Assets/Scripts/Board.cs:65-72 | the two addressed cells trade values and every other cell keeps its value |
| BoardCells.SwapCells | Assets/Scripts/Board.cs:65-72 | the swapped sequence has the same length, the two cells exchanged and every other cell equal |
| BoardCells.SwapPermutes | Assets/Scripts/Board.cs:65-72 | a swap is a permutation: the multiset of cells is unchanged |
| BoardCells.SwapTwice | Assets/Scripts/Board.cs:65-72 | swapping the same two cells twice restores the cells |
| BoardCells.SwapKeepsDistinct | Assets/Scripts/Board.cs:65-72 | a swap keeps the cell values pairwise distinct |
| Boards.Board.Play | Assets/Scripts/Board.cs:100-133 | null exactly when no neighbour holds Empty; otherwise a fresh board of the same size whose cells are the receiver's with the tile swapped into the last empty neighbour found; the receiver is not modified |
| Boards.Board.CheckNeighbour | Assets/Scripts/Board.cs:104-130 | one of the four checks: a fresh swapped clone replaces the previous result when the neighbour exists and holds Empty, otherwise the previous result stands |
| Boards.Board.SwappedClone | Assets/Scripts/Board.cs:107-108 | Clone then Swap: a fresh board with the two cells exchanged |
| BoardCells.EmptyNeighbour | Assets/Scripts/Board.cs:104-130 | the offset of an in-grid neighbour holding Empty chosen by the last matching check, or -1 |
| BoardCells.CheckCell | Assets/Scripts/Board.cs:105 | one check keeps the earlier finding or gives the offset of an existing neighbour that holds Empty |
| BoardCells.PlayCells | Assets/Scripts/Board.cs:100-133 | Play on the cells: the same number of cells when it succeeds |
| BoardCells.PlayNoneIff | Assets/Scripts/Board.cs:100-133 | Play fails iff no in-grid orthogonal neighbour of (row, col) holds Empty (both directions) |
| BoardCells.PlayWithOneEmpty | Assets/Scripts/Board.cs:100-133 | with exactly one Empty at (er, ec): Play succeeds iff (row, col) is next to it, and then Empty is at (row, col), the tile at (er, ec), every other cell unchanged |
| BoardCells.PlayRoundTrip | Assets/Scripts/Board.cs:100-133 | after a successful Play with one Empty, playing the cell that was empty gives back the original cells |
| Boards.Board.GetAt | Assets/Scripts/Solvers/StrategicSolver.cs:44 | Get(index) (not in Board.cs): the cell at that row-major offset |
| Boards.Board.Find | Assets/Scripts/Solvers/StrategicSolver.cs:23 | Find (not in Board.cs): the row and column of the first cell holding the tile, or (-1, -1) |
| Boards.Board.FindEmptySpace | Assets/Scripts/Solvers/StrategicSolver.cs:22 | FindEmptySpace (not in Board.cs): Find(Empty) |
| BoardCells.FirstIndex | Assets/Scripts/Solvers/StrategicSolver.cs:23 | the first offset holding x, with no earlier one, or -1 exactly when x is absent |
| Boards.Board.AvailableMoves | Assets/Scripts/Solvers/TreeSolver.cs:117 | AvailableMoves (not in Board.cs): the tiles above, below, left and right of the first Empty that exist |
| BoardCells.AvailableMovesCells | Assets/Scripts/Solvers/TreeSolver.cs:117 | no moves without an Empty, and at most four moves (the neighbours of the first Empty) |
| BoardCells.NeighbourValues | Assets/Scripts/Solvers/TreeSolver.cs:117 | the values above, below, left and right of a cell where those cells exist: at most four |
| BoardCells.AvailableMovesPlayable | Assets/Scripts/Solvers/TreeSolver.cs:117-127 | on a board of distinct values, every offered move is a tile on the board, is playable by value, and swaps that tile with the Empty |
| BoardCells.NeighbourPlayable | Assets/Scripts/Solvers/TreeSolver.cs:127 | on a board of distinct values, a tile next to the Empty is found at its own cell and Play(tile) swaps it with the Empty |
| Boards.Board.PlayTile | Assets/Scripts/Solvers/TreeSolver.cs:127 | Play(tile) (not in Board.cs): null when the tile is absent or not playable, otherwise a fresh board with the Play(row, col) cells at the tile's first position |
| BoardCells.PlayTileCells | Assets/Scripts/Solvers/TreeSolver.cs:127 | Play(tile) on the cells keeps the number of cells |
| BoardCells.PlayTileKeepsDistinct | Assets/Scripts/Solvers/TreeSolver.cs:127 | a successful Play(tile) keeps the values distinct |
| BoardCells.Replay | Assets/Scripts/Solvers/TreeSolver.cs:127-149 | playing a move list tile by tile keeps the number of cells when every move succeeds |
| BoardCells.ReplaySnoc | Assets/Scripts/Solvers/TreeSolver.cs:127-149 | replaying one more move plays it on the board the shorter replay reached, as each child is Play(move) of its parent |
| SearchTree.Vertex.constructor | Assets/Scripts/Solvers/TreeSolver.cs:19-25 | a vertex holds its board and depth, is unexpanded, and has no incoming edge |
| SearchTree.Edge.constructor | Assets/Scripts/Solvers/TreeSolver.cs:31-36 | an edge holds its move, its result vertex and its parent |
| SearchTree.Reversed | Assets/Scripts/Solvers/TreeSolver.cs:99 | List.Reverse: same length, element i is the mirrored element |
| SearchTree.MovesOf | Assets/Scripts/Solvers/TreeSolver.cs:123 | the set of moves labelling the parent's outgoing edges (the HashSet of previous plays): it holds every edge's move, and is empty for no edges |
| SearchTree.WithoutMoves | Assets/Scripts/Solvers/TreeSolver.cs:123-124 | the LINQ filter keeps exactly the plays not among the previous moves, and is no longer |
| SearchTree.PathFromRoot | Assets/Scripts/Solvers/TreeSolver.cs:90-99 | walking incoming edges to the root and reversing gives exactly the vertex's root-to-vertex move path |
| SearchTree.NewChildren | Assets/Scripts/Solvers/TreeSolver.cs:127-145 | one fresh child per play, in order: edge move = play, parent = current, child's incoming edge = the edge, depth + 1, board = Play(play) of the parent's board, children distinct |
| SearchTree.NewChild | Assets/Scripts/Solvers/TreeSolver.cs:130-144 | one Edge and child Vertex, linked both ways, holding Play(tile) of the current board |
| SearchTree.ExploredPlays | Assets/Scripts/Solvers/TreeSolver.cs:117-125 | the plays are exactly the available moves of the current board that are not moves of the parent's outgoing edges (all available moves at the root) |
| SearchTree.Expand | Assets/Scripts/Solvers/TreeSolver.cs:117-145 | current.moves becomes the new edges; their moves are exactly the available moves minus the parent's moves; the children are fresh, unexpanded, one level deeper, and the tree stays well built |
| SearchTree.ExploredMoves | Assets/Scripts/Solvers/TreeSolver.cs:127-145 | the new edges carry exactly the filtered plays as their moves |
| SearchTree.Attach | Assets/Scripts/Solvers/TreeSolver.cs:130 | assigning current.moves keeps the grown tree well built |
| SearchTree.ExpansionsGrow | Assets/Scripts/Solvers/TreeSolver.cs:118-145 | after the expansion no move from a non-root vertex appears among its parent's edge moves, and each edge leads to its child |
| SearchTree.LinkedGrows | Assets/Scripts/Solvers/TreeSolver.cs:130-145 | the new children keep parent links and paths consistent |
| SearchTree.ReplaysGrow | Assets/Scripts/Solvers/TreeSolver.cs:127-145 | each new child's board is its path replayed from the initial board, with distinct values, at depth path length within the bound |
| TreeSearch.TreeSolver.constructor | Assets/Scripts/Solvers/TreeSolver.cs:45-52 | runs the search; quota <= 0 gives no solution; a solved initial board gives the empty solution without expanding the root; an unsolved board with maxDepth <= 0 gives none |
| TreeSearch.TreeSolver.Solution | Assets/Scripts/Solvers/TreeSolver.cs:54-64 | null exactly when no solution was counted; otherwise the moves replay from the initial board to a solved board |
| TreeSearch.TreeSolver.Cancel | Assets/Scripts/Solvers/TreeSolver.cs:66-70 | sets the cancel flag |
| TreeSearch.TreeSolver.Solve | Assets/Scripts/Solvers/TreeSolver.cs:72-151 | canceled or quota reached: nothing changes; solved: counted, path recorded only if strictly shorter, never expanded; depth guard after the goal check; otherwise expanded; the counter stays within the quota and the solution never lengthens |
| TreeSearch.TreeSolver.RecordSolution | Assets/Scripts/Solvers/TreeSolver.cs:81-104 | counts the solution and replaces the recorded one by the vertex's root path when none is recorded or the vertex is strictly shallower |
| TreeSearch.TreeSolver.Count | Assets/Scripts/Solvers/TreeSolver.cs:83-90 | the counter goes up by one and the solution is replaced only by a new path, keeping the invariant |
| TreeSearch.TreeSolver.SolveChildren | Assets/Scripts/Solvers/TreeSolver.cs:117-150 | expands the vertex and visits the children; the vertex ends expanded, the tree grows, the solution never lengthens |
| TreeSearch.TreeSolver.SolveEach | Assets/Scripts/Solvers/TreeSolver.cs:147-150 | the foreach: Solve on each child in order, keeping the invariant and never lengthening the solution |
| TreeSearch.KeptOrShortenedTrans | Assets/Scripts/Solvers/TreeSolver.cs:86 | "kept or strictly shortened" composes over a run of visits |
| FirstSolution.Solver.constructor | Assets/Scripts/Solver.cs:37-43 | a solved initial board gives the empty solution without expanding the root; an unsolved board with maxDepth <= 0 gives none |
| FirstSolution.Solver.Solution | Assets/Scripts/Solver.cs:54-64 | a recorded solution replays from the initial board to a solved board and is within the depth bound |
| FirstSolution.Solver.Cancel | Assets/Scripts/Solver.cs:66-69 | sets the cancel flag |
| FirstSolution.Solver.Solve | Assets/Scripts/Solver.cs:71-143 | canceled or a solution already recorded: nothing changes, so the first solution is never replaced; a solved vertex records its root path and is not expanded; depth guard after the goal check; otherwise expanded |
| FirstSolution.Solver.Record | Assets/Scripts/Solver.cs:84-93 | the solution becomes the rebuilt path, keeping the invariant |
| FirstSolution.Solver.SolveChildren | Assets/Scripts/Solver.cs:110-142 | expands the vertex and visits the children; the vertex ends expanded |
| FirstSolution.Solver.SolveEach | Assets/Scripts/Solver.cs:139-142 | the foreach: Solve on each child in order |
| Strategic.Quot | Assets/Scripts/Solvers/StrategicSolver.cs:55 | C#'s / on int, rounded toward zero: non-negative when the operands' signs agree, non-positive otherwise, 0 when the dividend is smaller in size than the divisor |
| Strategic.Rem | Assets/Scripts/Solvers/StrategicSolver.cs:55 | C#'s % on int: the remainder takes the sign of the dividend and is smaller in size than the divisor |
| Strategic.QuotRem | Assets/Scripts/Solvers/StrategicSolver.cs:54-56 | C#'s / and %: quotient * divisor + remainder = dividend, remainder smaller than the divisor in size, agreeing with Euclidean division on non-negative operands |
| Strategic.DestinationForTileIndex | Assets/Scripts/Solvers/StrategicSolver.cs:54-56 | row * size + column = index; for index >= 0 and size > 0, 0 <= column < size |
| Strategic.FirstMisplacedFrom | Assets/Scripts/Solvers/StrategicSolver.cs:41-48 | the first index from k on whose cell differs from it, all before it matching, or -1 exactly when all match |
| Strategic.FirstMisplaced | Assets/Scripts/Solvers/StrategicSolver.cs:41-48 | the smallest index whose cell differs from it, every smaller index holding itself, or -1 iff every cell holds its index |
| Strategic.IndexOfTileToActOn | Assets/Scripts/Solvers/StrategicSolver.cs:41-48 | the scan returns the smallest misplaced index; its result is in [-1, size * size); -1 iff every cell holds its index; never -1 on a board containing Empty |
| Strategic.Next | Assets/Scripts/Solvers/StrategicSolver.cs:14-32 | (-1, null) exactly when the scan gives -1; otherwise (0, board) with the same board, unchanged |
| Strategic.SolvedBoardActsOnLastCell | Assets/Scripts/Solvers/StrategicSolver.cs:13-19 | on a solved board of two or more cells the scan stops at the last cell, so the solved branch is not taken |
| Strategic.SolvedTwoByTwoNotReported | Assets/Scripts/Solvers/StrategicSolver.cs:41-48 | the solved 2 x 2 board 0, 1, 2, Empty is solved, yet the scan returns 3 |
| Strategic.FirstOutOfPlaceFrom | Assets/Scripts/Solvers/StrategicSolver.cs:34-48 | the first index from k on whose cell differs from the solved value, or -1 exactly when none does |
| Strategic.FirstOutOfPlace | Assets/Scripts/Solvers/StrategicSolver.cs:34-48 | the corrected scan: -1 exactly on a solved board, otherwise the smallest index not holding its solved value |

## Findings

| source | as written | input that shows it | evidently intended | confidence | as-written member | corrected member |
|---|---|---|---|---|---|---|
| Assets/Scripts/Solvers/StrategicSolver.cs:41-48 | `IndexOfTileToActOn` compares cell i with i, and the last cell of a solved board holds Empty (-1), so the scan never returns -1 on a real board and `Next` never reports "solved" | the solved 2 x 2 board 0, 1, 2, Empty: the scan returns 3 | compare cell i with the solved value (i, or Empty in the last cell), returning -1 exactly on a solved board | medium, not executed | Strategic.SolvedTwoByTwoNotReported | Strategic.FirstOutOfPlace |

`Next` itself is kept as written, with the scan as written. It is an
unfinished stub whose only other branch hands the board back.

## Left out

- **Outside the engine.** Unity scene glue, tiles, camera shake and the
  main-thread dispatcher are not part of this model.
- **Text output.** `Board.ToString` and the `Debug.LogFormat` calls only
  produce text and are not modelled.
- **Cancellation.** It is a plain boolean field set by `Cancel`. The
  search runs inside the constructor, so no thread interleaving is
  modelled, and the commented-out threaded entry point is left out.
- **Board.Size.** It is the constant field `size`.
- **No optimality.** No shortest-solution property is stated, because the
  depth-first search does not promise one.
- **Solution getter.** `Solution` returns the recorded value. The source
  returns a copy through `ToArray`, and sequences are values, so the copy
  is implicit.
- **Vertex depth in Solver.cs.** Its Vertex has no depth field. The shared
  `SearchTree.Vertex` keeps one for both solvers, and in `Solver` it is
  always the recursion's depth argument.
- **Board bounds.** The C# array bounds checks are not modelled.
  - Boards.Board.Set and Boards.Board.Get require the offset to lie in
    the array; outside it the source throws `IndexOutOfRangeException`.
  - Boards.Board.Play requires (row, col) to be on the grid. Off-grid
    coordinates in the source either throw or address a wrapped row-major
    cell (on a 3 x 3 board, `Play(0, 3)` reads offset 6). Every caller
    passes in-grid coordinates: `TileGridController.cs:81` with a tile's
    own row and column, and `Play(tile)` through `Find`.
- Strategic.DestinationForTileIndex: requires board.size != 0. C# would
  throw `DivideByZeroException` there, and `Next` never reaches it on a
  0 x 0 board, whose scan returns -1.
- Boards.Board.constructor: requires a size of at least 0. With a negative
  size the source still allocates size * size cells, but no (row, col)
  addresses them as a grid.
- **The solvers' initial board.** TreeSearch.TreeSolver.constructor and
  FirstSolution.Solver.constructor require a valid initial board whose
  values are distinct. The source never null-checks `Play(p)` (a repeated
  tile could make it null and crash the search), and the game only builds
  shuffled boards.
- **Play(tile) in the tree.** Children come from `PlayTile`, so the tree is
  not limited to boards with exactly one Empty, but the solvers'
  guarantees are stated through `Replay`.
- **Integer width.** 32-bit overflow is not modelled. Only vertices with
  depth < maxSearchDepth are expanded, so `depth + 1` never exceeds
  maxSearchDepth, itself an `int` (`int.MaxValue - 1` by default).
  `_solutionsFound` is incremented only while it is below the quota, so
  it never exceeds the quota. Offsets are at most size * size, which the
  source itself computes in `int`.
- Strategic.Next: the `FindEmptySpace`, `Find` and `DestinationForTileIndex`
  results are computed and then unused, as in the source. Their values
  are not part of the contract.
