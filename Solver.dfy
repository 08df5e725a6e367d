/**
 * Solver (Assets/Scripts/Solver.cs): the first-solution variant of the
 * depth-first search. It grows the same Vertex/Edge tree as TreeSolver with
 * the same backtrack filter, but has no quota and no counter: the first
 * solved vertex reached is recorded and every later visit returns at once.
 */
module FirstSolution {

  import opened Wrappers
  import opened BoardCells
  import opened Boards
  import opened SearchTree

  class Solver {
    ghost const size: int
    ghost const initial: seq<int>
    ghost const root: Vertex
    /** The vertices created so far. */
    ghost var vertices: set<Vertex>

    /** _solution: None until the first solved vertex is reached (the source's null list). */
    var solution: Option<seq<int>>
    const maxSearchDepth: int
    var canceled: bool

    /**
     * The tree is well built and rooted at the initial board, and a recorded
     * solution replays from the initial cells to a solved board and is no
     * longer than the depth bound.
     */
    ghost predicate Valid()
      reads this`vertices, this`solution
      reads vertices`moves, vertices`incomingEdge, Arrays(vertices)
    {
      TreeOK() && SolutionOK()
    }

    ghost predicate TreeOK()
      reads this`vertices, vertices`moves, vertices`incomingEdge, Arrays(vertices)
    {
      0 <= size && |initial| == size * size &&
      root in vertices && root.incomingEdge == null && root.depth == 0 &&
      WellBuilt(vertices, size, initial, maxSearchDepth)
    }

    ghost predicate SolutionOK()
      reads this`solution
    {
      0 <= size && |initial| == size * size &&
      (solution.Some? ==>
         SolvesFrom(size, initial, solution.value) &&
         (solution.value == [] || |solution.value| <= maxSearchDepth))
    }

    /** Solver(initialGameState, maxSearchDepth): runs the whole search from the root. */
    constructor (initialGameState: Board, maxSearchDepth: int := DefaultMaxSearchDepth)
      requires initialGameState.Valid() && Distinct(initialGameState.Cells())
      ensures Valid() && !canceled
      ensures size == initialGameState.size && initial == initialGameState.Cells()
      ensures this.maxSearchDepth == maxSearchDepth
      ensures IsSolvedCells(initial) ==> solution == Some([]) && root.moves.None?
      ensures !IsSolvedCells(initial) && maxSearchDepth <= 0 ==> solution == None && root.moves.None?
    {
      this.maxSearchDepth := maxSearchDepth;
      size := initialGameState.size;
      initial := initialGameState.Cells();
      var r := new Vertex(initialGameState, 0, []);
      root := r;
      vertices := {r};
      solution := None;
      canceled := false;
      new;
      Solve(r, 0);
    }

    /** The Solution getter: a copy of the recorded moves, or None. */
    function Solution(): (r: Option<seq<int>>)
      requires Valid()
      reads this`vertices, this`solution
      reads vertices`moves, vertices`incomingEdge, Arrays(vertices)
      ensures r.Some? ==> SolvesFrom(size, initial, r.value)
      ensures r.Some? ==> r.value == [] || |r.value| <= maxSearchDepth
    {
      solution
    }

    /** Cancel(): later visits return at once. */
    method Cancel()
      modifies this`canceled
      ensures canceled
    {
      canceled := true;
    }

    /**
     * Solve(current, depth): cancel check, "already solved" check, goal
     * check, depth guard, then expansion and a visit of every child in order.
     */
    method Solve(current: Vertex, depth: int)
      requires Valid() && current in vertices && current.moves.None? && current.depth == depth
      modifies this, current`moves
      decreases maxSearchDepth - depth, 2
      ensures Valid() && canceled == old(canceled) && old(vertices) <= vertices
      // canceled, or a solution already recorded: nothing changes
      ensures old(canceled) || old(solution).Some? ==> unchanged(this) && current.moves.None?
      // the first solved vertex is recorded, with its root-to-goal path, and never expanded
      ensures !old(canceled) && old(solution).None? && IsSolvedCells(current.board.Cells()) ==>
                solution == Some(current.path) && |current.path| == depth &&
                vertices == old(vertices) && current.moves.None?
      // the depth guard comes after the goal check
      ensures !old(canceled) && old(solution).None? &&
              !IsSolvedCells(current.board.Cells()) && depth >= maxSearchDepth ==>
                unchanged(this) && current.moves.None?
      ensures !old(canceled) && old(solution).None? &&
              !IsSolvedCells(current.board.Cells()) && depth < maxSearchDepth ==>
                current.moves.Some?
    {
      if canceled {
        return;
      }
      if solution.Some? {
        return;
      }
      assert ReplaysAt(current, size, initial, maxSearchDepth);
      var solved := current.board.IsSolved();
      if solved {
        var path := PathFromRoot(current, vertices);
        Record(path);
        return;
      }
      if depth >= maxSearchDepth {
        return;
      }
      SolveChildren(current, depth);
    }

    /** _solution = the path rebuilt at a solved vertex. */
    method Record(path: seq<int>)
      requires Valid() && SolvesFrom(size, initial, path) && (path == [] || |path| <= maxSearchDepth)
      modifies this`solution
      ensures Valid() && solution == Some(path)
    {
      solution := Some(path);
    }

    /** The expansion branch of Solve: expand, then Solve each child in order. */
    method SolveChildren(current: Vertex, depth: int)
      requires Valid() && current in vertices && current.moves.None? && current.depth == depth
      requires depth < maxSearchDepth && !IsSolvedCells(current.board.Cells())
      modifies this, current`moves
      decreases maxSearchDepth - depth, 1
      ensures Valid() && canceled == old(canceled) && old(vertices) <= vertices
      ensures current.moves.Some?
    {
      assert ReplaysAt(current, size, initial, maxSearchDepth);
      var edges := Expand(current, vertices, size, initial, maxSearchDepth);
      vertices := vertices + Results(edges);
      SolveEach(current, edges, depth);
    }

    /** The foreach over current.moves: Solve every child, one level deeper, in order. */
    method SolveEach(current: Vertex, edges: seq<Edge>, depth: int)
      requires Valid() && current.moves == Some(edges) && depth < maxSearchDepth
      requires forall i :: 0 <= i < |edges| ==>
                 edges[i].result in vertices && edges[i].result.moves.None? && edges[i].result.depth == depth + 1
      requires forall i, j :: 0 <= i < j < |edges| ==> edges[i].result != edges[j].result
      modifies this, Results(edges)`moves
      decreases maxSearchDepth - depth, 0
      ensures Valid() && canceled == old(canceled) && current.moves == Some(edges)
      ensures old(vertices) <= vertices
    {
      for i := 0 to |edges|
        invariant Valid() && canceled == old(canceled)
        invariant current.moves == Some(edges)
        invariant old(vertices) <= vertices
        invariant forall j :: i <= j < |edges| ==>
                    edges[j].result in vertices && edges[j].result.moves.None?
      {
        Solve(edges[i].result, depth + 1);
      }
    }
  }
}
