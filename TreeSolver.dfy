/**
 * TreeSolver (Assets/Scripts/Solvers/TreeSolver.cs): a recursive depth-first
 * search that grows a Vertex/Edge tree from the initial board, counts the
 * solved vertices it reaches up to a quota, and keeps the shortest
 * root-to-goal move sequence seen so far.
 *
 * The tree lives in the heap, with the same links as in the source; the ghost set
 * vertices names the part built so far, and Valid() says it is well built
 * (SearchTree.WellBuilt) and that any recorded solution replays from the
 * initial cells to a solved board.
 */
module TreeSearch {

  import opened Wrappers
  import opened BoardCells
  import opened Boards
  import opened SearchTree

  /** A later solution either is the earlier one or is strictly shorter than it. */
  predicate KeptOrShortened(before: Option<seq<int>>, after: Option<seq<int>>)
  {
    after == before || (after.Some? && (before.None? || |after.value| < |before.value|))
  }

  /** KeptOrShortened is transitive, so it holds across a whole run of visits. */
  lemma KeptOrShortenedTrans(a: Option<seq<int>>, b: Option<seq<int>>, c: Option<seq<int>>)
    requires KeptOrShortened(a, b) && KeptOrShortened(b, c)
    ensures KeptOrShortened(a, c)
  {
  }

  class TreeSolver {
    ghost const size: int
    ghost const initial: seq<int>
    ghost const root: Vertex
    /** The vertices created so far. */
    ghost var vertices: set<Vertex>

    /** _solution: None until a solved vertex is recorded (the source's null list). */
    var solution: Option<seq<int>>
    const maxSearchDepth: int
    const stopAfterNSolutions: int
    var canceled: bool
    var solutionsFound: int

    /**
     * The tree is well built and rooted at the initial board; at most the
     * quota of solutions is counted; a solution is recorded exactly when one
     * was counted, it replays from the initial cells to a solved board, and
     * it is no longer than the depth bound.
     */
    ghost predicate Valid()
      reads this`vertices, this`solution, this`solutionsFound
      reads vertices`moves, vertices`incomingEdge, Arrays(vertices)
    {
      TreeOK() && SolutionOK()
    }

    ghost predicate TreeOK()
      reads this`vertices, vertices`moves, vertices`incomingEdge, Arrays(vertices)
    {
      0 <= size && |initial| == size * size &&
      root in vertices && root.incomingEdge == null && root.depth == 0 &&
      WellBuilt(vertices, size, initial, maxSearchDepth)
    }

    ghost predicate SolutionOK()
      reads this`solution, this`solutionsFound
    {
      0 <= size && |initial| == size * size &&
      0 <= solutionsFound && (solutionsFound == 0 || solutionsFound <= stopAfterNSolutions) &&
      (solution.Some? <==> solutionsFound > 0) &&
      (solution.Some? ==>
         SolvesFrom(size, initial, solution.value) &&
         (solution.value == [] || |solution.value| <= maxSearchDepth))
    }

    /**
     * TreeSolver(initialGameState, maxSearchDepth, stopAfterNSolutionsFound):
     * runs the whole search from a root vertex holding the initial board.
     */
    constructor (initialGameState: Board, maxSearchDepth: int := DefaultMaxSearchDepth,
                 stopAfterNSolutionsFound: int := 1)
      requires initialGameState.Valid() && Distinct(initialGameState.Cells())
      ensures Valid() && !canceled
      ensures size == initialGameState.size && initial == initialGameState.Cells()
      ensures this.maxSearchDepth == maxSearchDepth && stopAfterNSolutions == stopAfterNSolutionsFound
      ensures stopAfterNSolutionsFound <= 0 ==> solution == None && solutionsFound == 0
      ensures stopAfterNSolutionsFound >= 1 && IsSolvedCells(initial) ==>
                solution == Some([]) && solutionsFound == 1 && root.moves.None?
      ensures !IsSolvedCells(initial) && maxSearchDepth <= 0 ==> solution == None && root.moves.None?
    {
      this.maxSearchDepth := maxSearchDepth;
      stopAfterNSolutions := stopAfterNSolutionsFound;
      size := initialGameState.size;
      initial := initialGameState.Cells();
      var r := new Vertex(initialGameState, 0, []);
      root := r;
      vertices := {r};
      solution := None;
      canceled := false;
      solutionsFound := 0;
      new;
      Solve(r, 0);
    }

    /** The Solution getter: a copy of the recorded moves, or None. */
    function Solution(): (r: Option<seq<int>>)
      requires Valid()
      reads this`vertices, this`solution, this`solutionsFound
      reads vertices`moves, vertices`incomingEdge, Arrays(vertices)
      ensures r.Some? ==> SolvesFrom(size, initial, r.value)
      ensures r.None? <==> solutionsFound == 0
    {
      solution
    }

    /** Cancel(): later visits return at once. */
    method Cancel()
      modifies this`canceled
      ensures canceled
    {
      canceled := true;
    }

    /**
     * Solve(current, depth): cancel check, quota check, goal check, depth
     * guard, then expansion and a visit of every child in order.
     */
    method Solve(current: Vertex, depth: int)
      requires Valid() && current in vertices && current.moves.None? && current.depth == depth
      modifies this, current`moves
      decreases maxSearchDepth - depth, 2
      ensures Valid() && canceled == old(canceled)
      ensures old(vertices) <= vertices && old(solutionsFound) <= solutionsFound
      ensures KeptOrShortened(old(solution), solution)
      // canceled, or quota reached: nothing changes
      ensures old(canceled) || old(solutionsFound) >= stopAfterNSolutions ==>
                unchanged(this) && current.moves.None?
      // a solved vertex is counted, recorded when shorter, and never expanded
      ensures !old(canceled) && old(solutionsFound) < stopAfterNSolutions &&
              IsSolvedCells(current.board.Cells()) ==>
                solutionsFound == old(solutionsFound) + 1 && vertices == old(vertices) &&
                solution == (if old(solution).None? || depth < |old(solution).value|
                             then Some(current.path) else old(solution)) &&
                |current.path| == depth && current.moves.None?
      // the depth guard comes after the goal check
      ensures !old(canceled) && old(solutionsFound) < stopAfterNSolutions &&
              !IsSolvedCells(current.board.Cells()) && depth >= maxSearchDepth ==>
                unchanged(this) && current.moves.None?
      ensures !old(canceled) && old(solutionsFound) < stopAfterNSolutions &&
              !IsSolvedCells(current.board.Cells()) && depth < maxSearchDepth ==>
                current.moves.Some?
    {
      if canceled {
        return;
      }
      if solutionsFound >= stopAfterNSolutions {
        return;
      }
      assert ReplaysAt(current, size, initial, maxSearchDepth);
      var solved := current.board.IsSolved();
      if solved {
        RecordSolution(current);
        return;
      }
      if depth >= maxSearchDepth {
        return;
      }
      SolveChildren(current, depth);
    }

    /**
     * The goal branch of Solve: count the solution, and keep the path from
     * the root when no solution is recorded yet or it is strictly shorter.
     */
    method RecordSolution(current: Vertex)
      requires Valid() && current in vertices && IsSolvedCells(current.board.Cells())
      requires solutionsFound < stopAfterNSolutions
      modifies this`solutionsFound, this`solution
      ensures Valid()
      ensures solutionsFound == old(solutionsFound) + 1
      ensures solution == (if old(solution).None? || current.depth < |old(solution).value|
                           then Some(current.path) else old(solution))
    {
      assert ReplaysAt(current, size, initial, maxSearchDepth);
      var shorter := solution.None? || current.depth < |solution.value|;
      var kept: Option<seq<int>> := None;
      if shorter {
        var path := PathFromRoot(current, vertices);
        kept := Some(path);
      }
      Count(kept);
    }

    /** _solutionsFound++, and _solution = found when a shorter path was found. */
    method Count(found: Option<seq<int>>)
      requires Valid() && solutionsFound < stopAfterNSolutions && (solution.None? ==> found.Some?)
      requires found.Some? ==>
                 SolvesFrom(size, initial, found.value) &&
                 (found.value == [] || |found.value| <= maxSearchDepth)
      modifies this`solutionsFound, this`solution
      ensures Valid()
      ensures solutionsFound == old(solutionsFound) + 1
      ensures solution == if found.Some? then found else old(solution)
    {
      solutionsFound := solutionsFound + 1;
      if found.Some? {
        solution := found;
      }
    }

    /** The expansion branch of Solve: Expand, then Solve each child in order. */
    method SolveChildren(current: Vertex, depth: int)
      requires Valid() && current in vertices && current.moves.None? && current.depth == depth
      requires depth < maxSearchDepth && !IsSolvedCells(current.board.Cells())
      modifies this, current`moves
      decreases maxSearchDepth - depth, 1
      ensures Valid() && canceled == old(canceled)
      ensures old(vertices) <= vertices && old(solutionsFound) <= solutionsFound
      ensures KeptOrShortened(old(solution), solution)
      ensures current.moves.Some?
    {
      assert ReplaysAt(current, size, initial, maxSearchDepth);
      var edges := Expand(current, vertices, size, initial, maxSearchDepth);
      vertices := vertices + Results(edges);
      SolveEach(current, edges, depth);
    }

    /** The foreach over current.moves: Solve every child, one level deeper, in order. */
    method SolveEach(current: Vertex, edges: seq<Edge>, depth: int)
      requires Valid() && current.moves == Some(edges) && depth < maxSearchDepth
      requires forall i :: 0 <= i < |edges| ==>
                 edges[i].result in vertices && edges[i].result.moves.None? && edges[i].result.depth == depth + 1
      requires forall i, j :: 0 <= i < j < |edges| ==> edges[i].result != edges[j].result
      modifies this, Results(edges)`moves
      decreases maxSearchDepth - depth, 0
      ensures Valid() && canceled == old(canceled) && current.moves == Some(edges)
      ensures old(vertices) <= vertices && old(solutionsFound) <= solutionsFound
      ensures KeptOrShortened(old(solution), solution)
    {
      for i := 0 to |edges|
        invariant Valid() && canceled == old(canceled)
        invariant current.moves == Some(edges)
        invariant old(vertices) <= vertices && old(solutionsFound) <= solutionsFound
        invariant KeptOrShortened(old(solution), solution)
        invariant forall j :: i <= j < |edges| ==>
                    edges[j].result in vertices && edges[j].result.moves.None?
      {
        ghost var before := solution;
        Solve(edges[i].result, depth + 1);
        KeptOrShortenedTrans(old(solution), before, solution);
      }
    }
  }
}
