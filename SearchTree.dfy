/**
 * The Vertex/Edge search tree shared by TreeSolver (Assets/Scripts/Solvers/TreeSolver.cs)
 * and Solver (Assets/Scripts/Solver.cs): the two files declare identical Vertex
 * and Edge classes (TreeSolver's Vertex adds a depth), rebuild a solution by
 * walking parent links and reversing, and expand a vertex with the same
 * backtrack-suppressing move filter.
 */
module SearchTree {

  import opened Wrappers
  import opened BoardCells
  import opened Boards

  /** int.MaxValue - 1, the solvers' default depth bound. */
  const DefaultMaxSearchDepth: int := 0x7fff_ffff - 1

  /** A game state in the tree and the moves explored from it. */
  class Vertex {
    const board: Board
    /** Outgoing edges; None until the vertex is expanded (the source's null array). */
    var moves: Option<seq<Edge>>
    var incomingEdge: Edge?
    const depth: int
    /** The tiles played from the root to reach this vertex. */
    ghost const path: seq<int>

    constructor (board: Board, depth: int, ghost path: seq<int>)
      ensures this.board == board && this.depth == depth && this.path == path
      ensures moves == None && incomingEdge == null
    {
      this.board := board;
      this.depth := depth;
      this.path := path;
      moves := None;
      incomingEdge := null;
    }
  }

  /** A move (a tile value) leading from parent to result. */
  class Edge {
    const move: int
    const result: Vertex
    const parent: Vertex

    constructor (move: int, result: Vertex, parent: Vertex)
      ensures this.move == move && this.result == result && this.parent == parent
    {
      this.move := move;
      this.result := result;
      this.parent := parent;
    }
  }

  /** The source's List.Reverse, on a value: element i comes from the mirrored position. */
  function Reversed(s: seq<int>): (r: seq<int>)
    ensures |r| == |s| && forall i :: 0 <= i < |s| ==> r[i] == s[|s| - 1 - i]
  {
    if s == [] then [] else Reversed(s[1..]) + [s[0]]
  }

  /** The moves labelling a list of edges (the HashSet built from parent.moves). */
  function MovesOf(edges: seq<Edge>): (moves: set<int>)
    ensures forall i :: 0 <= i < |edges| ==> edges[i].move in moves
    ensures edges == [] ==> moves == {}
  {
    set e | e in edges :: e.move
  }

  /** The LINQ filter plays.Where(p => !previousPlays.Contains(p)): keeps order, drops previous moves. */
  function WithoutMoves(plays: seq<int>, previous: set<int>): (r: seq<int>)
    ensures forall m :: m in r <==> m in plays && m !in previous
    ensures |r| <= |plays|
  {
    if plays == [] then []
    else (if plays[0] in previous then [] else [plays[0]]) + WithoutMoves(plays[1..], previous)
  }

  /** The child vertices of a list of edges. */
  ghost function Results(edges: seq<Edge>): set<Vertex>
  {
    set e | e in edges :: e.result
  }

  /**
   * Parent links are consistent with the paths: the root has no incoming
   * edge, and a child's path is its parent's path plus the edge's move.
   */
  ghost predicate Linked(vs: set<Vertex>)
    reads vs`incomingEdge
  {
    forall v {:trigger LinkedAt(v, vs)} :: v in vs ==> LinkedAt(v, vs)
  }

  ghost predicate LinkedAt(v: Vertex, vs: set<Vertex>)
    reads v`incomingEdge
  {
    (v.incomingEdge == null ==> v.path == []) &&
    (v.incomingEdge != null ==>
       v.incomingEdge.result == v && v.incomingEdge.parent in vs &&
       v.incomingEdge.parent.path + [v.incomingEdge.move] == v.path)
  }

  /** The array of each vertex's board. */
  ghost function Arrays(vs: set<Vertex>): set<array<int>>
  {
    set v | v in vs :: v.board.spaces
  }

  /**
   * Every vertex holds a valid board without repeated values, reached from
   * the initial cells by replaying its path; its depth is its path length
   * and, below the root, at most maxDepth.
   */
  ghost predicate BoardsReplay(vs: set<Vertex>, size: int, initial: seq<int>, maxDepth: int)
    requires 0 <= size && |initial| == size * size
    reads Arrays(vs)
  {
    forall v {:trigger ReplaysAt(v, size, initial, maxDepth)} :: v in vs ==> ReplaysAt(v, size, initial, maxDepth)
  }

  ghost predicate ReplaysAt(v: Vertex, size: int, initial: seq<int>, maxDepth: int)
    requires 0 <= size && |initial| == size * size
    reads v.board.spaces
  {
    v.board.Valid() && v.board.size == size && Distinct(v.board.Cells()) &&
    Replay(size, initial, v.path) == Some(v.board.Cells()) &&
    v.depth == |v.path| && (v.depth == 0 || v.depth <= maxDepth)
  }

  /**
   * Only unsolved vertices above the depth bound are expanded; each edge
   * leads from its vertex to a child in the tree; the moves from a non-root
   * vertex avoid every move of its parent's outgoing edges; and a non-root
   * vertex's parent has been expanded.
   */
  ghost predicate ExpansionsOK(vs: set<Vertex>, maxDepth: int)
    requires Linked(vs)
    reads vs`moves, vs`incomingEdge, Arrays(vs)
  {
    forall v {:trigger ExpandedAt(v, vs, maxDepth)} :: v in vs ==> ExpandedAt(v, vs, maxDepth)
  }

  ghost predicate ExpandedAt(v: Vertex, vs: set<Vertex>, maxDepth: int)
    requires v in vs && LinkedAt(v, vs)
    reads vs`moves, vs`incomingEdge, v.board.spaces
  {
    (v.incomingEdge != null ==> v.incomingEdge.parent.moves.Some?) &&
    (v.moves.Some? ==>
       !IsSolvedCells(v.board.Cells()) && v.depth < maxDepth &&
       forall e :: e in v.moves.value ==>
         e.parent == v && e.result in vs && e.result.incomingEdge == e &&
         (v.incomingEdge != null ==> e.move !in MovesOf(v.incomingEdge.parent.moves.value)))
  }

  ghost predicate WellBuilt(vs: set<Vertex>, size: int, initial: seq<int>, maxDepth: int)
    reads vs`moves, vs`incomingEdge, Arrays(vs)
  {
    0 <= size && |initial| == size * size &&
    Linked(vs) && BoardsReplay(vs, size, initial, maxDepth) && ExpansionsOK(vs, maxDepth)
  }

  /**
   * The solution rebuilt at a solved vertex: walk the incoming edges up to
   * the root collecting their moves, then reverse. The result is exactly the
   * root-to-vertex path.
   */
  method PathFromRoot(v: Vertex, ghost vs: set<Vertex>) returns (moves: seq<int>)
    requires Linked(vs) && v in vs
    ensures moves == v.path
  {
    var collected: seq<int> := [];
    var it: Vertex? := v;
    while it != null && it.incomingEdge != null
      invariant it != null && it in vs && LinkedAt(it, vs)
      invariant it.path + Reversed(collected) == v.path
      decreases if it == null then 0 else |it.path|
    {
      var e := it.incomingEdge;
      assert Reversed(collected + [e.move]) == [e.move] + Reversed(collected);
      collected := collected + [e.move];
      it := e.parent;
    }
    moves := Reversed(collected);
  }

  /**
   * Creates one edge and child vertex per play, in order: the child holds
   * Play(tile) of the current board, one level deeper (the Select/Zip/Select
   * chain of the source).
   */
  method NewChildren(current: Vertex, plays: seq<int>, ghost size: int) returns (edges: seq<Edge>)
    requires current.board.Valid() && current.board.size == size && Distinct(current.board.Cells())
    requires forall m :: m in plays ==> m in AvailableMovesCells(size, current.board.Cells())
    ensures |edges| == |plays| && ChildrenOK(current, edges, plays, size)
    ensures forall i :: 0 <= i < |edges| ==> fresh(edges[i].result)
  {
    edges := [];
    ghost var made: seq<int> := [];
    for i := 0 to |plays|
      invariant made == plays[..i]
      invariant |edges| == i && ChildrenOK(current, edges, made, size)
      invariant forall j :: 0 <= j < i ==> fresh(edges[j].result)
    {
      assert plays[i] in plays;
      var e := NewChild(current, plays[i], size, edges, made);
      edges, made := edges + [e], made + [plays[i]];
    }
    assert made == plays;
  }

  /** The edges lead to distinct children, each made by playing the corresponding tile. */
  ghost predicate ChildrenOK(current: Vertex, edges: seq<Edge>, plays: seq<int>, size: int)
    reads Results(edges)`incomingEdge, Results(edges)`moves
    reads set e | e in edges :: e.result.board.spaces
    reads current.board.spaces
  {
    |edges| == |plays| &&
    (forall i :: 0 <= i < |edges| ==> ChildOK(current, edges[i], plays[i], size)) &&
    forall i, j :: 0 <= i < j < |edges| ==> edges[i].result != edges[j].result
  }

  /** One step of NewChildren: Play(tile) on the current board, a child vertex and its edge. */
  method NewChild(current: Vertex, p: int, ghost size: int, ghost done: seq<Edge>, ghost donePlays: seq<int>)
      returns (e: Edge)
    requires current.board.Valid() && current.board.size == size && Distinct(current.board.Cells())
    requires p in AvailableMovesCells(size, current.board.Cells())
    requires ChildrenOK(current, done, donePlays, size)
    ensures ChildrenOK(current, done + [e], donePlays + [p], size) && fresh(e.result)
  {
    ghost var s := current.board.Cells();
    AvailableMovesPlayable(size, s);
    var b := current.board.PlayTile(p);
    var child := new Vertex(b, current.depth + 1, current.path + [p]);
    e := new Edge(p, child, current);
    child.incomingEdge := e;
    assert ChildOK(current, e, p, size);
    assert forall i :: 0 <= i < |done| ==> (done + [e])[i] == done[i];
  }

  /** What NewChildren promises of one edge. */
  ghost predicate ChildOK(current: Vertex, e: Edge, p: int, size: int)
    reads e.result`incomingEdge, e.result`moves, e.result.board.spaces, current.board.spaces
  {
    var child := e.result;
    e.move == p && e.parent == current &&
    child.incomingEdge == e && child.moves.None? &&
    child.depth == current.depth + 1 && child.path == current.path + [p] &&
    child.board.Valid() && child.board.size == size &&
    current.board.Valid() && current.board.size == size &&
    PlayTileCells(size, current.board.Cells(), p) == Some(child.board.Cells())
  }

  /**
   * Expansion of an unsolved vertex above the depth bound: the available
   * moves, minus every move of the parent's outgoing edges when there is a
   * parent, each played to give a child. The tree stays well built.
   */
  method Expand(current: Vertex, ghost vs: set<Vertex>, ghost size: int, ghost initial: seq<int>,
                ghost maxDepth: int) returns (edges: seq<Edge>)
    requires WellBuilt(vs, size, initial, maxDepth) && current in vs && current.moves.None?
    requires current.depth < maxDepth && !IsSolvedCells(current.board.Cells())
    requires current.board.Valid() && current.board.size == size
    modifies current`moves
    ensures current.moves == Some(edges)
    ensures WellBuilt(vs + Results(edges), size, initial, maxDepth)
    ensures forall i :: 0 <= i < |edges| ==>
              fresh(edges[i].result) && edges[i].result.moves.None? && edges[i].result.depth == current.depth + 1
    ensures forall i, j :: 0 <= i < j < |edges| ==> edges[i].result != edges[j].result
    // the explored moves: the available ones, minus the parent's when there is a parent
    ensures forall m :: m in MovesOf(edges) <==>
              m in old(AvailableMovesCells(size, current.board.Cells())) && m !in old(ParentMoves(current))
  {
    assert LinkedAt(current, vs) && ExpandedAt(current, vs, maxDepth);
    assert ReplaysAt(current, size, initial, maxDepth);
    var plays := ExploredPlays(current, size);
    edges := NewChildren(current, plays, size);
    ExploredMoves(current, edges, plays, size);
    assert forall m :: m in MovesOf(edges) <==>
             m in AvailableMovesCells(size, current.board.Cells()) && m !in ParentMoves(current);
    Attach(current, edges, plays, vs, size, initial, maxDepth);
  }

  /**
   * The plays Expand makes: the available moves, minus every move of the
   * parent's outgoing edges when there is a parent (no backtracking).
   */
  method ExploredPlays(current: Vertex, ghost size: int) returns (plays: seq<int>)
    requires current.board.Valid() && current.board.size == size
    requires current.incomingEdge != null ==> current.incomingEdge.parent.moves.Some?
    ensures forall m :: m in plays <==>
              m in AvailableMovesCells(size, current.board.Cells()) && m !in ParentMoves(current)
  {
    plays := current.board.AvailableMoves();
    var parent := if current.incomingEdge != null then current.incomingEdge.parent else null;
    if parent != null {
      var previousPlays := MovesOf(parent.moves.value);
      plays := WithoutMoves(plays, previousPlays);
    }
  }

  /** The moves of the parent's outgoing edges (the source's previousPlays), empty at the root. */
  ghost function ParentMoves(v: Vertex): set<int>
    reads v`incomingEdge, if v.incomingEdge != null then {v.incomingEdge.parent} else {}
  {
    if v.incomingEdge == null || v.incomingEdge.parent.moves.None? then {}
    else MovesOf(v.incomingEdge.parent.moves.value)
  }

  /** The moves labelling the new edges are exactly the plays they were made from. */
  lemma ExploredMoves(current: Vertex, edges: seq<Edge>, plays: seq<int>, size: int)
    requires |edges| == |plays| && forall i :: 0 <= i < |edges| ==> ChildOK(current, edges[i], plays[i], size)
    ensures forall m :: m in MovesOf(edges) <==> m in plays
  {
    forall m | m in plays ensures m in MovesOf(edges) {
      var i :| 0 <= i < |plays| && plays[i] == m;
      assert ChildOK(current, edges[i], plays[i], size);
      assert edges[i] in edges;
    }
    forall m | m in MovesOf(edges) ensures m in plays {
      var e :| e in edges && e.move == m;
      var i :| 0 <= i < |edges| && edges[i] == e;
      assert ChildOK(current, edges[i], plays[i], size);
    }
  }

  /** current.moves = the new edges: the tree grows by the children and stays well built. */
  method Attach(current: Vertex, edges: seq<Edge>, ghost plays: seq<int>, ghost vs: set<Vertex>,
                ghost size: int, ghost initial: seq<int>, ghost maxDepth: int)
    requires WellBuilt(vs, size, initial, maxDepth) && current in vs && current.moves.None?
    requires current.depth < maxDepth && !IsSolvedCells(current.board.Cells())
    requires |edges| == |plays|
    requires forall i :: 0 <= i < |edges| ==>
               ChildOK(current, edges[i], plays[i], size) && edges[i].result !in vs
    requires current.incomingEdge != null ==>
               current.incomingEdge.parent.moves.Some? &&
               forall m :: m in plays ==> m !in MovesOf(current.incomingEdge.parent.moves.value)
    modifies current`moves
    ensures current.moves == Some(edges)
    ensures WellBuilt(vs + Results(edges), size, initial, maxDepth)
    ensures forall i :: 0 <= i < |edges| ==>
              edges[i].result.moves.None? && edges[i].result.depth == current.depth + 1
  {
    LinkedGrows(current, edges, plays, vs, size, initial);
    ReplaysGrow(current, edges, plays, vs, size, initial, maxDepth);
    // current is nobody's parent yet: every parent in the tree has been expanded
    forall v | v in vs && v.incomingEdge != null ensures v.incomingEdge.parent != current {
      assert ExpandedAt(v, vs, maxDepth);
    }
    current.moves := Some(edges);
    forall v | v in vs && v != current ensures ExpandedAt(v, vs, maxDepth) {
      assert old(ExpandedAt(v, vs, maxDepth));
    }
    ExpansionsGrow(current, edges, plays, vs, size, initial, maxDepth);
  }

  /**
   * Once an unexpanded vertex records the edges to its new children, every
   * expansion in the grown tree is well formed.
   */
  lemma ExpansionsGrow(current: Vertex, edges: seq<Edge>, plays: seq<int>, vs: set<Vertex>,
                       size: int, initial: seq<int>, maxDepth: int)
    requires 0 <= size && |initial| == size * size
    requires Linked(vs) && Linked(vs + Results(edges)) && current in vs && current.moves == Some(edges)
    requires forall v :: v in vs && v != current ==> ExpandedAt(v, vs, maxDepth)
    requires current.incomingEdge != null ==> current.incomingEdge.parent.moves.Some?
    requires current.depth < maxDepth && !IsSolvedCells(current.board.Cells())
    requires |edges| == |plays|
    requires forall i :: 0 <= i < |edges| ==>
               ChildOK(current, edges[i], plays[i], size) && edges[i].result !in vs
    requires current.incomingEdge != null ==>
               forall m :: m in plays ==> m !in MovesOf(current.incomingEdge.parent.moves.value)
    ensures ExpansionsOK(vs + Results(edges), maxDepth)
  {
    ghost var vs' := vs + Results(edges);
    forall v | v in vs' ensures ExpandedAt(v, vs', maxDepth) {
      if v == current {
        forall e | e in edges
          ensures e.parent == v && e.result in vs' && e.result.incomingEdge == e
          ensures v.incomingEdge != null ==> e.move !in MovesOf(v.incomingEdge.parent.moves.value)
        {
          var i :| 0 <= i < |edges| && edges[i] == e;
          assert ChildOK(current, edges[i], plays[i], size);
        }
      } else if v in vs {
        assert ExpandedAt(v, vs, maxDepth);
      } else {
        var i :| 0 <= i < |edges| && edges[i].result == v;
        assert ChildOK(current, edges[i], plays[i], size);
      }
    }
  }

  /** Adding the children of a list of edges keeps every parent link consistent. */
  lemma LinkedGrows(current: Vertex, edges: seq<Edge>, plays: seq<int>, vs: set<Vertex>,
                    size: int, initial: seq<int>)
    requires 0 <= size && |initial| == size * size
    requires Linked(vs) && current in vs && |edges| == |plays|
    requires forall i :: 0 <= i < |edges| ==> ChildOK(current, edges[i], plays[i], size)
    ensures Linked(vs + Results(edges))
  {
    forall v | v in vs + Results(edges) ensures LinkedAt(v, vs + Results(edges)) {
      if v !in vs {
        var i :| 0 <= i < |edges| && edges[i].result == v;
        assert ChildOK(current, edges[i], plays[i], size);
      } else {
        assert LinkedAt(v, vs);
      }
    }
  }

  /** Adding the children of an unexpanded vertex above the depth bound keeps every board replayable. */
  lemma ReplaysGrow(current: Vertex, edges: seq<Edge>, plays: seq<int>, vs: set<Vertex>,
                    size: int, initial: seq<int>, maxDepth: int)
    requires 0 <= size && |initial| == size * size
    requires BoardsReplay(vs, size, initial, maxDepth) && current in vs && current.depth < maxDepth
    requires |edges| == |plays|
    requires forall i :: 0 <= i < |edges| ==> ChildOK(current, edges[i], plays[i], size)
    ensures BoardsReplay(vs + Results(edges), size, initial, maxDepth)
  {
    forall v | v in vs + Results(edges) ensures ReplaysAt(v, size, initial, maxDepth) {
      if v !in vs {
        var i :| 0 <= i < |edges| && edges[i].result == v;
        assert ChildOK(current, edges[i], plays[i], size);
        assert ReplaysAt(current, size, initial, maxDepth);
        ReplaySnoc(size, initial, current.path, plays[i]);
        PlayTileKeepsDistinct(size, current.board.Cells(), plays[i]);
      }
    }
  }
}
