/**
 * The value-level meaning of a Board (Assets/Scripts/Board.cs): its size and the
 * row-major sequence of its cells. The Board class is proved against these
 * functions, and the solvers state their soundness in terms of Replay.
 */
module BoardCells {

  import opened Wrappers

  /** The value of the blank cell (Board.Empty). */
  const Empty: int := -1

  /** Row-major offset of (row, col), as in Get, Set and Swap; a grid cell's offset is in the array. */
  function Idx(size: int, row: int, col: int): (k: int)
    ensures InGrid(size, row, col) ==> 0 <= k < size * size
  {
    if InGrid(size, row, col) then
      MulMonotone(row, size - 1, size);
      MulMonotone(0, row, size);
      row * size + col
    else
      row * size + col
  }

  predicate InGrid(size: int, row: int, col: int)
  {
    0 <= row < size && 0 <= col < size
  }

  /** (r1, c1) and (r2, c2) share a side. */
  predicate Adjacent(r1: int, c1: int, r2: int, c2: int)
  {
    (r1 == r2 && (c1 - c2 == 1 || c2 - c1 == 1)) || (c1 == c2 && (r1 - r2 == 1 || r2 - r1 == 1))
  }

  /** No value occurs twice. */
  predicate Distinct(s: seq<int>)
  {
    forall i, j :: 0 <= i < j < |s| ==> s[i] != s[j]
  }

  /** Exactly one cell, the one at offset e, holds Empty. */
  predicate OnlyEmptyAt(s: seq<int>, e: int)
  {
    0 <= e < |s| && s[e] == Empty && forall i :: 0 <= i < |s| && i != e ==> s[i] != Empty
  }

  // ---------------------------------------------------------------- arithmetic

  lemma MulMonotone(a: int, b: int, c: int)
    requires a <= b && 0 <= c
    ensures a * c <= b * c
  {
    assert b * c - a * c == (b - a) * c;
  }

  /** Offsets of distinct grid cells are distinct. */
  lemma IdxInjective(size: int, r1: int, c1: int, r2: int, c2: int)
    requires InGrid(size, r1, c1) && InGrid(size, r2, c2)
    requires Idx(size, r1, c1) == Idx(size, r2, c2)
    ensures r1 == r2 && c1 == c2
  {
    assert r1 * size + c1 == r2 * size + c2;
    if r1 < r2 {
      assert (r1 + 1) * size == r1 * size + size;
      MulMonotone(r1 + 1, r2, size);
    } else if r2 < r1 {
      assert (r2 + 1) * size == r2 * size + size;
      MulMonotone(r2 + 1, r1, size);
    }
  }

  /** An offset in range splits into an in-grid row and column. */
  lemma RowColOf(size: int, i: int)
    requires 0 <= size && 0 <= i < size * size
    ensures size > 0
    ensures InGrid(size, i / size, i % size) && Idx(size, i / size, i % size) == i
  {
    var q, r := i / size, i % size;
    assert i == q * size + r;
    if q >= size {
      MulMonotone(size, q, size);
    }
    if q < 0 {
      MulMonotone(q, -1, size);
    }
  }

  /** Dividing an offset by the size gives back its row and column. */
  lemma RowColOfIdx(size: int, row: int, col: int)
    requires InGrid(size, row, col)
    ensures Idx(size, row, col) / size == row && Idx(size, row, col) % size == col
  {
    var i := Idx(size, row, col);
    RowColOf(size, i);
    IdxInjective(size, row, col, i / size, i % size);
  }

  // ---------------------------------------------------------------- IsSolved

  /**
   * The value IsSolved expects at offset i of n cells: it starts at 0, counts
   * up, and switches to Empty after offset n - 2. On a 1x1 board the single
   * cell is expected to hold 0.
   */
  function SolvedValue(i: int, n: int): (v: int)
    ensures 0 <= i < n - 1 ==> v == i
    ensures n >= 2 && i == n - 1 ==> v == Empty
  {
    if 0 < i && i == n - 1 then Empty else i
  }

  predicate IsSolvedCells(s: seq<int>): (solved: bool)
    ensures solved && |s| >= 2 ==> s[|s| - 1] == Empty && Empty in s
    ensures solved && |s| == 1 ==> s[0] == 0
  {
    forall i :: 0 <= i < |s| ==> s[i] == SolvedValue(i, |s|)
  }

  /** For boards of at least two cells: 0, 1, ..., n - 2 and then Empty. */
  lemma SolvedCharacterisation(s: seq<int>)
    requires |s| >= 2
    ensures IsSolvedCells(s) <==>
              (forall i :: 0 <= i < |s| - 1 ==> s[i] == i) && s[|s| - 1] == Empty
  {
    if (forall i :: 0 <= i < |s| - 1 ==> s[i] == i) && s[|s| - 1] == Empty {
      forall i | 0 <= i < |s| ensures s[i] == SolvedValue(i, |s|) {
        if i < |s| - 1 {
          assert s[i] == i;
        }
      }
    }
  }

  /** No single swap of two different cells of a solved board is solved. */
  lemma SwapUnsolves(s: seq<int>, i: int, j: int)
    requires IsSolvedCells(s) && |s| >= 2
    requires 0 <= i < |s| && 0 <= j < |s| && i != j
    ensures !IsSolvedCells(SwapCells(s, i, j))
  {
    var t := SwapCells(s, i, j);
    assert t[j] == s[i] == SolvedValue(i, |s|);
    assert SolvedValue(i, |s|) != SolvedValue(j, |s|);
  }

  // ---------------------------------------------------------------- Swap

  /** Swap(src, dst) on the cell array: the two cells trade values. */
  function SwapCells(s: seq<int>, src: int, dst: int): (t: seq<int>)
    requires 0 <= src < |s| && 0 <= dst < |s|
    ensures |t| == |s| && t[src] == s[dst] && t[dst] == s[src]
    ensures forall k :: 0 <= k < |s| && k != src && k != dst ==> t[k] == s[k]
  {
    s[dst := s[src]][src := s[dst]]
  }

  /** Swapping is a permutation of the cells. */
  lemma SwapPermutes(s: seq<int>, src: int, dst: int)
    requires 0 <= src < |s| && 0 <= dst < |s|
    ensures multiset(SwapCells(s, src, dst)) == multiset(s)
  {
    var u := s[dst := s[src]];
    assert multiset(u) == multiset(s) - multiset{s[dst]} + multiset{s[src]};
    assert u[src] == (if src == dst then s[src] else s[src]);
    assert multiset(u[src := s[dst]]) == multiset(u) - multiset{u[src]} + multiset{s[dst]};
  }

  /** Swapping the same two cells twice restores the board. */
  lemma SwapTwice(s: seq<int>, src: int, dst: int)
    requires 0 <= src < |s| && 0 <= dst < |s|
    ensures SwapCells(SwapCells(s, src, dst), src, dst) == s
  {
    var t := SwapCells(SwapCells(s, src, dst), src, dst);
    assert forall k :: 0 <= k < |s| ==> t[k] == s[k];
  }

  lemma SwapKeepsDistinct(s: seq<int>, src: int, dst: int)
    requires 0 <= src < |s| && 0 <= dst < |s| && Distinct(s)
    ensures Distinct(SwapCells(s, src, dst))
  {
    var t := SwapCells(s, src, dst);
    forall i, j | 0 <= i < j < |t| ensures t[i] != t[j] {
      var i' := if i == src then dst else if i == dst then src else i;
      var j' := if j == src then dst else if j == dst then src else j;
      assert t[i] == s[i'] && t[j] == s[j'];
    }
  }

  // ---------------------------------------------------------------- Play(row, col)

  /**
   * Offset of the neighbour of (row, col) that Play swaps with, or -1. Play
   * runs four checks (above, below, left, right) that are not else-chained and
   * each overwrites the result with a fresh clone, so the LAST neighbour that
   * holds Empty decides.
   */
  function EmptyNeighbour(size: int, s: seq<int>, row: int, col: int): (k: int)
    requires |s| == size * size && InGrid(size, row, col)
    ensures k == -1 || 0 <= k < |s|
  {
    var k1 := CheckCell(size, s, row > 0, row - 1, col, -1);
    var k2 := CheckCell(size, s, row < size - 1, row + 1, col, k1);
    var k3 := CheckCell(size, s, col > 0, row, col - 1, k2);
    CheckCell(size, s, col < size - 1, row, col + 1, k3)
  }

  /**
   * One check of Play, guarded by inside (the neighbour (r, c) exists): the
   * offset of (r, c) when it holds Empty, else the earlier finding k.
   */
  function CheckCell(size: int, s: seq<int>, inside: bool, r: int, c: int, k: int): (k': int)
    requires |s| == size * size && (inside ==> InGrid(size, r, c))
    ensures k' == k || (inside && 0 <= k' < |s| && s[k'] == Empty)
  {
    if inside && s[Idx(size, r, c)] == Empty then Idx(size, r, c) else k
  }

  /** Play(row, col): a new board with the tile swapped into the empty neighbour, or null. */
  function PlayCells(size: int, s: seq<int>, row: int, col: int): (r: Option<seq<int>>)
    requires |s| == size * size && InGrid(size, row, col)
    ensures r.Some? ==> |r.value| == |s|
  {
    var k := EmptyNeighbour(size, s, row, col);
    if k < 0 then None else Some(SwapCells(s, Idx(size, row, col), k))
  }

  /** Play(row, col) fails exactly when no in-grid neighbour of (row, col) holds Empty. */
  lemma PlayNoneIff(size: int, s: seq<int>, row: int, col: int)
    requires |s| == size * size && InGrid(size, row, col)
    ensures PlayCells(size, s, row, col).None? <==>
              forall r, c :: InGrid(size, r, c) && Adjacent(row, col, r, c) ==> s[Idx(size, r, c)] != Empty
  {
    if PlayCells(size, s, row, col).None? {
      forall r, c | InGrid(size, r, c) && Adjacent(row, col, r, c) ensures s[Idx(size, r, c)] != Empty {
        if r == row - 1 {
        } else if r == row + 1 {
        } else if c == col - 1 {
        } else {
        }
      }
    } else {
      var k := EmptyNeighbour(size, s, row, col);
      if k == Idx(size, row - 1, col) && row > 0 && s[k] == Empty {
        assert Adjacent(row, col, row - 1, col) && InGrid(size, row - 1, col);
      } else if k == Idx(size, row + 1, col) && row < size - 1 && s[k] == Empty {
        assert Adjacent(row, col, row + 1, col) && InGrid(size, row + 1, col);
      } else if k == Idx(size, row, col - 1) && col > 0 && s[k] == Empty {
        assert Adjacent(row, col, row, col - 1) && InGrid(size, row, col - 1);
      } else {
        assert Adjacent(row, col, row, col + 1) && InGrid(size, row, col + 1);
      }
    }
  }

  /**
   * On a board whose only Empty is at (er, ec), Play(row, col) succeeds exactly
   * when (row, col) is next to it, and then swaps the tile with the Empty.
   */
  lemma PlayWithOneEmpty(size: int, s: seq<int>, row: int, col: int, er: int, ec: int)
    requires |s| == size * size && InGrid(size, row, col) && InGrid(size, er, ec)
    requires OnlyEmptyAt(s, Idx(size, er, ec))
    ensures PlayCells(size, s, row, col) ==
              if Adjacent(row, col, er, ec)
              then Some(SwapCells(s, Idx(size, row, col), Idx(size, er, ec)))
              else None
  {
    var e := Idx(size, er, ec);
    var k := EmptyNeighbour(size, s, row, col);
    PlayNoneIff(size, s, row, col);
    if k >= 0 {
      assert s[k] == Empty;
      assert k == e;
      var r, c :=
        if k == Idx(size, row - 1, col) && row > 0 then row - 1
        else if k == Idx(size, row + 1, col) && row < size - 1 then row + 1
        else row,
        if k == Idx(size, row - 1, col) && row > 0 then col
        else if k == Idx(size, row + 1, col) && row < size - 1 then col
        else if k == Idx(size, row, col - 1) && col > 0 then col - 1
        else col + 1;
      assert InGrid(size, r, c) && Adjacent(row, col, r, c) && Idx(size, r, c) == e;
      IdxInjective(size, r, c, er, ec);
    }
  }

  /**
   * Round trip: after a successful Play(row, col) on a board with one Empty,
   * playing the cell that was empty restores the original cells.
   */
  lemma PlayRoundTrip(size: int, s: seq<int>, row: int, col: int, er: int, ec: int)
    requires |s| == size * size && InGrid(size, row, col) && InGrid(size, er, ec)
    requires OnlyEmptyAt(s, Idx(size, er, ec))
    requires PlayCells(size, s, row, col).Some?
    ensures PlayCells(size, PlayCells(size, s, row, col).value, er, ec) == Some(s)
  {
    var p, e := Idx(size, row, col), Idx(size, er, ec);
    PlayWithOneEmpty(size, s, row, col, er, ec);
    assert Adjacent(er, ec, row, col);
    if p == e {
      IdxInjective(size, row, col, er, ec);
    }
    var t := SwapCells(s, p, e);
    EmptyMoves(s, p, e);
    PlayWithOneEmpty(size, t, er, ec, row, col);
    SwapBack(s, p, e);
  }

  /** Swapping the Empty with another cell moves the only Empty there. */
  lemma EmptyMoves(s: seq<int>, p: int, e: int)
    requires OnlyEmptyAt(s, e) && 0 <= p < |s| && p != e
    ensures OnlyEmptyAt(SwapCells(s, p, e), p)
  {
  }

  lemma SwapBack(s: seq<int>, p: int, e: int)
    requires 0 <= p < |s| && 0 <= e < |s|
    ensures SwapCells(SwapCells(s, p, e), e, p) == s
  {
    var u := SwapCells(SwapCells(s, p, e), e, p);
    assert forall i :: 0 <= i < |s| ==> u[i] == s[i];
  }

  // ---------------------------------------------------------------- Play(tile)

  /** Row-major position of the first cell holding x, or -1 (Find, not part of Board.cs). */
  function FirstIndex(s: seq<int>, x: int): (r: int)
    ensures -1 <= r < |s|
    ensures r >= 0 ==> s[r] == x && forall j :: 0 <= j < r ==> s[j] != x
    ensures r < 0 ==> x !in s
  {
    if |s| == 0 then -1
    else if s[0] == x then 0
    else
      var k := FirstIndex(s[1..], x);
      if k < 0 then -1 else k + 1
  }

  /** Play(tile): Find the tile, then Play(row, col) there (not part of Board.cs). */
  function PlayTileCells(size: int, s: seq<int>, tile: int): (r: Option<seq<int>>)
    requires 0 <= size && |s| == size * size
    ensures r.Some? ==> |r.value| == |s|
  {
    var i := FirstIndex(s, tile);
    if i < 0 then None
    else
      RowColOf(size, i);
      PlayCells(size, s, i / size, i % size)
  }

  /** A successful Play(tile) keeps the cell values distinct: it only swaps two cells. */
  lemma PlayTileKeepsDistinct(size: int, s: seq<int>, tile: int)
    requires 0 <= size && |s| == size * size && Distinct(s)
    requires PlayTileCells(size, s, tile).Some?
    ensures Distinct(PlayTileCells(size, s, tile).value)
  {
    var i := FirstIndex(s, tile);
    RowColOf(size, i);
    SwapKeepsDistinct(s, Idx(size, i / size, i % size), EmptyNeighbour(size, s, i / size, i % size));
  }

  /**
   * AvailableMoves: the values of the in-grid cells above, below, left and
   * right of the first Empty (not part of Board.cs).
   */
  function AvailableMovesCells(size: int, s: seq<int>): (moves: seq<int>)
    requires 0 <= size && |s| == size * size
    ensures Empty !in s ==> moves == []
    ensures |moves| <= 4
  {
    var e := FirstIndex(s, Empty);
    if e < 0 then []
    else
      RowColOf(size, e);
      NeighbourValues(size, s, e / size, e % size)
  }

  /** The values above, below, left and right of (er, ec), where those cells exist. */
  function NeighbourValues(size: int, s: seq<int>, er: int, ec: int): (vs: seq<int>)
    requires |s| == size * size && InGrid(size, er, ec)
    ensures |vs| <= 4
  {
    (if er > 0 then [s[Idx(size, er - 1, ec)]] else [])
    + (if er < size - 1 then [s[Idx(size, er + 1, ec)]] else [])
    + (if ec > 0 then [s[Idx(size, er, ec - 1)]] else [])
    + (if ec < size - 1 then [s[Idx(size, er, ec + 1)]] else [])
  }

  /** On a board without repeated values, a tile next to the Empty is playable by value. */
  lemma NeighbourPlayable(size: int, s: seq<int>, r: int, c: int, er: int, ec: int)
    requires 0 <= size && |s| == size * size && Distinct(s)
    requires InGrid(size, r, c) && InGrid(size, er, ec) && Adjacent(r, c, er, ec)
    requires s[Idx(size, er, ec)] == Empty
    ensures s[Idx(size, r, c)] != Empty && FirstIndex(s, s[Idx(size, r, c)]) == Idx(size, r, c)
    ensures PlayTileCells(size, s, s[Idx(size, r, c)]) ==
              Some(SwapCells(s, Idx(size, r, c), Idx(size, er, ec)))
  {
    var p, e := Idx(size, r, c), Idx(size, er, ec);
    if p == e {
      IdxInjective(size, r, c, er, ec);
    }
    assert OnlyEmptyAt(s, e);
    var i := FirstIndex(s, s[p]);
    assert i == p;
    RowColOfIdx(size, r, c);
    PlayWithOneEmpty(size, s, r, c, er, ec);
  }

  /**
   * Every value AvailableMoves offers is playable, and playing it swaps that
   * tile with the Empty: the solvers never null-check Play(tile).
   */
  lemma AvailableMovesPlayable(size: int, s: seq<int>)
    requires 0 <= size && |s| == size * size && Distinct(s)
    ensures forall m :: m in AvailableMovesCells(size, s) ==>
              m in s && m != Empty && Empty in s &&
              PlayTileCells(size, s, m) == Some(SwapCells(s, FirstIndex(s, m), FirstIndex(s, Empty)))
  {
    var e := FirstIndex(s, Empty);
    if e >= 0 {
      RowColOf(size, e);
      NeighboursPlayable(size, s, e / size, e % size);
    }
  }

  lemma NeighboursPlayable(size: int, s: seq<int>, er: int, ec: int)
    requires 0 <= size && |s| == size * size && Distinct(s)
    requires InGrid(size, er, ec) && s[Idx(size, er, ec)] == Empty
    ensures forall m :: m in NeighbourValues(size, s, er, ec) ==>
              m in s && m != Empty &&
              PlayTileCells(size, s, m) == Some(SwapCells(s, FirstIndex(s, m), Idx(size, er, ec)))
  {
    var e := Idx(size, er, ec);
    forall m | m in NeighbourValues(size, s, er, ec)
      ensures m in s && m != Empty
      ensures PlayTileCells(size, s, m) == Some(SwapCells(s, FirstIndex(s, m), e))
    {
      var r, c := NeighbourOf(size, s, er, ec, m);
      NeighbourPlayable(size, s, r, c, er, ec);
    }
  }

  /** A cell next to (er, ec) that holds m, for each m in NeighbourValues. */
  lemma NeighbourOf(size: int, s: seq<int>, er: int, ec: int, m: int) returns (r: int, c: int)
    requires |s| == size * size && InGrid(size, er, ec)
    requires m in NeighbourValues(size, s, er, ec)
    ensures InGrid(size, r, c) && Adjacent(r, c, er, ec) && s[Idx(size, r, c)] == m
  {
    if er > 0 && m == s[Idx(size, er - 1, ec)] {
      r, c := er - 1, ec;
    } else if er < size - 1 && m == s[Idx(size, er + 1, ec)] {
      r, c := er + 1, ec;
    } else if ec > 0 && m == s[Idx(size, er, ec - 1)] {
      r, c := er, ec - 1;
    } else {
      r, c := er, ec + 1;
    }
  }

  // ---------------------------------------------------------------- replaying a solution

  /** The board reached by playing the tiles of moves one after another, or None if one fails. */
  function Replay(size: int, s: seq<int>, moves: seq<int>): (r: Option<seq<int>>)
    requires 0 <= size && |s| == size * size
    ensures r.Some? ==> |r.value| == |s|
    decreases |moves|
  {
    if moves == [] then Some(s)
    else
      match PlayTileCells(size, s, moves[0])
      case None => None
      case Some(t) => Replay(size, t, moves[1..])
  }

  /** Replaying one more move is playing it on the board the shorter replay reached. */
  lemma {:induction false} ReplaySnoc(size: int, s: seq<int>, moves: seq<int>, m: int)
    requires 0 <= size && |s| == size * size
    ensures Replay(size, s, moves + [m]) ==
              match Replay(size, s, moves)
              case None => None
              case Some(t) => PlayTileCells(size, t, m)
    decreases |moves|
  {
    if moves == [] {
      assert [m][1..] == [];
    } else {
      assert (moves + [m])[0] == moves[0];
      assert (moves + [m])[1..] == moves[1..] + [m];
      match PlayTileCells(size, s, moves[0])
      case None =>
      case Some(t) => ReplaySnoc(size, t, moves[1..], m);
    }
  }

  /** Playing moves from s, one by one with Play(tile), ends in a solved board. */
  ghost predicate SolvesFrom(size: int, s: seq<int>, moves: seq<int>)
    requires 0 <= size && |s| == size * size
  {
    var r := Replay(size, s, moves);
    r.Some? && IsSolvedCells(r.value)
  }
}
