/**
 * Board (Assets/Scripts/Board.cs): an N x N grid stored row-major in an int
 * array. Every method is proved against the value-level functions of
 * BoardCells, through Cells().
 */
module Boards {

  import opened BoardCells

  class Board {

    const size: int
    const spaces: array<int>

    /** The array holds size * size cells. */
    ghost predicate Valid()
    {
      0 <= size && spaces.Length == size * size
    }

    /** The board's cells, row-major. */
    ghost function Cells(): seq<int>
      reads spaces
    {
      spaces[..]
    }

    /** Board(size): size * size cells, all Empty. */
    constructor (size: int)
      requires 0 <= size
      ensures Valid() && this.size == size && fresh(spaces)
      ensures Cells() == seq(size * size, _ => Empty)
    {
      this.size := size;
      var a := new int[size * size];
      var i := 0;
      while i < a.Length
        invariant 0 <= i <= a.Length
        invariant forall j :: 0 <= j < i ==> a[j] == Empty
      {
        a[i] := Empty;
        i := i + 1;
      }
      spaces := a;
    }

    /** Board(Board src): same size, same cells, its own array. */
    constructor Copy(src: Board)
      requires src.Valid()
      ensures Valid() && size == src.size && fresh(spaces)
      ensures Cells() == src.Cells()
    {
      size := src.size;
      var a := new int[src.size * src.size];
      var i := 0;
      while i < a.Length
        invariant 0 <= i <= a.Length
        invariant forall j :: 0 <= j < i ==> a[j] == src.spaces[j]
      {
        a[i] := src.spaces[i];
        i := i + 1;
      }
      spaces := a;
    }

    /** A fresh board equal to this one; changing it later leaves this one alone. */
    method Clone() returns (b: Board)
      requires Valid()
      ensures fresh(b) && fresh(b.spaces) && b.Valid()
      ensures b.size == size && b.Cells() == Cells()
    {
      b := new Board.Copy(this);
    }

    /** Only the cell at (row, col) changes, and it now holds value. */
    method Set(row: int, col: int, value: int)
      requires Valid() && 0 <= Idx(size, row, col) < spaces.Length
      modifies spaces
      ensures Cells() == old(Cells())[Idx(size, row, col) := value]
    {
      spaces[row * size + col] := value;
    }

    method Get(row: int, col: int) returns (v: int)
      requires Valid() && 0 <= Idx(size, row, col) < spaces.Length
      ensures v == Cells()[Idx(size, row, col)]
    {
      v := spaces[row * size + col];
    }

    /** The IsSolved property: one scan with the expected value running 0, 1, ..., then Empty. */
    method IsSolved() returns (solved: bool)
      requires Valid()
      ensures solved == IsSolvedCells(Cells())
    {
      var expected := 0;
      for i := 0 to spaces.Length
        invariant forall j :: 0 <= j < i ==> spaces[j] == SolvedValue(j, spaces.Length)
        invariant i < spaces.Length ==> expected == SolvedValue(i, spaces.Length)
      {
        if spaces[i] == expected {
          expected := if i == spaces.Length - 2 then Empty else i + 1;
        } else {
          return false;
        }
      }
      return true;
    }

    /** The two addressed cells trade values; every other cell keeps its value. */
    method Swap(srcRow: int, srcCol: int, dstRow: int, dstCol: int)
      requires Valid()
      requires 0 <= Idx(size, srcRow, srcCol) < spaces.Length
      requires 0 <= Idx(size, dstRow, dstCol) < spaces.Length
      modifies spaces
      ensures Cells() == SwapCells(old(Cells()), Idx(size, srcRow, srcCol), Idx(size, dstRow, dstCol))
    {
      var srcOffset := srcRow * size + srcCol;
      var dstOffset := dstRow * size + dstCol;
      var t := spaces[dstOffset];
      spaces[dstOffset] := spaces[srcOffset];
      spaces[srcOffset] := t;
    }

    /**
     * Play(row, col): null when no neighbour holds Empty, otherwise a fresh
     * board with the tile swapped into the (last found) empty neighbour. The
     * receiver is never changed.
     */
    method Play(row: int, col: int) returns (result: Board?)
      requires Valid() && InGrid(size, row, col)
      ensures result == null <==> PlayCells(size, Cells(), row, col).None?
      ensures result != null ==>
                fresh(result) && fresh(result.spaces) && result.Valid() && result.size == size &&
                result.Cells() == PlayCells(size, Cells(), row, col).value
    {
      ghost var s := Cells();
      ghost var k := -1;
      result := null;
      result, k := CheckNeighbour(row, col, row > 0, row - 1, col, result, s, k);
      assert Cells() == s;
      result, k := CheckNeighbour(row, col, row < size - 1, row + 1, col, result, s, k);
      assert Cells() == s;
      result, k := CheckNeighbour(row, col, col > 0, row, col - 1, result, s, k);
      assert Cells() == s;
      result, k := CheckNeighbour(row, col, col < size - 1, row, col + 1, result, s, k);
      assert k == EmptyNeighbour(size, s, row, col) && Cells() == s;
    }

    /**
     * One of Play's four checks: when the neighbour (r, c) exists (inside)
     * and holds Empty, the previous result is replaced by a fresh clone with
     * (row, col) and (r, c) swapped; otherwise the previous result stands.
     */
    method CheckNeighbour(row: int, col: int, inside: bool, r: int, c: int, previous: Board?,
                          ghost s: seq<int>, ghost k0: int)
        returns (result: Board?, ghost k: int)
      requires Valid() && InGrid(size, row, col) && (inside ==> InGrid(size, r, c)) && s == Cells()
      requires PlayedInto(previous, row, col, k0)
      ensures k == CheckCell(size, s, inside, r, c, k0)
      ensures PlayedInto(result, row, col, k)
      ensures result == previous || (fresh(result) && fresh(result.spaces))
    {
      result, k := previous, k0;
      if inside {
        var v := Get(r, c);
        if v == Empty {
          result := SwappedClone(row, col, r, c);
          k := Idx(size, r, c);
        }
      }
    }

    /** What Play has built so far: no board exactly when no empty neighbour (index k) was found yet. */
    ghost predicate PlayedInto(result: Board?, row: int, col: int, k: int)
      requires Valid() && InGrid(size, row, col)
      reads this, spaces, if result != null then {result, result.spaces} else {}
    {
      (result == null <==> k < 0) &&
      (result != null ==>
         0 <= k < size * size && result.Valid() && result.size == size &&
         result.Cells() == SwapCells(Cells(), Idx(size, row, col), k))
    }

    /** One check of Play that matched: Clone() followed by Swap on the clone. */
    method SwappedClone(row: int, col: int, r: int, c: int) returns (b: Board)
      requires Valid() && InGrid(size, row, col) && InGrid(size, r, c)
      ensures fresh(b) && fresh(b.spaces) && b.Valid() && b.size == size
      ensures b.Cells() == SwapCells(Cells(), Idx(size, row, col), Idx(size, r, c))
    {
      b := Clone();
      b.Swap(row, col, r, c);
    }

    // ------------------------------------------------------------------
    // The members below are called by the solvers but are not part of
    // Board.cs; they are minimal definitions, specified by BoardCells.

    /** Get(index): the cell at a row-major offset. */
    method GetAt(i: int) returns (v: int)
      requires 0 <= i < spaces.Length
      ensures v == Cells()[i]
    {
      v := spaces[i];
    }

    /** Find(tile): the first cell holding tile, in row-major order, or (-1, -1). */
    method Find(tile: int) returns (row: int, col: int)
      requires Valid()
      ensures FirstIndex(Cells(), tile) < 0 ==> row == -1 && col == -1
      ensures FirstIndex(Cells(), tile) >= 0 ==>
                InGrid(size, row, col) && Idx(size, row, col) == FirstIndex(Cells(), tile) &&
                row == FirstIndex(Cells(), tile) / size && col == FirstIndex(Cells(), tile) % size
    {
      for i := 0 to spaces.Length
        invariant forall j :: 0 <= j < i ==> spaces[j] != tile
      {
        if spaces[i] == tile {
          assert FirstIndex(Cells(), tile) == i;
          RowColOf(size, i);
          return i / size, i % size;
        }
      }
      return -1, -1;
    }

    /** FindEmptySpace(): Find(Empty). */
    method FindEmptySpace() returns (row: int, col: int)
      requires Valid()
      ensures FirstIndex(Cells(), Empty) < 0 ==> row == -1 && col == -1
      ensures FirstIndex(Cells(), Empty) >= 0 ==>
                InGrid(size, row, col) && Idx(size, row, col) == FirstIndex(Cells(), Empty) &&
                row == FirstIndex(Cells(), Empty) / size && col == FirstIndex(Cells(), Empty) % size
    {
      row, col := Find(Empty);
    }

    /** AvailableMoves: the tiles next to the Empty, above, below, left and right. */
    method AvailableMoves() returns (moves: seq<int>)
      requires Valid()
      ensures moves == AvailableMovesCells(size, Cells())
    {
      var er, ec := FindEmptySpace();
      if er < 0 {
        return [];
      }
      ghost var s := Cells();
      var up, down, left, right := [], [], [], [];
      if er > 0 {
        var v := Get(er - 1, ec);
        up := [v];
      }
      if er < size - 1 {
        var v := Get(er + 1, ec);
        down := [v];
      }
      if ec > 0 {
        var v := Get(er, ec - 1);
        left := [v];
      }
      if ec < size - 1 {
        var v := Get(er, ec + 1);
        right := [v];
      }
      moves := up + down + left + right;
      assert moves == NeighbourValues(size, s, er, ec);
    }

    /** Play(tile): Find the tile, then Play(row, col); null when the tile is absent. */
    method PlayTile(tile: int) returns (result: Board?)
      requires Valid()
      ensures result == null <==> PlayTileCells(size, Cells(), tile).None?
      ensures result != null ==>
                fresh(result) && fresh(result.spaces) && result.Valid() && result.size == size &&
                result.Cells() == PlayTileCells(size, Cells(), tile).value
    {
      var row, col := Find(tile);
      if row < 0 {
        return null;
      }
      result := Play(row, col);
    }
  }
}
