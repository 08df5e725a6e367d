/**
 * StrategicSolver (Assets/Scripts/Solvers/StrategicSolver.cs): the start of a
 * tile-by-tile strategy. IndexOfTileToActOn scans for the first cell that
 * does not hold its own index, DestinationForTileIndex turns an index into
 * (row, column) with C#'s truncating division, and Next is a stub that
 * either reports "solved" or hands the board back unchanged.
 */
module Strategic {

  import opened BoardCells
  import opened Boards

  // ------------------------------------------------------------ C# integer division

  function Abs(a: int): nat
  {
    if a < 0 then -a else a
  }

  /** C#'s a / b on int: the quotient rounded toward zero. */
  function Quot(a: int, b: int): (q: int)
    requires b != 0
    ensures (a >= 0) == (b > 0) ==> q >= 0
    ensures (a >= 0) != (b > 0) ==> q <= 0
    ensures Abs(a) < Abs(b) ==> q == 0
  {
    var n, d := Abs(a), Abs(b);
    assert 0 <= n / d && (n < d ==> n / d == 0);
    if (a >= 0) == (b > 0) then n / d else -(n / d)
  }

  /** C#'s a % b on int: the remainder takes the sign of a. */
  function Rem(a: int, b: int): (r: int)
    requires b != 0
    ensures a >= 0 ==> 0 <= r < Abs(b)
    ensures a < 0 ==> r <= 0 && Abs(r) < Abs(b)
  {
    if a >= 0 then Abs(a) % Abs(b) else -(Abs(a) % Abs(b))
  }

  /** Euclidean division by a positive divisor, kept apart so that QuotRem's cases stay cheap. */
  lemma Euclid(n: int, d: int)
    requires d > 0
    ensures (n / d) * d + n % d == n && 0 <= n % d < d
  {
  }

  /** Negation moves out of a product. */
  lemma NegMul(x: int, y: int)
    ensures (-x) * y == -(x * y) && x * (-y) == -(x * y)
  {
  }

  /** Quot and Rem split a as C# promises: a == (a / b) * b + a % b, with |a % b| < |b|. */
  lemma {:induction false} QuotRem(a: int, b: int)
    requires b != 0
    ensures Quot(a, b) * b + Rem(a, b) == a
    ensures Abs(Rem(a, b)) < Abs(b)
    ensures a >= 0 ==> Rem(a, b) >= 0
    ensures a >= 0 && b > 0 ==> Quot(a, b) == a / b && Rem(a, b) == a % b
  {
    var n: int, d: int := Abs(a), Abs(b);
    var q: int, m: int := n / d, n % d;
    Euclid(n, d);
    if b > 0 && a >= 0 {
      assert Quot(a, b) == q && Rem(a, b) == m && b == d;
    } else if b > 0 {
      assert Quot(a, b) * b + Rem(a, b) == a by {
        assert Quot(a, b) == -q && Rem(a, b) == -m && b == d;
        NegMul(q, d);
      }
    } else if a >= 0 {
      assert Quot(a, b) * b + Rem(a, b) == a by {
        assert Quot(a, b) == -q && Rem(a, b) == m && b == -d;
        NegMul(q, d);
        NegMul(-q, d);
      }
    } else {
      assert Quot(a, b) * b + Rem(a, b) == a by {
        assert Quot(a, b) == q && Rem(a, b) == -m && b == -d;
        NegMul(q, d);
      }
    }
  }

  // ------------------------------------------------------------ IndexOfTileToActOn

  /** The first index k or later whose cell does not hold that index, or -1. */
  function FirstMisplacedFrom(s: seq<int>, k: nat): (r: int)
    requires k <= |s|
    ensures r == -1 || k <= r < |s|
    ensures r >= 0 ==> s[r] != r && forall j :: k <= j < r ==> s[j] == j
    ensures r == -1 <==> forall j :: k <= j < |s| ==> s[j] == j
    decreases |s| - k
  {
    if k == |s| then -1
    else if s[k] != k then k
    else FirstMisplacedFrom(s, k + 1)
  }

  /** The smallest index whose cell does not hold that index, or -1 when every cell does. */
  function FirstMisplaced(s: seq<int>): (r: int)
    ensures -1 <= r < |s|
    ensures r >= 0 ==> s[r] != r && forall j :: 0 <= j < r ==> s[j] == j
    ensures r == -1 <==> forall j :: 0 <= j < |s| ==> s[j] == j
  {
    FirstMisplacedFrom(s, 0)
  }

  /**
   * IndexOfTileToActOn(currentState): the scan with early return. A board
   * holding Empty (-1) always has a misplaced cell, so the result is then
   * never -1.
   */
  method IndexOfTileToActOn(currentState: Board) returns (r: int)
    requires currentState.Valid()
    ensures r == FirstMisplaced(currentState.Cells())
    ensures -1 <= r < currentState.size * currentState.size
    ensures r == -1 <==> forall j :: 0 <= j < |currentState.Cells()| ==> currentState.Cells()[j] == j
    ensures Empty in currentState.Cells() ==> r >= 0
  {
    var end := currentState.size * currentState.size;
    for i := 0 to end
      invariant forall j :: 0 <= j < i ==> currentState.Cells()[j] == j
    {
      var v := currentState.GetAt(i);
      if v != i && i < end {
        return i;
      }
    }
    return -1;
  }

  // ------------------------------------------------------------ DestinationForTileIndex

  /**
   * DestinationForTileIndex(index, board): (index / Size, index % Size) in
   * C#'s arithmetic. The row and column always recompose the index; for a
   * non-negative index on a non-empty board the column is in range.
   */
  function DestinationForTileIndex(index: int, board: Board): (rc: (int, int))
    requires board.size != 0
    ensures rc.0 * board.size + rc.1 == index
    ensures index >= 0 && board.size > 0 ==>
              0 <= rc.1 < board.size && rc.0 == index / board.size && rc.1 == index % board.size
  {
    QuotRem(index, board.size);
    (Quot(index, board.size), Rem(index, board.size))
  }

  // ------------------------------------------------------------ Next

  /**
   * Next(board): (-1, null) exactly when IndexOfTileToActOn gives -1;
   * otherwise the empty-space, tile and destination lookups are made, the
   * column branch does nothing, and (0, board) comes back.
   */
  method Next(board: Board) returns (move: int, next: Board?)
    requires board.Valid()
    ensures move == -1 && next == null <==> FirstMisplaced(board.Cells()) == -1
    ensures FirstMisplaced(board.Cells()) != -1 ==> move == 0 && next == board
  {
    var currentIdx := IndexOfTileToActOn(board);
    if currentIdx == -1 {
      return -1, null;
    }
    var emptyRow, emptyCol := board.FindEmptySpace();
    var currentRow, currentCol := board.Find(currentIdx);
    var (destRow, destCol) := DestinationForTileIndex(currentIdx, board);
    if destCol != currentCol {
    }
    return 0, board;
  }

  // ------------------------------------------------------------ the "solved" test

  /**
   * As written, a solved board of two or more cells is not reported as
   * solved: its last cell holds Empty, not its index, so the scan stops
   * there and Next returns (0, board).
   */
  lemma {:induction false} SolvedBoardActsOnLastCell(s: seq<int>)
    requires |s| >= 2 && IsSolvedCells(s)
    ensures FirstMisplaced(s) == |s| - 1
  {
    SolvedCharacterisation(s);
    assert s[|s| - 1] != |s| - 1;
  }

  /** The 2 x 2 solved board 0, 1, 2, Empty: the scan reports index 3, not -1. */
  lemma SolvedTwoByTwoNotReported()
    ensures IsSolvedCells([0, 1, 2, Empty]) && FirstMisplaced([0, 1, 2, Empty]) == 3
  {
    SolvedBoardActsOnLastCell([0, 1, 2, Empty]);
  }

  /**
   * The evidently intended scan: the first index whose cell differs from the
   * solved board's value there (its index, or Empty in the last cell), from
   * index k on; -1 exactly when no such cell remains.
   */
  function FirstOutOfPlaceFrom(s: seq<int>, k: nat): (r: int)
    requires k <= |s|
    ensures r == -1 || k <= r < |s|
    ensures r >= 0 ==> s[r] != SolvedValue(r, |s|) && forall j :: k <= j < r ==> s[j] == SolvedValue(j, |s|)
    ensures r == -1 <==> forall j :: k <= j < |s| ==> s[j] == SolvedValue(j, |s|)
    decreases |s| - k
  {
    if k == |s| then -1
    else if s[k] != SolvedValue(k, |s|) then k
    else FirstOutOfPlaceFrom(s, k + 1)
  }

  /** The corrected IndexOfTileToActOn: -1 exactly on a solved board. */
  function FirstOutOfPlace(s: seq<int>): (r: int)
    ensures -1 <= r < |s|
    ensures r == -1 <==> IsSolvedCells(s)
    ensures r >= 0 ==> s[r] != SolvedValue(r, |s|) && forall j :: 0 <= j < r ==> s[j] == SolvedValue(j, |s|)
  {
    FirstOutOfPlaceFrom(s, 0)
  }
}
