/**
 * The board of the N x N game: a grid of integers where 0 is an empty cell,
 * 1 the human's mark and 2 the computer's mark. The specification side reads
 * a board as a sequence of rows; the in-place side keeps it in an array2.
 */
module BoardModel {

  datatype Option<T> = None | Some(value: T)

  /** A coordinate pair [row, col]. */
  datatype Move = Move(row: nat, col: nat)

  /** A board value: a sequence of rows. */
  type Board = seq<seq<int>>

  const Empty := 0
  const HumanNo := 1
  const ComputerNo := 2

  predicate IsPlayer(p: int)
  {
    p == HumanNo || p == ComputerNo
  }

  /** Turn alternation: the computer hands over to the human, anyone else to the computer. */
  function NextTurn(turn: int): (next: int)
    ensures IsPlayer(next)
    ensures next != turn
  {
    if turn == ComputerNo then HumanNo else ComputerNo
  }

  lemma NextTurnAlternates(p: int)
    requires IsPlayer(p)
    ensures NextTurn(NextTurn(p)) == p
  {
  }

  /** Every row has as many cells as there are rows. */
  predicate IsSquare(b: Board)
  {
    forall i :: 0 <= i < |b| ==> |b[i]| == |b|
  }

  predicate InBoard(b: Board, mv: Move)
  {
    mv.row < |b| && mv.col < |b[mv.row]|
  }

  predicate IsEmptyCell(b: Board, mv: Move)
  {
    InBoard(b, mv) && b[mv.row][mv.col] == Empty
  }

  predicate HasEmpty(b: Board)
  {
    exists i, j :: 0 <= i < |b| && 0 <= j < |b[i]| && b[i][j] == Empty
  }

  /** The board with the cell at mv set to v: `matrix[y][x] = v`. */
  function Place(b: Board, mv: Move, v: int): (r: Board)
    requires InBoard(b, mv)
    ensures |r| == |b|
    ensures forall i :: 0 <= i < |b| ==> |r[i]| == |b[i]|
    ensures forall i, j :: 0 <= i < |b| && 0 <= j < |b[i]| ==>
              r[i][j] == if i == mv.row && j == mv.col then v else b[i][j]
    ensures IsSquare(b) ==> IsSquare(r)
  {
    b[mv.row := b[mv.row][mv.col := v]]
  }

  /** Placing a mark in an empty cell and resetting that cell to 0 gives back the board. */
  lemma PlaceThenClear(b: Board, mv: Move, v: int)
    requires IsEmptyCell(b, mv)
    ensures Place(Place(b, mv, v), mv, Empty) == b
  {
    var r := Place(Place(b, mv, v), mv, Empty);
    forall i | 0 <= i < |b|
      ensures r[i] == b[i]
    {
      assert |r[i]| == |b[i]|;
    }
  }

  /** The contents of an array2 board, row by row. */
  function Cells(m: array2<int>): (b: Board)
    reads m
    ensures |b| == m.Length0
    ensures forall i :: 0 <= i < m.Length0 ==> |b[i]| == m.Length1
    ensures forall i, j :: 0 <= i < m.Length0 && 0 <= j < m.Length1 ==> b[i][j] == m[i, j]
    ensures m.Length0 == m.Length1 ==> IsSquare(b)
  {
    seq(m.Length0, i reads m requires 0 <= i < m.Length0 =>
      seq(m.Length1, j reads m requires 0 <= j < m.Length1 => m[i, j]))
  }

  lemma CellsEqual(m: array2<int>, b: Board)
    requires |b| == m.Length0
    requires forall i :: 0 <= i < |b| ==> |b[i]| == m.Length1
    requires forall i, j :: 0 <= i < m.Length0 && 0 <= j < m.Length1 ==> m[i, j] == b[i][j]
    ensures Cells(m) == b
  {
    var c := Cells(m);
    forall i | 0 <= i < |b|
      ensures c[i] == b[i]
    {
      assert |c[i]| == |b[i]|;
    }
  }

  /** The in-place write `matrix[y][x] = v`. */
  method SetCell(m: array2<int>, row: nat, col: nat, v: int)
    requires row < m.Length0 && col < m.Length1
    modifies m
    ensures Cells(m) == Place(old(Cells(m)), Move(row, col), v)
  {
    ghost var b := Cells(m);
    m[row, col] := v;
    CellsEqual(m, Place(b, Move(row, col), v));
  }

  /** copy_matrix: a fresh board holding the same cells. */
  method CopyMatrix(m: array2<int>) returns (c: array2<int>)
    ensures fresh(c)
    ensures Cells(c) == Cells(m)
  {
    c := new int[m.Length0, m.Length1];
    var row := 0;
    while row < m.Length0
      invariant 0 <= row <= m.Length0
      invariant forall i, j :: 0 <= i < row && 0 <= j < m.Length1 ==> c[i, j] == m[i, j]
    {
      var col := 0;
      while col < m.Length1
        invariant 0 <= col <= m.Length1
        invariant forall i, j :: 0 <= i < row && 0 <= j < m.Length1 ==> c[i, j] == m[i, j]
        invariant forall j :: 0 <= j < col ==> c[row, j] == m[row, j]
      {
        c[row, col] := m[row, col];
        col := col + 1;
      }
      row := row + 1;
    }
    CellsEqual(c, Cells(m));
  }
}
