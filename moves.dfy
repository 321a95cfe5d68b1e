/**
 * The move enumerators: the empty cells of the board as [row, col] pairs in
 * row-major order (rows ascending, then columns ascending).
 */
module MoveEnumerator {
  import opened BoardModel

  /** Row-major order on coordinates. */
  predicate Before(a: Move, b: Move)
  {
    a.row < b.row || (a.row == b.row && a.col < b.col)
  }

  /** The empty cells of row r from column c on (row holds that row's cells). */
  function RowMoves(row: seq<int>, r: nat, c: nat): seq<Move>
    requires c <= |row|
    decreases |row| - c
  {
    if c == |row| then []
    else (if row[c] == Empty then [Move(r, c)] else []) + RowMoves(row, r, c + 1)
  }

  /** The empty cells of rows r, r+1, ... in row-major order. */
  function MovesFrom(b: Board, r: nat): seq<Move>
    requires r <= |b|
    decreases |b| - r
  {
    if r == |b| then [] else RowMoves(b[r], r, 0) + MovesFrom(b, r + 1)
  }

  /** get_all_possible_moves as a value: the empty cells, row by row. */
  function Moves(b: Board): seq<Move>
  {
    MovesFrom(b, 0)
  }

  predicate Increasing(ms: seq<Move>)
  {
    forall i, j :: 0 <= i < j < |ms| ==> Before(ms[i], ms[j])
  }

  lemma {:induction false} RowMovesMembers(row: seq<int>, r: nat, c: nat)
    requires c <= |row|
    ensures forall mv :: mv in RowMoves(row, r, c) <==>
              mv.row == r && c <= mv.col < |row| && row[mv.col] == Empty
    decreases |row| - c
  {
    if c < |row| {
      RowMovesMembers(row, r, c + 1);
    }
  }

  /** Two increasing listings, the first wholly before the second, concatenate to one. */
  lemma IncreasingConcat(xs: seq<Move>, ys: seq<Move>)
    requires Increasing(xs) && Increasing(ys)
    requires forall i, j :: 0 <= i < |xs| && 0 <= j < |ys| ==> Before(xs[i], ys[j])
    ensures Increasing(xs + ys)
  {
    var zs := xs + ys;
    forall i, j | 0 <= i < j < |zs|
      ensures Before(zs[i], zs[j])
    {
      if j < |xs| {
        assert zs[i] == xs[i] && zs[j] == xs[j];
      } else if i < |xs| {
        assert zs[i] == xs[i] && zs[j] == ys[j - |xs|];
      } else {
        assert zs[i] == ys[i - |xs|] && zs[j] == ys[j - |xs|];
      }
    }
  }

  lemma {:induction false} RowMovesIncreasing(row: seq<int>, r: nat, c: nat)
    requires c <= |row|
    ensures Increasing(RowMoves(row, r, c))
    decreases |row| - c
  {
    if c < |row| {
      RowMovesIncreasing(row, r, c + 1);
      RowMovesMembers(row, r, c + 1);
      var rest := RowMoves(row, r, c + 1);
      var here := if row[c] == Empty then [Move(r, c)] else [];
      forall i, j | 0 <= i < |here| && 0 <= j < |rest|
        ensures Before(here[i], rest[j])
      {
        assert rest[j] in rest;
      }
      IncreasingConcat(here, rest);
    }
  }

  lemma {:induction false} MovesFromMembers(b: Board, r: nat)
    requires r <= |b|
    ensures forall mv :: mv in MovesFrom(b, r) <==> r <= mv.row && IsEmptyCell(b, mv)
    decreases |b| - r
  {
    if r < |b| {
      RowMovesMembers(b[r], r, 0);
      MovesFromMembers(b, r + 1);
    }
  }

  lemma {:induction false} MovesFromIncreasing(b: Board, r: nat)
    requires r <= |b|
    ensures Increasing(MovesFrom(b, r))
    decreases |b| - r
  {
    if r < |b| {
      var here := RowMoves(b[r], r, 0);
      var rest := MovesFrom(b, r + 1);
      RowMovesIncreasing(b[r], r, 0);
      RowMovesMembers(b[r], r, 0);
      MovesFromIncreasing(b, r + 1);
      MovesFromMembers(b, r + 1);
      forall i, j | 0 <= i < |here| && 0 <= j < |rest|
        ensures Before(here[i], rest[j])
      {
        assert here[i] in here;
        assert rest[j] in rest;
      }
      IncreasingConcat(here, rest);
    }
  }

  /** Exactly the empty cells are listed. */
  lemma MovesExact(b: Board)
    ensures forall mv :: mv in Moves(b) <==> IsEmptyCell(b, mv)
  {
    MovesFromMembers(b, 0);
  }

  /** The listing is in strictly increasing row-major order. */
  lemma MovesRowMajor(b: Board)
    ensures Increasing(Moves(b))
  {
    MovesFromIncreasing(b, 0);
  }

  /** No coordinate is listed twice. */
  lemma MovesDistinct(b: Board)
    ensures forall i, j :: 0 <= i < j < |Moves(b)| ==> Moves(b)[i] != Moves(b)[j]
  {
    MovesRowMajor(b);
  }

  /** There is a move exactly when some cell is empty. */
  lemma MovesNonEmpty(b: Board)
    ensures Moves(b) != [] <==> HasEmpty(b)
  {
    MovesExact(b);
    if HasEmpty(b) {
      var i, j :| 0 <= i < |b| && 0 <= j < |b[i]| && b[i][j] == Empty;
      assert Move(i, j) in Moves(b);
    }
    if Moves(b) != [] {
      assert Moves(b)[0] in Moves(b);
    }
  }

  lemma {:induction false} RowMovesPlace(row: seq<int>, r: nat, c: nat, col: nat, p: int)
    requires c <= col < |row| && row[col] == Empty && p != Empty
    ensures |RowMoves(row[col := p], r, c)| == |RowMoves(row, r, c)| - 1
    decreases |row| - c
  {
    var row' := row[col := p];
    var here := if row[c] == Empty then [Move(r, c)] else [];
    assert RowMoves(row, r, c) == here + RowMoves(row, r, c + 1);
    if c < col {
      assert row'[c] == row[c];
      assert RowMoves(row', r, c) == here + RowMoves(row', r, c + 1);
      RowMovesPlace(row, r, c + 1, col, p);
    } else {
      assert RowMoves(row', r, c) == [] + RowMoves(row', r, c + 1);
      RowMovesSame(row', row, r, c + 1);
    }
  }

  lemma {:induction false} RowMovesSame(row: seq<int>, other: seq<int>, r: nat, c: nat)
    requires |row| == |other| && c <= |row|
    requires forall j :: c <= j < |row| ==> row[j] == other[j]
    ensures RowMoves(row, r, c) == RowMoves(other, r, c)
    decreases |row| - c
  {
    if c < |row| {
      RowMovesSame(row, other, r, c + 1);
    }
  }

  lemma {:induction false} MovesFromPlace(b: Board, r: nat, mv: Move, p: int)
    requires IsEmptyCell(b, mv) && p != Empty && r <= |b|
    ensures r <= mv.row ==> |MovesFrom(Place(b, mv, p), r)| == |MovesFrom(b, r)| - 1
    ensures r > mv.row ==> MovesFrom(Place(b, mv, p), r) == MovesFrom(b, r)
    decreases |b| - r
  {
    var b' := Place(b, mv, p);
    if r < |b| {
      MovesFromPlace(b, r + 1, mv, p);
      if r == mv.row {
        assert b'[r] == b[r][mv.col := p];
        RowMovesPlace(b[r], r, 0, mv.col, p);
      } else {
        assert b'[r] == b[r];
      }
    }
  }

  /** Marking an empty cell removes exactly one move: the measure of the search recursion. */
  lemma PlaceRemovesMove(b: Board, mv: Move, p: int)
    requires IsEmptyCell(b, mv) && p != Empty
    ensures |Moves(Place(b, mv, p))| == |Moves(b)| - 1
  {
    MovesFromPlace(b, 0, mv, p);
  }

  /** get_all_possible_moves(matrix). */
  method GetAllPossibleMoves(m: array2<int>, size: nat) returns (result: seq<Move>)
    requires m.Length0 == size && m.Length1 == size
    ensures result == Moves(Cells(m))
  {
    ghost var b := Cells(m);
    result := [];
    var row := 0;
    while row < size
      invariant 0 <= row <= size
      invariant result + MovesFrom(b, row) == Moves(b)
    {
      ghost var before := result;
      result := AppendRowMoves(m, size, row, result);
      ghost var here := RowMoves(b[row], row, 0);
      assert result == before + here;
      assert MovesFrom(b, row) == here + MovesFrom(b, row + 1);
      assert before + (here + MovesFrom(b, row + 1)) == (before + here) + MovesFrom(b, row + 1);
      row := row + 1;
    }
  }

  /** The inner loop of get_all_possible_moves: `result << [row, col]` for each empty cell of the row. */
  method AppendRowMoves(m: array2<int>, size: nat, row: nat, result: seq<Move>) returns (result': seq<Move>)
    requires m.Length0 == size && m.Length1 == size && row < size
    ensures result' == result + RowMoves(Cells(m)[row], row, 0)
  {
    ghost var cells := Cells(m)[row];
    result' := result;
    var col := 0;
    while col < size
      invariant 0 <= col <= size
      invariant result' + RowMoves(cells, row, col) == result + RowMoves(cells, row, 0)
    {
      ghost var before := result';
      assert cells[col] == m[row, col];
      if m[row, col] == Empty {
        result' := result' + [Move(row, col)];
      }
      assert before + RowMoves(cells, row, col) == result' + RowMoves(cells, row, col + 1);
      col := col + 1;
    }
  }

  /** next_possible_move(matrix): the first empty cell in row-major order, or nil. */
  method NextPossibleMove(m: array2<int>, size: nat) returns (mv: Option<Move>)
    requires m.Length0 == size && m.Length1 == size
    ensures mv == if Moves(Cells(m)) == [] then None else Some(Moves(Cells(m))[0])
  {
    ghost var b := Cells(m);
    var row := 0;
    while row < size
      invariant 0 <= row <= size
      invariant MovesFrom(b, row) == Moves(b)
    {
      var col := 0;
      while col < size
        invariant 0 <= col <= size
        invariant RowMoves(b[row], row, col) + MovesFrom(b, row + 1) == Moves(b)
      {
        if m[row, col] == Empty {
          return Some(Move(row, col));
        }
        col := col + 1;
      }
      row := row + 1;
    }
    return None;
  }
}
