/**
 * The terminal-state evaluator `check`: the owner of the first complete line
 * (down-right diagonal, up-right diagonal, columns left to right, rows top to
 * bottom), otherwise "unfinished" when a cell is empty and a draw when none is.
 */
module Evaluator {
  import opened BoardModel

  /** What `check` returns: nil, 0, or the number of the winner. */
  datatype Verdict = Unfinished | Draw | Win(owner: int)

  /** The lines of an n x n board. */
  datatype Line = MainDiagonal | AntiDiagonal | Column(c: nat) | Row(r: nat)

  predicate ValidLine(line: Line, n: nat)
  {
    match line
    case Column(c) => c < n
    case Row(r) => r < n
    case _ => true
  }

  /** The i-th cell of a line, in the order `check` visits it. */
  function LinePos(line: Line, n: nat, i: nat): (mv: Move)
    requires ValidLine(line, n) && i < n
    ensures mv.row < n && mv.col < n
  {
    match line
    case MainDiagonal => Move(i, i)
    case AntiDiagonal => Move(n - i - 1, i)
    case Column(c) => Move(i, c)
    case Row(r) => Move(r, i)
  }

  /** The cells of a line of the board (none for a line the board does not have). */
  function LineCells(b: Board, line: Line): (cells: seq<int>)
    requires IsSquare(b)
    ensures ValidLine(line, |b|) ==> |cells| == |b|
  {
    if ValidLine(line, |b|) then
      seq(|b|, i requires 0 <= i < |b| => var mv := LinePos(line, |b|, i); b[mv.row][mv.col])
    else []
  }

  /** Every cell of the sequence holds v. */
  predicate AllEqual(cells: seq<int>, v: int)
    decreases |cells|
  {
    cells == [] || (cells[0] == v && AllEqual(cells[1..], v))
  }

  lemma {:induction false} AllEqualAt(cells: seq<int>, v: int)
    ensures AllEqual(cells, v) <==> forall i :: 0 <= i < |cells| ==> cells[i] == v
    decreases |cells|
  {
    if cells != [] {
      AllEqualAt(cells[1..], v);
      assert forall i :: 1 <= i < |cells| ==> cells[i] == cells[1..][i - 1];
    }
  }

  /** The owner of a complete line: a non-empty line whose cells all hold the same mark. */
  function LineWinner(cells: seq<int>): Option<int>
  {
    if |cells| > 0 && cells[0] != Empty && AllEqual(cells, cells[0]) then Some(cells[0]) else None
  }

  /** A line is owned by v exactly when it has cells, v is a mark, and every cell holds v. */
  lemma LineWinnerIsCompleteLine(cells: seq<int>, v: int)
    ensures LineWinner(cells) == Some(v) <==>
              |cells| > 0 && v != Empty && forall i :: 0 <= i < |cells| ==> cells[i] == v
  {
    if |cells| > 0 {
      AllEqualAt(cells, cells[0]);
      AllEqualAt(cells, v);
    }
  }

  predicate IsWon(b: Board, line: Line)
    requires IsSquare(b)
  {
    LineWinner(LineCells(b, line)).Some?
  }

  /** check_cell: one step of the scan along a line. */
  function CheckCell(cell: int, value: Option<int>): Option<int>
  {
    if cell == Empty then None
    else if value.None? then Some(cell)
    else if cell != value.value then None
    else value
  }

  /**
   * Scanning a line with check_cell, starting from nil and stopping at the first
   * nil, computes the owner of the line: each step extends the owner of the prefix.
   */
  lemma CheckCellExtends(cells: seq<int>, i: nat)
    requires i < |cells|
    requires i == 0 || LineWinner(cells[..i]).Some?
    ensures CheckCell(cells[i], LineWinner(cells[..i])) == LineWinner(cells[..i + 1])
  {
    var pre, next := cells[..i], cells[..i + 1];
    assert forall k :: 0 <= k < i ==> next[k] == pre[k];
    var v := if i == 0 then cells[0] else pre[0];
    LineWinnerIsCompleteLine(pre, v);
    LineWinnerIsCompleteLine(next, v);
    if LineWinner(next).Some? {
      LineWinnerIsCompleteLine(next, LineWinner(next).value);
    }
  }

  /** A line whose scan stops early (a prefix with no owner) has no owner. */
  lemma LineWinnerPrefix(cells: seq<int>, k: nat)
    requires 0 < k <= |cells|
    requires LineWinner(cells[..k]).None?
    ensures LineWinner(cells).None?
  {
    if LineWinner(cells).Some? {
      var v := LineWinner(cells).value;
      LineWinnerIsCompleteLine(cells, v);
      LineWinnerIsCompleteLine(cells[..k], v);
    }
  }

  /** Columns c, c+1, ..., n-1, left to right. */
  function ColumnsFrom(n: nat, c: nat): seq<Line>
    decreases n - c
  {
    if c >= n then [] else [Column(c)] + ColumnsFrom(n, c + 1)
  }

  /** Rows r, r+1, ..., n-1, top to bottom. */
  function RowsFrom(n: nat, r: nat): seq<Line>
    decreases n - r
  {
    if r >= n then [] else [Row(r)] + RowsFrom(n, r + 1)
  }

  /** The lines in the order `check` tests them. */
  function Lines(n: nat): seq<Line>
  {
    [MainDiagonal, AntiDiagonal] + ColumnsFrom(n, 0) + RowsFrom(n, 0)
  }

  /** The owner of the first complete line of `lines`, testing them in order. */
  function FirstWinnerOf(b: Board, lines: seq<Line>): (w: Option<int>)
    requires IsSquare(b)
    ensures w.Some? ==> w.value != Empty
    decreases |lines|
  {
    if lines == [] then None
    else
      var w := LineWinner(LineCells(b, lines[0]));
      if w.Some? then w else FirstWinnerOf(b, lines[1..])
  }

  /** Searching a concatenation searches the first part, then the second. */
  lemma {:induction false} FirstWinnerOfAppend(b: Board, front: seq<Line>, back: seq<Line>)
    requires IsSquare(b)
    ensures FirstWinnerOf(b, front + back) ==
              if FirstWinnerOf(b, front).Some? then FirstWinnerOf(b, front) else FirstWinnerOf(b, back)
    decreases |front|
  {
    if front != [] {
      assert (front + back)[0] == front[0];
      assert (front + back)[1..] == front[1..] + back;
      FirstWinnerOfAppend(b, front[1..], back);
    } else {
      assert front + back == back;
    }
  }

  /** The owner of the first complete line in the order `check` tests them, if any. */
  function FirstWinner(b: Board): Option<int>
    requires IsSquare(b)
  {
    FirstWinnerOf(b, Lines(|b|))
  }

  /** No line of lines is complete. */
  predicate NoneWon(b: Board, lines: seq<Line>)
    requires IsSquare(b)
  {
    forall k :: 0 <= k < |lines| ==> !IsWon(b, lines[k])
  }

  /** lines[k] is complete and no line before it is. */
  predicate FirstWonAt(b: Board, lines: seq<Line>, k: int)
    requires IsSquare(b)
  {
    0 <= k < |lines| && IsWon(b, lines[k]) && forall j :: 0 <= j < k ==> !IsWon(b, lines[j])
  }

  lemma NoneWonCons(b: Board, lines: seq<Line>)
    requires IsSquare(b) && lines != []
    ensures NoneWon(b, lines) <==> !IsWon(b, lines[0]) && NoneWon(b, lines[1..])
  {
    var rest := lines[1..];
    assert forall k :: 1 <= k < |lines| ==> lines[k] == rest[k - 1];
  }

  lemma FirstWonAtCons(b: Board, lines: seq<Line>, k: int)
    requires IsSquare(b) && lines != [] && !IsWon(b, lines[0])
    requires FirstWonAt(b, lines[1..], k)
    ensures FirstWonAt(b, lines, k + 1)
  {
    var rest := lines[1..];
    assert lines[k + 1] == rest[k];
    forall j | 0 <= j < k + 1
      ensures !IsWon(b, lines[j])
    {
      if j > 0 {
        assert lines[j] == rest[j - 1];
      }
    }
  }

  /**
   * FirstWinnerOf finds the first complete line: it is nil exactly when no line is
   * complete, and otherwise the owner of a complete line with none complete before it.
   */
  lemma {:induction false} FirstWinnerOfIsFirst(b: Board, lines: seq<Line>)
    requires IsSquare(b)
    ensures FirstWinnerOf(b, lines).None? <==> NoneWon(b, lines)
    ensures FirstWinnerOf(b, lines).Some? ==>
              exists k :: FirstWonAt(b, lines, k) && FirstWinnerOf(b, lines) == LineWinner(LineCells(b, lines[k]))
    decreases |lines|
  {
    if lines != [] {
      var rest := lines[1..];
      FirstWinnerOfIsFirst(b, rest);
      NoneWonCons(b, lines);
      if IsWon(b, lines[0]) {
        assert FirstWonAt(b, lines, 0);
      } else if FirstWinnerOf(b, rest).Some? {
        var k :| FirstWonAt(b, rest, k) && FirstWinnerOf(b, rest) == LineWinner(LineCells(b, rest[k]));
        FirstWonAtCons(b, lines, k);
        assert lines[k + 1] == rest[k];
      }
    }
  }

  /** The verdict of `check`, as a function of the board. */
  function Evaluate(b: Board): (v: Verdict)
    requires IsSquare(b)
    ensures v.Win? ==> v.owner != Empty
    ensures v == Unfinished ==> HasEmpty(b)
  {
    match FirstWinner(b)
    case Some(w) => Win(w)
    case None => if HasEmpty(b) then Unfinished else Draw
  }

  /**
   * The classification `check` makes: a win exactly when some line is complete, won
   * by the owner of the first complete line in the testing order; with no complete
   * line, unfinished when some cell is empty and a draw when none is.
   */
  lemma EvaluateClassification(b: Board)
    requires IsSquare(b)
    ensures Evaluate(b).Win? <==> !NoneWon(b, Lines(|b|))
    ensures Evaluate(b).Win? ==>
              exists k :: FirstWonAt(b, Lines(|b|), k)
                && Some(Evaluate(b).owner) == LineWinner(LineCells(b, Lines(|b|)[k]))
    ensures Evaluate(b) == Unfinished <==> NoneWon(b, Lines(|b|)) && HasEmpty(b)
    ensures Evaluate(b) == Draw <==> NoneWon(b, Lines(|b|)) && !HasEmpty(b)
  {
    FirstWinnerOfIsFirst(b, Lines(|b|));
  }

  /** One line of `check`: value = nil, then check_cell along the line until nil. */
  method ScanLine(m: array2<int>, size: nat, line: Line) returns (value: Option<int>)
    requires m.Length0 == size && m.Length1 == size && ValidLine(line, size)
    ensures value == LineWinner(LineCells(Cells(m), line))
  {
    ghost var cells := LineCells(Cells(m), line);
    value := None;
    var i := 0;
    while i < size
      invariant 0 <= i <= size
      invariant value == LineWinner(cells[..i])
      invariant i > 0 ==> value.Some?
    {
      var pos := LinePos(line, size, i);
      value := CheckCell(m[pos.row, pos.col], value);
      CheckCellExtends(cells, i);
      if value.None? {
        LineWinnerPrefix(cells, i + 1);
        break;
      }
      i := i + 1;
    }
    if i == size {
      assert cells[..i] == cells;
    }
  }

  /** The column tests of `check`: the first complete column's owner, or nil. */
  method CheckColumns(m: array2<int>, size: nat) returns (value: Option<int>)
    requires m.Length0 == size && m.Length1 == size
    ensures value == FirstWinnerOf(Cells(m), ColumnsFrom(size, 0))
  {
    ghost var b := Cells(m);
    var col := 0;
    while col < size
      invariant 0 <= col <= size
      invariant FirstWinnerOf(b, ColumnsFrom(size, col)) == FirstWinnerOf(b, ColumnsFrom(size, 0))
    {
      value := ScanLine(m, size, Column(col));
      FirstWinnerOfAppend(b, [Column(col)], ColumnsFrom(size, col + 1));
      if value.Some? {
        return;
      }
      col := col + 1;
    }
    value := None;
  }

  /** The row tests of `check`: the first complete row's owner, or nil. */
  method CheckRows(m: array2<int>, size: nat) returns (value: Option<int>)
    requires m.Length0 == size && m.Length1 == size
    ensures value == FirstWinnerOf(Cells(m), RowsFrom(size, 0))
  {
    ghost var b := Cells(m);
    var row := 0;
    while row < size
      invariant 0 <= row <= size
      invariant FirstWinnerOf(b, RowsFrom(size, row)) == FirstWinnerOf(b, RowsFrom(size, 0))
    {
      value := ScanLine(m, size, Row(row));
      FirstWinnerOfAppend(b, [Row(row)], RowsFrom(size, row + 1));
      if value.Some? {
        return;
      }
      row := row + 1;
    }
    value := None;
  }

  /** The line tests of `check`: the first complete line's owner, or nil. */
  method CheckLines(m: array2<int>, size: nat) returns (value: Option<int>)
    requires m.Length0 == size && m.Length1 == size
    ensures value == FirstWinner(Cells(m))
  {
    ghost var b := Cells(m);
    ghost var columns, rows := ColumnsFrom(size, 0), RowsFrom(size, 0);
    FirstWinnerOfAppend(b, [MainDiagonal, AntiDiagonal], columns + rows);
    FirstWinnerOfAppend(b, columns, rows);
    assert Lines(size) == [MainDiagonal, AntiDiagonal] + (columns + rows);
    assert [MainDiagonal, AntiDiagonal][1..] == [AntiDiagonal];
    value := ScanLine(m, size, MainDiagonal);
    if value.Some? {
      return;
    }
    value := ScanLine(m, size, AntiDiagonal);
    if value.Some? {
      return;
    }
    value := CheckColumns(m, size);
    if value.Some? {
      return;
    }
    value := CheckRows(m, size);
  }

  /** The closing scan of `check`: whether some cell is still 0. */
  method HasEmptyCell(m: array2<int>, size: nat) returns (found: bool)
    requires m.Length0 == size && m.Length1 == size
    ensures found == HasEmpty(Cells(m))
  {
    var row := 0;
    while row < size
      invariant 0 <= row <= size
      invariant forall i, j :: 0 <= i < row && 0 <= j < size ==> m[i, j] != Empty
    {
      var col := 0;
      while col < size
        invariant 0 <= col <= size
        invariant forall j :: 0 <= j < col ==> m[row, j] != Empty
      {
        if m[row, col] == Empty {
          assert Cells(m)[row][col] == Empty;
          return true;
        }
        col := col + 1;
      }
      row := row + 1;
    }
    return false;
  }

  /** check(matrix): reads the board and leaves it as it is. */
  method Check(m: array2<int>, size: nat) returns (v: Verdict)
    requires m.Length0 == size && m.Length1 == size
    ensures v == Evaluate(Cells(m))
  {
    var value := CheckLines(m, size);
    if value.Some? {
      return Win(value.value);
    }
    var unfinished := HasEmptyCell(m, size);
    if unfinished {
      return Unfinished;
    }
    return Draw;
  }
}
