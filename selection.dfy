/**
 * The computer's move once the first move is made: every empty cell of a copy of
 * the board is scored with minimax from the opponent's point of view, the first
 * cell with a strictly better score than all before it is kept, and that cell is
 * then marked on the real board.
 */
module Selection {
  import opened BoardModel
  import opened Evaluator
  import opened MoveEnumerator
  import opened Search

  /** The score make_move gives to marking mv: `minimax(copy, next_player_no, depth, false)`. */
  function MoveScore(b: Board, p: int, depth: Option<int>, mv: Move): (s: int)
    requires IsSquare(b) && p != Empty && IsEmptyCell(b, mv)
    ensures -1 <= s <= 1
  {
    MinimaxChild(b, p, depth, true, mv)
  }

  /** The pair (best_move, best_score) of the loop, after it has seen ms. */
  function SelectFrom(b: Board, p: int, depth: Option<int>, ms: seq<Move>, best: Option<Move>, bestScore: int)
    : (Option<Move>, int)
    requires IsSquare(b) && p != Empty
    requires forall mv :: mv in ms ==> IsEmptyCell(b, mv)
    decreases |ms|
  {
    if ms == [] then (best, bestScore)
    else
      var s := MoveScore(b, p, depth, ms[0]);
      if s > bestScore then SelectFrom(b, p, depth, ms[1..], Some(ms[0]), s)
      else SelectFrom(b, p, depth, ms[1..], best, bestScore)
  }

  /** make_move's choice on a board value, from best_move = nil and best_score = -100. */
  function BestMove(b: Board, p: int, depth: Option<int>): (Option<Move>, int)
    requires IsSquare(b) && p != Empty
  {
    MovesExact(b);
    SelectFrom(b, p, depth, Moves(b), None, MinSentinel)
  }

  /** mv is ms[i], it scores score, and every move of ms before it scores less. */
  predicate FirstMaxAt(b: Board, p: int, depth: Option<int>, ms: seq<Move>, mv: Option<Move>, score: int, i: int)
    requires IsSquare(b) && p != Empty
    requires forall mv :: mv in ms ==> IsEmptyCell(b, mv)
  {
    0 <= i < |ms| && mv == Some(ms[i]) && MoveScore(b, p, depth, ms[i]) == score
    && forall j :: 0 <= j < i ==> MoveScore(b, p, depth, ms[j]) < score
  }

  lemma FirstMaxAtShift(b: Board, p: int, depth: Option<int>, ms: seq<Move>, mv: Option<Move>, score: int, i: int)
    requires IsSquare(b) && p != Empty && ms != []
    requires forall mv :: mv in ms ==> IsEmptyCell(b, mv)
    requires FirstMaxAt(b, p, depth, ms[1..], mv, score, i)
    requires MoveScore(b, p, depth, ms[0]) < score
    ensures FirstMaxAt(b, p, depth, ms, mv, score, i + 1)
  {
    var rest := ms[1..];
    forall j | 0 <= j < i + 1
      ensures MoveScore(b, p, depth, ms[j]) < score
    {
      if j > 0 {
        assert ms[j] == rest[j - 1];
      }
    }
  }

  /**
   * The loop keeps the running best unless some move beats it; then it holds the
   * first move of ms with the largest score, and no move of ms scores more.
   */
  lemma {:induction false} SelectFromSpec(b: Board, p: int, depth: Option<int>, ms: seq<Move>,
                                          best: Option<Move>, bestScore: int)
    requires IsSquare(b) && p != Empty
    requires forall mv :: mv in ms ==> IsEmptyCell(b, mv)
    ensures SelectFrom(b, p, depth, ms, best, bestScore).1 >= bestScore
    ensures forall i :: 0 <= i < |ms| ==> MoveScore(b, p, depth, ms[i]) <= SelectFrom(b, p, depth, ms, best, bestScore).1
    ensures SelectFrom(b, p, depth, ms, best, bestScore).1 == bestScore ==>
              SelectFrom(b, p, depth, ms, best, bestScore).0 == best
    ensures SelectFrom(b, p, depth, ms, best, bestScore).1 > bestScore ==>
              exists i :: FirstMaxAt(b, p, depth, ms, SelectFrom(b, p, depth, ms, best, bestScore).0,
                                     SelectFrom(b, p, depth, ms, best, bestScore).1, i)
    decreases |ms|
  {
    if ms != [] {
      var s := MoveScore(b, p, depth, ms[0]);
      var rest := ms[1..];
      assert forall i :: 1 <= i < |ms| ==> ms[i] == rest[i - 1];
      var r := SelectFrom(b, p, depth, ms, best, bestScore);
      var nb, ns := if s > bestScore then Some(ms[0]) else best, if s > bestScore then s else bestScore;
      assert r == SelectFrom(b, p, depth, rest, nb, ns);
      SelectFromSpec(b, p, depth, rest, nb, ns);
      if r.1 > ns {
        var i :| FirstMaxAt(b, p, depth, rest, r.0, r.1, i);
        FirstMaxAtShift(b, p, depth, ms, r.0, r.1, i);
      } else if r.1 > bestScore {
        assert FirstMaxAt(b, p, depth, ms, r.0, r.1, 0);
      }
    }
  }

  /**
   * On a board with an empty cell the choice is an empty cell whose score is
   * maximal among all empty cells, and every empty cell before it in row-major
   * order scores strictly less (ties go to the earliest cell).
   */
  lemma BestMoveIsFirstMaximum(b: Board, p: int, depth: Option<int>)
    requires IsSquare(b) && p != Empty && HasEmpty(b)
    ensures BestMove(b, p, depth).0.Some?
    ensures IsEmptyCell(b, BestMove(b, p, depth).0.value)
    ensures BestMove(b, p, depth).1 == MoveScore(b, p, depth, BestMove(b, p, depth).0.value)
    ensures forall c :: IsEmptyCell(b, c) ==> MoveScore(b, p, depth, c) <= BestMove(b, p, depth).1
    ensures forall c :: IsEmptyCell(b, c) && Before(c, BestMove(b, p, depth).0.value) ==>
              MoveScore(b, p, depth, c) < BestMove(b, p, depth).1
  {
    var ms := Moves(b);
    MovesExact(b);
    MovesNonEmpty(b);
    MovesRowMajor(b);
    SelectFromSpec(b, p, depth, ms, None, MinSentinel);
    var r := BestMove(b, p, depth);
    assert MoveScore(b, p, depth, ms[0]) <= r.1;
    var i :| FirstMaxAt(b, p, depth, ms, r.0, r.1, i);
    assert ms[i] in ms;
    forall c | IsEmptyCell(b, c)
      ensures MoveScore(b, p, depth, c) <= r.1
      ensures Before(c, ms[i]) ==> MoveScore(b, p, depth, c) < r.1
    {
      assert c in ms;
      var j :| 0 <= j < |ms| && ms[j] == c;
      if Before(c, ms[i]) && j >= i {
        assert false;
      }
    }
  }

  /**
   * The score of the chosen move is the minimax value of the board for the mover
   * one level up, so the root selection is minimax's maximising frame.
   */
  lemma BestScoreIsRootValue(b: Board, p: int, rootDepth: Option<int>)
    requires IsSquare(b) && p != Empty
    requires Evaluate(b) == Unfinished && rootDepth != Some(0)
    ensures BestMove(b, p, ChildDepth(rootDepth)).1 == Minimax(b, p, rootDepth, true)
  {
    var d := ChildDepth(rootDepth);
    BestMoveIsFirstMaximum(b, p, d);
    MinimaxIsExtremumOfChildren(b, p, rootDepth, true);
    var best := BestMove(b, p, d);
    var mv :| IsEmptyCell(b, mv) && Minimax(b, p, rootDepth, true) == MinimaxChild(b, p, d, true, mv);
    assert MoveScore(b, p, d, mv) <= best.1;
    assert MinimaxChild(b, p, d, true, best.0.value) <= Minimax(b, p, rootDepth, true);
  }

  /** When some empty cell completes a line for the mover, the chosen move scores 1. */
  lemma ImmediateWinScoresOne(b: Board, p: int, depth: Option<int>, win: Move)
    requires IsSquare(b) && p != Empty && IsEmptyCell(b, win)
    requires Evaluate(b) == Unfinished && Evaluate(Place(b, win, p)).Win?
    ensures BestMove(b, p, depth).1 == 1
  {
    BestMoveIsFirstMaximum(b, p, depth);
    WinningMoveScoresOne(b, p, depth, win);
    assert MoveScore(b, p, depth, win) == 1;
  }

  /**
   * make_move after the first move (@move_count >= 1): score every empty cell of a
   * copy, keep the first strictly better one, and mark it on the board with
   * apply_move. Only that cell changes. moveCount is @move_count: it is not read,
   * but `moveCount >= 1` selects this search branch over the random first move.
   */
  method MakeMove(m: array2<int>, size: nat, p: int, moveCount: int, minimaxDepth: int) returns (mv: Move)
    requires m.Length0 == size && m.Length1 == size && p != Empty
    requires HasEmpty(Cells(m)) && moveCount >= 1
    modifies m
    ensures BestMove(old(Cells(m)), p, Some(minimaxDepth - 2)).0 == Some(mv)
    ensures IsEmptyCell(old(Cells(m)), mv)
    ensures forall c :: IsEmptyCell(old(Cells(m)), c) ==>
              MoveScore(old(Cells(m)), p, Some(minimaxDepth - 2), c) <= MoveScore(old(Cells(m)), p, Some(minimaxDepth - 2), mv)
    ensures forall c :: IsEmptyCell(old(Cells(m)), c) && Before(c, mv) ==>
              MoveScore(old(Cells(m)), p, Some(minimaxDepth - 2), c) < MoveScore(old(Cells(m)), p, Some(minimaxDepth - 2), mv)
    ensures Cells(m) == Place(old(Cells(m)), mv, p)
  {
    var depth := Some(minimaxDepth - 2);
    var copy := CopyMatrix(m);
    var bestMove, bestScore := ChooseMove(copy, size, p, depth);
    BestMoveIsFirstMaximum(Cells(m), p, depth);
    mv := bestMove.value;
    SetCell(m, mv.row, mv.col, p);
  }

  /** The loop of make_move over all_possible_moves(matrix_copy), leaving the copy as it was. */
  method ChooseMove(copy: array2<int>, size: nat, p: int, depth: Option<int>)
    returns (bestMove: Option<Move>, bestScore: int)
    requires copy.Length0 == size && copy.Length1 == size && p != Empty
    modifies copy
    ensures Cells(copy) == old(Cells(copy))
    ensures (bestMove, bestScore) == BestMove(old(Cells(copy)), p, depth)
  {
    ghost var b := Cells(copy);
    ghost var ms := Moves(b);
    ghost var k := 0;
    MovesExact(b);
    bestMove, bestScore := None, MinSentinel;
    ghost var total := SelectFrom(b, p, depth, ms, bestMove, bestScore);
    var row := 0;
    while row < size
      invariant 0 <= row <= size && 0 <= k <= |ms|
      invariant Cells(copy) == b
      invariant ms[k..] == MovesFrom(b, row)
      invariant SelectFrom(b, p, depth, ms[k..], bestMove, bestScore) == total
    {
      bestMove, bestScore, k := SelectRow(copy, size, p, depth, row, bestMove, bestScore, ms, k);
      row := row + 1;
    }
  }

  /** The cells of one row within make_move's loop. */
  method SelectRow(copy: array2<int>, size: nat, p: int, depth: Option<int>, row: nat,
                   best: Option<Move>, bestScore: int, ghost ms: seq<Move>, ghost k: nat)
    returns (best': Option<Move>, bestScore': int, ghost k': nat)
    requires copy.Length0 == size && copy.Length1 == size && p != Empty && row < size
    requires forall mv :: mv in ms ==> IsEmptyCell(Cells(copy), mv)
    requires k <= |ms| && ms[k..] == RowMoves(Cells(copy)[row], row, 0) + MovesFrom(Cells(copy), row + 1)
    modifies copy
    ensures Cells(copy) == old(Cells(copy))
    ensures k <= k' <= |ms| && ms[k'..] == MovesFrom(old(Cells(copy)), row + 1)
    ensures SelectFrom(old(Cells(copy)), p, depth, ms[k'..], best', bestScore')
         == SelectFrom(old(Cells(copy)), p, depth, ms[k..], best, bestScore)
  {
    ghost var b := Cells(copy);
    best', bestScore', k' := best, bestScore, k;
    var col := 0;
    while col < size
      invariant 0 <= col <= size && k <= k' <= |ms|
      invariant Cells(copy) == b
      invariant ms[k'..] == RowMoves(b[row], row, col) + MovesFrom(b, row + 1)
      invariant SelectFrom(b, p, depth, ms[k'..], best', bestScore') == SelectFrom(b, p, depth, ms[k..], best, bestScore)
    {
      best', bestScore', k' := SelectCell(copy, size, p, depth, row, col, best', bestScore', ms, k');
      col := col + 1;
    }
  }

  /**
   * One step of all_possible_moves(matrix_copy): mark the cell, score it with
   * minimax for the opponent in a minimising frame, reset it to 0, and keep it
   * when its score is strictly better.
   */
  method SelectCell(copy: array2<int>, size: nat, p: int, depth: Option<int>, row: nat, col: nat,
                    best: Option<Move>, bestScore: int, ghost ms: seq<Move>, ghost k: nat)
    returns (best': Option<Move>, bestScore': int, ghost k': nat)
    requires copy.Length0 == size && copy.Length1 == size && p != Empty && row < size && col < size
    requires forall mv :: mv in ms ==> IsEmptyCell(Cells(copy), mv)
    requires k <= |ms| && ms[k..] == RowMoves(Cells(copy)[row], row, col) + MovesFrom(Cells(copy), row + 1)
    modifies copy
    ensures Cells(copy) == old(Cells(copy))
    ensures k <= k' <= |ms| && ms[k'..] == RowMoves(old(Cells(copy))[row], row, col + 1) + MovesFrom(old(Cells(copy)), row + 1)
    ensures SelectFrom(old(Cells(copy)), p, depth, ms[k'..], best', bestScore')
         == SelectFrom(old(Cells(copy)), p, depth, ms[k..], best, bestScore)
  {
    ghost var b := Cells(copy);
    ghost var rest := RowMoves(b[row], row, col + 1) + MovesFrom(b, row + 1);
    assert b[row][col] == copy[row, col];
    if copy[row, col] == Empty {
      ghost var mv := Move(row, col);
      assert ms[k..] == [mv] + rest;
      assert ms[k..][0] == mv && ms[k..][1..] == rest;
      assert ms[k + 1..] == rest;
      SetCell(copy, row, col, p);
      var score := MinimaxSearch(copy, size, NextTurn(p), depth, false);
      SetCell(copy, row, col, Empty);
      PlaceThenClear(b, mv, p);
      assert score == MoveScore(b, p, depth, mv);
      if score > bestScore {
        best', bestScore' := Some(Move(row, col)), score;
      } else {
        best', bestScore' := best, bestScore;
      }
      k' := k + 1;
    } else {
      best', bestScore', k' := best, bestScore, k;
    }
  }
}
