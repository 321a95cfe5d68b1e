/**
 * The game-tree search: plain minimax and minimax with alpha-beta pruning, each
 * once as a function on board values (the specification) and once as a method
 * that places and clears marks in the shared array2 board (the program).
 *
 * A depth is an Option<int>: None is Ruby's nil (no limit). A depth of 0 stops
 * the search with the score 0; any other integer, negative ones included, is
 * decreased by one per level, so a negative depth never stops the search early.
 */
module Search {
  import opened BoardModel
  import opened Evaluator
  import opened MoveEnumerator

  /** The starting values of the maximising and the minimising frame. */
  const MinSentinel := -100
  const MaxSentinel := 100

  function Max(a: int, b: int): int { if a >= b then a else b }
  function Min(a: int, b: int): int { if a <= b then a else b }

  /** x limited to the window [lo, hi]. */
  function Clamp(x: int, lo: int, hi: int): int { Max(lo, Min(x, hi)) }

  /**
   * The score of a won position for the player to move: +1 when the owner is that
   * player, -1 otherwise, negated in a minimising frame.
   */
  function LeafScore(winner: int, p: int, isMax: bool): (s: int)
    ensures s == 1 || s == -1
    ensures s == 1 <==> ((winner == p) == isMax)
  {
    var r := if winner == p then 1 else -1;
    if isMax then r else -r
  }

  /** `depth ? depth - 1 : depth`. */
  function ChildDepth(depth: Option<int>): Option<int>
  {
    match depth
    case None => None
    case Some(d) => Some(d - 1)
  }

  // ---------------------------------------------------------------------------
  // Plain minimax

  /** minimax(matrix, player_no, depth, is_maximizing) on a board value. */
  function Minimax(b: Board, p: int, depth: Option<int>, isMax: bool): (score: int)
    requires IsSquare(b) && p != Empty
    ensures -1 <= score <= 1
    decreases |Moves(b)|, 1
  {
    match Evaluate(b)
    case Draw => 0
    case Win(w) => LeafScore(w, p, isMax)
    case Unfinished =>
      if depth == Some(0) then 0
      else
        MovesNonEmpty(b);
        MinimaxFrame(b, p, ChildDepth(depth), isMax)
  }

  /** A frame's loop over all_possible_moves, from the sentinel -100 (maximising) or 100. */
  function MinimaxFrame(b: Board, p: int, depth: Option<int>, isMax: bool): (r: int)
    requires IsSquare(b) && p != Empty
    ensures Moves(b) != [] ==> -1 <= r <= 1
    decreases |Moves(b)|, 0, |Moves(b)| + 1
  {
    MovesExact(b);
    MinimaxFold(b, p, depth, isMax, Moves(b), if isMax then MinSentinel else MaxSentinel)
  }

  /** The score of the child reached by p marking mv. */
  function MinimaxChild(b: Board, p: int, depth: Option<int>, isMax: bool, mv: Move): (s: int)
    requires IsSquare(b) && p != Empty && IsEmptyCell(b, mv)
    ensures -1 <= s <= 1
    decreases |Moves(b)|, 0, 0
  {
    PlaceRemovesMove(b, mv, p);
    Minimax(Place(b, mv, p), NextTurn(p), depth, !isMax)
  }

  /**
   * The loop over the moves: `value = [new_value, value].max` in a maximising
   * frame and `.min` in a minimising one.
   */
  function MinimaxFold(b: Board, p: int, depth: Option<int>, isMax: bool, ms: seq<Move>, value: int): (r: int)
    requires IsSquare(b) && p != Empty
    requires forall mv :: mv in ms ==> IsEmptyCell(b, mv)
    ensures ms == [] ==> r == value
    ensures isMax ==> r >= value
    ensures !isMax ==> r <= value
    ensures ms != [] && (if isMax then value <= 1 else value >= -1) ==> -1 <= r <= 1
    decreases |Moves(b)|, 0, |ms|
  {
    if ms == [] then value
    else
      var s := MinimaxChild(b, p, depth, isMax, ms[0]);
      MinimaxFold(b, p, depth, isMax, ms[1..], if isMax then Max(s, value) else Min(s, value))
  }

  // ---------------------------------------------------------------------------
  // Alpha-beta

  /** alphabeta(matrix, player_no, depth, alpha, beta, is_maximizing) on a board value. */
  function AlphaBeta(b: Board, p: int, depth: Option<int>, alpha: int, beta: int, isMax: bool): (score: int)
    requires IsSquare(b) && p != Empty
    ensures -1 <= score <= 1
    decreases |Moves(b)|, 1
  {
    match Evaluate(b)
    case Draw => 0
    case Win(w) => LeafScore(w, p, isMax)
    case Unfinished =>
      if depth == Some(0) then 0
      else
        MovesNonEmpty(b);
        AlphaBetaFrame(b, p, ChildDepth(depth), alpha, beta, isMax)
  }

  /** A frame's loop with its cut-off, from the sentinel -100 (maximising) or 100. */
  function AlphaBetaFrame(b: Board, p: int, depth: Option<int>, alpha: int, beta: int, isMax: bool): (r: int)
    requires IsSquare(b) && p != Empty
    ensures Moves(b) != [] ==> -1 <= r <= 1
    decreases |Moves(b)|, 0, |Moves(b)| + 1
  {
    MovesExact(b);
    AlphaBetaFold(b, p, depth, alpha, beta, isMax, Moves(b), if isMax then MinSentinel else MaxSentinel)
  }

  function AlphaBetaChild(b: Board, p: int, depth: Option<int>, alpha: int, beta: int, isMax: bool, mv: Move): (s: int)
    requires IsSquare(b) && p != Empty && IsEmptyCell(b, mv)
    ensures -1 <= s <= 1
    decreases |Moves(b)|, 0, 0
  {
    PlaceRemovesMove(b, mv, p);
    AlphaBeta(Place(b, mv, p), NextTurn(p), depth, alpha, beta, !isMax)
  }

  /**
   * The loop over the moves with its cut-off: a maximising frame raises alpha to
   * the value so far, a minimising one lowers beta, and the loop stops as soon as
   * alpha >= beta.
   */
  function AlphaBetaFold(b: Board, p: int, depth: Option<int>, alpha: int, beta: int, isMax: bool,
                         ms: seq<Move>, value: int): (r: int)
    requires IsSquare(b) && p != Empty
    requires forall mv :: mv in ms ==> IsEmptyCell(b, mv)
    ensures ms == [] ==> r == value
    ensures isMax ==> r >= value
    ensures !isMax ==> r <= value
    ensures ms != [] && (if isMax then value <= 1 else value >= -1) ==> -1 <= r <= 1
    decreases |Moves(b)|, 0, |ms|
  {
    if ms == [] then value
    else
      var s := AlphaBetaChild(b, p, depth, alpha, beta, isMax, ms[0]);
      if isMax then
        var v := Max(s, value);
        var a := Max(alpha, v);
        if a >= beta then v else AlphaBetaFold(b, p, depth, a, beta, isMax, ms[1..], v)
      else
        var v := Min(s, value);
        var bt := Min(beta, v);
        if alpha >= bt then v else AlphaBetaFold(b, p, depth, alpha, bt, isMax, ms[1..], v)
  }

  // ---------------------------------------------------------------------------
  // Properties of the scores

  /**
   * The leaf rules: a draw scores 0; a win scores +1 or -1 from the point of view
   * of the player to move, negated in a minimising frame, whatever the depth; an
   * unfinished board at depth 0 scores 0. Alpha-beta has the same leaves.
   */
  lemma LeafRules(b: Board, p: int, depth: Option<int>, alpha: int, beta: int, isMax: bool)
    requires IsSquare(b) && p != Empty
    ensures Evaluate(b) == Draw ==> Minimax(b, p, depth, isMax) == 0
    ensures Evaluate(b).Win? ==>
              Minimax(b, p, depth, isMax) == (if (Evaluate(b).owner == p) == isMax then 1 else -1)
    ensures Evaluate(b) == Unfinished && depth == Some(0) ==> Minimax(b, p, depth, isMax) == 0
    ensures !Evaluate(b).Unfinished? || depth == Some(0) ==>
              AlphaBeta(b, p, depth, alpha, beta, isMax) == Minimax(b, p, depth, isMax)
  {
  }

  /** The fold keeps the largest (smallest) child score, and it is one of them. */
  lemma {:induction false} MinimaxFoldExtremum(b: Board, p: int, depth: Option<int>, isMax: bool,
                                               ms: seq<Move>, value: int)
    requires IsSquare(b) && p != Empty
    requires forall mv :: mv in ms ==> IsEmptyCell(b, mv)
    ensures isMax ==> forall mv :: mv in ms ==>
              MinimaxChild(b, p, depth, isMax, mv) <= MinimaxFold(b, p, depth, isMax, ms, value)
    ensures !isMax ==> forall mv :: mv in ms ==>
              MinimaxChild(b, p, depth, isMax, mv) >= MinimaxFold(b, p, depth, isMax, ms, value)
    ensures MinimaxFold(b, p, depth, isMax, ms, value) == value
              || exists mv :: mv in ms && MinimaxFold(b, p, depth, isMax, ms, value) == MinimaxChild(b, p, depth, isMax, mv)
    decreases |ms|
  {
    if ms != [] {
      var s := MinimaxChild(b, p, depth, isMax, ms[0]);
      var value' := if isMax then Max(s, value) else Min(s, value);
      MinimaxFoldExtremum(b, p, depth, isMax, ms[1..], value');
      assert forall mv :: mv in ms ==> mv == ms[0] || mv in ms[1..];
      var r := MinimaxFold(b, p, depth, isMax, ms[1..], value');
      if r != value' {
        var mv :| mv in ms[1..] && r == MinimaxChild(b, p, depth, isMax, mv);
        assert mv in ms;
      } else if value' == s {
        assert ms[0] in ms;
      }
    }
  }

  /**
   * On an unfinished board with depth left, a maximising frame scores the
   * maximum, and a minimising frame the minimum, of the scores of the children
   * reached by marking each empty cell; the sentinels never survive.
   */
  lemma MinimaxIsExtremumOfChildren(b: Board, p: int, depth: Option<int>, isMax: bool)
    requires IsSquare(b) && p != Empty
    requires Evaluate(b) == Unfinished && depth != Some(0)
    ensures isMax ==> forall mv :: IsEmptyCell(b, mv) ==>
              MinimaxChild(b, p, ChildDepth(depth), isMax, mv) <= Minimax(b, p, depth, isMax)
    ensures !isMax ==> forall mv :: IsEmptyCell(b, mv) ==>
              MinimaxChild(b, p, ChildDepth(depth), isMax, mv) >= Minimax(b, p, depth, isMax)
    ensures exists mv :: IsEmptyCell(b, mv) &&
              Minimax(b, p, depth, isMax) == MinimaxChild(b, p, ChildDepth(depth), isMax, mv)
  {
    MovesExact(b);
    MovesNonEmpty(b);
    MinimaxFoldExtremum(b, p, ChildDepth(depth), isMax, Moves(b), if isMax then MinSentinel else MaxSentinel);
  }

  /** A line completed by someone other than the mover was already complete before the move. */
  lemma OtherLineWasComplete(b: Board, mv: Move, p: int, line: Line)
    requires IsSquare(b) && InBoard(b, mv)
    requires IsWon(Place(b, mv, p), line)
    requires LineWinner(LineCells(Place(b, mv, p), line)) != Some(p)
    ensures IsWon(b, line)
  {
    var cells := LineCells(Place(b, mv, p), line);
    var w := LineWinner(cells).value;
    LineWinnerIsCompleteLine(cells, w);
    assert ValidLine(line, |b|);
    forall i | 0 <= i < |b|
      ensures LineCells(b, line)[i] == cells[i]
    {
      assert cells[i] == w;
    }
    assert LineCells(b, line) == cells;
  }

  /**
   * An unfinished board has no complete line, so if marking one empty cell
   * completes a line, that line is the mover's.
   */
  lemma PlaceWinnerIsMover(b: Board, mv: Move, p: int)
    requires IsSquare(b) && IsEmptyCell(b, mv) && p != Empty
    requires Evaluate(b) == Unfinished
    ensures Evaluate(Place(b, mv, p)).Win? ==> Evaluate(Place(b, mv, p)).owner == p
  {
    var b' := Place(b, mv, p);
    EvaluateClassification(b);
    EvaluateClassification(b');
    if Evaluate(b').Win? && Evaluate(b').owner != p {
      var lines := Lines(|b|);
      var k :| FirstWonAt(b', lines, k) && Some(Evaluate(b').owner) == LineWinner(LineCells(b', lines[k]));
      OtherLineWasComplete(b, mv, p, lines[k]);
      assert false;
    }
  }

  /** A move that completes a line scores 1 for the player who makes it. */
  lemma WinningMoveScoresOne(b: Board, p: int, depth: Option<int>, mv: Move)
    requires IsSquare(b) && p != Empty && IsEmptyCell(b, mv)
    requires Evaluate(b) == Unfinished && Evaluate(Place(b, mv, p)).Win?
    ensures MinimaxChild(b, p, depth, true, mv) == 1
  {
    PlaceWinnerIsMover(b, mv, p);
  }

  // ---------------------------------------------------------------------------
  // Alpha-beta agrees with minimax

  /**
   * Within a window alpha < beta, alpha-beta and minimax agree once both are
   * limited to the window: an exact score inside it, and on the correct side of
   * it otherwise.
   */
  lemma {:induction false} AlphaBetaWindow(b: Board, p: int, depth: Option<int>, alpha: int, beta: int, isMax: bool)
    requires IsSquare(b) && p != Empty
    requires MinSentinel <= alpha < beta <= MaxSentinel
    ensures Clamp(AlphaBeta(b, p, depth, alpha, beta, isMax), alpha, beta)
         == Clamp(Minimax(b, p, depth, isMax), alpha, beta)
    decreases |Moves(b)|, 1
  {
    if Evaluate(b) == Unfinished && depth != Some(0) {
      MovesNonEmpty(b);
      MovesExact(b);
      if isMax {
        MaxFoldWindow(b, p, ChildDepth(depth), alpha, alpha, beta, Moves(b), MinSentinel, MinSentinel);
      } else {
        MinFoldWindow(b, p, ChildDepth(depth), alpha, beta, beta, Moves(b), MaxSentinel, MaxSentinel);
      }
    }
  }

  /**
   * The maximising loops of both searches, started from the window [alpha0, beta]:
   * alpha-beta's running alpha is alpha0 raised to its value so far, and the two
   * running values agree within the window.
   */
  lemma {:induction false} MaxFoldWindow(b: Board, p: int, depth: Option<int>, alpha0: int, alpha: int, beta: int,
                                         ms: seq<Move>, v: int, w: int)
    requires IsSquare(b) && p != Empty
    requires forall mv :: mv in ms ==> IsEmptyCell(b, mv)
    requires MinSentinel <= alpha0 <= alpha < beta <= MaxSentinel
    requires alpha == Max(alpha0, v)
    requires Clamp(v, alpha0, beta) == Clamp(w, alpha0, beta)
    ensures Clamp(AlphaBetaFold(b, p, depth, alpha, beta, true, ms, v), alpha0, beta)
         == Clamp(MinimaxFold(b, p, depth, true, ms, w), alpha0, beta)
    decreases |Moves(b)|, 0, |ms|
  {
    if ms != [] {
      var mv := ms[0];
      PlaceRemovesMove(b, mv, p);
      AlphaBetaWindow(Place(b, mv, p), NextTurn(p), depth, alpha, beta, false);
      var sab := AlphaBetaChild(b, p, depth, alpha, beta, true, mv);
      var smm := MinimaxChild(b, p, depth, true, mv);
      var v' := Max(sab, v);
      var w' := Max(smm, w);
      var a' := Max(alpha, v');
      assert Clamp(v', alpha0, beta) == Clamp(w', alpha0, beta);
      if a' < beta {
        MaxFoldWindow(b, p, depth, alpha0, a', beta, ms[1..], v', w');
      }
    }
  }

  /** The minimising loops, symmetric to MaxFoldWindow with beta lowered instead. */
  lemma {:induction false} MinFoldWindow(b: Board, p: int, depth: Option<int>, alpha: int, beta0: int, beta: int,
                                         ms: seq<Move>, v: int, w: int)
    requires IsSquare(b) && p != Empty
    requires forall mv :: mv in ms ==> IsEmptyCell(b, mv)
    requires MinSentinel <= alpha < beta <= beta0 <= MaxSentinel
    requires beta == Min(beta0, v)
    requires Clamp(v, alpha, beta0) == Clamp(w, alpha, beta0)
    ensures Clamp(AlphaBetaFold(b, p, depth, alpha, beta, false, ms, v), alpha, beta0)
         == Clamp(MinimaxFold(b, p, depth, false, ms, w), alpha, beta0)
    decreases |Moves(b)|, 0, |ms|
  {
    if ms != [] {
      var mv := ms[0];
      PlaceRemovesMove(b, mv, p);
      AlphaBetaWindow(Place(b, mv, p), NextTurn(p), depth, alpha, beta, true);
      var sab := AlphaBetaChild(b, p, depth, alpha, beta, false, mv);
      var smm := MinimaxChild(b, p, depth, false, mv);
      var v' := Min(sab, v);
      var w' := Min(smm, w);
      var bt := Min(beta, v');
      assert Clamp(v', alpha, beta0) == Clamp(w', alpha, beta0);
      if alpha < bt {
        MinFoldWindow(b, p, depth, alpha, beta0, bt, ms[1..], v', w');
      }
    }
  }

  /**
   * Alpha-beta's guarantees for a window: the exact minimax score when that lies
   * strictly inside, at most alpha when minimax is at most alpha, at least beta
   * when minimax is at least beta.
   */
  lemma AlphaBetaBounds(b: Board, p: int, depth: Option<int>, alpha: int, beta: int, isMax: bool)
    requires IsSquare(b) && p != Empty
    requires MinSentinel <= alpha < beta <= MaxSentinel
    ensures alpha < Minimax(b, p, depth, isMax) < beta ==>
              AlphaBeta(b, p, depth, alpha, beta, isMax) == Minimax(b, p, depth, isMax)
    ensures Minimax(b, p, depth, isMax) <= alpha ==> AlphaBeta(b, p, depth, alpha, beta, isMax) <= alpha
    ensures Minimax(b, p, depth, isMax) >= beta ==> AlphaBeta(b, p, depth, alpha, beta, isMax) >= beta
  {
    AlphaBetaWindow(b, p, depth, alpha, beta, isMax);
  }

  /** With the initial window (-100, 100) alpha-beta returns the minimax score. */
  lemma AlphaBetaAgrees(b: Board, p: int, depth: Option<int>, isMax: bool)
    requires IsSquare(b) && p != Empty
    ensures AlphaBeta(b, p, depth, MinSentinel, MaxSentinel, isMax) == Minimax(b, p, depth, isMax)
  {
    AlphaBetaWindow(b, p, depth, MinSentinel, MaxSentinel, isMax);
  }

  // ---------------------------------------------------------------------------
  // The searches on the shared array2 board

  /**
   * minimax on the array2 board: each empty cell in turn is marked, searched and
   * reset to 0. The board is left as it was found, and the score is Minimax of it.
   */
  method MinimaxSearch(m: array2<int>, size: nat, p: int, depth: Option<int>, isMax: bool) returns (score: int)
    requires m.Length0 == size && m.Length1 == size && p != Empty
    modifies m
    ensures Cells(m) == old(Cells(m))
    ensures score == Minimax(old(Cells(m)), p, depth, isMax)
    decreases |Moves(Cells(m))|, 4
  {
    var result := Check(m, size);
    match result {
      case Draw => return 0;
      case Win(w) => return LeafScore(w, p, isMax);
      case Unfinished =>
    }
    if depth == Some(0) {
      return 0;
    }
    score := MinimaxMoves(m, size, p, ChildDepth(depth), isMax);
  }

  /** The loop of a minimax frame over all_possible_moves of the board. */
  method MinimaxMoves(m: array2<int>, size: nat, p: int, depth: Option<int>, isMax: bool) returns (score: int)
    requires m.Length0 == size && m.Length1 == size && p != Empty
    modifies m
    ensures Cells(m) == old(Cells(m))
    ensures score == MinimaxFrame(old(Cells(m)), p, depth, isMax)
    decreases |Moves(Cells(m))|, 3
  {
    ghost var b := Cells(m);
    ghost var ms := Moves(b);
    ghost var k := 0;
    MovesExact(b);
    score := if isMax then MinSentinel else MaxSentinel;
    ghost var total := MinimaxFold(b, p, depth, isMax, ms, score);
    var row := 0;
    while row < size
      invariant 0 <= row <= size && 0 <= k <= |ms|
      invariant Cells(m) == b
      invariant ms[k..] == MovesFrom(b, row)
      invariant MinimaxFold(b, p, depth, isMax, ms[k..], score) == total
    {
      score, k := MinimaxRow(m, size, p, depth, isMax, row, score, ms, k);
      row := row + 1;
    }
  }

  /** The moves of one row within a minimax frame's loop. */
  method MinimaxRow(m: array2<int>, size: nat, p: int, depth: Option<int>, isMax: bool, row: nat, value: int,
                    ghost ms: seq<Move>, ghost k: nat)
    returns (score: int, ghost k': nat)
    requires m.Length0 == size && m.Length1 == size && p != Empty && row < size
    requires forall mv :: mv in ms ==> IsEmptyCell(Cells(m), mv)
    requires k <= |ms| && ms[k..] == RowMoves(Cells(m)[row], row, 0) + MovesFrom(Cells(m), row + 1)
    modifies m
    ensures Cells(m) == old(Cells(m))
    ensures k <= k' <= |ms| && ms[k'..] == MovesFrom(old(Cells(m)), row + 1)
    ensures MinimaxFold(old(Cells(m)), p, depth, isMax, ms[k'..], score)
         == MinimaxFold(old(Cells(m)), p, depth, isMax, ms[k..], value)
    decreases |Moves(Cells(m))|, 2
  {
    ghost var b := Cells(m);
    score, k' := value, k;
    var col := 0;
    while col < size
      invariant 0 <= col <= size && k <= k' <= |ms|
      invariant Cells(m) == b
      invariant ms[k'..] == RowMoves(b[row], row, col) + MovesFrom(b, row + 1)
      invariant MinimaxFold(b, p, depth, isMax, ms[k'..], score) == MinimaxFold(b, p, depth, isMax, ms[k..], value)
    {
      score, k' := MinimaxCell(m, size, p, depth, isMax, row, col, score, ms, k');
      col := col + 1;
    }
  }

  /**
   * One step of all_possible_moves: when the cell is empty, mark it, search the
   * child with the other player, reset the cell to 0 and combine the scores.
   */
  method MinimaxCell(m: array2<int>, size: nat, p: int, depth: Option<int>, isMax: bool, row: nat, col: nat,
                     value: int, ghost ms: seq<Move>, ghost k: nat)
    returns (score: int, ghost k': nat)
    requires m.Length0 == size && m.Length1 == size && p != Empty && row < size && col < size
    requires forall mv :: mv in ms ==> IsEmptyCell(Cells(m), mv)
    requires k <= |ms| && ms[k..] == RowMoves(Cells(m)[row], row, col) + MovesFrom(Cells(m), row + 1)
    modifies m
    ensures Cells(m) == old(Cells(m))
    ensures k <= k' <= |ms| && ms[k'..] == RowMoves(old(Cells(m))[row], row, col + 1) + MovesFrom(old(Cells(m)), row + 1)
    ensures MinimaxFold(old(Cells(m)), p, depth, isMax, ms[k'..], score)
         == MinimaxFold(old(Cells(m)), p, depth, isMax, ms[k..], value)
    decreases |Moves(Cells(m))|, 1
  {
    ghost var b := Cells(m);
    ghost var rest := RowMoves(b[row], row, col + 1) + MovesFrom(b, row + 1);
    assert b[row][col] == m[row, col];
    if m[row, col] == Empty {
      ghost var mv := Move(row, col);
      assert ms[k..] == [mv] + rest;
      assert ms[k..][0] == mv && ms[k..][1..] == rest;
      assert ms[k + 1..] == rest;
      PlaceRemovesMove(b, mv, p);
      SetCell(m, row, col, p);
      var s := MinimaxSearch(m, size, NextTurn(p), depth, !isMax);
      SetCell(m, row, col, Empty);
      PlaceThenClear(b, mv, p);
      score := if isMax then Max(s, value) else Min(s, value);
      k' := k + 1;
    } else {
      score, k' := value, k;
    }
  }

  /**
   * alphabeta on the array2 board. The board is left as it was found, also when
   * a frame stops early, and the score is AlphaBeta of it.
   */
  method AlphaBetaSearch(m: array2<int>, size: nat, p: int, depth: Option<int>, alpha: int, beta: int, isMax: bool)
    returns (score: int)
    requires m.Length0 == size && m.Length1 == size && p != Empty
    modifies m
    ensures Cells(m) == old(Cells(m))
    ensures score == AlphaBeta(old(Cells(m)), p, depth, alpha, beta, isMax)
    decreases |Moves(Cells(m))|, 4
  {
    var result := Check(m, size);
    match result {
      case Draw => return 0;
      case Win(w) => return LeafScore(w, p, isMax);
      case Unfinished =>
    }
    if depth == Some(0) {
      return 0;
    }
    score := AlphaBetaMoves(m, size, p, ChildDepth(depth), alpha, beta, isMax);
  }

  /** The loop of an alpha-beta frame over all_possible_moves, left as soon as alpha >= beta. */
  method AlphaBetaMoves(m: array2<int>, size: nat, p: int, depth: Option<int>, alpha: int, beta: int, isMax: bool)
    returns (score: int)
    requires m.Length0 == size && m.Length1 == size && p != Empty
    modifies m
    ensures Cells(m) == old(Cells(m))
    ensures score == AlphaBetaFrame(old(Cells(m)), p, depth, alpha, beta, isMax)
    decreases |Moves(Cells(m))|, 3
  {
    ghost var b := Cells(m);
    ghost var ms := Moves(b);
    ghost var k := 0;
    MovesExact(b);
    score := if isMax then MinSentinel else MaxSentinel;
    var a, bt := alpha, beta;
    ghost var total := AlphaBetaFold(b, p, depth, a, bt, isMax, ms, score);
    var row := 0;
    while row < size
      invariant 0 <= row <= size && 0 <= k <= |ms|
      invariant Cells(m) == b
      invariant ms[k..] == MovesFrom(b, row)
      invariant AlphaBetaFold(b, p, depth, a, bt, isMax, ms[k..], score) == total
    {
      var cut;
      score, a, bt, cut, k := AlphaBetaRow(m, size, p, depth, a, bt, isMax, row, score, ms, k);
      if cut {
        return;
      }
      row := row + 1;
    }
  }

  /** The moves of one row within an alpha-beta frame's loop; cut reports the break. */
  method AlphaBetaRow(m: array2<int>, size: nat, p: int, depth: Option<int>, alpha: int, beta: int, isMax: bool,
                      row: nat, value: int, ghost ms: seq<Move>, ghost k: nat)
    returns (score: int, alpha': int, beta': int, cut: bool, ghost k': nat)
    requires m.Length0 == size && m.Length1 == size && p != Empty && row < size
    requires forall mv :: mv in ms ==> IsEmptyCell(Cells(m), mv)
    requires k <= |ms| && ms[k..] == RowMoves(Cells(m)[row], row, 0) + MovesFrom(Cells(m), row + 1)
    modifies m
    ensures Cells(m) == old(Cells(m))
    ensures cut ==> score == AlphaBetaFold(old(Cells(m)), p, depth, alpha, beta, isMax, ms[k..], value)
    ensures !cut ==> k <= k' <= |ms| && ms[k'..] == MovesFrom(old(Cells(m)), row + 1)
    ensures !cut ==>
              AlphaBetaFold(old(Cells(m)), p, depth, alpha', beta', isMax, ms[k'..], score)
              == AlphaBetaFold(old(Cells(m)), p, depth, alpha, beta, isMax, ms[k..], value)
    decreases |Moves(Cells(m))|, 2
  {
    ghost var b := Cells(m);
    score, alpha', beta', cut, k' := value, alpha, beta, false, k;
    var col := 0;
    while col < size
      invariant 0 <= col <= size && k <= k' <= |ms|
      invariant Cells(m) == b
      invariant ms[k'..] == RowMoves(b[row], row, col) + MovesFrom(b, row + 1)
      invariant AlphaBetaFold(b, p, depth, alpha', beta', isMax, ms[k'..], score)
             == AlphaBetaFold(b, p, depth, alpha, beta, isMax, ms[k..], value)
    {
      score, alpha', beta', cut, k' := AlphaBetaCell(m, size, p, depth, alpha', beta', isMax, row, col, score, ms, k');
      if cut {
        return;
      }
      col := col + 1;
    }
  }

  /**
   * One step of all_possible_moves in alphabeta: mark, search, reset, combine,
   * move alpha (maximising) or beta (minimising), and report alpha >= beta.
   */
  method AlphaBetaCell(m: array2<int>, size: nat, p: int, depth: Option<int>, alpha: int, beta: int, isMax: bool,
                       row: nat, col: nat, value: int, ghost ms: seq<Move>, ghost k: nat)
    returns (score: int, alpha': int, beta': int, cut: bool, ghost k': nat)
    requires m.Length0 == size && m.Length1 == size && p != Empty && row < size && col < size
    requires forall mv :: mv in ms ==> IsEmptyCell(Cells(m), mv)
    requires k <= |ms| && ms[k..] == RowMoves(Cells(m)[row], row, col) + MovesFrom(Cells(m), row + 1)
    modifies m
    ensures Cells(m) == old(Cells(m))
    ensures cut ==> score == AlphaBetaFold(old(Cells(m)), p, depth, alpha, beta, isMax, ms[k..], value)
    ensures !cut ==> k <= k' <= |ms| && ms[k'..] == RowMoves(old(Cells(m))[row], row, col + 1) + MovesFrom(old(Cells(m)), row + 1)
    ensures !cut ==>
              AlphaBetaFold(old(Cells(m)), p, depth, alpha', beta', isMax, ms[k'..], score)
              == AlphaBetaFold(old(Cells(m)), p, depth, alpha, beta, isMax, ms[k..], value)
    decreases |Moves(Cells(m))|, 1
  {
    ghost var b := Cells(m);
    ghost var rest := RowMoves(b[row], row, col + 1) + MovesFrom(b, row + 1);
    assert b[row][col] == m[row, col];
    if m[row, col] == Empty {
      ghost var mv := Move(row, col);
      assert ms[k..] == [mv] + rest;
      assert ms[k..][0] == mv && ms[k..][1..] == rest;
      assert ms[k + 1..] == rest;
      PlaceRemovesMove(b, mv, p);
      SetCell(m, row, col, p);
      var s := AlphaBetaSearch(m, size, NextTurn(p), depth, alpha, beta, !isMax);
      SetCell(m, row, col, Empty);
      PlaceThenClear(b, mv, p);
      if isMax {
        score := Max(s, value);
        alpha', beta' := Max(alpha, score), beta;
      } else {
        score := Min(s, value);
        alpha', beta' := alpha, Min(beta, score);
      }
      cut := alpha' >= beta';
      k' := k + 1;
    } else {
      score, alpha', beta', cut, k' := value, alpha, beta, false, k;
    }
  }
}
