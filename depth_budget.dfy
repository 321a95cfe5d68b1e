/**
 * The limit on the minimax depth: the number of leading factors of
 * SIZE^2 * (SIZE^2 - 1) * ... * 1 whose product stays within 500_000_000.
 */
module DepthBudget {

  const MaxSteps := 500_000_000

  /** n * (n - 1) * ... * (n - k + 1), the product of the k largest factors of n!. */
  function FallingProduct(n: nat, k: nat): nat
    requires k <= n
  {
    if k == 0 then 1 else FallingProduct(n, k - 1) * (n - k + 1)
  }

  /**
   * d factors fit within the limit and, unless all n factors fit, one more
   * factor exceeds it.
   */
  predicate IsDepthBudget(n: nat, d: nat)
  {
    d <= n && FallingProduct(n, d) <= MaxSteps && (d < n ==> FallingProduct(n, d + 1) > MaxSteps)
  }

  /** The loop at the top of the program that sets @MINIMAX_DEPTH. */
  method ComputeMinimaxDepth(size: nat) returns (depth: nat)
    ensures IsDepthBudget(size * size, depth)
  {
    var n := size * size;
    var currentSteps := 1;
    depth := 0;
    var i := n;
    while i >= 1
      invariant 0 <= i <= n && depth == n - i
      invariant currentSteps == FallingProduct(n, depth) <= MaxSteps
    {
      currentSteps := currentSteps * i;
      if currentSteps > MaxSteps {
        break;
      }
      depth := depth + 1;
      i := i - 1;
    }
  }

  /** Each further factor is at least 1, so the product never shrinks. */
  lemma {:induction false} FallingProductMonotone(n: nat, j: nat, k: nat)
    requires j <= k <= n
    ensures FallingProduct(n, j) <= FallingProduct(n, k)
    decreases k - j
  {
    if j < k {
      FallingProductMonotone(n, j, k - 1);
      MulMonotone(FallingProduct(n, k - 1), 1, FallingProduct(n, k - 1), n - k + 1);
    }
  }

  /** The depth budget is determined by the board: at most one depth meets it. */
  lemma DepthBudgetUnique(n: nat, d1: nat, d2: nat)
    requires IsDepthBudget(n, d1) && IsDepthBudget(n, d2)
    ensures d1 == d2
  {
    if d1 < d2 {
      FallingProductMonotone(n, d1 + 1, d2);
    } else if d2 < d1 {
      FallingProductMonotone(n, d2 + 1, d1);
    }
  }

  /** On the 3x3 board all 9! = 362880 steps fit, so the search is not limited. */
  lemma DepthForSize3()
    ensures IsDepthBudget(3 * 3, 9)
    ensures forall d :: IsDepthBudget(3 * 3, d) ==> d == 9
  {
    assert FallingProduct(9, 9) == 362880;
    forall d | IsDepthBudget(3 * 3, d)
      ensures d == 9
    {
      DepthBudgetUnique(9, d, 9);
    }
  }

  /** On the 4x4 board 16 * 15 * ... * 10 fits and one more factor of 9 does not. */
  lemma DepthForSize4()
    ensures IsDepthBudget(4 * 4, 7)
  {
    assert FallingProduct(16, 7) == 57657600;
    assert FallingProduct(16, 8) == 518918400;
  }

  lemma MulMonotone(a: nat, b: nat, c: nat, d: nat)
    requires a <= c && b <= d
    ensures a * b <= c * d
  {
    assert a * b <= c * b;
    assert c * b <= c * d;
  }

  /**
   * For every board size the program accepts (2 to 25) at least three factors
   * fit, so make_move's depth @MINIMAX_DEPTH - 2 is at least 1.
   */
  lemma DepthAtLeastThree(size: nat, d: nat)
    requires 2 <= size <= 25 && IsDepthBudget(size * size, d)
    ensures d >= 3
  {
    var n := size * size;
    MulMonotone(size, size, 25, 25);
    assert 4 <= n <= 625 by {
      MulMonotone(2, 2, size, size);
    }
    assert FallingProduct(n, 1) == n;
    assert FallingProduct(n, 2) == n * (n - 1);
    assert FallingProduct(n, 3) == n * (n - 1) * (n - 2);
    MulMonotone(n, n - 1, 625, 624);
    MulMonotone(n * (n - 1), n - 2, 625 * 624, 623);
    if d < 3 {
      FallingProductMonotone(n, d + 1, 3);
    }
  }
}
