/** The implicit backward-time integrator `implicit_schema` (main.py:138-164):
    per time step, a Thomas sweep over the tridiagonal system
      -K * U[j+1][i-1] + (2K + 1) * U[j+1][i] - K * U[j+1][i+1] = U[j][i]
    whose sub- and super-diagonal coefficients are K and whose diagonal is 2K + 1. */
module Implicit {
  import opened Table
  import opened RealArith

  /** `K = 13 * time_delta / delta_x` (main.py:140): the first power of
      delta_x, unlike the explicit scheme's square. */
  function ImplicitConst(timeDelta: real, deltaX: real): (k: real)
    requires deltaX != 0.0
    ensures timeDelta >= 0.0 && deltaX > 0.0 ==> k >= 0.0
  {
    Diffusivity * timeDelta / deltaX
  }

  /** The diagonal coefficient `Ci = 2*K + 1` (main.py:143). */
  function Diagonal(k: real): (d: real) {
    2.0 * k + 1.0
  }

  /** The divisor `Ci - alpha[i-1]*Ai` of the forward sweep (main.py:153, 155). */
  function Pivot(k: real, alphaPrev: real): (p: real) {
    Diagonal(k) - alphaPrev * k
  }

  /** `new_alpha = Bi / (Ci - alpha[i-1]*Ai)` (main.py:153). */
  function NextAlpha(k: real, alphaPrev: real): (alpha: real)
    requires Pivot(k, alphaPrev) != 0.0
  {
    k / Pivot(k, alphaPrev)
  }

  /** `new_beta = (Ai*beta[i-1] + U[j][i-1]) / (Ci - alpha[i-1]*Ai)` (main.py:155),
      where `below` is the previous row's value U[j][i-1]. */
  function NextBeta(k: real, alphaPrev: real, betaPrev: real, below: real): (beta: real)
    requires Pivot(k, alphaPrev) != 0.0
  {
    (k * betaPrev + below) / Pivot(k, alphaPrev)
  }

  /** With K >= 0 and alpha[i-1] in [0, 1), the divisor is at least K + 1 and
      the next alpha is again in [0, 1). */
  lemma PivotBound(k: real, alphaPrev: real)
    requires k >= 0.0 && 0.0 <= alphaPrev < 1.0
    ensures Pivot(k, alphaPrev) >= k + 1.0
    ensures 0.0 <= NextAlpha(k, alphaPrev) < 1.0
  {
    ProductNonNegative(1.0 - alphaPrev, k);
    var p := Pivot(k, alphaPrev);
    assert (k / p) * p == k;
  }

  /** alpha and beta are the forward sweep of main.py:148-156 that produces
      `row` from the row before it: they start at 0 and at the left boundary
      of `row`, and each later entry follows the recurrence over a positive
      divisor. */
  ghost predicate ForwardSwept(u: array2<real>, row: nat, k: real, alpha: seq<real>, beta: seq<real>)
    reads u
    requires 1 <= row < u.Length0
  {
    |alpha| == |beta| == u.Length1 >= 1 && alpha[0] == 0.0 && beta[0] == u[row, 0] &&
    forall i :: 0 <= i < u.Length1 - 1 ==>
      Pivot(k, alpha[i]) > 0.0 &&
      alpha[i + 1] == NextAlpha(k, alpha[i]) &&
      beta[i + 1] == NextBeta(k, alpha[i], beta[i], u[row - 1, i])
  }

  /** `U[j+1][i] = alpha[i+1]*U[j+1][i+1] + beta[i+1]` (main.py:159), where
      `right` is U[j+1][i+1]. */
  function BackValue(alphaNext: real, betaNext: real, right: real): (mid: real) {
    alphaNext * right + betaNext
  }

  /** `row` is the back substitution of main.py:158-159 over alpha and beta. */
  ghost predicate BackSubstituted(u: array2<real>, row: nat, alpha: seq<real>, beta: seq<real>)
    reads u
    requires row < u.Length0 && |alpha| == |beta| == u.Length1
  {
    forall i :: 1 <= i < u.Length1 - 1 ==> u[row, i] == BackValue(alpha[i + 1], beta[i + 1], u[row, i + 1])
  }

  /** The implicit equation at one node: `left`, `mid` and `right` are the new
      row's values at nodes i-1, i and i+1, `below` the previous row's at i. */
  ghost predicate NodeEquation(k: real, left: real, mid: real, right: real, below: real) {
    -k * left + Diagonal(k) * mid - k * right == below
  }

  /** `row` satisfies the implicit equation at every node 2 .. N-2. */
  ghost predicate RowSolved(u: array2<real>, row: nat, k: real)
    reads u
    requires 1 <= row < u.Length0
  {
    forall i :: 2 <= i < u.Length1 - 1 ==> NodeEquation(k, u[row, i - 1], u[row, i], u[row, i + 1], u[row - 1, i])
  }

  /** The forward sweep of main.py:148-156 for producing `row`. Whenever K >= 0
      every alpha lies in [0, 1) and every divisor is at least K + 1, so no
      division is by zero. */
  method ForwardSweep(u: array2<real>, row: nat, k: real) returns (alpha: seq<real>, beta: seq<real>)
    requires 1 <= row < u.Length0 && u.Length1 >= 1
    requires k >= 0.0
    ensures ForwardSwept(u, row, k, alpha, beta)
    ensures forall i :: 0 <= i < |alpha| ==> 0.0 <= alpha[i] < 1.0
    ensures forall i :: 0 <= i < |alpha| - 1 ==> Pivot(k, alpha[i]) >= k + 1.0
  {
    alpha := [0.0];
    beta := [u[row, 0]];
    for i := 1 to u.Length1
      invariant |alpha| == |beta| == i
      invariant alpha[0] == 0.0 && beta[0] == u[row, 0]
      invariant forall m :: 0 <= m < i ==> 0.0 <= alpha[m] < 1.0
      invariant forall m :: 0 <= m < i - 1 ==>
        Pivot(k, alpha[m]) >= k + 1.0 &&
        alpha[m + 1] == NextAlpha(k, alpha[m]) &&
        beta[m + 1] == NextBeta(k, alpha[m], beta[m], u[row - 1, m])
    {
      PivotBound(k, alpha[i - 1]);
      var newAlpha := NextAlpha(k, alpha[i - 1]);
      alpha := alpha + [newAlpha];
      var newBeta := NextBeta(k, alpha[i - 1], beta[i - 1], u[row - 1, i - 1]);
      beta := beta + [newBeta];
    }
  }

  /** The recurrences at nodes i and i+1 together give the implicit equation at
      node i: eliminate U[i-1] = alpha[i]*U[i] + beta[i], and multiply
      U[i] = alpha[i+1]*U[i+1] + beta[i+1] by the divisor. */
  lemma ThomasNode(k: real, alphaI: real, betaI: real, alphaNext: real, betaNext: real,
                   prev: real, left: real, mid: real, right: real)
    requires Pivot(k, alphaI) > 0.0
    requires alphaNext == NextAlpha(k, alphaI)
    requires betaNext == NextBeta(k, alphaI, betaI, prev)
    requires left == BackValue(alphaI, betaI, mid)
    requires mid == BackValue(alphaNext, betaNext, right)
    ensures NodeEquation(k, left, mid, right, prev)
  {
    var p := Pivot(k, alphaI);
    assert alphaNext * p == k;
    assert betaNext * p == k * betaI + prev;
    assert p * mid == k * right + k * betaI + prev by {
      assert p * mid == (alphaNext * p) * right + betaNext * p;
    }
    assert -k * left + Diagonal(k) * mid == p * mid - k * betaI;
  }

  /** Node i of a row whose sweep recurrence holds at i and whose back
      substitution holds at i-1 and at i satisfies the implicit equation. */
  lemma SweptNode(u: array2<real>, row: nat, k: real, alpha: seq<real>, beta: seq<real>, i: nat)
    requires 1 <= row < u.Length0 && 1 <= i < u.Length1 - 1
    requires i + 1 < |alpha| && i + 1 < |beta|
    requires Pivot(k, alpha[i]) > 0.0
    requires alpha[i + 1] == NextAlpha(k, alpha[i])
    requires beta[i + 1] == NextBeta(k, alpha[i], beta[i], u[row - 1, i])
    requires u[row, i - 1] == BackValue(alpha[i], beta[i], u[row, i])
    requires u[row, i] == BackValue(alpha[i + 1], beta[i + 1], u[row, i + 1])
    ensures NodeEquation(k, u[row, i - 1], u[row, i], u[row, i + 1], u[row - 1, i])
  {
    ThomasNode(k, alpha[i], beta[i], alpha[i + 1], beta[i + 1], u[row - 1, i],
               u[row, i - 1], u[row, i], u[row, i + 1]);
  }

  /** A row that is the back substitution of a forward sweep satisfies the
      implicit equation at every node 2 .. N-2. Node 1 is not covered: the sweep
      starts at alpha[0] = 0, beta[0] = U[row][0], which stand for a node left of
      the boundary, so node 1's own equation is never imposed. */
  lemma SweepSolvesRow(u: array2<real>, row: nat, k: real, alpha: seq<real>, beta: seq<real>)
    requires 1 <= row < u.Length0
    requires ForwardSwept(u, row, k, alpha, beta) && BackSubstituted(u, row, alpha, beta)
    ensures RowSolved(u, row, k)
  {
    forall i | 2 <= i < u.Length1 - 1
      ensures NodeEquation(k, u[row, i - 1], u[row, i], u[row, i + 1], u[row - 1, i])
    {
      SweptNode(u, row, k, alpha, beta, i);
    }
  }

  /** Node 1 as written: on three nodes with K = 1, a previous row of ones and
      new boundaries 2 and 1 (positive values, as the closed form always gives),
      any row that is the back substitution of the sweep seeded at index 0 has
      U[1] = 9/8, which violates node 1's equation (whose solution is 4/3). */
  lemma NodeOneCounterexample(u: array2<real>, alpha: seq<real>, beta: seq<real>)
    requires 2 <= u.Length0 && u.Length1 == 3
    requires u[0, 0] == 1.0 && u[0, 1] == 1.0 && u[0, 2] == 1.0
    requires u[1, 0] == 2.0 && u[1, 2] == 1.0
    requires ForwardSwept(u, 1, 1.0, alpha, beta) && BackSubstituted(u, 1, alpha, beta)
    ensures u[1, 1] == 9.0 / 8.0
    ensures !NodeEquation(1.0, u[1, 0], u[1, 1], u[1, 2], u[0, 1])
  {
    assert alpha[1] == NextAlpha(1.0, 0.0) == 1.0 / 3.0;
    assert beta[1] == NextBeta(1.0, 0.0, 2.0, 1.0) == 1.0;
    assert alpha[2] == NextAlpha(1.0, 1.0 / 3.0) == 3.0 / 8.0;
    assert beta[2] == NextBeta(1.0, 1.0 / 3.0, 1.0, 1.0) == 3.0 / 4.0;
    assert u[1, 1] == BackValue(alpha[2], beta[2], u[1, 2]);
  }

  /** The sweep seeded at node 1 instead of node 0: alpha[1] = 0 and
      beta[1] = U[row][0] make the back substitution reproduce the boundary,
      U[row][0] = alpha[1]*U[row][1] + beta[1]; the recurrence is unchanged. */
  ghost predicate BoundarySwept(u: array2<real>, row: nat, k: real, alpha: seq<real>, beta: seq<real>)
    reads u
    requires 1 <= row < u.Length0
  {
    |alpha| == |beta| == u.Length1 >= 2 && alpha[1] == 0.0 && beta[1] == u[row, 0] &&
    forall i :: 1 <= i < u.Length1 - 1 ==>
      Pivot(k, alpha[i]) > 0.0 &&
      alpha[i + 1] == NextAlpha(k, alpha[i]) &&
      beta[i + 1] == NextBeta(k, alpha[i], beta[i], u[row - 1, i])
  }

  /** The forward sweep seeded at node 1. With K >= 0 its divisors are again at
      least K + 1. */
  method ForwardSweepFromBoundary(u: array2<real>, row: nat, k: real) returns (alpha: seq<real>, beta: seq<real>)
    requires 1 <= row < u.Length0 && u.Length1 >= 2
    requires k >= 0.0
    ensures BoundarySwept(u, row, k, alpha, beta)
    ensures forall i :: 1 <= i < |alpha| ==> 0.0 <= alpha[i] < 1.0
  {
    alpha := [0.0, 0.0];
    beta := [u[row, 0], u[row, 0]];
    for i := 2 to u.Length1
      invariant |alpha| == |beta| == i
      invariant alpha[1] == 0.0 && beta[1] == u[row, 0]
      invariant forall m :: 1 <= m < i ==> 0.0 <= alpha[m] < 1.0
      invariant forall m :: 1 <= m < i - 1 ==>
        Pivot(k, alpha[m]) > 0.0 &&
        alpha[m + 1] == NextAlpha(k, alpha[m]) &&
        beta[m + 1] == NextBeta(k, alpha[m], beta[m], u[row - 1, m])
    {
      PivotBound(k, alpha[i - 1]);
      var newAlpha := NextAlpha(k, alpha[i - 1]);
      alpha := alpha + [newAlpha];
      var newBeta := NextBeta(k, alpha[i - 1], beta[i - 1], u[row - 1, i - 1]);
      beta := beta + [newBeta];
    }
  }

  /** With the sweep seeded at node 1, the back substitution satisfies the
      implicit equation at every interior node 1 .. N-2, node 1 included. */
  lemma BoundarySweepSolvesRow(u: array2<real>, row: nat, k: real, alpha: seq<real>, beta: seq<real>)
    requires 1 <= row < u.Length0
    requires BoundarySwept(u, row, k, alpha, beta) && BackSubstituted(u, row, alpha, beta)
    ensures forall i :: 1 <= i < u.Length1 - 1 ==>
      NodeEquation(k, u[row, i - 1], u[row, i], u[row, i + 1], u[row - 1, i])
  {
    forall i | 1 <= i < u.Length1 - 1
      ensures NodeEquation(k, u[row, i - 1], u[row, i], u[row, i + 1], u[row - 1, i])
    {
      SweptNode(u, row, k, alpha, beta, i);
    }
  }

  /** The back substitution of main.py:158-159: columns N-2 down to 1 of `row`,
      each from the one to its right, which is already final when it is read.
      Only the interior of `row` changes, and all of it becomes known. */
  method BackSubstitute(u: array2<real>, known: array2<bool>, row: nat, alpha: seq<real>, beta: seq<real>)
    requires u.Length0 == known.Length0 && u.Length1 == known.Length1
    requires row < u.Length0 && u.Length1 >= 2 && |alpha| == |beta| == u.Length1
    requires known[row, 0] && known[row, u.Length1 - 1]
    modifies u, known
    ensures forall r, i :: 0 <= r < u.Length0 && r != row && 0 <= i < u.Length1 ==>
      u[r, i] == old(u[r, i]) && known[r, i] == old(known[r, i])
    ensures u[row, 0] == old(u[row, 0]) && u[row, u.Length1 - 1] == old(u[row, u.Length1 - 1])
    ensures forall i :: 0 <= i < u.Length1 ==> known[row, i]
    ensures BackSubstituted(u, row, alpha, beta)
  {
    var n := u.Length1;
    var i := n - 2;
    while i >= 1
      invariant 0 <= i <= n - 2
      invariant forall r, m :: 0 <= r < u.Length0 && r != row && 0 <= m < n ==>
        u[r, m] == old(u[r, m]) && known[r, m] == old(known[r, m])
      invariant u[row, 0] == old(u[row, 0]) && u[row, n - 1] == old(u[row, n - 1])
      invariant known[row, 0] && known[row, n - 1]
      invariant forall m :: i < m < n - 1 ==>
        known[row, m] && u[row, m] == BackValue(alpha[m + 1], beta[m + 1], u[row, m + 1])
    {
      u[row, i] := BackValue(alpha[i + 1], beta[i + 1], u[row, i + 1]);
      known[row, i] := true;
      i := i - 1;
    }
  }

  /** One time step of main.py:147-159, producing `row` (the source's j+1) from
      the complete row before it: the forward sweep, then back substitution.
      Only the interior of `row` changes; afterwards it is known, it is the
      back substitution of the sweep, and it satisfies the implicit equation at
      nodes 2 .. N-2. */
  method ImplicitStep(u: array2<real>, known: array2<bool>, row: nat, k: real)
    returns (ghost alpha: seq<real>, ghost beta: seq<real>)
    requires u.Length0 == known.Length0 && u.Length1 == known.Length1
    requires 1 <= row < u.Length0 && u.Length1 >= 2 && k >= 0.0
    requires forall r, i :: 0 <= r < row && 0 <= i < u.Length1 ==> known[r, i]
    requires forall i :: 0 <= i < u.Length1 ==> (known[row, i] <==> i == 0 || i == u.Length1 - 1)
    modifies u, known
    ensures forall r, i :: 0 <= r < u.Length0 && r != row && 0 <= i < u.Length1 ==>
      u[r, i] == old(u[r, i]) && known[r, i] == old(known[r, i])
    ensures u[row, 0] == old(u[row, 0]) && u[row, u.Length1 - 1] == old(u[row, u.Length1 - 1])
    ensures forall i :: 0 <= i < u.Length1 ==> known[row, i]
    ensures ForwardSwept(u, row, k, alpha, beta) && BackSubstituted(u, row, alpha, beta)
    ensures RowSolved(u, row, k)
    ensures forall r :: 1 <= r < row && old(RowSolved(u, r, k)) ==> RowSolved(u, r, k)
    ensures forall r, a, b ::
      (1 <= r < row && |a| == |b| == u.Length1 &&
       old(ForwardSwept(u, r, k, a, b)) && old(BackSubstituted(u, r, a, b))) ==>
      ForwardSwept(u, r, k, a, b) && BackSubstituted(u, r, a, b)
  {
    var a, b := ForwardSweep(u, row, k);
    BackSubstitute(u, known, row, a, b);
    alpha, beta := a, b;
    SweepSolvesRow(u, row, k, alpha, beta);
    forall r, a', b' | 1 <= r < row && |a'| == |b'| == u.Length1 &&
      old(ForwardSwept(u, r, k, a', b')) && old(BackSubstituted(u, r, a', b'))
      ensures ForwardSwept(u, r, k, a', b') && BackSubstituted(u, r, a', b')
    {
    }
    forall r | 1 <= r < row && old(RowSolved(u, r, k))
      ensures RowSolved(u, r, k)
    {
    }
  }

  /** The time loop of main.py:147-159 over a seeded table: one step per row
      after the first, in order. Fixed cells keep their values, every cell
      becomes known, every later row solves the implicit equation at nodes
      2 .. N-2, and row j+1 is the back substitution of the j-th sweep, whose
      coefficients are returned as ghosts. */
  method ImplicitSteps(u: array2<real>, known: array2<bool>, k: real)
    returns (ghost alphas: seq<seq<real>>, ghost betas: seq<seq<real>>)
    requires u.Length0 == known.Length0 && u.Length1 == known.Length1
    requires u.Length1 >= 2 && k >= 0.0
    requires forall r, i :: 0 <= r < u.Length0 && 0 <= i < u.Length1 ==> (known[r, i] <==> Fixed(r, i, u.Length1))
    modifies u, known
    ensures forall r, i :: 0 <= r < u.Length0 && 0 <= i < u.Length1 && Fixed(r, i, u.Length1) ==> u[r, i] == old(u[r, i])
    ensures forall r, i :: 0 <= r < u.Length0 && 0 <= i < u.Length1 ==> known[r, i]
    ensures forall r :: 1 <= r < u.Length0 ==> RowSolved(u, r, k)
    ensures |alphas| == |betas| && (u.Length0 == 0 ==> alphas == []) && (u.Length0 > 0 ==> |alphas| == u.Length0 - 1)
    ensures forall j :: 0 <= j < |alphas| ==> |alphas[j]| == |betas[j]| == u.Length1
    ensures forall j :: 0 <= j < |alphas| ==>
      ForwardSwept(u, j + 1, k, alphas[j], betas[j]) && BackSubstituted(u, j + 1, alphas[j], betas[j])
  {
    var n := u.Length1;
    alphas, betas := [], [];
    var j := 0;
    while j + 1 < u.Length0
      invariant 0 <= j && (u.Length0 > 0 ==> j < u.Length0) && (u.Length0 == 0 ==> j == 0)
      invariant |alphas| == |betas| == j
      invariant forall r, i :: 0 <= r < u.Length0 && 0 <= i < n && Fixed(r, i, n) ==> u[r, i] == old(u[r, i])
      invariant forall r, i :: 0 <= r <= j && r < u.Length0 && 0 <= i < n ==> known[r, i]
      invariant forall r, i :: j < r < u.Length0 && 0 <= i < n ==> (known[r, i] <==> Fixed(r, i, n))
      invariant forall r :: 1 <= r <= j && r < u.Length0 ==> RowSolved(u, r, k)
      invariant forall m :: 0 <= m < j ==> |alphas[m]| == |betas[m]| == n
      invariant forall m :: 0 <= m < j ==>
        ForwardSwept(u, m + 1, k, alphas[m], betas[m]) && BackSubstituted(u, m + 1, alphas[m], betas[m])
    {
      ghost var alpha, beta := ImplicitStep(u, known, j + 1, k);
      alphas, betas := alphas + [alpha], betas + [beta];
      j := j + 1;
    }
  }

  /** The final scan of main.py:161-164: reports whether some cell is unset
      (NaN in the source, where finding one ends the program). */
  method ScanForUnset(known: array2<bool>) returns (found: bool)
    ensures found <==> exists j, i :: 0 <= j < known.Length0 && 0 <= i < known.Length1 && !known[j, i]
  {
    for j := 0 to known.Length0
      invariant forall r, i :: 0 <= r < j && 0 <= i < known.Length1 ==> known[r, i]
    {
      for i := 0 to known.Length1
        invariant forall m :: 0 <= m < i ==> known[j, m]
      {
        if !known[j, i] {
          return true;
        }
      }
    }
    return false;
  }
}
