/** The explicit forward-time, centred-space integrator `explicit_schema`
    (main.py:119-136). */
module Explicit {
  import opened Table
  import opened RealArith

  /** `const = 13 * time_delta / delta_x**2` (main.py:121). */
  function ExplicitConst(timeDelta: real, deltaX: real): (c: real)
    requires deltaX != 0.0
    ensures timeDelta > 0.0 ==> c > 0.0
  {
    assert deltaX * deltaX > 0.0;
    Diffusivity * timeDelta / (deltaX * deltaX)
  }

  /** The three-point update of main.py:127-130 for a cell whose left, own and
      right neighbours in the previous row are `left`, `mid` and `right`. */
  function Stencil(left: real, mid: real, right: real, c: real): (next: real) {
    mid + c * (left - 2.0 * mid + right)
  }

  /** With 0 <= c <= 1/2 the update is a convex combination of its three
      inputs, so it never leaves an interval that holds all three. */
  lemma StencilBetween(left: real, mid: real, right: real, c: real, lo: real, hi: real)
    requires 0.0 <= c <= 0.5
    requires lo <= left <= hi && lo <= mid <= hi && lo <= right <= hi
    ensures lo <= Stencil(left, mid, right, c) <= hi
  {
    var w := 1.0 - 2.0 * c;
    var st := Stencil(left, mid, right, c);
    assert st - lo == w * (mid - lo) + c * (left - lo) + c * (right - lo);
    assert hi - st == w * (hi - mid) + c * (hi - left) + c * (hi - right);
    ProductNonNegative(w, mid - lo);
    ProductNonNegative(w, hi - mid);
    ProductNonNegative(c, left - lo);
    ProductNonNegative(c, hi - left);
    ProductNonNegative(c, right - lo);
    ProductNonNegative(c, hi - right);
  }

  /** Every interior cell (row j >= 1, column 1 .. N-2) holds the update of its
      three neighbours in the row before. */
  ghost predicate FtcsHolds(u: array2<real>, c: real)
    reads u
  {
    forall j, i :: 1 <= j < u.Length0 && 1 <= i < u.Length1 - 1 ==>
      u[j, i] == Stencil(u[j - 1, i - 1], u[j - 1, i], u[j - 1, i + 1], c)
  }

  /** One pass of the inner loop of main.py:125-130: row j-1 is complete and row
      j holds only its two boundary cells. Every interior cell of row j is
      unset when it is reached, so the NaN guard always passes; each one is
      written exactly once, with the update of row j-1. Nothing else changes. */
  method ExplicitRow(u: array2<real>, known: array2<bool>, j: nat, c: real)
    requires u.Length0 == known.Length0 && u.Length1 == known.Length1
    requires 1 <= j < u.Length0 && u.Length1 >= 2
    requires forall r, i :: 0 <= r < j && 0 <= i < u.Length1 ==> known[r, i]
    requires forall i :: 0 <= i < u.Length1 ==> (known[j, i] <==> i == 0 || i == u.Length1 - 1)
    modifies u, known
    ensures forall r, i :: 0 <= r < u.Length0 && r != j && 0 <= i < u.Length1 ==>
      u[r, i] == old(u[r, i]) && known[r, i] == old(known[r, i])
    ensures u[j, 0] == old(u[j, 0]) && u[j, u.Length1 - 1] == old(u[j, u.Length1 - 1])
    ensures forall i :: 0 <= i < u.Length1 ==> known[j, i]
    ensures forall i :: 1 <= i < u.Length1 - 1 ==>
      u[j, i] == Stencil(u[j - 1, i - 1], u[j - 1, i], u[j - 1, i + 1], c)
  {
    var n := u.Length1;
    for i := 1 to n - 1
      invariant forall r, k :: 0 <= r < u.Length0 && r != j && 0 <= k < n ==>
        u[r, k] == old(u[r, k]) && known[r, k] == old(known[r, k])
      invariant u[j, 0] == old(u[j, 0]) && u[j, n - 1] == old(u[j, n - 1])
      invariant known[j, 0] && known[j, n - 1]
      invariant forall k :: 1 <= k < i ==>
        known[j, k] && u[j, k] == Stencil(u[j - 1, k - 1], u[j - 1, k], u[j - 1, k + 1], c)
      invariant forall k :: i <= k < n - 1 ==> !known[j, k]
    {
      if !known[j, i] {
        var uiLeft := u[j - 1, i - 1];
        var ui := u[j - 1, i];
        var uiRight := u[j - 1, i + 1];
        u[j, i] := Stencil(uiLeft, ui, uiRight, c);
        known[j, i] := true;
      }
    }
  }

  /** The outer loop of main.py:124-130 on a freshly seeded table: rows 1, 2, ...
      in turn, each by `ExplicitRow`. Afterwards every cell is known, the seeded
      cells are unchanged and every interior cell is the update of the row
      before. */
  method ExplicitRows(u: array2<real>, known: array2<bool>, c: real)
    requires u.Length0 == known.Length0 && u.Length1 == known.Length1 && u.Length1 >= 2
    requires forall j, i :: 0 <= j < u.Length0 && 0 <= i < u.Length1 ==>
      (known[j, i] <==> Fixed(j, i, u.Length1))
    modifies u, known
    ensures forall j, i :: 0 <= j < u.Length0 && 0 <= i < u.Length1 && Fixed(j, i, u.Length1) ==>
      u[j, i] == old(u[j, i])
    ensures AllKnown(known)
    ensures FtcsHolds(u, c)
  {
    var n := u.Length1;
    var j := 1;
    while j < u.Length0
      invariant 1 <= j && (u.Length0 >= 1 ==> j <= u.Length0)
      invariant forall r, i :: 0 <= r < u.Length0 && 0 <= i < n && Fixed(r, i, n) ==> u[r, i] == old(u[r, i])
      invariant forall r, i :: 0 <= r < j && r < u.Length0 && 0 <= i < n ==> known[r, i]
      invariant forall r, i :: j <= r < u.Length0 && 0 <= i < n ==> (known[r, i] <==> Fixed(r, i, n))
      invariant forall r, i :: 1 <= r < j && r < u.Length0 && 1 <= i < n - 1 ==>
        u[r, i] == Stencil(u[r - 1, i - 1], u[r - 1, i], u[r - 1, i + 1], c)
    {
      ExplicitRow(u, known, j, c);
      j := j + 1;
    }
  }

  /** The stability bound: when 0 <= c <= 1/2, a table filled by the explicit
      scheme stays within any interval that holds all of its fixed cells. */
  lemma {:induction false} MaximumPrinciple(u: array2<real>, c: real, lo: real, hi: real)
    requires 0.0 <= c <= 0.5
    requires FtcsHolds(u, c)
    requires forall j, i :: 0 <= j < u.Length0 && 0 <= i < u.Length1 && Fixed(j, i, u.Length1) ==>
      lo <= u[j, i] <= hi
    ensures forall j, i :: 0 <= j < u.Length0 && 0 <= i < u.Length1 ==> lo <= u[j, i] <= hi
  {
    forall j, i | 0 <= j < u.Length0 && 0 <= i < u.Length1
      ensures lo <= u[j, i] <= hi
    {
      RowBounded(u, c, lo, hi, j);
    }
  }

  /** Row j of such a table lies within the interval, by induction on j. */
  lemma {:induction false} RowBounded(u: array2<real>, c: real, lo: real, hi: real, j: nat)
    requires 0.0 <= c <= 0.5
    requires FtcsHolds(u, c)
    requires forall r, i :: 0 <= r < u.Length0 && 0 <= i < u.Length1 && Fixed(r, i, u.Length1) ==>
      lo <= u[r, i] <= hi
    requires j < u.Length0
    ensures forall i :: 0 <= i < u.Length1 ==> lo <= u[j, i] <= hi
  {
    if j > 0 {
      RowBounded(u, c, lo, hi, j - 1);
      forall i | 1 <= i < u.Length1 - 1
        ensures lo <= u[j, i] <= hi
      {
        StencilBetween(u[j - 1, i - 1], u[j - 1, i], u[j - 1, i + 1], c, lo, hi);
      }
    }
  }
}
