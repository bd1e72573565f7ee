/** The temperature table: rows are time steps, columns are grid points. The
    source marks a cell whose value is not yet known with NaN; here an
    `array2<bool>` of the same shape says which cells are known. */
module Table {
  import opened Analytic

  /** The diffusivity of the modelled equation dU/dt = 13 d2U/dx2. */
  const Diffusivity: real := 13.0

  /** A cell fixed by the initial condition (row 0) or by the boundary
      condition (the first and the last column). */
  predicate Fixed(j: nat, i: nat, numParts: nat) {
    j == 0 || i == 0 || i == numParts - 1
  }

  /** Every instant of the time axis lies where the closed form is defined. */
  predicate AxisInDomain(ts: seq<real>) {
    forall k :: 0 <= k < |ts| ==> InDomain(ts[k])
  }

  /** A table of `|ts|` rows and `|xs|` columns with its known-mask. */
  predicate Shaped(u: array2<real>, known: array2<bool>, xs: seq<real>, ts: seq<real>) {
    u.Length0 == known.Length0 == |ts| && u.Length1 == known.Length1 == |xs|
  }

  /** Every fixed cell holds the closed form at its grid point and instant. */
  ghost predicate FixedCellsHold(e: Elementary, xs: seq<real>, ts: seq<real>, u: array2<real>)
    reads u
  {
    Sound(e) && AxisInDomain(ts) && u.Length0 == |ts| && u.Length1 == |xs| &&
    forall j, i :: 0 <= j < |ts| && 0 <= i < |xs| && Fixed(j, i, |xs|) ==>
      u[j, i] == Temperature(e, xs[i], ts[j])
  }

  /** Every cell of the table is known (none is NaN in the source). */
  ghost predicate AllKnown(known: array2<bool>)
    reads known
  {
    forall j, i :: 0 <= j < known.Length0 && 0 <= i < known.Length1 ==> known[j, i]
  }

  /** `init_nodes_with_initial_values` (main.py:89-117): a fresh table in which
      exactly the fixed cells are known, each holding the closed form; every
      other cell is unset. */
  method InitNodes(e: Elementary, xs: seq<real>, ts: seq<real>)
    returns (u: array2<real>, known: array2<bool>)
    requires Sound(e) && AxisInDomain(ts)
    ensures fresh(u) && fresh(known)
    ensures Shaped(u, known, xs, ts)
    ensures FixedCellsHold(e, xs, ts, u)
    ensures forall j, i :: 0 <= j < |ts| && 0 <= i < |xs| ==> (known[j, i] <==> Fixed(j, i, |xs|))
  {
    var n := |xs|;
    u := new real[|ts|, n];
    known := new bool[|ts|, n];
    for j := 0 to |ts|
      invariant forall r, i :: 0 <= r < j && 0 <= i < n ==>
        (known[r, i] <==> Fixed(r, i, n)) && (Fixed(r, i, n) ==> u[r, i] == Temperature(e, xs[i], ts[r]))
    {
      for i := 0 to n
        invariant forall r, k :: 0 <= r < j && 0 <= k < n ==>
          (known[r, k] <==> Fixed(r, k, n)) && (Fixed(r, k, n) ==> u[r, k] == Temperature(e, xs[k], ts[r]))
        invariant forall k :: 0 <= k < i ==>
          (known[j, k] <==> Fixed(j, k, n)) && (Fixed(j, k, n) ==> u[j, k] == Temperature(e, xs[k], ts[j]))
      {
        // an unset cell: NaN in the source
        var temp := 0.0;
        var isSet := false;
        if j == 0 {
          temp, isSet := Temperature(e, xs[i], ts[j]), true;
        } else if i == 0 || i == n - 1 {
          temp, isSet := Temperature(e, xs[i], ts[j]), true;
        }
        u[j, i], known[j, i] := temp, isSet;
      }
    }
  }
}
