/** The numerical state of `Calculating` (main.py:29-164): the configuration,
    the grid and time axis, and the two temperature tables, each built once by
    its integrator. */
module Calculation {
  import opened Analytic
  import opened Grid
  import opened Table
  import opened Explicit
  import opened Implicit

  class Calculating {
    const math: Elementary
    const timeNow: real
    const timeDelta: real
    const timeMax: real
    const x0: real
    const x1: real
    const numParts: nat
    const deltaX: real

    var timeList: seq<real>
    var xList: seq<real>
    var explicitTemp: array2<real>
    var explicitKnown: array2<bool>
    var implicitTemp: array2<real>
    var implicitKnown: array2<bool>
    /** The alpha and beta lists of each implicit time step, which the program
        discards; entry j produced row j+1. */
    ghost var implicitAlphas: seq<seq<real>>
    ghost var implicitBetas: seq<seq<real>>

    /** The configuration the computation needs: at least two grid points on a
        rod with x0 < x1, a positive time step, and a start time where the
        closed form is defined. */
    ghost predicate Configured() {
      Sound(math) && InDomain(timeNow) && timeDelta > 0.0 && x0 < x1 && numParts >= 2 &&
      deltaX == DeltaX(x0, x1, numParts)
    }

    /** `init_2d_list` has run: the grid and the time axis are in place. */
    ghost predicate GridsBuilt()
      reads this
    {
      Configured() &&
      UniformGrid(xList, x0, deltaX, numParts) &&
      ArangeAxis(timeList, timeNow, timeMax + timeDelta, timeDelta) &&
      AxisInDomain(timeList)
    }

    /** The explicit table is complete: every fixed cell holds the closed form,
        every cell is known, and every interior cell is the FTCS update of the
        row before. */
    ghost predicate ExplicitDone()
      reads this, explicitTemp, explicitKnown
    {
      GridsBuilt() &&
      Shaped(explicitTemp, explicitKnown, xList, timeList) &&
      FixedCellsHold(math, xList, timeList, explicitTemp) &&
      AllKnown(explicitKnown) &&
      FtcsHolds(explicitTemp, ExplicitConst(timeDelta, deltaX))
    }

    /** The implicit equation holds at every node 2 .. N-2 of every row after
        the first. */
    ghost predicate TridiagonalHolds(u: array2<real>, k: real)
      reads u
    {
      forall row :: 1 <= row < u.Length0 ==> RowSolved(u, row, k)
    }

    /** Every row after the first of `u` is the back substitution of its own
        forward sweep: entry j of `alphas` and `betas` produced row j+1. */
    ghost predicate SweptRows(u: array2<real>, k: real, alphas: seq<seq<real>>, betas: seq<seq<real>>)
      reads u
    {
      |alphas| == |betas| == (if u.Length0 == 0 then 0 else u.Length0 - 1) &&
      forall j :: 0 <= j < |alphas| ==>
        |alphas[j]| == |betas[j]| == u.Length1 &&
        ForwardSwept(u, j + 1, k, alphas[j], betas[j]) &&
        BackSubstituted(u, j + 1, alphas[j], betas[j])
    }

    /** The implicit table is complete: every fixed cell holds the closed form,
        every cell is known, every row after the first is the back substitution
        of its own forward sweep, and so solves the implicit equation at nodes
        2 .. N-2. */
    ghost predicate ImplicitDone()
      reads this, implicitTemp, implicitKnown
    {
      GridsBuilt() &&
      Shaped(implicitTemp, implicitKnown, xList, timeList) &&
      FixedCellsHold(math, xList, timeList, implicitTemp) &&
      AllKnown(implicitKnown) &&
      SweptRows(implicitTemp, ImplicitConst(timeDelta, deltaX), implicitAlphas, implicitBetas) &&
      TridiagonalHolds(implicitTemp, ImplicitConst(timeDelta, deltaX))
    }

    /** `__init__` (main.py:31-54) without its Tk and plotting parts: stores the
        configuration, computes `delta_x`, builds the grids and both tables. */
    constructor (e: Elementary, timeStart: real, timeDelta: real, timeMax: real,
                 x0: real, x1: real, numParts: nat)
      requires Sound(e) && InDomain(timeStart) && timeDelta > 0.0 && x0 < x1 && numParts >= 2
      ensures this.timeNow == timeStart && this.timeDelta == timeDelta && this.timeMax == timeMax
      ensures this.x0 == x0 && this.x1 == x1 && this.numParts == numParts
      ensures math == e && deltaX == DeltaX(x0, x1, numParts)
      ensures fresh(explicitTemp) && fresh(explicitKnown) && fresh(implicitTemp) && fresh(implicitKnown)
      ensures explicitTemp != implicitTemp && explicitKnown != implicitKnown
      ensures GridsBuilt() && ExplicitDone() && ImplicitDone()
    {
      math := e;
      this.timeNow := timeStart;
      this.timeDelta := timeDelta;
      this.timeMax := timeMax;
      this.x0 := x0;
      this.x1 := x1;
      this.numParts := numParts;
      deltaX := DeltaX(x0, x1, numParts);
      timeList, xList := [], [];
      explicitTemp, explicitKnown := new real[0, 0], new bool[0, 0];
      implicitTemp, implicitKnown := new real[0, 0], new bool[0, 0];
      implicitAlphas, implicitBetas := [], [];
      new;
      InitGrids();
      ExplicitSchema();
      var aborted := ImplicitSchema();
    }

    /** `init_2d_list` (main.py:58-68): the time axis and the spatial grid. */
    method InitGrids()
      requires Configured()
      modifies this`timeList, this`xList
      ensures GridsBuilt()
    {
      timeList := TimeAxis(timeNow, timeDelta, timeMax);
      xList := SpatialGrid(x0, deltaX, numParts);
    }

    /** `explicit_schema` (main.py:119-136): a fresh seeded table, then row by
        row the FTCS update of every interior cell. */
    method ExplicitSchema()
      requires GridsBuilt()
      modifies this`explicitTemp, this`explicitKnown
      ensures fresh(explicitTemp) && fresh(explicitKnown)
      ensures ExplicitDone()
    {
      var u, known := InitNodes(math, xList, timeList);
      var c := ExplicitConst(timeDelta, deltaX);
      ExplicitRows(u, known, c);
      explicitTemp, explicitKnown := u, known;
    }

    /** `implicit_schema` (main.py:138-164): a fresh seeded table, then for each
        time step the Thomas sweep that produces the next row, then the scan
        for unset cells, which never finds one, so the source's `exit` is
        never reached. The alpha and beta lists of every step are kept in
        ghost fields: row j+1 is the back substitution of the j-th sweep. */
    method ImplicitSchema() returns (aborted: bool)
      requires GridsBuilt()
      modifies this`implicitTemp, this`implicitKnown, this`implicitAlphas, this`implicitBetas
      ensures fresh(implicitTemp) && fresh(implicitKnown)
      ensures ImplicitDone()
      ensures !aborted
    {
      var u, known := InitNodes(math, xList, timeList);
      var k := ImplicitConst(timeDelta, deltaX);
      ghost var alphas, betas := ImplicitSteps(u, known, k);
      implicitTemp, implicitKnown := u, known;
      implicitAlphas, implicitBetas := alphas, betas;
      aborted := ScanForUnset(known);
    }
  }
}
