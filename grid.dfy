/** The spatial grid and the time axis built by `init_2d_list` (main.py:58-68),
    with the spacing computed in the constructor (main.py:47). */
module Grid {
  import opened RealArith

  /** The i-th point of a uniform grid that starts at `x0` with spacing `deltaX`. */
  function GridPoint(x0: real, deltaX: real, i: nat): (x: real) {
    x0 + i as real * deltaX
  }

  /** The spacing `delta_x = (x_1 - x_0) / (num_parts - 1)` (main.py:47). */
  function DeltaX(x0: real, x1: real, numParts: nat): (dx: real)
    requires numParts >= 2
    ensures x0 < x1 ==> dx > 0.0
    ensures GridPoint(x0, dx, numParts - 1) == x1
  {
    var d := (numParts - 1) as real;
    assert d * ((x1 - x0) / d) == x1 - x0;
    (x1 - x0) / d
  }

  /** `xs` is the uniform grid of `numParts` points from `x0` with spacing `deltaX`. */
  ghost predicate UniformGrid(xs: seq<real>, x0: real, deltaX: real, numParts: nat) {
    |xs| == numParts && forall i :: 0 <= i < numParts ==> xs[i] == GridPoint(x0, deltaX, i)
  }

  /** The loop of main.py:64-68: `num_parts` points, each one `delta_x` past the
      one before, starting at `x_0`. */
  method SpatialGrid(x0: real, deltaX: real, numParts: nat) returns (xs: seq<real>)
    ensures UniformGrid(xs, x0, deltaX, numParts)
  {
    xs := [];
    var x := x0;
    for i := 0 to numParts
      invariant |xs| == i
      invariant x == GridPoint(x0, deltaX, i)
      invariant forall k :: 0 <= k < i ==> xs[k] == GridPoint(x0, deltaX, k)
    {
      xs := xs + [x];
      x := x + deltaX;
    }
  }

  /** Consecutive points of a uniform grid are exactly `deltaX` apart. */
  lemma GridSpacing(x0: real, deltaX: real, i: nat)
    ensures GridPoint(x0, deltaX, i + 1) - GridPoint(x0, deltaX, i) == deltaX
  {
    assert (i + 1) as real * deltaX == i as real * deltaX + deltaX;
  }

  /** With a positive spacing a uniform grid is strictly increasing. */
  lemma GridIncreasing(x0: real, deltaX: real, i: nat, k: nat)
    requires deltaX > 0.0 && i < k
    ensures GridPoint(x0, deltaX, i) < GridPoint(x0, deltaX, k)
  {
    assert GridPoint(x0, deltaX, k) - GridPoint(x0, deltaX, i) == (k - i) as real * deltaX;
    ProductNonNegative((k - i) as real - 1.0, deltaX);
  }

  /** The k-th value of numpy's `arange(start, stop, step)`. */
  function ArangeValue(start: real, step: real, k: nat): (v: real) {
    start + k as real * step
  }

  /** The number of values `arange(start, stop, step)` yields: the ceiling of
      (stop - start) / step, or none when that quotient is not positive. */
  function ArangeLength(start: real, stop: real, step: real): (n: nat)
    requires step > 0.0
  {
    var q := (stop - start) / step;
    if q <= 0.0 then 0 else -((-q).Floor)
  }

  /** `arange` yields exactly the values start + k*step that lie below `stop`. */
  lemma {:induction false} ArangeLengthCounts(start: real, stop: real, step: real, k: nat)
    requires step > 0.0
    ensures k < ArangeLength(start, stop, step) <==> ArangeValue(start, step, k) < stop
  {
    var q := (stop - start) / step;
    assert q * step == stop - start;
    if k as real < q {
      assert k as real * step < q * step;
    } else {
      assert k as real * step >= q * step;
    }
    if q > 0.0 {
      var f := (-q).Floor;
      assert f as real <= -q < f as real + 1.0;
    }
  }

  /** `ts` is exactly what `arange(start, stop, step)` yields: the values
      start + k*step below `stop`, in order. */
  ghost predicate ArangeAxis(ts: seq<real>, start: real, stop: real, step: real) {
    (forall k :: 0 <= k < |ts| ==> ts[k] == ArangeValue(start, step, k) && ts[k] < stop) &&
    ArangeValue(start, step, |ts|) >= stop
  }

  /** The loop of main.py:60-62: the values of
      `np.arange(time_now, time_max + time_delta, time_delta)`, in order. The
      axis starts at `time_now`, steps by exactly `time_delta`, stays below
      `time_max + time_delta`, and reaches `time_max` whenever
      `time_max >= time_now`; no further step would stay below the bound. */
  method TimeAxis(timeNow: real, timeDelta: real, timeMax: real) returns (ts: seq<real>)
    requires timeDelta > 0.0
    ensures ArangeAxis(ts, timeNow, timeMax + timeDelta, timeDelta)
    ensures forall k :: 0 <= k < |ts| ==> timeNow <= ts[k]
    ensures forall k :: 0 <= k < |ts| - 1 ==> ts[k + 1] - ts[k] == timeDelta
    ensures timeMax >= timeNow ==> |ts| > 0 && ts[0] == timeNow && ts[|ts| - 1] >= timeMax
  {
    var stop := timeMax + timeDelta;
    var n := ArangeLength(timeNow, stop, timeDelta);
    ts := [];
    for k := 0 to n
      invariant |ts| == k
      invariant forall i :: 0 <= i < k ==> ts[i] == ArangeValue(timeNow, timeDelta, i)
    {
      ts := ts + [ArangeValue(timeNow, timeDelta, k)];
    }
    forall k | 0 <= k < n
      ensures timeNow <= ts[k] < stop
    {
      ArangeLengthCounts(timeNow, stop, timeDelta, k);
      ProductNonNegative(k as real, timeDelta);
    }
    forall k | 0 <= k && k + 1 < n
      ensures ts[k + 1] - ts[k] == timeDelta
    {
      ArangeStep(timeNow, timeDelta, k);
    }
    ArangeLengthCounts(timeNow, stop, timeDelta, n);
    if timeMax >= timeNow {
      ArangeLengthCounts(timeNow, stop, timeDelta, 0);
      ArangeStep(timeNow, timeDelta, n - 1);
    }
  }

  /** Consecutive `arange` values are one step apart. */
  lemma ArangeStep(start: real, step: real, k: nat)
    ensures ArangeValue(start, step, k + 1) == ArangeValue(start, step, k) + step
  {
    assert (k + 1) as real * step == k as real * step + step;
  }
}
