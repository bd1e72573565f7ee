# Heat equation integrators of `differential_equation`

The program solves the one-dimensional heat equation dU/dt = 13 d²U/dx² on a
rod [x_0, x_1]. It compares two finite-difference integrators against the
closed-form solution U(x, t) = exp((-3x² + 52t + 2x)/(156t + 1)) / sqrt(156t + 1).
`Calculating` stores the configuration and computes the grid spacing
`delta_x = (x_1 - x_0)/(num_parts - 1)`. It then builds:

- a uniform spatial grid of `num_parts` points;
- a time axis `arange(time_now, time_max + time_delta, time_delta)`;
- two temperature tables, with rows for instants and columns for grid points.

Each table starts with the closed form in its first row and in its two boundary
columns. Every other cell is unset (NaN in the program). The table is then
completed by one of two integrators:

- the explicit forward-time, centred-space update with `const = 13·dt/dx²`;
- an implicit scheme with `K = 13·dt/dx`. For each new row it runs a forward
  sweep of the Thomas algorithm, then a back substitution over the interior
  columns. A final scan aborts if any cell is still unset.

The model keeps the program's imperative form:

- `Calculation.Calculating` is a class whose fields are the program's
  attributes.
- The tables are `array2<real>`. Each has an `array2<bool>` known-mask that
  stands in for the NaN sentinel.
- The loops are `while`/`for` loops with invariants. Each is proved against
  specification predicates: `UniformGrid`, `ArangeAxis`, `FixedCellsHold`,
  `FtcsHolds`, `ForwardSwept`, `BackSubstituted` and `RowSolved`.
- Lemmas connect those predicates to what the schemes promise:
  - a uniform grid that reaches `x_1`;
  - an `arange` axis that reaches `time_max`;
  - the explicit scheme's maximum principle when `const <= 1/2`;
  - pivots of at least K + 1;
  - a Thomas sweep that, as written, solves the implicit equations at nodes
    2 .. N-2, and at every interior node 1 .. N-2 when seeded at node 1.

Floating point is idealised as `real`. The files are:

- `arith.dfy`: a real-arithmetic helper;
- `analytic.dfy`: the closed form;
- `grid.dfy`: the grid and the time axis;
- `table.dfy`: the seeded table;
- `explicit.dfy`: the explicit scheme;
- `implicit.dfy`: the implicit scheme;
- `calculating.dfy`: the class.

## Model

| member | source | states |
|---|---|---|
| Analytic.Temperature | main.py:24-27 | The closed-form temperature is strictly positive wherever 156t + 1 > 0 (exp and sqrt supplied by the caller, assumed positive). |
| Grid.DeltaX | main.py:47 | The spacing is positive when x_0 < x_1, and point num_parts-1 of the grid it generates is exactly x_1. |
| Grid.SpatialGrid | main.py:64-68 | The loop that adds delta_x repeatedly yields exactly num_parts points; point i is x_0 + i·delta_x. |
| Grid.GridSpacing | main.py:64-68 | Consecutive grid points are exactly delta_x apart. |
| Grid.GridIncreasing | main.py:64-68 | With delta_x > 0 the grid is strictly increasing. |
| Grid.ArangeLengthCounts | main.py:61 | arange yields value k exactly when start + k·step lies below stop (both directions). |
| Grid.TimeAxis | main.py:60-62 | The time list is exactly arange(time_now, time_max+dt, dt). It starts at time_now and steps by dt. Every entry is below time_max + dt, and the next step would not be. When time_max >= time_now it is non-empty and its last entry is at least time_max. |
| Table.InitNodes | main.py:89-117 | The new table has len(time_list) rows of num_parts cells. A cell is set exactly when it is in row 0 or in the first or last column. Each set cell holds the closed form at its point and instant. |
| Explicit.ExplicitConst | main.py:121 | const = 13·dt/dx² is positive for a positive time step. |
| Explicit.ExplicitRow | main.py:124-130 | On a row whose interior is unset, every interior cell passes the NaN guard and gets the three-point update of the previous row. The boundary cells and every other row are unchanged. |
| Explicit.ExplicitRows | main.py:124-130 | Over all rows of a freshly seeded table, the seeded cells are unchanged and every cell ends up set. Every interior cell holds the update of the previous row. |
| Explicit.StencilBetween | main.py:130 | With 0 <= const <= 1/2 the update stays within any interval holding its three inputs. |
| Explicit.MaximumPrinciple | main.py:119-130 | With 0 <= const <= 1/2, a table completed by the explicit scheme stays within any interval holding all its seeded cells. |
| Implicit.ImplicitConst | main.py:140 | K = 13·dt/dx (dx, not dx²) is non-negative for dt >= 0 and dx > 0. |
| Implicit.PivotBound | main.py:153-155 | For K >= 0 and 0 <= alpha < 1, the divisor C - alpha·A is at least K + 1, and the next alpha again lies in [0, 1). |
| Implicit.ForwardSweep | main.py:148-156 | Both sweep lists have num_parts entries. They start with alpha[0] = 0 and beta[0] = U[j+1][0] and follow the recurrences of lines 153-156. Every alpha is in [0, 1) and every divisor is at least K + 1. |
| Implicit.ThomasNode | main.py:153-159 | The sweep recurrences with back substitution at nodes i-1 and i make node i satisfy -K·U[i-1] + (2K+1)·U[i] - K·U[i+1] = U_prev[i]. |
| Implicit.SweepSolvesRow | main.py:147-159 | After the sweep and the back substitution, the new row satisfies the implicit equation at nodes 2 .. N-2. Node 1 is excluded (see Findings). |
| Implicit.NodeOneCounterexample | main.py:148-159 | As written, take a row that is the back substitution of the sweep seeded at index 0, with K = 1, N = 3, a previous row of ones and new boundaries 2 and 1. Then U[1] = 9/8, which violates node 1's equation (solution 4/3). |
| Implicit.ForwardSweepFromBoundary | main.py:148-156 | The sweep seeded at alpha[1] = 0, beta[1] = U[j+1][0] keeps the recurrences, alpha in [0, 1) and positive divisors. |
| Implicit.BoundarySweepSolvesRow | main.py:147-159 | With the sweep seeded at node 1, back substitution satisfies the implicit equation at every interior node 1 .. N-2. |
| Implicit.BackSubstitute | main.py:158-159 | Cells N-2 down to 1 of the new row get alpha[i+1]·U[i+1] + beta[i+1], using the cell to the right that was just written. The row becomes fully set; its boundary cells and every other row are unchanged. |
| Implicit.ImplicitStep | main.py:147-159 | One time step: the sweep and the back substitution of row j+1. Row j+1 then solves the implicit equation at nodes 2 .. N-2, and rows already solved stay solved. |
| Implicit.ImplicitSteps | main.py:147-159 | Across all time steps, the seeded cells are unchanged and every cell ends up set. Every row after the first satisfies the implicit equation at nodes 2 .. N-2 and is the back substitution of its own sweep. |
| Implicit.ScanForUnset | main.py:161-164 | The scan reports an unset cell if and only if one exists. |
| Calculation.Calculating.constructor | main.py:31-54 | Stores the configuration, including the caller's exp and sqrt and the spacing delta_x. Builds the grids and two new, separate, complete tables whose seeded cells hold the closed form the caller supplied. The explicit table's interior is the update of the previous row. Each implicit row after the first is the back substitution of its own forward sweep, kept in ghost fields, which fixes every cell. |
| Calculation.Calculating.InitGrids | main.py:58-68 | The time list is the arange axis and the x list is the uniform grid from x_0 to x_1. |
| Calculation.Calculating.ExplicitSchema | main.py:119-136 | The explicit table has every seeded cell at the closed form, every cell set, and every interior cell equal to the update of the previous row. |
| Calculation.Calculating.ImplicitSchema | main.py:138-164 | The implicit table has every seeded cell at the closed form and every cell set, so the `exit` of line 164 is never taken. Every row after the first is the back substitution of its own forward sweep, which the ghost fields `implicitAlphas` and `implicitBetas` record, and so solves the implicit equation at nodes 2 .. N-2. |

## Findings

| source | as written | input that shows it | evidently intended | confidence | as-written member | corrected member |
|---|---|---|---|---|---|---|
| main.py:148-149 | The Thomas sweep is seeded at index 0 (`alpha = [0]`, `beta = [U[j+1][0]]`). Back substitution therefore never ties U[j+1][1] to the boundary U[j+1][0], so node 1's implicit equation is not solved. | K = 1, num_parts = 3, previous row [1, 1, 1], new boundaries 2 and 1 (positive, as the closed form always is): U[1] = 9/8. Node 1's residual is -5/8; the solution is 4/3. | Seed alpha[1] = 0 and beta[1] = U[j+1][0], so that every interior node 1 .. N-2 is solved. | high (reasoned, not executed) | Implicit.NodeOneCounterexample | Implicit.BoundarySweepSolvesRow |

`Calculation.Calculating.ImplicitSchema` keeps the sweep as written, so that the
modelled table is the table the program computes. Its contract claims the
implicit equation only at nodes 2 .. N-2. The corrected sweep,
`Implicit.ForwardSweepFromBoundary`, is proved to satisfy every interior node.

## Left out

- The Tk frame, the matplotlib figure, `init_plotting`, `draw`, `after`, the `input`/`exit` prompt inside `draw`, and the `__main__` block are left out. They are user interface, not numerics.
- `generate_real_temp` and the `first_start`, `max_t` and `min_t` plotting bounds are left out. They are only used for drawing.
- The `delay`, `show_implicit` and `show_explicit` flags are left out. They only affect drawing.
- `draw` advances `time_now` and `step_for_time` after the tables are built. This is not modelled because it only selects which row is shown.
- Analytic.Temperature: `math.exp` and `math.sqrt` come from the caller as an `Elementary` value. The only assumptions are that exp is positive and that sqrt is positive on positive arguments. Their exact values are not modelled.
- Floating point is idealised as exact reals. IEEE rounding, drift of the repeated additions in the grid loop, numpy's floating-point length of `arange`, and NaN/inf blow-up of an unstable explicit run are not modelled. Neither is convergence to the closed form.
- NaN as the "unset" marker is modelled by a separate known-mask. The numeric value stored in an unset cell is 0.0 and is never read.
- Calculation.Calculating.constructor requires num_parts >= 2, x_0 < x_1, time_delta > 0 and 156·time_start + 1 > 0. Reasons:
  - with num_parts = 1 the program divides by zero at main.py:47;
  - with num_parts = 0 the rows are empty, and the program raises IndexError at main.py:149 whenever the time axis has at least two instants; it is excluded because the rod needs at least its two boundary points;
  - with x_0 == x_1, delta_x is 0, and the program stops with a division by zero at main.py:121;
  - with x_0 > x_1 (a reversed rod) the program usually runs, but K is then negative and a divisor of the sweep can vanish; reversed rods are not modelled, since the rod is meant to run from x_0 up to x_1;
  - with time_delta == 0, numpy's `arange` at main.py:61 fails;
  - with time_delta < 0 the axis runs backwards in time and K is negative; this is not modelled;
  - the closed form is undefined where 156·t + 1 <= 0, so the axis must start inside its domain.
- Calculation.Calculating.ImplicitSchema: the abort through `exit` at main.py:164 is modelled as a returned `aborted` flag, which is proved false.
- Implicit.ImplicitSteps: the sweep lists alpha and beta are returned as ghost values, and `Calculation.Calculating` keeps them in ghost fields, so that contracts can name them. The program discards them.
- Calculation.Calculating.ExplicitSchema: the commented-out NaN scan of main.py:132-136 is not modelled.
