# TSP branch-and-bound draft: tour cost, agenda ordering, matrix reduction, state copy

This project models the deterministic core of `TSP/ProblemAndSolver.cs`, a draft
branch-and-bound solver for the Traveling Salesman Problem. It has four parts:

- **Tour** (`tour.dfy`): `TSPSolution`. It stores a route of cities and computes
  its cyclic cost with `costOfRoute`. That cost is the sum of the edges between
  consecutive cities plus the closing edge from the last city back to the first.
  The loop is proved against a recursive specification (`CycleCost`). Lemmas relate
  that specification to an independent edge-by-edge sum with cyclic successor
  indices, and show that rotating the route leaves the cost unchanged.
- **Agenda** (`agenda.dfy`): the `myCompare` comparer used by the agenda's heap.
  It orders states lexicographically: first by `pathThusFar.Count` (the number of
  rows of the state's matrix), then by the integer `cost`. The lemmas prove it is a
  three-way comparator with values in {-1, 0, 1}. They also prove it is
  antisymmetric and a total preorder, is exactly lexicographic order on
  (count, cost), and ignores `bound`.
- **SearchState** (`search_state.dfy`): the `State` class (matrix, cost, bound)
  and its copy constructor, as written and as evidently intended (see Findings).
  The `List<List<double>>` matrix is the class `Matrix`, updated in place.
- **Solver** (`solver.dfy`): `ProblemAndSolver` with its cities and best solution
  so far. `reduceMatrix` subtracts one value in place from the top-left
  `Cities.Length × Cities.Length` window. The method is proved against the function
  `Reduced`, and lemmas show the following:
  - the shape and every entry outside the window are unchanged;
  - reducing by zero is the identity;
  - two reductions compose into one, and a reduction by `-m` undoes one by `m`;
  - differences and order between window entries are preserved.
  `costOfBssf` is modelled too.

Two notes on the comparer:
- Its comment says it favours states further along in their journey. The code
  instead returns -1 for the state with the **smaller** `pathThusFar.Count`, so in
  a min-heap that state comes out first. The model follows the code.
- `pathThusFar` holds the cost matrix, not a path, so its `Count` is the number of
  matrix rows.

Inputs that the model takes as parameters:
- `City.costToGetTo` is not part of this model. Every member that needs it takes a
  cost function `(City, City) -> real`.
- Costs, bounds and matrix entries are `double` in the program and `real` here.
  State's `cost` stays `int`.

## Model

| member | source | states |
|---|---|---|
| Tour.TSPSolution.constructor | TSP/ProblemAndSolver.cs:25-28 | The new solution's route equals the given route. It is held as a value, so later edits to the argument cannot reach it. |
| Tour.TSPSolution.CostOfRoute | TSP/ProblemAndSolver.cs:36-52 | For a non-empty route, the accumulated cost equals the cyclic cost: consecutive edges plus the edge from the last city back to the first. |
| Tour.PathCostSnoc | TSP/ProblemAndSolver.cs:43-47 | Each loop step adds exactly the edge into the next city; appending a city adds the edge from the old last city to it. |
| Tour.PathCostIsEdgeSum | TSP/ProblemAndSolver.cs:43-47 | The path over the first k+1 cities costs the sum of edges route[i] to route[i+1] for i < k. |
| Tour.CycleCostIsEdgeSum | TSP/ProblemAndSolver.cs:43-51 | The cyclic cost equals the sum over every position i of the edge from route[i] to route[(i+1) mod n]. |
| Tour.SingleCityCost | TSP/ProblemAndSolver.cs:43-51 | A one-city route costs the edge from that city to itself, because the loop runs zero times. |
| Tour.RotateOnceCost | TSP/ProblemAndSolver.cs:16-18 | Moving the first city to the end of the route leaves the cycle cost unchanged. |
| Tour.CycleCostRotation | TSP/ProblemAndSolver.cs:43-51 | Starting the route at any of its cities gives the same cycle cost. |
| Tour.PathCostNonnegative | TSP/ProblemAndSolver.cs:43-47 | With non-negative edge costs, the open path cost is non-negative. |
| Tour.CycleCostAtLeastClosingEdge | TSP/ProblemAndSolver.cs:48-51 | With non-negative edge costs, the route costs at least its closing edge, which is non-negative. |
| Agenda.Compare | TSP/ProblemAndSolver.cs:376-391 | The result is -1, 0 or 1, and it is 0 exactly when both count and cost are equal. |
| Agenda.EqualCountComparesCost | TSP/ProblemAndSolver.cs:378-386 | With equal counts, the result is -1, 0 or 1 exactly as x.cost is less than, equal to or greater than y.cost. |
| Agenda.DifferentCountIgnoresCost | TSP/ProblemAndSolver.cs:387-390 | With different counts, the state with the smaller count gets -1 and the other gets 1, whatever the costs. |
| Agenda.CompareIsLexicographic | TSP/ProblemAndSolver.cs:376-391 | Compare is -1, 1 or 0 exactly when (count, cost) is lexicographically smaller, larger or equal. |
| Agenda.CompareAntisymmetric | TSP/ProblemAndSolver.cs:376-391 | Compare(x, y) == -Compare(y, x). |
| Agenda.NoLaterReflexiveTotal | TSP/ProblemAndSolver.cs:376-391 | "Compare(x, y) <= 0" is reflexive and total. |
| Agenda.NoLaterTransitive | TSP/ProblemAndSolver.cs:376-391 | "Compare(x, y) <= 0" is transitive, so it is a total preorder. |
| Agenda.CompareLessTransitive | TSP/ProblemAndSolver.cs:376-391 | "Compare(x, y) == -1" is transitive. |
| Agenda.CompareIgnoresBound | TSP/ProblemAndSolver.cs:398-402 | States with the same count and cost compare identically against any state; the bound field plays no part. |
| SearchState.State.constructor | TSP/ProblemAndSolver.cs:406-409 | A new state owns a fresh empty matrix; cost and bound have their default value 0. |
| SearchState.Matrix.CopyRowsFrom | TSP/ProblemAndSolver.cs:418-425 | The row-copy loop, run into a destination list: it fails with an out-of-range index exactly when the destination has fewer rows than the source, at the first missing index, with the earlier rows copied. Otherwise the source rows replace the destination's first rows. |
| SearchState.State.CopyAsWritten | TSP/ProblemAndSolver.cs:411-427 | The copy, as written, keeps cost and bound. It fails with an out-of-range index at row 0 exactly when the source matrix has at least one row, so it succeeds only for an empty matrix. |
| SearchState.OneRowCopyFails | TSP/ProblemAndSolver.cs:418-420 | Copying a state with a one-row matrix, as written, raises an out-of-range error at index 0. |
| SearchState.State.Copy | TSP/ProblemAndSolver.cs:411-427 | The intended copy has the same cost and bound, and a fresh matrix whose rows equal the source's rows. |
| SearchState.OneRowCopySucceeds | TSP/ProblemAndSolver.cs:417-425 | The intended copy of a one-row state keeps that row. |
| Solver.ProblemAndSolver.ReduceMatrix | TSP/ProblemAndSolver.cs:307-316 | Given at least Cities.Length rows, each at least Cities.Length long, the new matrix is Reduced(old matrix, Cities.Length, minValue). It changes only that matrix. |
| Solver.ReducedEntries | TSP/ProblemAndSolver.cs:309-315 | Row count and row lengths are unchanged. Each window entry equals its old value minus minValue, and every entry outside the window is untouched. |
| Solver.ReducedKeepsWindow | TSP/ProblemAndSolver.cs:307-316 | A matrix large enough for the window stays large enough after reduction. |
| Solver.ReducedByZero | TSP/ProblemAndSolver.cs:309-315 | Reducing by 0 leaves the matrix unchanged. |
| Solver.ReducedComposes | TSP/ProblemAndSolver.cs:309-315 | Reducing by a and then by b equals reducing by a + b. |
| Solver.ReducedUndone | TSP/ProblemAndSolver.cs:309-315 | Reducing by -minValue undoes a reduction by minValue. |
| Solver.ReducedPreservesDifferences | TSP/ProblemAndSolver.cs:309-315 | The difference between any two window entries is unchanged. |
| Solver.ReducedPreservesOrder | TSP/ProblemAndSolver.cs:309-315 | The order between any two window entries is unchanged. |
| Solver.ProblemAndSolver.CostOfBssf | TSP/ProblemAndSolver.cs:234-240 | Returns -1 when there is no best solution so far, and otherwise that solution's cycle cost. |

## Left out

- Tour.TSPSolution.CostOfRoute: the program raises an out-of-range error for an empty route (it reads `Route[Count - 1]`). The model requires a non-empty route instead of modelling that error.
- Tour.TSPSolution.CostOfRoute: a route element that is not a City would raise a null-reference error. Routes here hold only cities.
- Costs are `real`, so there is no IEEE double rounding, and the order in which the loop adds edges does not matter.
- `City` and its `costToGetTo` are not part of this model. The cost is a parameter of every member that needs it.
- Matrix rows are values. The model therefore does not capture two rows aliasing the same inner list; with such aliasing, `reduceMatrix` would subtract twice from a shared row.
- Solver.ProblemAndSolver.ReduceMatrix: the program raises an out-of-range error when the matrix is smaller than the window. The model requires a matrix that fits the window, which the only caller builds.
- `solveProblem` is left out. It is driven by a `System.Timers.Timer` and writes to the form. Its minimum search assigns `value = minValue` rather than updating `minValue`.
- `BandB` is left out. It depends on the timer, on an external interval heap and on `findSuccessors` and `quickSolution`, which only throw.
- `checkFor0` has an empty body and no return value, so it is left out.
- Problem generation (`resetData`, `initialize`, `GenerateProblem`, the constructors) uses a random number generator and is left out.
- `GetCities` is a shallow array copy and is left out.
- `Draw`, brushes and pens are rendering code and are left out.

## Findings

| source | as written | input that shows it | evidently intended | confidence | as-written member | corrected member |
|---|---|---|---|---|---|---|
| TSP/ProblemAndSolver.cs:418-420 | The copy constructor first runs `this()`, which gives it an empty matrix. It then writes each row through the indexer, `this.pathThusFar[i] = new List<double>()`, which is out of range for an empty list. | Any state whose matrix has at least one row, e.g. one row `[0.0]`. | Append a new row (`Add`) and fill it, giving a deep copy with the same rows. | high; not executed | SearchState.State.CopyAsWritten | SearchState.State.Copy |
