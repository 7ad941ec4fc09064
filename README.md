# Scheduling engine of a CPM-style construction planner, in Dafny

The planner reads a table of activities. Each activity has a name, units to produce, a duration in days, a predecessor cell such as `"1,3"` (1-based activity labels), and a required-progress cell such as `"0.5,1"`. The engine then computes four things:

1. **The dependency matrix** (`generar_matriz_adyacencia`). This is an n×n 0/1 matrix in which entry `[p - 1, idx]` is 1 when activity `idx` lists label `p`. The cell is stripped. An empty cell or `"nan"` adds nothing. The cell is split on commas, and only all-digit tokens count. A label above n is an index error. Label `0` writes the last row, through NumPy's negative indexing.
2. **The topological order** (`calcular_orden_topologico`). The matrix becomes a directed graph, edge by edge. The engine either aborts with `Se detectó un ciclo: A1 -> A2 -> A1`, or returns an order of the graph's nodes in which every dependency comes first. Only activities on some edge are nodes.
3. **The start times** (`calcular_tiempos_inicio`). These follow the order. Each activity starts at the latest `start[p] + f × duration[p]` over its predecessors `p` of positive duration, and never before 0. Here `f` is the progress token in the same position as `p` among the predecessors, which are taken in ascending index order. A missing or blank token means 1.0.
4. **The nominal production matrix** (`generar_matriz_contractual`). It has n×T entries. Each activity with positive duration and units produces `units / duration` per day over the columns `int(start) .. int(start) + duration`, clipped as a NumPy slice.

Files:

| file | module | contents |
|---|---|---|
| `model.dfy` | `Model` | the activity record, `Option`, `Result`, the `IndexError` fault |
| `text.dfy` | `Text` | Python's `strip`, `split(',')`, `','.join`, `isdigit`, `int` of digits, and the `A<k>` labels |
| `adjacency.dfy` | `Adjacency` | the matrix builder and the reading of predecessor cells |
| `topology.dfy` | `Topology` | the graph, the ordering loop, cycle extraction and the cycle message |
| `starttimes.dfy` | `StartTimes` | start-time propagation, its equations and the index error |
| `production.dfy` | `Production` | the production matrix, row totals and clipping |

The matrix builder, the graph builder, the ordering, the propagation and the production fill are methods with loops. Each is proved against specification functions: `Predecessors`/`Links`, `IsDependencyGraph`/`IsTopologicalOrder`/`IsCycle`, `Earliest`/`Faulty` and `Nominal`. Lemmas state the properties of those functions.

The source uses the NetworkX library for cycle finding and topological sorting. The model has its own algorithm for both, and proves the properties of the outcome:
- it repeatedly places the least node whose predecessors are all placed;
- when it stalls, it walks back along unplaced predecessors until a node repeats, which gives the cycle.

In three places the code does something other than what the plan evidently intends, and the model follows the code:
- The start-time list would naturally have one entry per activity, but it has `len(orden_topologico)` entries. See "## Findings".
- Progress tokens would naturally be paired with the labels in the order the cell lists them. Instead they are paired with the predecessors in ascending index order, as NumPy's `where` lists them, and repeated labels are merged into one.
- A negative start would naturally produce from day 0 onwards. Instead production starts at `int(start)`, which truncates toward zero, and the negative slice bound wraps from the end, as NumPy does.

## Model

| member | source | states |
|---|---|---|
| Text.StripSpec | adyacencia.py:8 | `strip` removes only characters of the set, from both ends, and leaves none of them at either end |
| Text.JoinSplit | adyacencia.py:10 | joining the comma-split pieces of a cell gives the cell back |
| Text.SplitJoin | adyacencia.py:10 | splitting a comma-join of comma-free pieces gives the pieces back |
| Text.SplitCommaFree | adyacencia.py:10 | no piece of a comma split holds a comma |
| Text.NatToStringRoundTrip | adyacencia.py:11-12 | a number's decimal text is all digits, and `int` of it is the number |
| Text.Label | adyacencia.py:27 | an activity label is `A` followed by the digits of the 1-based index |
| Adjacency.BuildAdjacency | adyacencia.py:4-13 | index error exactly when some cell lists a label above n; otherwise a fresh n×n matrix whose entry `[r, c]` is 1 exactly when activity `c` lists a label writing row `r` (label 0 writes the last row), and 0 elsewhere |
| Adjacency.MarkColumn | adyacencia.py:10-12 | for one activity's tokens: fails exactly when a label exceeds n; otherwise sets column `idx` to the labels' rows and leaves the other columns unchanged |
| Adjacency.RefsSpec | adyacencia.py:10-12 | a label is read from a cell exactly when some comma token is all digits with that value; tokens like `" 2"`, `"-1"`, `"2.0"` give nothing |
| Adjacency.DuplicateTokenIdempotent | adyacencia.py:12 | listing a token a second time sets no further entry |
| Adjacency.FormatLabelsRoundTrip | adyacencia.py:8-12 | a cell written as comma-joined decimal labels reads back as exactly that list; the empty list gives the empty cell, which adds no edge |
| Adjacency.TokensOfDigitPieces | adyacencia.py:8-10 | a cell of all-digit pieces joined by commas is not stripped and splits back into those pieces |
| Adjacency.RefsAppend | adyacencia.py:10-11 | the labels of a token list are those of its parts, in order |
| Topology.BuildGraph | adyacencia.py:19-22 | the graph has edge `(i, j)` exactly when entry `[i, j]` is 1, and its nodes are exactly the edges' endpoints |
| Topology.DependencyGraphBounded | adyacencia.py:19-22 | every node and edge endpoint of the dependency graph is below n, and each endpoint is a node |
| Topology.TopologicalOrder | adyacencia.py:15-34 | either a cycle of the matrix with its message, or the graph together with an order that lists every node once, puts every edge forwards and holds only indices below n |
| Topology.Linearize | adyacencia.py:31 | the placed nodes are distinct nodes, each after all its predecessors, and every node left unplaced waits for an unplaced predecessor |
| Topology.LinearizationIsTopological | adyacencia.py:31 | a linearization that placed every node is a topological order, with entries below n |
| Topology.ExtractCycle | adyacencia.py:25 | when no unplaced node is ready, returns a cycle of the graph made of unplaced nodes |
| Topology.GraphCycleIsMatrixCycle | adyacencia.py:21-25 | a cycle of the dependency graph is a cycle of the matrix |
| Topology.OrderExcludesCycle | adyacencia.py:24-31 | no cycle of the matrix exists when the graph has a topological order, so a cycle is reported exactly when there is no order |
| Topology.CycleTextClosed | adyacencia.py:27 | the cycle text starts and ends with the label of the cycle's first activity |
| Topology.TwoActivityCycle | adyacencia.py:24-28 | A1 and A2 depending on each other is a cycle and no order exists; the message of the cycle `[0, 1]` is `Se detectó un ciclo: A1 -> A2 -> A1` |
| Topology.KeepBelow | adyacencia.py:31 | the filter keeps exactly the order's entries below n |
| Topology.KeepBelowAll | adyacencia.py:31 | the filter leaves an order of entries below n unchanged |
| StartTimes.PredsSpec | calculos.py:6 | the predecessor list of a column is strictly ascending and holds exactly the rows whose entry is 1 |
| StartTimes.EarliestUpToIsMax | calculos.py:8-15 | the running maximum is at least 0 and at least every candidate seen, and it is 0 or one of them |
| StartTimes.EarliestIsMax | calculos.py:8-17 | an activity's start is the max of 0 and `start[p] + f × duration[p]` over its positive-duration predecessors, with the j-th predecessor paired with the j-th token; it is 0 when no predecessor has positive duration |
| StartTimes.EarliestUpToFrame | calculos.py:14-17 | changing the start of an activity that is not a predecessor does not change the bound |
| StartTimes.LatestBound | calculos.py:10-15 | the inner loop fails exactly when a positive-duration predecessor has no entry in the list; otherwise it gives the running maximum |
| StartTimes.Propagate | calculos.py:3-18 | index error exactly when some step indexes past the list or the matrix; otherwise a list of the given size, 0 outside the order, never negative, and for a predecessor-closed order every start satisfies its equation in the final list |
| StartTimes.Settle | calculos.py:17 | writing a start keeps the equations of earlier activities and makes the new one hold |
| StartTimes.StartTimesAsWritten | calculos.py:3-18 | the code as written, with a list of `len(order)` entries: fails exactly as `Faulty` says for that size; on success every order entry is below `len(order)`, times outside the order are 0, none is negative, and for a predecessor-closed order every start satisfies its equation |
| StartTimes.ComputeStartTimes | calculos.py:3-18 | with one entry per activity: never fails for an order of activities of the matrix, 0 outside the order, never negative, and the start equations hold |
| StartTimes.FullSizeNeverFaults | calculos.py:4-17 | with one entry per activity, an index error happens exactly when the order names an activity outside the matrix |
| StartTimes.StartsRespectPredecessors | calculos.py:13-17 | a start is never before a positive-duration predecessor has reached its required fraction |
| StartTimes.TopologicalOrderIsPredClosed | calculos.py:5-6 | a topological order of the graph over all activities lists every predecessor before its dependent |
| StartTimes.BoundFaults | calculos.py:14 | a positive-duration predecessor without an entry is an index error of that step |
| StartTimes.BoundSucceeds | calculos.py:14-17 | when all positive-duration predecessors and the activity have entries, the step raises nothing |
| StartTimes.AsWrittenFaultsOnIsolatedActivity | calculos.py:4-17 | with A3 depending on A2 and A1 on no edge, every topological order makes the code as written fail |
| StartTimes.ThreeActivityPlan | calculos.py:3-18 | A1 (5 days), A2 after all of A1 and A3 after half of A1 start at exactly 0, 5 and 2.5 |
| Production.Trunc | calculos.py:26 | `int` of a number truncates toward zero: for `x >= 0` the result is the integer `r >= 0` with `r <= x < r + 1`, and for `x < 0` the integer `r <= 0` with `r - 1 < x <= r` |
| Production.SliceBound | calculos.py:29 | a bound in `0..T` is kept, a bound above `T` becomes `T`, a negative bound `-T <= i < 0` counts from the end (`i + T`), and a bound below `-T` becomes 0 |
| Production.NominalProduction | calculos.py:20-30 | index error exactly when the start list is shorter than the table; otherwise a fresh n×T matrix whose entries are the rate inside each producing activity's window and 0 elsewhere, row by row |
| Production.FillRow | calculos.py:29 | the slice assignment sets exactly the window of its own row and nothing else |
| Production.RowTotalClosedForm | calculos.py:27-29 | a row's total over the first k days is the rate times the covered days of its window; a row that does not produce totals 0 |
| Production.RowTotalIsUnits | calculos.py:28-29 | a producing activity that starts at a day `s >= 0` with `int(s) + duration <= T` produces exactly its units |
| Production.RowPastHorizonIsZero | calculos.py:29 | an activity starting at or after day T produces nothing: every entry and the total are 0 |
| Production.EntryBounds | calculos.py:27-29 | every entry is non-negative and is 0 or the rate; inside the window and the horizon it is the rate |

## Left out

- main.py is not part of this model. It holds the UI orchestration and the critical path, which is a single `dag_longest_path` call into NetworkX.
- The constrained re-simulation functions that main.py imports are not defined in calculos.py, so there is nothing to model. They are `generar_matriz_restricciones`, `calcular_tiempos_inicio_ajustados`, `generar_matriz_adyacencia_ajustada`, `calcular_ruta_critica_ajustada`, `generar_matriz_contractual_ajustada` and `convertir_a_excel`.
- visualizacion.py, db_manager.py and models.py are not part of this model. They handle rendering and persistence.
- Parsing progress tokens with Python's `float` is not modelled. The record holds the tokens already read: `None` for a blank token, `Some(f)` otherwise. `"nan"`, `"None"` and unreadable tokens, for which the source gets NaN or a `ValueError`, are not modelled.
- The `int`/`float` coercion of the duration and units cells is not modelled. The record holds an `int` duration and `real` units.
- Floating point is not modelled. Rates, fractions and start times are exact `real` numbers.
- Adjacency.RefsSpec: `isdigit` is modelled for the ASCII digits only, and two Python behaviours are dropped. Other Unicode decimal digits, such as full-width `"１"` or Arabic-Indic `"١"`, pass `isdigit` and are read by `int`, so in the source they add an edge that the model does not. Non-decimal digits such as `"²"` pass `isdigit` and then make `int` raise `ValueError`, so in the source they abort the build, which the model does not.
- Topology.TopologicalOrder: NetworkX's own choice of order and cycle is not reproduced. Only the outcome properties are proved.
- Topology.TopologicalOrder: the matrix must have at least n rows and columns. NumPy would raise an error on a smaller one; the builder always makes an n×n matrix.
- Topology.TopologicalOrder: the fallback `return [], None` on adyacencia.py:34 cannot be reached, because each path returns or raises before it.
- StartTimes.Propagate: the start equations are stated only for orders closed under predecessors. Every topological order is closed (StartTimes.TopologicalOrderIsPredClosed). For other orders only the errors, zeros and non-negativity are stated.
- Production.NominalProduction: NumPy's `ValueError` for a negative horizon is not modelled. The horizon is a `nat`.
- DataFrame and array containers are modelled as a sequence of records indexed 0..n-1 and Dafny arrays.
- Exceptions are modelled as `Err(IndexError)` or the `CycleDetected` outcome. Their Python message text is modelled only for the cycle.

## Findings

| source | as written | input that shows it | evidently intended | confidence | as-written member | corrected member |
|---|---|---|---|---|---|---|
| calculos.py:4 | the start-time list has `len(orden_topologico)` entries but is indexed by activity index (calculos.py:14, 17); the order holds only activities on some edge | three activities where only A3 depends on A2, so A1 is on no edge: the order is `[1, 2]`, and writing the start of index 2 into a two-entry list raises `IndexError` (so does reading the list for every activity in calculos.py:26) | one entry per activity (`len(df_actividades)`), with activities outside the order staying at 0 | high; not executed | StartTimes.StartTimesAsWritten, StartTimes.AsWrittenFaultsOnIsolatedActivity | StartTimes.ComputeStartTimes, StartTimes.FullSizeNeverFaults |
