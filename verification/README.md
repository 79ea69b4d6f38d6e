# Car path-finding grid — a Dafny model

This project models the core of a small Rust program. The program places a car, a goal and walls on a rectangular grid and finds a path from the car to the goal with A*.

The model covers four parts:

- **The grid** (`src/grid/mod.rs`, module `GridModel` in `grid.dfy`). A class `Grid` holds the cell matrix (`cells[y][x]`, positions written `(x, y)`) and the tracked `car` and `goal` positions. Its invariant `Valid()` is the placement invariant: the matrix is rectangular, and a tracked position lies in the grid and holds its content. Every cell that holds that content is the tracked one. Every operation that keeps the invariant proves it, and states its new state cell by cell. `clear` is modelled as written: it blanks the cells but keeps `car` and `goal`, and `ClearLeavesStaleCar` proves that this breaks the invariant.
- **The sparse A\* engine** (`grid/src/path_finding.rs`, module `SparseAStar`). Its parts:
  - The node table is a `map` from position to node.
  - The frontier is a sequence. A pop takes an entry that no other entry beats under `partial_cmp`.
  - A pop is re-read from the table, so stale pops are expanded again with the table's current values.
  - A popped cell other than the car's is marked `Explored`.
  - Relaxation writes a neighbour only on a strict decrease.

  The search invariant `SearchInv` makes several promises. The table is a predecessor table rooted at the car. Every entry is either still queued or "closed", meaning all its open neighbours are within one step. The goal is never closed. Termination rests on a finite measure (`DistPairs`) that every relaxation shrinks.

  From the invariant, `FindPath` proves two outcomes:
  - On `None`, no open walk from the car reaches the goal.
  - On `Some`, the drawn trace follows a repetition-free open walk from the goal back to the car. `explored` counts every pop, and `get_path_length` counts the cells strictly between the two ends.
- **The dense A\* engine** (`src/grid/path_finding.rs`, module `DenseAStar`). It builds an `m × n` node table up front, orders only by estimate, returns a boolean and never marks `Explored`. Read through `View` (reached nodes as a map), its relaxation loop is the sparse engine's relaxation. So the sparse search invariant and its lemmas carry over unchanged.
- **The driver and heuristics** (`car_simulation/src/frontend/run_simulation.rs`, module `Simulation`). It covers:
  - the Manhattan and Chebyshev distances in the source's unsigned `max - min` form;
  - `check_valid_state`;
  - `run_simulation`: clear the old marks, give up without a car or a goal, otherwise search and report.

Shared pieces live in `paths.dfy` (module `Paths`):
- orthogonal adjacency;
- `get_neighbours`, which both engines define identically;
- the direction rule of `draw_path`;
- the predecessor chain a finished search leaves behind, with its lemmas.

`content.dfy` holds the cell contents of `src/grid/content.rs`. `options.dfy` holds `Option` and `Ordering`.

The heuristic is a parameter `h: (Pos, Pos) -> nat`, so an estimate is the natural number `dist + h(pos, goal)`.

Where the code differs from what its names or comments suggest, the model follows the code:
- `get_path_length` returns the number of cells strictly between car and goal, one less than the number of steps, and 0 for adjacent car and goal.
- The `Trace` on a path cell points toward its neighbour on the goal side.
- A stale pop is not skipped: it is re-read from the table and expanded again, and it counts as an exploration.
- In the sparse engine, `eq` compares estimate and depth, `cmp` compares only the estimate, and `partial_cmp` never says Equal, not even for a node compared with itself (`OrdersDisagreeWithEq`). The heap uses `partial_cmp`.
- In the dense engine, `Ord::cmp` compares estimates in their natural order, while `partial_cmp`, which the heap uses, reverses them. So that heap pops a smallest estimate (`CmpIsReversedPartialCmp`).

## Model

| member | source | states |
|---|---|---|
| GridModel.Grid.constructor | src/grid/mod.rs:36-43 | needs non-zero sizes; gives an `m`-row, `n`-column grid of Empty cells with neither car nor goal tracked, satisfying the placement invariant |
| GridModel.Grid.M | src/grid/mod.rs:45-47 | a positive row count that bounds the row of every in-bounds position |
| GridModel.Grid.N | src/grid/mod.rs:49-51 | a positive column count; a position is in bounds exactly when its row is below `M()` and its column below `N()` |
| GridModel.Grid.HasGoal | src/grid/mod.rs:53-58 | true exactly when some cell of the grid holds the goal |
| GridModel.Grid.HasCar | src/grid/mod.rs:60-65 | true exactly when some cell of the grid holds the car |
| GridModel.ResizedRow | src/grid/mod.rs:73-79 | a row resized to exactly `n` cells keeps its first cells and is padded with Empty |
| GridModel.TruncateRows | src/grid/mod.rs:73 | the row loop of shrinking: every row truncated to its first `n` cells |
| GridModel.PadRows | src/grid/mod.rs:77-79 | the row loop of growing: every row with `extra` Empty cells appended |
| GridModel.ResizedRowsValid | src/grid/mod.rs:67-81 | resizing every row keeps the grid rectangular with width `n`, keeps the cells left of the edge, and adds only Empty cells; the placement invariant holds once a car or goal beyond the edge is forgotten |
| GridModel.Grid.SetWidth | src/grid/mod.rs:67-81 | keeps the invariant and the row count; the width becomes `n`; an equal width changes nothing; cells left of the old edge are kept and new ones are Empty; a car or goal beyond the new edge is forgotten, any other kept |
| GridModel.ResizedHeightValid | src/grid/mod.rs:83-96 | dropping rows or appending Empty rows of the same width keeps the grid rectangular and the cells above the edge; the placement invariant holds once a car or goal below the edge is forgotten |
| GridModel.Grid.SetHeight | src/grid/mod.rs:83-96 | keeps the invariant and the width; the row count becomes `m`; an equal height changes nothing; rows above the old edge are kept and new ones are Empty; a car or goal below the new edge is forgotten |
| GridModel.Grid.SetWall | src/grid/mod.rs:98-105 | the cell becomes Wall and no other cell changes; a car or goal on it is forgotten; the invariant is kept |
| GridModel.PlaceTracks | src/grid/mod.rs:107-131 | writing a content on a cell and blanking its previous cell tracks it at the new cell, forgets the other content if the cell held it, and changes no other cell |
| GridModel.PlaceGoalValid | src/grid/mod.rs:107-118 | placing the goal on a non-goal cell keeps the placement invariant, with the goal at the cell and a car there forgotten |
| GridModel.Grid.SetGoal | src/grid/mod.rs:107-118 | a Goal cell changes nothing; otherwise the cell becomes Goal, the previous goal cell becomes Empty, no other cell changes, the goal is tracked at `(x, y)`, and a car on the cell is forgotten; the invariant (at most one goal) is kept |
| GridModel.PlaceCarValid | src/grid/mod.rs:120-131 | placing the car on a non-car cell keeps the placement invariant, with the car at the cell and a goal there forgotten |
| GridModel.Grid.SetCar | src/grid/mod.rs:120-131 | a Car cell changes nothing; otherwise the cell becomes Car, the previous car cell becomes Empty, no other cell changes, the car is tracked at `(x, y)`, and a goal on the cell is forgotten; the invariant (at most one car) is kept |
| GridModel.Grid.SetEmpty | src/grid/mod.rs:133-140 | the cell becomes Empty and no other cell changes; a car or goal on it is forgotten; the invariant is kept |
| GridModel.Blank | src/grid/mod.rs:143 | a matrix of the given size whose every cell is Empty |
| GridModel.Grid.Clear | src/grid/mod.rs:142-144 | every cell becomes Empty with the shape kept; `car` and `goal` are not touched |
| GridModel.ClearLeavesStaleCar | src/grid/mod.rs:142-144 | once a car is tracked, the blanked grid with the kept positions violates the placement invariant |
| GridModel.Grid.FillRandomWalls | src/grid/mod.rs:165-174 | every cell becomes Wall when its draw is at most the wall percentage and Empty otherwise; the shape is kept |
| GridModel.Grid.FillRandom | src/grid/mod.rs:146-163 | needs a percentage of at most 100 and a goal index different from the car index; the car sits at its drawn position; a goal is placed exactly when the grid has more than one cell, never on the car; every other cell is Wall or Empty as drawn; the invariant holds |
| GridModel.GetRandomPos | src/grid/mod.rs:176-182 | an index below `m * n` gives an in-bounds position whose row-major index is that index |
| GridModel.GetRandomPosOfIndex | src/grid/mod.rs:176-182 | every in-bounds position is drawn by its own row-major index, which is below `m * n` |
| GridModel.GetRandomPosInjective | src/grid/mod.rs:176-182 | distinct indices give distinct positions |
| GridModel.Grid.CheckCarValidity | src/grid/mod.rs:184-190 | a car outside the grid is forgotten, any other kept |
| GridModel.Grid.CheckGoalValidity | src/grid/mod.rs:192-198 | a goal outside the grid is forgotten, any other kept |
| Orderings.CompareNat | grid/src/path_finding.rs:61 | comparing two estimates gives Less, Equal or Greater exactly as the first is smaller, equal or larger |
| Paths.Neighbours | grid/src/path_finding.rs:181-205 | exactly the in-bounds, orthogonally adjacent, non-wall positions, at most four |
| Paths.NeighboursSameWalls | grid/src/path_finding.rs:181-205 | the neighbour list depends only on the walls, so marking cells does not change it |
| Paths.DirectionToward | grid/src/path_finding.rs:171-176 | the direction written on a path cell steps from it to its goal-side neighbour |
| Paths.DirectionTowardUnique | grid/src/path_finding.rs:171-176 | for adjacent cells exactly one guard matches, so the "corrupted table" arm is unreachable |
| Paths.Chain | grid/src/path_finding.rs:164-178 | following predecessors from a reached cell ends at the start after at most its distance in steps, through adjacent cells of strictly falling distance, meeting the start only at the end |
| Paths.ChainDistinct | grid/src/path_finding.rs:164-178 | no cell occurs twice on a predecessor chain |
| Paths.ChainAdjacentSteps | grid/src/path_finding.rs:164-178 | consecutive cells of a predecessor chain are neighbours |
| Paths.ChainCoversDistance | grid/src/path_finding.rs:82-92 | a predecessor chain has at least as many steps as the grid distance it spans |
| Paths.DrawStep | grid/src/path_finding.rs:171-177 | one write of the drawing loop extends the traced stretch of the chain by one cell |
| Paths.MarksKeepValid | grid/src/path_finding.rs:139-141 | writing search marks only on cells that held neither car nor goal keeps the placement invariant |
| Paths.TracedPathKeepsValid | grid/src/path_finding.rs:158-179 | drawing the trace on the interior of a goal-to-car chain keeps the placement invariant |
| SparseAStar.Cmp | grid/src/path_finding.rs:48-54 | the smaller estimate is the greater node; equal estimates compare Equal |
| SparseAStar.PartialCmp | grid/src/path_finding.rs:56-72 | Greater exactly when the estimate is smaller, or equal with a larger depth; never Equal |
| SparseAStar.NodeEq | grid/src/path_finding.rs:42-46 | two nodes are equal exactly when `partial_cmp` orders each below the other; `cmp` calls every equal pair Equal |
| SparseAStar.OrdersDisagreeWithEq | grid/src/path_finding.rs:42-72 | `partial_cmp` calls every node Less than itself, and `cmp` calls nodes of equal estimate Equal even when `eq` says their depths make them unequal |
| SparseAStar.CmpAgreesOnDistinctEstimates | grid/src/path_finding.rs:48-72 | `cmp` and `partial_cmp` agree whenever the estimates differ |
| SparseAStar.Dist | grid/src/path_finding.rs:144 | the distance of the table entry, or `usize::MAX` when the position has none |
| SparseAStar.UndiscoveredIsImproved | grid/src/path_finding.rs:16-26 | a position without an entry reads as the default node, unreached, so every relaxation whose distance stays below `usize::MAX` improves it |
| SparseAStar.PopBest | grid/src/path_finding.rs:128 | the popped entry is one no other entry beats: minimal estimate and, among those, maximal depth |
| SparseAStar.TableLinksOk | grid/src/path_finding.rs:142-153 | a table the search keeps is a predecessor table rooted at the car |
| SparseAStar.AfterRelaxDist | grid/src/path_finding.rs:142-153 | after relaxation a listed neighbour has the smaller of its old distance (`usize::MAX` when absent) and `current.dist + 1`; every other distance is unchanged; no entry is lost |
| SparseAStar.AfterRelaxKeepsTable | grid/src/path_finding.rs:142-153 | relaxing open neighbours from the table's own node keeps the table well formed |
| SparseAStar.AfterRelaxShrinks | grid/src/path_finding.rs:142-153 | relaxation changes nothing or strictly shrinks the termination measure |
| SparseAStar.RelaxationTable | grid/src/path_finding.rs:143-153 | relaxing neighbours one at a time ends in the table that writes every improved neighbour |
| SparseAStar.RelaxationPushesImproved | grid/src/path_finding.rs:143-153 | every pushed node is the relaxed node of an improved neighbour |
| SparseAStar.RelaxationPushesAll | grid/src/path_finding.rs:143-153 | the relaxed node of every improved neighbour is pushed |
| SparseAStar.RelaxationIsAfterRelax | grid/src/path_finding.rs:143-153 | the relaxation loop yields that table and pushes exactly the relaxed nodes of the improved neighbours |
| SparseAStar.RelaxNeighbours | grid/src/path_finding.rs:142-153 | the loop leaves the table and the queue as that relaxation describes (predecessor, `dist + 1`, `dist + h`, `depth + 1`; push on strict decrease) |
| SparseAStar.ExpandKeepsInv | grid/src/path_finding.rs:126-153 | one round that pops a non-goal entry and relaxes from its re-read node keeps the search invariant; the table only gains keys; the measure falls or nothing changes |
| SparseAStar.ClosedTableCoversWalks | grid/src/path_finding.rs:126-155 | with an empty frontier, every cell an open walk from the car reaches is in the table within the walk's step count |
| SparseAStar.GoalUnreachable | grid/src/path_finding.rs:155 | with an empty frontier, no open walk from the car ends at the goal |
| SparseAStar.ExploredGridAt | grid/src/path_finding.rs:139-141 | the marked grid has Explored exactly on the popped cells other than the car's |
| SparseAStar.ExploredGridKeepsWalls | grid/src/path_finding.rs:139-141 | marking popped open non-goal cells keeps the placement invariant, the shape and every wall |
| SparseAStar.PopMarksCell | grid/src/path_finding.rs:128-143 | popping a non-goal cell marks it unless it is the car's, and its neighbours on the marked grid are those of the original grid |
| SparseAStar.PopKeepsSearchState | grid/src/path_finding.rs:126-153 | one round keeps the search state over the grid with one more cell marked, with the measure falling or the frontier shrinking |
| SparseAStar.GoalPathFacts | grid/src/path_finding.rs:130-131 | when the goal is popped, its predecessor chain back to the car is an open walk of the original grid, is a chain of the table, and the marked grid is still valid |
| SparseAStar.ChainNext | grid/src/path_finding.rs:86 | each step of the chain is the table's own predecessor entry; the start is reached exactly at the chain's end |
| SparseAStar.GetPathLength | grid/src/path_finding.rs:82-92 | the number of cells strictly between start and end on the predecessor chain; 0 exactly when the end's predecessor is the start; at least the grid distance minus one and below the end's distance |
| SparseAStar.GetNExplored | grid/src/path_finding.rs:94-96 | the exploration count of a result is at least one (the goal's pop) |
| SparseAStar.ChainInMap | grid/src/path_finding.rs:158-179 | the chain the table links from the goal back to the car lies in the grid, steps between neighbours, never repeats and names each next cell as predecessor |
| SparseAStar.DrawPath | grid/src/path_finding.rs:158-179 | writes on every cell strictly between the ends a Trace toward its goal-side neighbour, and changes nothing else |
| SparseAStar.PoppedOpen | grid/src/path_finding.rs:126-153 | every popped cell is an open cell, other than the goal, of the grid as the search began, and the marked grid has the same walls |
| SparseAStar.TraceKeepsWalls | grid/src/path_finding.rs:158-179 | drawing the trace on the interior of an open walk overwrites no wall |
| SparseAStar.ExhaustedSearch | grid/src/path_finding.rs:126-155 | a search that ran out of frontier leaves a valid grid of the same shape with the same walls, popped only open cells other than the goal, and no open walk reaches the goal |
| SparseAStar.ExpandCurrent | grid/src/path_finding.rs:139-153 | marking the popped cell and relaxing its neighbours moves the search state on by one pop, with the measure falling or the frontier shrinking |
| SparseAStar.DrawChain | grid/src/path_finding.rs:131 | drawing the table's chain keeps the grid valid and of the same shape and traces exactly the chain's interior |
| SparseAStar.DrawFoundPath | grid/src/path_finding.rs:130-137 | the goal branch: the result counts every pop, its chain is an open walk of the grid as the search began, the trace is drawn on the marked grid, and every wall is kept |
| SparseAStar.Search | grid/src/path_finding.rs:108-154 | starting from the car's node alone, the loop ends at the pop of the goal or with an empty frontier, keeping the search state; the count is the number of pops |
| SparseAStar.FindPath | grid/src/path_finding.rs:100-156 | needs car and goal; keeps the grid valid and of the same shape, with walls on exactly the same cells; every popped cell was open and is not the goal; on `None` the only change is the Explored marks, and no open walk from the car reaches the goal; on `Some` the result runs from car to goal, counts every pop, and the drawn trace follows a repetition-free open walk from the goal back to the car |
| SparseAStar.ClearPath | grid/src/path_finding.rs:207-213 | every Trace and Explored cell becomes Empty; every other cell, every wall included, keeps its content |
| SparseAStar.ClearPathIdempotent | grid/src/path_finding.rs:207-213 | clearing twice leaves the same grid as clearing once |
| DenseAStar.NewNode | src/grid/path_finding.rs:41-50 | a fresh node sits at its position with no predecessor and the sparse default node's distance and estimate, `usize::MAX` and `f32::MAX` |
| DenseAStar.NodeEq | src/grid/path_finding.rs:16-20 | two nodes are equal exactly when `cmp` says Equal, and exactly when `partial_cmp` does |
| DenseAStar.Cmp | src/grid/path_finding.rs:22-28 | the estimates in their natural order |
| DenseAStar.PartialCmp | src/grid/path_finding.rs:30-39 | the estimates in reverse: Greater exactly when the estimate is smaller, Equal exactly when equal |
| DenseAStar.CmpIsReversedPartialCmp | src/grid/path_finding.rs:22-39 | `cmp` is the reverse of `partial_cmp` and disagrees with it whenever the estimates differ |
| DenseAStar.PopMin | src/grid/path_finding.rs:73 | the popped entry has a smallest estimate |
| DenseAStar.NewNodeGrid | src/grid/path_finding.rs:58-64 | the nested loops build `m` rows of `n` nodes, each unreached at its own position |
| DenseAStar.NewNodeGridUnreached | src/grid/path_finding.rs:41-64 | a fresh table covers the grid and has no reached node |
| DenseAStar.RelaxOne | src/grid/path_finding.rs:79-86 | with the distance read from the table, a strict decrease writes predecessor, distance and estimate and pushes the node; otherwise nothing changes |
| DenseAStar.RelaxNeighbours | src/grid/path_finding.rs:78-87 | the loop is, through the view, the sparse engine's relaxation: the same table and the same nodes pushed |
| DenseAStar.ExpandKeepsState | src/grid/path_finding.rs:72-87 | one round that pops a non-goal entry keeps the sparse search invariant through the view, with the measure falling or nothing changing |
| DenseAStar.Search | src/grid/path_finding.rs:58-89 | the loop ends at the pop of the goal or with an empty frontier, keeping the search state; the grid is only read |
| DenseAStar.ChainInTable | src/grid/path_finding.rs:98-112 | the chain the table links from the goal back to the car lies in the grid, never repeats and names each next cell as predecessor |
| DenseAStar.GoalPathFacts | src/grid/path_finding.rs:74-75 | when the goal is popped, its predecessor chain is an open walk of the grid |
| DenseAStar.DrawPath | src/grid/path_finding.rs:92-113 | writes on every cell strictly between the ends a Trace toward its goal-side neighbour, and changes nothing else |
| DenseAStar.DrawFoundPath | src/grid/path_finding.rs:74-76 | drawing the found chain keeps the grid valid and traces a repetition-free open walk from the goal back to the car |
| DenseAStar.FindPath | src/grid/path_finding.rs:53-90 | needs car and goal; true comes with a trace along a repetition-free open walk from the goal back to the car; false leaves the grid unchanged, and then no open walk from the car reaches the goal |
| DenseAStar.ClearPath | src/grid/path_finding.rs:141-147 | every Trace cell becomes Empty; every other cell, Explored included, keeps its content |
| DenseAStar.ClearPathIdempotent | src/grid/path_finding.rs:141-147 | clearing twice leaves the same grid as clearing once |
| Simulation.HeuristicFn | car_simulation/src/frontend/run_simulation.rs:12-16 | the selected heuristic is at most the number of orthogonal steps between two positions and at least half of it; Manhattan is exactly that number |
| Simulation.ManhattanDist | car_simulation/src/frontend/run_simulation.rs:37-39 | the unsigned `max - min` sum never underflows and equals the number of orthogonal steps between the positions |
| Simulation.ChebyshevDist | car_simulation/src/frontend/run_simulation.rs:47-52 | the larger of the two coordinate differences |
| Simulation.DistancesSymmetricAndDefinite | car_simulation/src/frontend/run_simulation.rs:37-52 | both distances are symmetric and zero exactly on equal positions |
| Simulation.ChebyshevWithinManhattan | car_simulation/src/frontend/run_simulation.rs:37-52 | Chebyshev never exceeds Manhattan, which is at most twice Chebyshev |
| Simulation.HeuristicConsistent | car_simulation/src/frontend/run_simulation.rs:37-52 | one orthogonal step changes either estimate by at most one |
| Simulation.HeuristicAdmissible | car_simulation/src/frontend/run_simulation.rs:37-52 | neither estimate exceeds the number of steps of any walk to the goal |
| Simulation.CheckValidState | car_simulation/src/frontend/run_simulation.rs:32-34 | true exactly when both a car and a goal are on the grid |
| Simulation.ClearedStaysValid | car_simulation/src/frontend/run_simulation.rs:7 | clearing the marks keeps the placement invariant |
| Simulation.ClearedSameWalks | car_simulation/src/frontend/run_simulation.rs:7 | clearing the marks keeps exactly the same open walks |
| Simulation.FoundPathReport | car_simulation/src/frontend/run_simulation.rs:22-27 | the reported length and the found chain describe a repetition-free open walk of the grid from the goal back to the car, with the length counting its interior cells |
| Simulation.SearchAndReport | car_simulation/src/frontend/run_simulation.rs:12-29 | with car and goal placed, walls kept and only open non-goal cells expanded: "no path" only when no open walk reaches the goal, with the grid showing exactly the expanded cells as Explored; a found path is reported with one more exploration than expansions, and the grid shows those Explored marks with the path traced over them |
| Simulation.RunSimulation | car_simulation/src/frontend/run_simulation.rs:6-30 | clears the marks first and keeps every wall; gives up exactly when the car or the goal is missing, leaving the cleared grid; otherwise reports "no path" only when no open walk from the car reaches the goal, leaving the cleared grid with the expanded cells Explored, or a repetition-free open walk from the goal to the car with its interior length and one more exploration than expansions, traced over those marks; the grid stays valid |

## Left out

- Floating point. `get_euclidean_dist` (`sqrt`, `powi`) is not modelled, so `Simulation.Heuristic` has no Euclidean choice. Estimates are natural numbers, not `f32`. The `unwrap` on a NaN comparison cannot fail.
- Simulation.ManhattanDist: the result is the exact natural number, without the cast to `f32`. That cast is exact only up to 2^24.
- Simulation.ChebyshevDist: the result is the exact natural number, without the cast to `f32`.
- Machine-word overflow. The increments of `usize` counters and distances (`iteration_count`, `lenght`, `dist + 1`, `depth + 1`) are unbounded naturals. `usize::MAX` is kept where the code compares with it: the distance of an unreached cell.
- SparseAStar.FindPath: "no walk reaches the goal" is stated for walks of at most `usize::MAX` cells, the longest a table distance can describe. The same bound holds for DenseAStar.FindPath and Simulation.RunSimulation.
- SparseAStar.FindPath: nothing is said about optimality of the path, or about `explored` being at most the number of reachable cells. The code does not promise either, and stale pops count again.
- SparseAStar.PopBest: the heap's choice among entries that neither beats is not modelled. The contract allows any such entry, and the body takes the first. The same holds for DenseAStar.PopMin.
- Library internals. `FxHashMap` and `BinaryHeap` become a `map` and a sequence. `node_map.reserve` only changes capacity and is left out.
- Randomness. `thread_rng` becomes parameters:
  - the draws `rolls` for `fill_random_walls`;
  - `carIndex` and `goalIndex` for `get_random_pos`.

  The redraw loop until the goal differs from the car becomes the precondition `goalIndex != carIndex`.
- GridModel.Grid.FillRandomWalls: the draws are any natural numbers, not only the range 1 to 100 that `gen_range(1, 101)` yields.
- Panics become preconditions:
  - `assert!(n != 0)` and `assert!(m != 0)`;
  - the car/goal `assert!` of both `find_path`;
  - out-of-range indexing in the setters.

  The "corrupted predecessors table" arm of `draw_path` is proved unreachable instead.
- SparseAStar.DrawPath and DenseAStar.DrawPath take the predecessor chain as a ghost argument. The loop itself follows the table.
- The split of `find_path` into `Search`, `ExpandCurrent`, `DrawFoundPath` and `DrawChain`, and of `run_simulation` into `RunSimulation` and `SearchAndReport`, is for the proof only. The steps run in the source's order.
- DenseAStar nodes have no depth. The view gives each node its distance as depth. The dense heap ignores depth, so this changes nothing.
- Simulation.RunSimulation: the status-message text and the `Instant` timing are not modelled. The outcome carries the two numbers the message prints.
- Rendering, event handling, argument parsing and benchmarks are not part of this model: `fmt::Display`, `src/frontend`, `src/screen.rs`, `src/event_loop.rs`, `src/main.rs`, `benchmarks`. Neither is the unused `src/grid/error.rs`, the older `src/grid.rs`, or the older `src/frontend/run_simulation.rs`.
