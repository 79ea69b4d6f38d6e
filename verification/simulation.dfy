/**
 * The simulation driver of the car front end
 * (car_simulation/src/frontend/run_simulation.rs): the distance heuristics
 * handed to the sparse A* engine, the check that a car and a goal are placed,
 * and one run of the simulation with the outcome its status line reports.
 */
module Simulation {
  import opened Options
  import opened Content
  import opened GridModel
  import opened Paths
  import SparseAStar

  function Max(a: nat, b: nat): (r: nat)
    ensures r >= a && r >= b && (r == a || r == b)
  {
    if a < b then b else a
  }

  function Min(a: nat, b: nat): (r: nat)
    ensures r <= a && r <= b && (r == a || r == b)
  {
    if a < b then a else b
  }

  /**
   * `get_manhattan_dist`, evaluated left to right on unsigned integers as
   * the source does; no intermediate value is ever negative, and the result
   * is the number of orthogonal steps between the two positions.
   */
  function ManhattanDist(p1: Pos, p2: Pos): (r: nat)
    ensures r == GridDistance(p1, p2)
  {
    var dx: nat := Max(p1.0, p2.0) - Min(p1.0, p2.0);
    var partial: nat := dx + Max(p1.1, p2.1);
    var total: nat := partial - Min(p1.1, p2.1);
    total
  }

  /** `get_chebyshev_dist`: the larger of the two coordinate differences. */
  function ChebyshevDist(p1: Pos, p2: Pos): (r: nat)
    ensures r == AbsDiff(p1.0, p2.0) || r == AbsDiff(p1.1, p2.1)
    ensures r >= AbsDiff(p1.0, p2.0) && r >= AbsDiff(p1.1, p2.1)
  {
    Max(Max(p1.0, p2.0) - Min(p1.0, p2.0), Max(p1.1, p2.1) - Min(p1.1, p2.1))
  }

  /** The heuristics the front end offers whose values are whole numbers. */
  datatype Heuristic = Manhattan | Chebyshev

  /**
   * The heuristic function a choice selects. Either one is at most the
   * number of orthogonal steps between two positions and at least half of it.
   */
  function HeuristicFn(kind: Heuristic): (f: (Pos, Pos) -> nat)
    ensures forall p: Pos, q: Pos :: f(p, q) <= GridDistance(p, q) <= 2 * f(p, q)
    ensures kind == Manhattan ==> forall p: Pos, q: Pos :: f(p, q) == GridDistance(p, q)
  {
    match kind
    case Manhattan => ManhattanDist
    case Chebyshev => ChebyshevDist
  }

  /** Both distances are symmetric and vanish exactly on equal positions. */
  lemma DistancesSymmetricAndDefinite(kind: Heuristic, p: Pos, q: Pos)
    ensures HeuristicFn(kind)(p, q) == HeuristicFn(kind)(q, p)
    ensures HeuristicFn(kind)(p, q) == 0 <==> p == q
  {
  }

  /** The Chebyshev distance never exceeds the Manhattan distance, which is at most twice it. */
  lemma ChebyshevWithinManhattan(p: Pos, q: Pos)
    ensures ChebyshevDist(p, q) <= ManhattanDist(p, q) <= 2 * ChebyshevDist(p, q)
  {
  }

  /** One orthogonal step changes either heuristic's estimate by at most one. */
  lemma HeuristicConsistent(kind: Heuristic, p: Pos, q: Pos, goal: Pos)
    requires Adjacent(p, q)
    ensures HeuristicFn(kind)(p, goal) <= HeuristicFn(kind)(q, goal) + 1
  {
  }

  /**
   * Neither heuristic overestimates: the estimate from the first position of
   * a walk of orthogonal steps to the goal is at most the walk's number of
   * steps, walls or not.
   */
  lemma {:induction false} HeuristicAdmissible(kind: Heuristic, w: seq<Pos>, goal: Pos)
    requires |w| > 0 && AdjacentSteps(w) && w[|w| - 1] == goal
    ensures HeuristicFn(kind)(w[0], goal) <= |w| - 1
    decreases |w|
  {
    if |w| == 1 {
      DistancesSymmetricAndDefinite(kind, w[0], goal);
    } else {
      var rest := w[1..];
      assert AdjacentSteps(rest) by {
        forall k, l | 0 <= k && l == k + 1 && l < |rest|
          ensures Adjacent(rest[k], rest[l])
        {
          assert rest[k] == w[k + 1] && rest[l] == w[l + 1];
        }
      }
      HeuristicAdmissible(kind, rest, goal);
      assert Adjacent(w[0], w[1]);
      HeuristicConsistent(kind, w[0], w[1], goal);
    }
  }

  /** `check_valid_state`: a simulation needs both a car and a goal on the grid. */
  function CheckValidState(g: Grid): (r: bool)
    reads g
    requires g.Valid()
    ensures r <==> g.car.Some? && g.goal.Some?
    ensures r <==> (exists p: Pos :: InBounds(g.cells, p) && At(g.cells, p) == Car) &&
                   (exists p: Pos :: InBounds(g.cells, p) && At(g.cells, p) == Goal)
  {
    g.HasCar() && g.HasGoal()
  }

  /**
   * Clearing the search marks keeps the placement invariant: the car and
   * the goal are not marks, and no mark becomes a car or a goal.
   */
  lemma ClearedStaysValid(before: seq<seq<Content>>, after: seq<seq<Content>>, car: Option<Pos>, goal: Option<Pos>)
    requires ValidState(before, car, goal) && SameShape(after, before)
    requires forall p: Pos :: InBounds(after, p) ==>
               At(after, p) == if IsSearchMark(At(before, p)) then Empty else At(before, p)
    ensures ValidState(after, car, goal)
  {
  }

  /** The two grids have the same walks through open cells. */
  ghost predicate SameOpenWalks(a: seq<seq<Content>>, b: seq<seq<Content>>)
  {
    forall w :: OpenWalk(a, w) <==> OpenWalk(b, w)
  }

  /** A goal no open walk reaches in one grid is reached by none in a grid with the same open walks. */
  lemma NoWalkReachesTransfers(a: seq<seq<Content>>, b: seq<seq<Content>>, car: Pos, goal: Pos)
    requires SameOpenWalks(a, b) && NoWalkReaches(b, car, goal)
    ensures NoWalkReaches(a, car, goal)
  {
  }

  /** Clearing the search marks keeps every wall and opens no new one, so the open walks stay the same. */
  lemma ClearedSameWalks(before: seq<seq<Content>>, after: seq<seq<Content>>)
    requires SameShape(after, before)
    requires forall p: Pos :: InBounds(after, p) ==>
               At(after, p) == if IsSearchMark(At(before, p)) then Empty else At(before, p)
    ensures SameOpenWalks(before, after)
  {
    forall w
      ensures OpenWalk(before, w) <==> OpenWalk(after, w)
    {
      if OpenWalk(before, w) {
        forall k | 0 <= k < |w|
          ensures InBounds(after, w[k]) && At(after, w[k]) != Wall
        {
          assert InBounds(before, w[k]);
        }
      }
      if OpenWalk(after, w) {
        forall k | 0 <= k < |w|
          ensures InBounds(before, w[k]) && At(before, w[k]) != Wall
        {
          assert InBounds(after, w[k]);
        }
      }
    }
  }

  /**
   * `path` is a walk through open cells of `cells` from `goal` back to `car`
   * that never repeats a cell, with `length` cells strictly between its ends,
   * and `length` is not below the grid distance minus one.
   */
  ghost predicate PathReport(path: seq<Pos>, length: nat, cells: seq<seq<Content>>, goal: Pos, car: Pos)
  {
    && |path| == length + 2 && path[0] == goal && path[|path| - 1] == car
    && OpenWalk(cells, path) && (forall a, b :: 0 <= a < b < |path| ==> path[a] != path[b])
    && length + 1 >= GridDistance(goal, car)
  }

  /**
   * The path a successful search found over the cleared grid, read off its
   * table, is a path report for the grid before clearing.
   */
  lemma FoundPathReport(res: SparseAStar.PathResult, path: seq<Pos>, length: nat, before: seq<seq<Content>>,
                        cleared: seq<seq<Content>>, after: seq<seq<Content>>, popped: seq<Pos>, car: Pos, goal: Pos)
    requires SparseAStar.FoundResult(res, path, cleared, after, popped, car, goal)
    requires length == |Chain(SparseAStar.Links(res.nodeMap), res.start, res.end)| - 2
    requires length + 1 >= GridDistance(res.end, res.start)
    requires SameOpenWalks(before, cleared)
    ensures PathReport(path, length, before, goal, car)
  {
    ChainDistinct(SparseAStar.Links(res.nodeMap), res.start, res.end);
  }

  /** What the status line of a run reports. */
  datatype Outcome = MissingCarOrGoal | NoPath | PathFound(explored: nat, length: nat)

  /**
   * The search half of `run_simulation`, once the car and the goal are
   * known to be placed: run the sparse A* search with the chosen heuristic
   * and report what it found. The reports speak of the grid `before`, which
   * has the same open cells as the grid searched; the marks left on the grid
   * are those of the search: the expanded cells `popped` (the car's own cell
   * excepted) become Explored and, when a path is found, the cells strictly
   * between its ends become Trace. No wall is added or removed.
   */
  method SearchAndReport(g: Grid, kind: Heuristic, ghost before: seq<seq<Content>>)
    returns (outcome: Outcome, ghost path: seq<Pos>, ghost popped: seq<Pos>)
    requires g.Valid() && g.car.Some? && g.goal.Some?
    requires SameOpenWalks(before, g.cells)
    modifies g`cells
    ensures g.Valid() && SameShape(g.cells, old(g.cells)) && SameWalls(old(g.cells), g.cells)
    ensures !outcome.MissingCarOrGoal?
    ensures |popped| >= 1 && popped[0] == g.car.value
    ensures forall k :: 0 <= k < |popped| ==>
              InBounds(old(g.cells), popped[k]) && At(old(g.cells), popped[k]) != Wall && popped[k] != g.goal.value
    ensures outcome.NoPath? ==>
              g.cells == SparseAStar.ExploredGrid(old(g.cells), popped, g.car.value)
              && NoWalkReaches(before, g.car.value, g.goal.value)
    ensures outcome.PathFound? ==>
              && outcome.explored == |popped| + 1
              && PathReport(path, outcome.length, before, g.goal.value, g.car.value)
              && TracedUpTo(g.cells, SparseAStar.ExploredGrid(old(g.cells), popped, g.car.value), path, |path| - 2)
  {
    path := [];
    ghost var cleared := g.cells;
    var r;
    ghost var found;
    r, popped, found := SparseAStar.FindPath(g, HeuristicFn(kind));
    match r {
      case None =>
        outcome := NoPath;
        NoWalkReachesTransfers(before, cleared, g.car.value, g.goal.value);
      case Some(res) =>
        var explored := SparseAStar.GetNExplored(res);
        var length := SparseAStar.GetPathLength(res);
        outcome := PathFound(explored, length);
        FoundPathReport(res, found, length, before, cleared, g.cells, popped, g.car.value, g.goal.value);
        path := found;
    }
  }

  /**
   * `run_simulation`: clear the marks of the previous run, give up when the
   * car or the goal is missing, and otherwise run the sparse A* search with
   * the chosen heuristic over the cleared grid. A reported path is a walk
   * through open cells of the grid from the goal back to the car that never
   * repeats a cell, its length counts the cells strictly between them, the
   * explored count is one more than the number of expanded cells, and the
   * grid shows the expanded cells as Explored and the path as Trace; when no
   * path is reported, no open walk from the car reaches the goal. Walls never
   * change, and the car and the goal are outside what the run may modify.
   */
  method RunSimulation(g: Grid, kind: Heuristic)
    returns (outcome: Outcome, ghost path: seq<Pos>, ghost popped: seq<Pos>)
    requires g.Valid()
    modifies g`cells
    ensures g.Valid() && SameShape(g.cells, old(g.cells)) && SameWalls(old(g.cells), g.cells)
    ensures outcome.MissingCarOrGoal? <==> !(g.car.Some? && g.goal.Some?)
    ensures outcome.MissingCarOrGoal? ==> g.cells == SparseAStar.Cleared(old(g.cells))
    ensures outcome.NoPath? ==>
              g.cells == SparseAStar.ExploredGrid(SparseAStar.Cleared(old(g.cells)), popped, g.car.value)
              && NoWalkReaches(old(g.cells), g.car.value, g.goal.value)
    ensures outcome.PathFound? ==>
              && outcome.explored == |popped| + 1
              && PathReport(path, outcome.length, old(g.cells), g.goal.value, g.car.value)
              && TracedUpTo(g.cells, SparseAStar.ExploredGrid(SparseAStar.Cleared(old(g.cells)), popped, g.car.value),
                            path, |path| - 2)
  {
    path, popped := [], [];
    SparseAStar.ClearPath(g);
    ghost var cleared := g.cells;
    ClearedStaysValid(old(g.cells), cleared, g.car, g.goal);
    ClearedSameWalks(old(g.cells), cleared);
    if !CheckValidState(g) {
      return MissingCarOrGoal, path, popped;
    }
    outcome, path, popped := SearchAndReport(g, kind, old(g.cells));
    SameWallsTrans(old(g.cells), cleared, g.cells);
  }
}
