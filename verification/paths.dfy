/**
 * What both search engines share: machine-word limits, orthogonal adjacency,
 * the neighbour query, the direction rule of path drawing, and the chain of
 * predecessor links that a finished search leaves behind.
 */
module Paths {
  import opened Options
  import opened Content
  import opened GridModel

  /** `usize::MAX` on a 64-bit target: the distance of a position not yet reached. */
  const USIZE_MAX: nat := 0xFFFF_FFFF_FFFF_FFFF

  /** `f32::MAX`, which is an integer: the estimate of a position not yet reached. */
  const F32_MAX: nat := 340282346638528859811704183484516925440

  function AbsDiff(a: nat, b: nat): nat
  {
    if a < b then b - a else a - b
  }

  /** The number of orthogonal steps between two positions, ignoring walls. */
  function GridDistance(p: Pos, q: Pos): nat
  {
    AbsDiff(p.0, q.0) + AbsDiff(p.1, q.1)
  }

  /** `p` and `q` are one orthogonal step apart. */
  predicate Adjacent(p: Pos, q: Pos)
  {
    (p.1 == q.1 && (p.0 == q.0 + 1 || q.0 == p.0 + 1)) ||
    (p.0 == q.0 && (p.1 == q.1 + 1 || q.1 == p.1 + 1))
  }

  /** Moving one cell from `p` in direction `d` reaches `q`; rows grow downwards. */
  predicate StepsTo(p: Pos, d: Direction, q: Pos)
  {
    match d
    case Left => q.0 + 1 == p.0 && q.1 == p.1
    case Right => q.0 == p.0 + 1 && q.1 == p.1
    case Up => q.1 + 1 == p.1 && q.0 == p.0
    case Down => q.1 == p.1 + 1 && q.0 == p.0
  }

  /**
   * The direction `draw_path` writes on `cell`, whose goal-side neighbour on
   * the path is `next`. The source treats a non-adjacent pair as unreachable.
   */
  function DirectionToward(cell: Pos, next: Pos): (d: Direction)
    requires Adjacent(cell, next)
    ensures StepsTo(cell, d, next)
  {
    if cell.0 == next.0 + 1 && cell.1 == next.1 then Left
    else if cell.0 + 1 == next.0 && cell.1 == next.1 then Right
    else if cell.0 == next.0 && cell.1 == next.1 + 1 then Up
    else Down
  }

  /** The direction toward an adjacent cell is the only one that reaches it. */
  lemma DirectionTowardUnique(cell: Pos, d: Direction, next: Pos)
    requires StepsTo(cell, d, next)
    ensures Adjacent(cell, next) && DirectionToward(cell, next) == d
  {
  }

  /**
   * `get_neighbours`: the in-bounds, non-Wall cells right of, left of, below
   * and above `p`, in that order.
   */
  function Neighbours(cells: seq<seq<Content>>, p: Pos): (r: seq<Pos>)
    requires Rectangular(cells) && InBounds(cells, p)
    ensures forall q: Pos :: q in r <==> InBounds(cells, q) && Adjacent(p, q) && At(cells, q) != Wall
    ensures |r| <= 4
  {
    var m, n := |cells|, |cells[0]|;
    var right := if p.0 + 1 < n && At(cells, (p.0 + 1, p.1)) != Wall then [(p.0 + 1, p.1)] else [];
    var left := if p.0 != 0 && At(cells, (p.0 - 1, p.1)) != Wall then [(p.0 - 1, p.1)] else [];
    var down := if p.1 + 1 < m && At(cells, (p.0, p.1 + 1)) != Wall then [(p.0, p.1 + 1)] else [];
    var up := if p.1 != 0 && At(cells, (p.0, p.1 - 1)) != Wall then [(p.0, p.1 - 1)] else [];
    right + left + down + up
  }

  /**
   * A search may only turn cells into Explored or Trace marks, and only cells
   * that held neither the car nor the goal: the placement invariant survives.
   */
  lemma MarksKeepValid(before: seq<seq<Content>>, after: seq<seq<Content>>, car: Option<Pos>, goal: Option<Pos>)
    requires ValidState(before, car, goal) && SameShape(after, before)
    requires forall p: Pos :: InBounds(before, p) ==>
               At(after, p) == At(before, p) ||
               (IsSearchMark(At(after, p)) && At(before, p) != Car && At(before, p) != Goal)
    ensures ValidState(after, car, goal)
  {
    assert forall p: Pos :: InBounds(after, p) <==> InBounds(before, p);
  }

  /** Only the walls matter to `get_neighbours`: grids with the same shape and walls give the same list. */
  lemma NeighboursSameWalls(a: seq<seq<Content>>, b: seq<seq<Content>>, p: Pos)
    requires Rectangular(a) && SameShape(a, b) && InBounds(a, p)
    requires forall q: Pos :: InBounds(a, q) ==> (At(a, q) == Wall <==> At(b, q) == Wall)
    ensures Rectangular(b) && Neighbours(a, p) == Neighbours(b, p)
  {
  }

  /** Every cell of a grid with `m` rows and `n` columns. */
  ghost function AllCells(m: nat, n: nat): set<Pos>
  {
    set x: nat, y: nat | x < n && y < m :: (x, y)
  }

  /** The part of a search node that path reconstruction reads. */
  datatype Link = Link(pred: Option<Pos>, dist: nat)

  /** A reached entry other than the start steps back to an adjacent, strictly closer entry. */
  ghost predicate StepsBack(links: map<Pos, Link>, p: Pos)
    requires p in links
  {
    var pred := links[p].pred;
    pred.Some? && pred.value in links && Adjacent(p, pred.value) &&
    links[pred.value].dist < links[p].dist
  }

  /**
   * The predecessor table of a search from `start`: the start has no
   * predecessor and distance 0, and every other reached entry (distance below
   * `usize::MAX`) steps back to a closer one.
   */
  ghost predicate LinksOk(links: map<Pos, Link>, start: Pos)
  {
    start in links && links[start] == Link(None, 0) &&
    forall p {:trigger StepsBack(links, p)} :: p in links && p != start && links[p].dist < USIZE_MAX ==> StepsBack(links, p)
  }

  /**
   * The positions met when following predecessors from `p` back to `start`,
   * both included: adjacent cells with strictly falling distances, so at most
   * `dist(p)` steps.
   */
  ghost function Chain(links: map<Pos, Link>, start: Pos, p: Pos): (ch: seq<Pos>)
    requires LinksOk(links, start) && p in links && links[p].dist < USIZE_MAX
    ensures |ch| >= 1 && ch[0] == p && ch[|ch| - 1] == start
    ensures |ch| - 1 <= links[p].dist
    ensures forall i :: 0 <= i < |ch| ==> ch[i] in links && links[ch[i]].dist <= links[p].dist
    ensures forall i :: 0 <= i < |ch| - 1 ==> ch[i] != start
    ensures forall i, j :: 0 <= i && j == i + 1 && j < |ch| ==>
              links[ch[i]].pred == Some(ch[j]) && Adjacent(ch[i], ch[j]) && links[ch[j]].dist < links[ch[i]].dist
    decreases links[p].dist
  {
    if p == start then [p]
    else
      assert StepsBack(links, p);
      var rest := Chain(links, start, links[p].pred.value);
      assert forall i :: 1 <= i < |rest| + 1 ==> ([p] + rest)[i] == rest[i - 1];
      [p] + rest
  }

  /** Along a sequence whose distances fall step by step, they fall between any two indices. */
  lemma {:induction false} FallingDistances(links: map<Pos, Link>, ch: seq<Pos>, i: nat, j: nat)
    requires forall k :: 0 <= k < |ch| ==> ch[k] in links
    requires forall k, l :: 0 <= k && l == k + 1 && l < |ch| ==> links[ch[l]].dist < links[ch[k]].dist
    requires i < j < |ch|
    ensures links[ch[j]].dist < links[ch[i]].dist
    decreases j - i
  {
    if j > i + 1 {
      FallingDistances(links, ch, i + 1, j);
    }
  }

  /** No position occurs twice on a chain. */
  lemma ChainDistinct(links: map<Pos, Link>, start: Pos, p: Pos)
    requires LinksOk(links, start) && p in links && links[p].dist < USIZE_MAX
    ensures var ch := Chain(links, start, p);
      forall i, j :: 0 <= i < j < |ch| ==> ch[i] != ch[j]
  {
    var ch := Chain(links, start, p);
    forall i, j | 0 <= i < j < |ch|
      ensures ch[i] != ch[j]
    {
      FallingDistances(links, ch, i, j);
    }
  }

  /** Consecutive positions on a chain are adjacent. */
  lemma ChainAdjacentSteps(links: map<Pos, Link>, start: Pos, p: Pos)
    requires LinksOk(links, start) && p in links && links[p].dist < USIZE_MAX
    ensures AdjacentSteps(Chain(links, start, p))
  {
  }

  /** A chain of adjacent cells cannot be shorter than the grid distance it spans. */
  lemma {:induction false} ChainCoversDistance(links: map<Pos, Link>, start: Pos, p: Pos)
    requires LinksOk(links, start) && p in links && links[p].dist < USIZE_MAX
    ensures |Chain(links, start, p)| - 1 >= GridDistance(p, start)
    decreases links[p].dist
  {
    if p != start {
      assert StepsBack(links, p);
      var q := links[p].pred.value;
      ChainCoversDistance(links, start, q);
    }
  }

  /** The cells strictly between the two ends of the chain from `p`: those `draw_path` marks. */
  ghost function Interior(links: map<Pos, Link>, start: Pos, p: Pos): seq<Pos>
    requires LinksOk(links, start) && p in links && links[p].dist < USIZE_MAX && p != start
  {
    var ch := Chain(links, start, p);
    ch[1..|ch| - 1]
  }

  /** Consecutive positions of `ch` are adjacent. */
  ghost predicate AdjacentSteps(ch: seq<Pos>)
  {
    forall k, l :: 0 <= k && l == k + 1 && l < |ch| ==> Adjacent(ch[k], ch[l])
  }

  /**
   * `cells` is `before` with the positions `ch[1]` to `ch[i]` each holding a
   * Trace toward the position before it on `ch`, and nothing else changed.
   */
  ghost predicate TracedUpTo(cells: seq<seq<Content>>, before: seq<seq<Content>>, ch: seq<Pos>, i: nat)
    requires i < |ch| && AdjacentSteps(ch)
  {
    && SameShape(cells, before)
    && (forall k, j :: 0 <= k && j == k + 1 && j <= i ==>
          InBounds(cells, ch[j]) && At(cells, ch[j]) == Trace(DirectionToward(ch[j], ch[k])))
    && (forall p: Pos :: InBounds(cells, p) && p !in ch[1..i + 1] ==> At(cells, p) == At(before, p))
  }

  /** Drawing the trace at `ch[i]` extends the traced stretch by one, when `ch` never repeats a position. */
  lemma DrawStep(cells: seq<seq<Content>>, before: seq<seq<Content>>, ch: seq<Pos>, i: nat)
    requires i + 1 < |ch| && AdjacentSteps(ch)
    requires forall a, b :: 0 <= a < b < |ch| ==> ch[a] != ch[b]
    requires TracedUpTo(cells, before, ch, i) && InBounds(before, ch[i + 1])
    ensures InBounds(cells, ch[i + 1])
    ensures TracedUpTo(SetAt(cells, ch[i + 1], Trace(DirectionToward(ch[i + 1], ch[i]))), before, ch, i + 1)
  {
    assert InBounds(cells, ch[i + 1]);
    var n := i + 1;
    var after := SetAt(cells, ch[n], Trace(DirectionToward(ch[n], ch[i])));
    assert ch[1..n + 1] == ch[1..n] + [ch[n]];
    forall k, j
      ensures 0 <= k && j == k + 1 && j <= n ==>
                InBounds(after, ch[j]) && At(after, ch[j]) == Trace(DirectionToward(ch[j], ch[k]))
    {
      if 0 <= k && j == k + 1 && j < n {
        var here, next := ch[j], ch[k];
        assert here != ch[n] && InBounds(cells, here) && At(cells, here) == Trace(DirectionToward(here, next));
      }
    }
    forall p: Pos | InBounds(after, p) && p !in ch[1..n + 1]
      ensures At(after, p) == At(before, p)
    {
      assert p !in ch[1..n];
    }
    assert SameShape(after, before);
    forall j | 1 <= j <= n
      ensures InBounds(after, ch[j])
    {
      assert Adjacent(ch[j], ch[j - 1]);
    }
  }

  /** A walk through open cells: every position in the grid and not a wall, consecutive positions adjacent. */
  ghost predicate OpenWalk(cells: seq<seq<Content>>, w: seq<Pos>)
  {
    AdjacentSteps(w) && forall k :: 0 <= k < |w| ==> InBounds(cells, w[k]) && At(cells, w[k]) != Wall
  }

  /**
   * No walk through open cells with at most `usize::MAX` positions leads
   * from `car` to `goal`.
   */
  ghost predicate NoWalkReaches(cells: seq<seq<Content>>, car: Pos, goal: Pos)
  {
    forall w :: OpenWalk(cells, w) && 0 < |w| <= USIZE_MAX && w[0] == car ==> w[|w| - 1] != goal
  }

  /**
   * Drawing a trace along the interior of a chain from the goal to the car
   * that never repeats a position keeps the placement invariant: the interior
   * holds neither the car nor the goal.
   */
  lemma TracedPathKeepsValid(before: seq<seq<Content>>, after: seq<seq<Content>>, ch: seq<Pos>, car: Pos, goal: Pos)
    requires ValidState(before, Some(car), Some(goal))
    requires |ch| >= 2 && ch[0] == goal && ch[|ch| - 1] == car && AdjacentSteps(ch)
    requires forall a, b :: 0 <= a < b < |ch| ==> ch[a] != ch[b]
    requires TracedUpTo(after, before, ch, |ch| - 2)
    ensures ValidState(after, Some(car), Some(goal))
  {
    forall p: Pos | InBounds(before, p)
      ensures At(after, p) == At(before, p) ||
              (IsSearchMark(At(after, p)) && At(before, p) != Car && At(before, p) != Goal)
    {
      if p in ch[1..|ch| - 1] {
        var j :| 1 <= j < |ch| - 1 && ch[j] == p;
        assert ch[0] != ch[j] && ch[j] != ch[|ch| - 1];
        assert Adjacent(ch[j - 1], ch[j]);
        assert At(after, ch[j]) == Trace(DirectionToward(ch[j], ch[j - 1]));
        assert At(before, p) != Car && At(before, p) != Goal;
      } else {
        assert InBounds(after, p);
      }
    }
    MarksKeepValid(before, after, Some(car), Some(goal));
  }
}
