/**
 * The older A* engine with a dense node table (src/grid/path_finding.rs): one
 * node per cell in an `m × n` table built up front, every node unreached
 * (`usize::MAX`) at first, a binary heap ordered by the estimate alone, and a
 * boolean result. It never marks cells Explored.
 *
 * The search is the same as the sparse engine's once the table is read as a
 * map: `View` keeps the reached nodes, each as the sparse node whose depth is
 * its distance. The search invariant and its lemmas are then those of
 * `SparseAStar`, applied through the view.
 */
module DenseAStar {
  import opened Options
  import opened Orderings
  import opened Content
  import opened GridModel
  import opened Paths
  import SparseAStar

  /** A search node; `guessedDist` is the source's `f32` estimate, here a natural number. */
  datatype AStarNode = AStarNode(pos: Pos, predecessor: Option<Pos>, dist: nat, guessedDist: nat)

  /**
   * `AStarNode::new(pos)`: a node at `pos` not yet reached, with no
   * predecessor and the distance and estimate of the sparse engine's default
   * node, `usize::MAX` and `f32::MAX`.
   */
  function NewNode(pos: Pos): (n: AStarNode)
    ensures n.pos == pos && n.predecessor.None?
    ensures n.dist == SparseAStar.DEFAULT_NODE.dist && n.guessedDist == SparseAStar.DEFAULT_NODE.guessedDist
  {
    AStarNode(pos, None, USIZE_MAX, F32_MAX)
  }

  /**
   * `PartialEq`: two nodes are equal when their estimates are; this is
   * exactly when `cmp`, and also `partial_cmp`, says Equal.
   */
  function NodeEq(self: AStarNode, other: AStarNode): (r: bool)
    ensures r <==> Cmp(self, other) == Equal
    ensures r <==> PartialCmp(self, other) == Equal
  {
    self.guessedDist == other.guessedDist
  }

  /** `Ord::cmp`: the estimates compared in their natural order. */
  function Cmp(self: AStarNode, other: AStarNode): (o: Ordering)
    ensures o == Less <==> self.guessedDist < other.guessedDist
    ensures o == Equal <==> self.guessedDist == other.guessedDist
  {
    CompareNat(self.guessedDist, other.guessedDist)
  }

  /**
   * `PartialOrd::partial_cmp`, the order the heap uses: the estimates
   * compared in reverse, so the node with the smaller estimate is greater.
   */
  function PartialCmp(self: AStarNode, other: AStarNode): (o: Ordering)
    ensures o == Greater <==> self.guessedDist < other.guessedDist
    ensures o == Less <==> self.guessedDist > other.guessedDist
    ensures o == Equal <==> self.guessedDist == other.guessedDist
  {
    match CompareNat(self.guessedDist, other.guessedDist)
    case Less => Greater
    case Greater => Less
    case o => o
  }

  /** Swapping Less and Greater. */
  function Reverse(o: Ordering): Ordering
  {
    match o
    case Less => Greater
    case Greater => Less
    case Equal => Equal
  }

  /**
   * `cmp` and `partial_cmp` disagree on every pair of nodes with different
   * estimates: one is the reverse of the other. The heap compares with the
   * `PartialOrd` operators, so it pops a node of smallest estimate.
   */
  lemma CmpIsReversedPartialCmp(a: AStarNode, b: AStarNode)
    ensures Cmp(a, b) == Reverse(PartialCmp(a, b))
    ensures a.guessedDist != b.guessedDist ==> Cmp(a, b) != PartialCmp(a, b)
  {
  }

  /**
   * The heap's pop: the index of an entry that no other entry beats under
   * `partial_cmp`, that is one of smallest estimate. Among entries of equal
   * estimate, the first is taken.
   */
  method PopMin(queue: seq<AStarNode>) returns (i: nat)
    requires |queue| > 0
    ensures i < |queue|
    ensures forall j :: 0 <= j < |queue| ==> PartialCmp(queue[j], queue[i]) != Greater
    ensures forall j :: 0 <= j < i ==> PartialCmp(queue[j], queue[i]) == Less
  {
    i := 0;
    var j := 1;
    while j < |queue|
      invariant 1 <= j <= |queue| && i < j
      invariant forall k :: 0 <= k < j ==> PartialCmp(queue[k], queue[i]) != Greater
      invariant forall k :: 0 <= k < i ==> PartialCmp(queue[k], queue[i]) == Less
    {
      if PartialCmp(queue[j], queue[i]) == Greater {
        i := j;
      }
      j := j + 1;
    }
  }

  /**
   * The nested loops at the start of `find_path`: a table of `m` rows of `n`
   * nodes, the node at row `y` and column `x` unreached at position `(x, y)`.
   */
  method NewNodeGrid(m: nat, n: nat) returns (nodeGrid: seq<seq<AStarNode>>)
    ensures |nodeGrid| == m
    ensures forall y :: 0 <= y < m ==> |nodeGrid[y]| == n
    ensures forall y, x :: 0 <= y < m && 0 <= x < n ==> nodeGrid[y][x] == NewNode((x, y))
  {
    nodeGrid := [];
    var i := 0;
    while i < m
      invariant 0 <= i <= m && |nodeGrid| == i
      invariant forall y :: 0 <= y < i ==> |nodeGrid[y]| == n
      invariant forall y, x :: 0 <= y < i && 0 <= x < n ==> nodeGrid[y][x] == NewNode((x, y))
    {
      nodeGrid := nodeGrid + [[]];
      var j := 0;
      while j < n
        invariant 0 <= j <= n && |nodeGrid| == i + 1 && |nodeGrid[i]| == j
        invariant forall y :: 0 <= y < i ==> |nodeGrid[y]| == n
        invariant forall y, x :: 0 <= y < i && 0 <= x < n ==> nodeGrid[y][x] == NewNode((x, y))
        invariant forall x :: 0 <= x < j ==> nodeGrid[i][x] == NewNode((x, i))
      {
        nodeGrid := nodeGrid[i := nodeGrid[i] + [NewNode((j, i))]];
        j := j + 1;
      }
      i := i + 1;
    }
  }

  /** The table with the node at `p` replaced. */
  function SetNode(nodeGrid: seq<seq<AStarNode>>, p: Pos, node: AStarNode): (r: seq<seq<AStarNode>>)
    requires p.1 < |nodeGrid| && p.0 < |nodeGrid[p.1]|
    ensures |r| == |nodeGrid| && forall y :: 0 <= y < |r| ==> |r[y]| == |nodeGrid[y]|
    ensures r[p.1][p.0] == node
    ensures forall q: Pos :: q.1 < |nodeGrid| && q.0 < |nodeGrid[q.1]| && q != p ==> r[q.1][q.0] == nodeGrid[q.1][q.0]
  {
    nodeGrid[p.1 := nodeGrid[p.1][p.0 := node]]
  }

  /**
   * The table has one node per cell of `cells`, keyed by its own position,
   * with a distance of at most `usize::MAX`.
   */
  ghost predicate Covers(nodeGrid: seq<seq<AStarNode>>, cells: seq<seq<Content>>)
  {
    && |nodeGrid| == |cells|
    && (forall y :: 0 <= y < |cells| ==> |nodeGrid[y]| == |cells[y]|)
    && (forall p: Pos :: InBounds(cells, p) ==> nodeGrid[p.1][p.0].pos == p && nodeGrid[p.1][p.0].dist <= USIZE_MAX)
  }

  /** A node as the sparse engine would hold it: its depth is its distance. */
  function ToSparse(node: AStarNode): SparseAStar.AStarNode
  {
    SparseAStar.AStarNode(node.pos, node.predecessor, node.dist, node.guessedDist, node.dist)
  }

  /** The positions of the table. */
  ghost function Cells(nodeGrid: seq<seq<AStarNode>>): (r: set<Pos>)
    ensures forall p: Pos :: p in r <==> p.1 < |nodeGrid| && p.0 < |nodeGrid[p.1]|
  {
    set x: nat, y: nat | y < |nodeGrid| && x < |nodeGrid[y]| :: (x, y)
  }

  /** The reached nodes of the table (distance below `usize::MAX`), as a map keyed by position. */
  ghost function View(nodeGrid: seq<seq<AStarNode>>): (v: map<Pos, SparseAStar.AStarNode>)
    ensures forall p: Pos :: p in v <==>
              p.1 < |nodeGrid| && p.0 < |nodeGrid[p.1]| && nodeGrid[p.1][p.0].dist < USIZE_MAX
  {
    map p | p in Cells(nodeGrid) && p.1 < |nodeGrid| && p.0 < |nodeGrid[p.1]| && nodeGrid[p.1][p.0].dist < USIZE_MAX
      :: ToSparse(nodeGrid[p.1][p.0])
  }

  /** The frontier as sparse nodes. */
  ghost function ViewQ(queue: seq<AStarNode>): (r: seq<SparseAStar.AStarNode>)
    ensures |r| == |queue|
  {
    seq(|queue|, k requires 0 <= k < |queue| => ToSparse(queue[k]))
  }

  /** Reading through the view gives the table's own distance; an unreached cell reads as `usize::MAX`. */
  lemma ViewDist(nodeGrid: seq<seq<AStarNode>>, cells: seq<seq<Content>>, p: Pos)
    requires Covers(nodeGrid, cells) && InBounds(cells, p)
    ensures SparseAStar.Dist(View(nodeGrid), p) == nodeGrid[p.1][p.0].dist
  {
  }

  /** A freshly built table has no reached node. */
  lemma NewNodeGridUnreached(nodeGrid: seq<seq<AStarNode>>, cells: seq<seq<Content>>)
    requires |nodeGrid| == |cells| && forall y :: 0 <= y < |cells| ==> |nodeGrid[y]| == |cells[y]|
    requires forall y, x :: 0 <= y < |cells| && 0 <= x < |cells[y]| ==> nodeGrid[y][x] == NewNode((x, y))
    ensures Covers(nodeGrid, cells) && View(nodeGrid) == map[]
  {
    forall p: Pos | InBounds(cells, p)
      ensures nodeGrid[p.1][p.0] == NewNode(p)
    {
    }
  }

  /** Writing a reached node into the table writes it into the view. */
  lemma ViewSetNode(nodeGrid: seq<seq<AStarNode>>, cells: seq<seq<Content>>, p: Pos, node: AStarNode)
    requires Covers(nodeGrid, cells) && InBounds(cells, p)
    requires node.pos == p && node.dist < USIZE_MAX
    ensures Covers(SetNode(nodeGrid, p, node), cells)
    ensures View(SetNode(nodeGrid, p, node)) == View(nodeGrid)[p := ToSparse(node)]
  {
    var after := SetNode(nodeGrid, p, node);
    var l, r := View(after), View(nodeGrid)[p := ToSparse(node)];
    assert l.Keys == r.Keys;
    forall q | q in l
      ensures l[q] == r[q]
    {
    }
  }

  /** Removing the popped entry commutes with the view. */
  lemma ViewQRemove(queue: seq<AStarNode>, i: nat)
    requires i < |queue|
    ensures ViewQ(queue[..i] + queue[i + 1..]) == ViewQ(queue)[..i] + ViewQ(queue)[i + 1..]
  {
  }

  /** Pushing commutes with the view. */
  lemma ViewQPush(queue: seq<AStarNode>, node: AStarNode)
    ensures ViewQ(queue + [node]) == ViewQ(queue) + [ToSparse(node)]
  {
  }

  /**
   * One round of the relaxation loop: when the distance of `cur`, read from
   * the table, plus one is below the table distance of the neighbour `q`,
   * the neighbour gets `cur` as predecessor, that distance and the matching
   * estimate, and is pushed; otherwise nothing changes. Through the view this
   * is one step of the sparse engine's relaxation.
   */
  method RelaxOne(nodeGrid: seq<seq<AStarNode>>, queue: seq<AStarNode>, cur: Pos, q: Pos,
                  goal: Pos, h: (Pos, Pos) -> nat, ghost cells: seq<seq<Content>>)
    returns (nodeGrid': seq<seq<AStarNode>>, queue': seq<AStarNode>)
    requires Covers(nodeGrid, cells) && InBounds(cells, cur) && nodeGrid[cur.1][cur.0].dist < USIZE_MAX
    requires InBounds(cells, q) && Adjacent(cur, q)
    ensures Covers(nodeGrid', cells) && nodeGrid'[cur.1][cur.0] == nodeGrid[cur.1][cur.0]
    ensures var cv := ToSparse(nodeGrid[cur.1][cur.0]);
      if cv.dist + 1 < SparseAStar.Dist(View(nodeGrid), q) then
        && View(nodeGrid') == View(nodeGrid)[q := SparseAStar.Relaxed(cv, q, goal, h)]
        && ViewQ(queue') == ViewQ(queue) + [SparseAStar.Relaxed(cv, q, goal, h)]
      else
        View(nodeGrid') == View(nodeGrid) && queue' == queue
  {
    nodeGrid', queue' := nodeGrid, queue;
    var dist := nodeGrid[cur.1][cur.0].dist + 1;
    ViewDist(nodeGrid, cells, q);
    if dist < nodeGrid[q.1][q.0].dist {
      var node := nodeGrid[q.1][q.0].(predecessor := Some(cur), dist := dist, guessedDist := dist + h(q, goal));
      ViewSetNode(nodeGrid, cells, q, node);
      ViewQPush(queue, node);
      assert ToSparse(node) == SparseAStar.Relaxed(ToSparse(nodeGrid[cur.1][cur.0]), q, goal, h);
      nodeGrid' := SetNode(nodeGrid, q, node);
      queue' := queue + [node];
    }
  }

  /**
   * The relaxation loop of `find_path` over the neighbours of `cur`. Through
   * the view it is the sparse engine's relaxation of the node the table
   * holds for `cur`: the same final table and the same nodes pushed.
   */
  method RelaxNeighbours(nodeGrid: seq<seq<AStarNode>>, queue: seq<AStarNode>, cur: Pos, neighbours: seq<Pos>,
                         goal: Pos, h: (Pos, Pos) -> nat, ghost cells: seq<seq<Content>>)
    returns (nodeGrid': seq<seq<AStarNode>>, queue': seq<AStarNode>)
    requires Covers(nodeGrid, cells) && InBounds(cells, cur) && nodeGrid[cur.1][cur.0].dist < USIZE_MAX
    requires forall q :: q in neighbours ==> InBounds(cells, q) && Adjacent(cur, q)
    ensures Covers(nodeGrid', cells)
    ensures var (table, pushes) := SparseAStar.Relaxation(View(nodeGrid), ToSparse(nodeGrid[cur.1][cur.0]), neighbours, goal, h);
      View(nodeGrid') == table && ViewQ(queue') == ViewQ(queue) + pushes
  {
    nodeGrid', queue' := nodeGrid, queue;
    ghost var cv := ToSparse(nodeGrid[cur.1][cur.0]);
    var k := 0;
    while k < |neighbours|
      invariant 0 <= k <= |neighbours|
      invariant Covers(nodeGrid', cells) && nodeGrid'[cur.1][cur.0] == nodeGrid[cur.1][cur.0]
      invariant var (table, pushes) := SparseAStar.Relaxation(View(nodeGrid'), cv, neighbours[k..], goal, h);
        var (table0, pushes0) := SparseAStar.Relaxation(View(nodeGrid), cv, neighbours, goal, h);
        table == table0 && ViewQ(queue') + pushes == ViewQ(queue) + pushes0
    {
      ghost var view, viewQ := View(nodeGrid'), ViewQ(queue');
      nodeGrid', queue' := RelaxOne(nodeGrid', queue', cur, neighbours[k], goal, h, cells);
      RelaxationAdvance(View(nodeGrid), view, View(nodeGrid'), cv, neighbours, k, goal, h,
                        ViewQ(queue), viewQ, ViewQ(queue'));
      k := k + 1;
    }
  }

  /** One round of the relaxation loop keeps the loop's account of what is still to come. */
  lemma RelaxationAdvance(table0: map<Pos, SparseAStar.AStarNode>, table: map<Pos, SparseAStar.AStarNode>,
                          table': map<Pos, SparseAStar.AStarNode>, cv: SparseAStar.AStarNode, ns: seq<Pos>, k: nat,
                          goal: Pos, h: (Pos, Pos) -> nat, queue0: seq<SparseAStar.AStarNode>,
                          queue: seq<SparseAStar.AStarNode>, queue': seq<SparseAStar.AStarNode>)
    requires k < |ns|
    requires var (rest, pushes) := SparseAStar.Relaxation(table, cv, ns[k..], goal, h);
      var (all, pushes0) := SparseAStar.Relaxation(table0, cv, ns, goal, h);
      rest == all && queue + pushes == queue0 + pushes0
    requires if cv.dist + 1 < SparseAStar.Dist(table, ns[k]) then
        table' == table[ns[k] := SparseAStar.Relaxed(cv, ns[k], goal, h)] && queue' == queue + [SparseAStar.Relaxed(cv, ns[k], goal, h)]
      else table' == table && queue' == queue
    ensures var (rest, pushes) := SparseAStar.Relaxation(table', cv, ns[k + 1..], goal, h);
      var (all, pushes0) := SparseAStar.Relaxation(table0, cv, ns, goal, h);
      rest == all && queue' + pushes == queue0 + pushes0
  {
    assert ns[k..][0] == ns[k] && ns[k..][1..] == ns[k + 1..];
    if cv.dist + 1 < SparseAStar.Dist(table, ns[k]) {
      var node := SparseAStar.Relaxed(cv, ns[k], goal, h);
      var rest := SparseAStar.Relaxation(table', cv, ns[k + 1..], goal, h).1;
      assert queue' + rest == queue + ([node] + rest);
    }
  }

  /** The state of `find_path` between two pops: the sparse search invariant, read through the view. */
  ghost predicate SearchState(nodeGrid: seq<seq<AStarNode>>, queue: seq<AStarNode>, cells: seq<seq<Content>>,
                              car: Pos, goal: Pos, h: (Pos, Pos) -> nat)
  {
    && Rectangular(cells)
    && Covers(nodeGrid, cells)
    && SparseAStar.SearchInv(View(nodeGrid), ViewQ(queue), cells, car, goal, h)
  }

  /**
   * One round that does not pop the goal keeps the state: relaxing the
   * neighbours of the popped position from the table's node keeps the
   * search invariant, and either nothing changes or the measure falls.
   */
  lemma ExpandKeepsState(nodeGrid: seq<seq<AStarNode>>, queue: seq<AStarNode>, i: nat, cells: seq<seq<Content>>,
                         car: Pos, goal: Pos, h: (Pos, Pos) -> nat)
    requires SearchState(nodeGrid, queue, cells, car, goal, h)
    requires i < |queue| && queue[i].pos != goal
    ensures var pos := queue[i].pos;
      && InBounds(cells, pos) && nodeGrid[pos.1][pos.0].dist < USIZE_MAX && pos in View(nodeGrid)
    ensures var pos := queue[i].pos;
      var (table, pushes) := SparseAStar.Relaxation(View(nodeGrid), View(nodeGrid)[pos], Neighbours(cells, pos), goal, h);
      && SparseAStar.SearchInv(table, ViewQ(queue[..i] + queue[i + 1..]) + pushes, cells, car, goal, h)
      && ((table == View(nodeGrid) && pushes == []) ||
          SparseAStar.DistPairs(table, cells) < SparseAStar.DistPairs(View(nodeGrid), cells))
  {
    var view, viewQ := View(nodeGrid), ViewQ(queue);
    assert viewQ[i] == ToSparse(queue[i]) && viewQ[i] in viewQ;
    ViewQRemove(queue, i);
    SparseAStar.ExpandKeepsInv(view, viewQ, i, cells, car, goal, h);
  }

  /**
   * The search loop of `find_path`: the table starts with every node
   * unreached but the car's, at distance 0 with the heuristic as estimate;
   * then pop the entry of smallest estimate, stop if it is the goal,
   * otherwise relax its open neighbours. It ends either at the pop of the
   * goal, with the state before that pop, or with an empty frontier. The
   * grid is only read.
   */
  method Search(g: Grid, car: Pos, goal: Pos, h: (Pos, Pos) -> nat)
    returns (found: bool, nodeGrid: seq<seq<AStarNode>>, ghost frontier: seq<AStarNode>)
    requires g.Valid() && g.car == Some(car) && g.goal == Some(goal)
    ensures SearchState(nodeGrid, frontier, g.cells, car, goal, h)
    ensures found ==> goal in View(nodeGrid)
    ensures !found ==> frontier == []
  {
    nodeGrid := NewNodeGrid(g.M(), g.N());
    NewNodeGridUnreached(nodeGrid, g.cells);
    var carNode := nodeGrid[car.1][car.0].(dist := 0, guessedDist := h(car, goal));
    ViewSetNode(nodeGrid, g.cells, car, carNode);
    nodeGrid := SetNode(nodeGrid, car, carNode);
    var queue := [carNode];
    assert ViewQ(queue) == [ToSparse(carNode)];
    assert SparseAStar.Settled(View(nodeGrid), ViewQ(queue), g.cells, goal, car);
    found := false;
    while |queue| > 0
      invariant SearchState(nodeGrid, queue, g.cells, car, goal, h)
      decreases SparseAStar.DistPairs(View(nodeGrid), g.cells), |queue|
    {
      var i := PopMin(queue);
      var current := queue[i];
      if current.pos == goal {
        assert ViewQ(queue)[i] in ViewQ(queue);
        found := true;
        break;
      }
      ExpandKeepsState(nodeGrid, queue, i, g.cells, car, goal, h);
      var neighbours := Neighbours(g.cells, current.pos);
      nodeGrid, queue := RelaxNeighbours(nodeGrid, queue[..i] + queue[i + 1..], current.pos, neighbours, goal, h, g.cells);
    }
    frontier := queue;
  }

  /**
   * `ch` is the predecessor chain of the table from `end` back to `start`:
   * it lies in the grid, steps between neighbours and never repeats a cell,
   * each of its cells but the last names the next one as predecessor, and it
   * meets `start` only at its end.
   */
  ghost predicate TableChain(nodeGrid: seq<seq<AStarNode>>, cells: seq<seq<Content>>, start: Pos, end: Pos, ch: seq<Pos>)
  {
    && |ch| >= 2 && ch[0] == end && ch[|ch| - 1] == start && AdjacentSteps(ch)
    && (forall a, b :: 0 <= a < b < |ch| ==> ch[a] != ch[b])
    && (forall k :: 0 <= k < |ch| ==> InBounds(cells, ch[k]) && ch[k].1 < |nodeGrid| && ch[k].0 < |nodeGrid[ch[k].1]|)
    && (forall k, j :: 0 <= k && j == k + 1 && j < |ch| ==> nodeGrid[ch[k].1][ch[k].0].predecessor == Some(ch[j]))
  }

  /**
   * `draw_path`: follows the predecessors in the table from `end` back to
   * `start` and writes on every cell strictly between them a Trace pointing
   * to its neighbour on the end side; no other cell changes. `ch` is that
   * chain of predecessors.
   */
  method DrawPath(g: Grid, nodeGrid: seq<seq<AStarNode>>, start: Pos, end: Pos, ghost ch: seq<Pos>)
    requires TableChain(nodeGrid, g.cells, start, end, ch)
    modifies g`cells
    ensures TracedUpTo(g.cells, old(g.cells), ch, |ch| - 2)
  {
    assert ch[1..1] == [];
    var current := end;
    ghost var i := 0;
    while true
      invariant 0 <= i < |ch| - 1 && current == ch[i]
      invariant TracedUpTo(g.cells, old(g.cells), ch, i)
      decreases |ch| - i
    {
      var prev := current;
      ghost var next := ch[i + 1];
      assert nodeGrid[current.1][current.0].predecessor == Some(next);
      current := nodeGrid[current.1][current.0].predecessor.value;
      if current == start {
        assert i == |ch| - 2;
        break;
      }
      DrawStep(g.cells, old(g.cells), ch, i);
      g.cells := SetAt(g.cells, current, Trace(DirectionToward(current, prev)));
      i := i + 1;
    }
  }

  /** The table's chain from `end` back to `start` is a predecessor chain of the node grid. */
  lemma ChainInTable(nodeGrid: seq<seq<AStarNode>>, cells: seq<seq<Content>>, start: Pos, end: Pos)
    requires Covers(nodeGrid, cells) && LinksOk(SparseAStar.Links(View(nodeGrid)), start) && end in View(nodeGrid)
    requires end != start
    ensures TableChain(nodeGrid, cells, start, end, Chain(SparseAStar.Links(View(nodeGrid)), start, end))
  {
    var links := SparseAStar.Links(View(nodeGrid));
    var ch := Chain(links, start, end);
    ChainDistinct(links, start, end);
    ChainAdjacentSteps(links, start, end);
    forall k, j | 0 <= k && j == k + 1 && j < |ch|
      ensures InBounds(cells, ch[k]) && nodeGrid[ch[k].1][ch[k].0].predecessor == Some(ch[j])
    {
      TableNext(nodeGrid, cells, start, end, ch, k);
    }
    TableNext(nodeGrid, cells, start, end, ch, |ch| - 2);
  }

  /** The table entry of the `i`-th cell of the chain names the next cell, which lies in the grid. */
  lemma TableNext(nodeGrid: seq<seq<AStarNode>>, cells: seq<seq<Content>>, start: Pos, end: Pos, ch: seq<Pos>, i: nat)
    requires Covers(nodeGrid, cells) && LinksOk(SparseAStar.Links(View(nodeGrid)), start) && end in View(nodeGrid)
    requires ch == Chain(SparseAStar.Links(View(nodeGrid)), start, end) && i < |ch| - 1
    ensures InBounds(cells, ch[i]) && InBounds(cells, ch[i + 1])
    ensures ch[i].1 < |nodeGrid| && ch[i].0 < |nodeGrid[ch[i].1]|
    ensures nodeGrid[ch[i].1][ch[i].0].predecessor == Some(ch[i + 1])
    ensures ch[i + 1] == start <==> i + 1 == |ch| - 1
  {
    var view := View(nodeGrid);
    SparseAStar.ChainNext(view, start, end, i);
    assert ch[i + 1] in view by {
      assert SparseAStar.Links(view)[ch[i]].pred == Some(ch[i + 1]);
    }
  }

  /**
   * When the goal is popped the table links it back to the car along an
   * open walk of the grid that never repeats a cell.
   */
  lemma GoalPathFacts(nodeGrid: seq<seq<AStarNode>>, queue: seq<AStarNode>, cells: seq<seq<Content>>,
                      car: Pos, goal: Pos, h: (Pos, Pos) -> nat)
    returns (path: seq<Pos>)
    requires SearchState(nodeGrid, queue, cells, car, goal, h) && goal in View(nodeGrid)
    requires ValidState(cells, Some(car), Some(goal))
    ensures TableChain(nodeGrid, cells, car, goal, path) && OpenWalk(cells, path)
  {
    var view := View(nodeGrid);
    SparseAStar.TableLinksOk(view, cells, car, goal, h);
    path := Chain(SparseAStar.Links(view), car, goal);
    ChainInTable(nodeGrid, cells, car, goal);
  }

  /**
   * `path` runs from `goal` back to `car` through open cells of `before`
   * without repeating a cell, and `after` is `before` with a trace drawn on
   * the cells strictly between its ends.
   */
  ghost predicate DrawnPath(path: seq<Pos>, before: seq<seq<Content>>, after: seq<seq<Content>>, goal: Pos, car: Pos)
  {
    && |path| >= 2 && path[0] == goal && path[|path| - 1] == car
    && OpenWalk(before, path) && (forall a, b :: 0 <= a < b < |path| ==> path[a] != path[b])
    && TracedUpTo(after, before, path, |path| - 2)
  }

  /**
   * The goal branch of `find_path`: draw the predecessor chain of the table
   * from the goal back to the car. It runs along an open walk of the grid,
   * and the placement invariant survives the drawing.
   */
  method DrawFoundPath(g: Grid, nodeGrid: seq<seq<AStarNode>>, car: Pos, goal: Pos, ghost path: seq<Pos>)
    requires TableChain(nodeGrid, g.cells, car, goal, path) && OpenWalk(g.cells, path)
    requires g.Valid() && g.car == Some(car) && g.goal == Some(goal)
    modifies g`cells
    ensures g.Valid() && SameShape(g.cells, old(g.cells))
    ensures DrawnPath(path, old(g.cells), g.cells, goal, car)
  {
    DrawPath(g, nodeGrid, car, goal, path);
    TracedPathKeepsValid(old(g.cells), g.cells, path, car, goal);
  }

  /**
   * `find_path`: A* from the car to the goal over the dense table. It returns
   * true exactly when the goal is popped, after drawing the path the table
   * links from the goal back to the car, which `path` lists goal first; it
   * returns false when the frontier empties, and then the grid is unchanged
   * and no open walk from the car reaches the goal.
   */
  method FindPath(g: Grid, h: (Pos, Pos) -> nat) returns (found: bool, ghost path: seq<Pos>)
    requires g.Valid() && g.car.Some? && g.goal.Some?
    modifies g`cells
    ensures g.Valid() && SameShape(g.cells, old(g.cells))
    ensures !found ==> g.cells == old(g.cells)
    ensures !found ==> NoWalkReaches(old(g.cells), g.car.value, g.goal.value)
    ensures found ==> DrawnPath(path, old(g.cells), g.cells, g.goal.value, g.car.value)
  {
    var car, goal := g.car.value, g.goal.value;
    var nodeGrid;
    ghost var frontier;
    found, nodeGrid, frontier := Search(g, car, goal, h);
    if found {
      path := GoalPathFacts(nodeGrid, frontier, g.cells, car, goal, h);
      DrawFoundPath(g, nodeGrid, car, goal, path);
    } else {
      path := [];
      forall w | OpenWalk(g.cells, w) && 0 < |w| <= USIZE_MAX && w[0] == car
        ensures w[|w| - 1] != goal
      {
        SparseAStar.GoalUnreachable(View(nodeGrid), g.cells, car, goal, h, w);
      }
    }
  }

  /**
   * `clear_path` of this version: every Trace cell becomes Empty; every other
   * cell, Explored included, keeps its content.
   */
  method ClearPath(g: Grid)
    requires Rectangular(g.cells)
    modifies g`cells
    ensures SameShape(g.cells, old(g.cells))
    ensures forall p: Pos :: InBounds(g.cells, p) ==>
              At(g.cells, p) == if At(old(g.cells), p).Trace? then Empty else At(old(g.cells), p)
  {
    var y := 0;
    while y < |g.cells|
      invariant 0 <= y <= |g.cells|
      invariant Rectangular(g.cells) && SameShape(g.cells, old(g.cells))
      invariant forall p: Pos :: InBounds(g.cells, p) ==>
                  At(g.cells, p) == if p.1 < y && At(old(g.cells), p).Trace? then Empty else At(old(g.cells), p)
    {
      var x := 0;
      while x < |g.cells[y]|
        invariant y < |g.cells| && 0 <= x <= |g.cells[y]|
        invariant Rectangular(g.cells) && SameShape(g.cells, old(g.cells))
        invariant forall p: Pos :: InBounds(g.cells, p) ==>
                    At(g.cells, p) == if (p.1 < y || (p.1 == y && p.0 < x)) && At(old(g.cells), p).Trace?
                                      then Empty else At(old(g.cells), p)
      {
        if g.cells[y][x].Trace? {
          g.cells := SetAt(g.cells, (x, y), Empty);
        }
        x := x + 1;
      }
      y := y + 1;
    }
  }

  /**
   * Clearing the path twice is clearing it once: after the first pass
   * every Trace cell is already Empty, so the second changes no cell.
   */
  lemma ClearPathIdempotent(before: seq<seq<Content>>, once: seq<seq<Content>>, twice: seq<seq<Content>>)
    requires SameShape(once, before) && SameShape(twice, once)
    requires forall p: Pos :: InBounds(once, p) ==>
               At(once, p) == if At(before, p).Trace? then Empty else At(before, p)
    requires forall p: Pos :: InBounds(twice, p) ==>
               At(twice, p) == if At(once, p).Trace? then Empty else At(once, p)
    ensures twice == once
  {
    GridExt(twice, once);
  }
}
