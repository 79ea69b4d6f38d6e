/**
 * The A* engine with a sparse node table (grid/src/path_finding.rs): nodes
 * live in a map keyed by position, a missing entry reads as the default node
 * (distance `usize::MAX`), and the frontier is a binary heap without
 * decrease-key whose popped entries are re-read from the table.
 */
module SparseAStar {
  import opened Options
  import opened Orderings
  import opened Content
  import opened GridModel
  import opened Paths

  /**
   * A search node. `guessedDist` is the source's `f32` estimate, here the
   * natural number `dist + h(pos, goal)`.
   */
  datatype AStarNode = AStarNode(pos: Pos, predecessor: Option<Pos>, dist: nat, guessedDist: nat, depth: nat)

  /** `AStarNode::default()`: what a position without a table entry reads as. */
  const DEFAULT_NODE: AStarNode := AStarNode((0, 0), None, USIZE_MAX, F32_MAX, 0)

  /**
   * `PartialEq`: two nodes are equal when estimate and depth agree. These are
   * exactly the pairs that `partial_cmp` orders each below the other, and
   * `cmp` calls every such pair Equal.
   */
  function NodeEq(self: AStarNode, other: AStarNode): (r: bool)
    ensures r <==> PartialCmp(self, other) == Less && PartialCmp(other, self) == Less
    ensures r ==> Cmp(self, other) == Equal
  {
    self.guessedDist == other.guessedDist && self.depth == other.depth
  }

  /**
   * `Ord::cmp`: the estimates compared in reverse, so the node with the
   * smaller estimate is the greater one.
   */
  function Cmp(self: AStarNode, other: AStarNode): (o: Ordering)
    ensures o == Greater <==> self.guessedDist < other.guessedDist
    ensures o == Equal <==> self.guessedDist == other.guessedDist
  {
    CompareNat(other.guessedDist, self.guessedDist)
  }

  /**
   * `PartialOrd::partial_cmp`, the order the heap uses: a smaller estimate is
   * greater and, on equal estimates, a larger depth is greater; never Equal.
   */
  function PartialCmp(self: AStarNode, other: AStarNode): (o: Ordering)
    ensures o == Greater <==>
              self.guessedDist < other.guessedDist ||
              (self.guessedDist == other.guessedDist && self.depth > other.depth)
    ensures o != Equal
  {
    match CompareNat(other.guessedDist, self.guessedDist)
    case Equal => if other.depth < self.depth then Greater else Less
    case o => o
  }

  /**
   * The two orders do not agree with `eq`: `partial_cmp` calls every node Less
   * than itself, and `cmp` calls two nodes of equal estimate Equal whether or
   * not their depths, and so `eq`, agree.
   */
  lemma OrdersDisagreeWithEq(a: AStarNode, b: AStarNode)
    ensures NodeEq(a, a) && PartialCmp(a, a) == Less
    ensures a.guessedDist == b.guessedDist ==> Cmp(a, b) == Equal && (NodeEq(a, b) <==> a.depth == b.depth)
  {
  }

  /** `cmp` and `partial_cmp` agree whenever the estimates differ. */
  lemma CmpAgreesOnDistinctEstimates(a: AStarNode, b: AStarNode)
    requires a.guessedDist != b.guessedDist
    ensures Cmp(a, b) == PartialCmp(a, b)
  {
  }

  /**
   * The heap's pop: the index of an entry that no other entry beats under
   * `partial_cmp`, that is one of minimal estimate and, among those, of
   * maximal depth. Among entries equal on both, the first is taken.
   */
  method PopBest(queue: seq<AStarNode>) returns (i: nat)
    requires |queue| > 0
    ensures i < |queue|
    ensures forall j :: 0 <= j < |queue| ==> PartialCmp(queue[j], queue[i]) != Greater
  {
    i := 0;
    var j := 1;
    while j < |queue|
      invariant 1 <= j <= |queue| && i < j
      invariant forall k :: 0 <= k < j ==> PartialCmp(queue[k], queue[i]) != Greater
    {
      if PartialCmp(queue[j], queue[i]) == Greater {
        i := j;
      }
      j := j + 1;
    }
  }

  /**
   * `node_map.get(&p).unwrap_or_default().dist`: the distance of the entry
   * for `p`, and that of the default node, `usize::MAX`, when there is none.
   */
  function Dist(nodeMap: map<Pos, AStarNode>, p: Pos): (d: nat)
    ensures p in nodeMap ==> d == nodeMap[p].dist
    ensures p !in nodeMap ==> d == USIZE_MAX
  {
    (if p in nodeMap then nodeMap[p] else DEFAULT_NODE).dist
  }

  /**
   * A position without a table entry reads as unreached, so every relaxation
   * whose distance stays below `usize::MAX` improves it.
   */
  lemma UndiscoveredIsImproved(nodeMap: map<Pos, AStarNode>, current: AStarNode, ns: seq<Pos>, q: Pos)
    requires q in ns && q !in nodeMap && current.dist + 1 < USIZE_MAX
    ensures Dist(nodeMap, q) == DEFAULT_NODE.dist && q in Improved(nodeMap, current, ns)
  {
  }

  /** The predecessor links of the table. */
  ghost function Links(nodeMap: map<Pos, AStarNode>): (links: map<Pos, Link>)
    ensures links.Keys == nodeMap.Keys
  {
    map p | p in nodeMap :: Link(nodeMap[p].predecessor, nodeMap[p].dist)
  }

  /** The node a relaxation from `current` writes for its neighbour `q`. */
  function Relaxed(current: AStarNode, q: Pos, goal: Pos, h: (Pos, Pos) -> nat): AStarNode
  {
    AStarNode(q, Some(current.pos), current.dist + 1, current.dist + 1 + h(q, goal), current.depth + 1)
  }

  /**
   * A non-car entry as relaxation writes it: its estimate is its distance
   * plus the heuristic, and its predecessor is an adjacent, strictly closer
   * entry.
   */
  ghost predicate EntryStepsBack(nodeMap: map<Pos, AStarNode>, goal: Pos, h: (Pos, Pos) -> nat, p: Pos)
    requires p in nodeMap
  {
    var node := nodeMap[p];
    && node.guessedDist == node.dist + h(p, goal)
    && node.predecessor.Some?
    && node.predecessor.value in nodeMap
    && Adjacent(p, node.predecessor.value)
    && nodeMap[node.predecessor.value].dist < node.dist
  }

  /**
   * What the table holds during a search from `car` towards `goal` on
   * `cells`: the car's own node as first inserted; every entry in bounds, off
   * the walls, keyed by its own position, with a distance below `usize::MAX`;
   * every other entry as relaxation writes it.
   */
  ghost predicate TableOk(nodeMap: map<Pos, AStarNode>, cells: seq<seq<Content>>, car: Pos, goal: Pos,
                          h: (Pos, Pos) -> nat)
  {
    && car in nodeMap && nodeMap[car] == AStarNode(car, None, 0, h(car, goal), 0)
    && (forall p :: p in nodeMap ==>
          InBounds(cells, p) && At(cells, p) != Wall && nodeMap[p].pos == p && nodeMap[p].dist < USIZE_MAX)
    && (forall p {:trigger EntryStepsBack(nodeMap, goal, h, p)} ::
          p in nodeMap && p != car ==> EntryStepsBack(nodeMap, goal, h, p))
  }

  /** A table kept by the search is a predecessor table rooted at the car. */
  lemma TableLinksOk(nodeMap: map<Pos, AStarNode>, cells: seq<seq<Content>>, car: Pos, goal: Pos,
                     h: (Pos, Pos) -> nat)
    requires TableOk(nodeMap, cells, car, goal, h)
    ensures LinksOk(Links(nodeMap), car)
  {
    var links := Links(nodeMap);
    forall p | p in links && p != car && links[p].dist < USIZE_MAX
      ensures StepsBack(links, p)
    {
      assert EntryStepsBack(nodeMap, goal, h, p);
      assert links[nodeMap[p].predecessor.value].dist == nodeMap[nodeMap[p].predecessor.value].dist;
    }
  }

  /**
   * The measure that bounds the search: one pair `(p, k)` for every cell `p`
   * and every `k` below its table distance. It shrinks with every relaxation.
   */
  ghost function DistPairs(nodeMap: map<Pos, AStarNode>, cells: seq<seq<Content>>): set<(Pos, nat)>
    requires Rectangular(cells)
  {
    set p, k: nat | p in AllCells(|cells|, |cells[0]|) && k < Dist(nodeMap, p) :: (p, k)
  }

  /** The listed positions whose table distance exceeds `current.dist + 1`. */
  ghost function Improved(nodeMap: map<Pos, AStarNode>, current: AStarNode, ns: seq<Pos>): set<Pos>
  {
    set q | q in ns && current.dist + 1 < Dist(nodeMap, q)
  }

  /**
   * The table after relaxing the positions `ns` from `current`: every
   * improved position holds the node relaxed from `current`, every other
   * entry is kept.
   */
  ghost function AfterRelax(nodeMap: map<Pos, AStarNode>, current: AStarNode, ns: seq<Pos>, goal: Pos,
                            h: (Pos, Pos) -> nat): map<Pos, AStarNode>
  {
    var improved := Improved(nodeMap, current, ns);
    map p | p in nodeMap.Keys + improved :: if p in improved then Relaxed(current, p, goal, h) else nodeMap[p]
  }

  /**
   * Relaxation takes minima: afterwards every listed position has the smaller
   * of its old distance and `current.dist + 1`, every other one its old
   * distance, and no entry is lost.
   */
  lemma AfterRelaxDist(nodeMap: map<Pos, AStarNode>, current: AStarNode, ns: seq<Pos>, goal: Pos,
                       h: (Pos, Pos) -> nat, p: Pos)
    ensures p in nodeMap ==> p in AfterRelax(nodeMap, current, ns, goal, h)
    ensures p in ns ==> Dist(AfterRelax(nodeMap, current, ns, goal, h), p) ==
                        if current.dist + 1 < Dist(nodeMap, p) then current.dist + 1 else Dist(nodeMap, p)
    ensures p !in ns ==> Dist(AfterRelax(nodeMap, current, ns, goal, h), p) == Dist(nodeMap, p)
  {
  }

  /**
   * Relaxing open neighbours of the node the table holds for `current`
   * keeps the table well formed: each improved neighbour steps back to
   * `current`, which is strictly closer and is not itself improved.
   */
  lemma AfterRelaxKeepsTable(nodeMap: map<Pos, AStarNode>, cells: seq<seq<Content>>, car: Pos, goal: Pos,
                             h: (Pos, Pos) -> nat, current: AStarNode, ns: seq<Pos>)
    requires TableOk(nodeMap, cells, car, goal, h)
    requires current.pos in nodeMap && nodeMap[current.pos] == current
    requires forall q :: q in ns ==> InBounds(cells, q) && Adjacent(current.pos, q) && At(cells, q) != Wall
    ensures TableOk(AfterRelax(nodeMap, current, ns, goal, h), cells, car, goal, h)
  {
    var improved := Improved(nodeMap, current, ns);
    var after := AfterRelax(nodeMap, current, ns, goal, h);
    assert car !in improved && current.pos !in improved;
    forall p | p in after && p != car
      ensures EntryStepsBack(after, goal, h, p)
    {
      if p !in improved {
        assert EntryStepsBack(nodeMap, goal, h, p);
        var pred := nodeMap[p].predecessor.value;
        assert after[p] == nodeMap[p];
        AfterRelaxDist(nodeMap, current, ns, goal, h, pred);
      }
    }
  }

  /**
   * Relaxation either changes nothing or strictly shrinks `DistPairs`: no
   * distance grows, and an improved position loses the pair
   * `(q, current.dist + 1)`.
   */
  lemma AfterRelaxShrinks(nodeMap: map<Pos, AStarNode>, cells: seq<seq<Content>>, current: AStarNode,
                          ns: seq<Pos>, goal: Pos, h: (Pos, Pos) -> nat)
    requires Rectangular(cells)
    requires forall q :: q in ns ==> InBounds(cells, q)
    ensures Improved(nodeMap, current, ns) == {} ==> AfterRelax(nodeMap, current, ns, goal, h) == nodeMap
    ensures Improved(nodeMap, current, ns) != {} ==>
              DistPairs(AfterRelax(nodeMap, current, ns, goal, h), cells) < DistPairs(nodeMap, cells)
  {
    var improved := Improved(nodeMap, current, ns);
    var after := AfterRelax(nodeMap, current, ns, goal, h);
    if improved == {} {
      assert after == nodeMap;
    } else {
      var q :| q in improved;
      var before, afterPairs := DistPairs(nodeMap, cells), DistPairs(after, cells);
      assert q in AllCells(|cells|, |cells[0]|);
      assert (q, current.dist + 1) in before;
      AfterRelaxDist(nodeMap, current, ns, goal, h, q);
      assert (q, current.dist + 1) !in afterPairs;
      forall e | e in afterPairs
        ensures e in before
      {
        AfterRelaxDist(nodeMap, current, ns, goal, h, e.0);
      }
    }
  }

  /**
   * The relaxation loop over `ns` taken one position at a time, from the
   * front: the final table and the nodes pushed, in order.
   */
  ghost function Relaxation(nodeMap: map<Pos, AStarNode>, current: AStarNode, ns: seq<Pos>, goal: Pos,
                            h: (Pos, Pos) -> nat): (map<Pos, AStarNode>, seq<AStarNode>)
    decreases |ns|
  {
    if ns == [] then (nodeMap, [])
    else if current.dist + 1 < Dist(nodeMap, ns[0]) then
      var node := Relaxed(current, ns[0], goal, h);
      var rest := Relaxation(nodeMap[ns[0] := node], current, ns[1..], goal, h);
      (rest.0, [node] + rest.1)
    else Relaxation(nodeMap, current, ns[1..], goal, h)
  }

  /** Relaxing one position that improves, then the rest, is relaxing them all. */
  lemma RelaxationFront(nodeMap: map<Pos, AStarNode>, current: AStarNode, ns: seq<Pos>, goal: Pos,
                        h: (Pos, Pos) -> nat)
    requires ns != []
    ensures current.dist + 1 < Dist(nodeMap, ns[0]) ==>
              var m1 := nodeMap[ns[0] := Relaxed(current, ns[0], goal, h)];
              && Improved(m1, current, ns[1..]) == Improved(nodeMap, current, ns) - {ns[0]}
              && AfterRelax(m1, current, ns[1..], goal, h) == AfterRelax(nodeMap, current, ns, goal, h)
    ensures current.dist + 1 >= Dist(nodeMap, ns[0]) ==>
              && Improved(nodeMap, current, ns[1..]) == Improved(nodeMap, current, ns)
              && AfterRelax(nodeMap, current, ns[1..], goal, h) == AfterRelax(nodeMap, current, ns, goal, h)
  {
    var q, rest := ns[0], ns[1..];
    assert ns == [q] + rest;
    var improved := Improved(nodeMap, current, ns);
    if current.dist + 1 < Dist(nodeMap, q) {
      var m1 := nodeMap[q := Relaxed(current, q, goal, h)];
      assert Improved(m1, current, rest) == improved - {q};
      var after, after1 := AfterRelax(nodeMap, current, ns, goal, h), AfterRelax(m1, current, rest, goal, h);
      assert after1.Keys == after.Keys;
      forall p | p in after
        ensures after1[p] == after[p]
      {
      }
    } else {
      assert Improved(nodeMap, current, rest) == improved;
    }
  }

  /** Relaxing positions one at a time ends in the table `AfterRelax` describes. */
  lemma {:induction false} RelaxationTable(nodeMap: map<Pos, AStarNode>, current: AStarNode, ns: seq<Pos>,
                                           goal: Pos, h: (Pos, Pos) -> nat)
    ensures Relaxation(nodeMap, current, ns, goal, h).0 == AfterRelax(nodeMap, current, ns, goal, h)
    decreases |ns|
  {
    if ns != [] {
      RelaxationFront(nodeMap, current, ns, goal, h);
      if current.dist + 1 < Dist(nodeMap, ns[0]) {
        RelaxationTable(nodeMap[ns[0] := Relaxed(current, ns[0], goal, h)], current, ns[1..], goal, h);
      } else {
        RelaxationTable(nodeMap, current, ns[1..], goal, h);
      }
    } else {
      assert AfterRelax(nodeMap, current, ns, goal, h) == nodeMap;
    }
  }

  /** Every node of `pushes` is the node relaxed from `current` for a position of `improved`. */
  ghost predicate RelaxedFrom(pushes: seq<AStarNode>, improved: set<Pos>, current: AStarNode, goal: Pos,
                              h: (Pos, Pos) -> nat)
  {
    forall i :: 0 <= i < |pushes| ==> pushes[i].pos in improved && pushes[i] == Relaxed(current, pushes[i].pos, goal, h)
  }

  /** Every node relaxing pushes is the relaxed node of an improved position. */
  lemma {:induction false} RelaxationPushesImproved(nodeMap: map<Pos, AStarNode>, current: AStarNode, ns: seq<Pos>,
                                                    goal: Pos, h: (Pos, Pos) -> nat)
    ensures RelaxedFrom(Relaxation(nodeMap, current, ns, goal, h).1, Improved(nodeMap, current, ns), current, goal, h)
    decreases |ns|
  {
    if ns != [] {
      var q, rest := ns[0], ns[1..];
      RelaxationFront(nodeMap, current, ns, goal, h);
      var improved := Improved(nodeMap, current, ns);
      var pushes := Relaxation(nodeMap, current, ns, goal, h).1;
      if current.dist + 1 < Dist(nodeMap, q) {
        var node := Relaxed(current, q, goal, h);
        var m1 := nodeMap[q := node];
        RelaxationPushesImproved(m1, current, rest, goal, h);
        var pushes1 := Relaxation(m1, current, rest, goal, h).1;
        assert pushes == [node] + pushes1;
        assert q in improved;
        forall i | 0 <= i < |pushes|
          ensures pushes[i].pos in improved && pushes[i] == Relaxed(current, pushes[i].pos, goal, h)
        {
          if i > 0 {
            assert pushes[i] == pushes1[i - 1];
          }
        }
      } else {
        RelaxationPushesImproved(nodeMap, current, rest, goal, h);
      }
    }
  }

  /** Relaxing pushes the relaxed node of every improved position. */
  lemma {:induction false} RelaxationPushesAll(nodeMap: map<Pos, AStarNode>, current: AStarNode, ns: seq<Pos>,
                                               goal: Pos, h: (Pos, Pos) -> nat)
    ensures forall q :: q in Improved(nodeMap, current, ns) ==>
              Relaxed(current, q, goal, h) in Relaxation(nodeMap, current, ns, goal, h).1
    decreases |ns|
  {
    if ns != [] {
      var q, rest := ns[0], ns[1..];
      RelaxationFront(nodeMap, current, ns, goal, h);
      var pushes := Relaxation(nodeMap, current, ns, goal, h).1;
      if current.dist + 1 < Dist(nodeMap, q) {
        var node := Relaxed(current, q, goal, h);
        var m1 := nodeMap[q := node];
        RelaxationPushesAll(m1, current, rest, goal, h);
        assert pushes == [node] + Relaxation(m1, current, rest, goal, h).1;
      } else {
        RelaxationPushesAll(nodeMap, current, rest, goal, h);
      }
    } else {
      assert Improved(nodeMap, current, ns) == {};
    }
  }

  /**
   * Relaxing positions one at a time ends in the table `AfterRelax`
   * describes, and pushes exactly the relaxed nodes of the improved
   * positions: every push is one, every improved position is pushed, and
   * nothing is pushed when nothing improves.
   */
  lemma RelaxationIsAfterRelax(nodeMap: map<Pos, AStarNode>, current: AStarNode, ns: seq<Pos>,
                               goal: Pos, h: (Pos, Pos) -> nat)
    ensures var (table, pushes) := Relaxation(nodeMap, current, ns, goal, h);
      && table == AfterRelax(nodeMap, current, ns, goal, h)
      && (forall i :: 0 <= i < |pushes| ==>
            pushes[i].pos in Improved(nodeMap, current, ns) && pushes[i] == Relaxed(current, pushes[i].pos, goal, h))
      && (forall q :: q in Improved(nodeMap, current, ns) ==> Relaxed(current, q, goal, h) in pushes)
  {
    RelaxationTable(nodeMap, current, ns, goal, h);
    RelaxationPushesImproved(nodeMap, current, ns, goal, h);
    RelaxationPushesAll(nodeMap, current, ns, goal, h);
  }

  /**
   * The relaxation loop of `find_path` over the neighbours of `current`:
   * the table and the queue end as `Relaxation` says, which is the table
   * `AfterRelax` describes with the relaxed nodes of exactly the improved
   * neighbours pushed (`RelaxationIsAfterRelax`).
   */
  method RelaxNeighbours(nodeMap: map<Pos, AStarNode>, queue: seq<AStarNode>, current: AStarNode,
                         neighbours: seq<Pos>, goal: Pos, h: (Pos, Pos) -> nat)
    returns (nodeMap': map<Pos, AStarNode>, queue': seq<AStarNode>)
    ensures var (table, pushes) := Relaxation(nodeMap, current, neighbours, goal, h);
      nodeMap' == table && queue' == queue + pushes
  {
    nodeMap', queue' := nodeMap, queue;
    var dist := current.dist + 1;
    var k := 0;
    while k < |neighbours|
      invariant 0 <= k <= |neighbours|
      invariant var (table, pushes) := Relaxation(nodeMap', current, neighbours[k..], goal, h);
        var (table0, pushes0) := Relaxation(nodeMap, current, neighbours, goal, h);
        table == table0 && queue' + pushes == queue + pushes0
    {
      var neighPos := neighbours[k];
      assert neighbours[k..][0] == neighPos && neighbours[k..][1..] == neighbours[k + 1..];
      if dist < Dist(nodeMap', neighPos) {
        var neighNode := Relaxed(current, neighPos, goal, h);
        nodeMap' := nodeMap'[neighPos := neighNode];
        queue' := queue' + [neighNode];
      }
      k := k + 1;
    }
  }

  /** The positions that have an entry in the frontier. */
  ghost function Queued(queue: seq<AStarNode>): set<Pos>
  {
    set n | n in queue :: n.pos
  }

  /** Every open neighbour of `p` is in the table within one step of `p`'s distance. */
  ghost predicate Closed(nodeMap: map<Pos, AStarNode>, cells: seq<seq<Content>>, p: Pos)
    requires Rectangular(cells) && p in nodeMap
  {
    InBounds(cells, p) && forall q :: q in Neighbours(cells, p) ==> Dist(nodeMap, q) <= nodeMap[p].dist + 1
  }

  /** A table entry still in the frontier, or a closed one other than the goal. */
  ghost predicate Settled(nodeMap: map<Pos, AStarNode>, queue: seq<AStarNode>, cells: seq<seq<Content>>, goal: Pos, p: Pos)
    requires Rectangular(cells) && p in nodeMap
  {
    p in Queued(queue) || (p != goal && Closed(nodeMap, cells, p))
  }

  /**
   * The search invariant: the table is well formed, every frontier entry has
   * a table entry, and every table entry is either still in the frontier or
   * has been expanded since its distance last fell (so it is closed), and
   * the goal is never one of the latter.
   */
  ghost predicate SearchInv(nodeMap: map<Pos, AStarNode>, queue: seq<AStarNode>, cells: seq<seq<Content>>,
                            car: Pos, goal: Pos, h: (Pos, Pos) -> nat)
  {
    && Rectangular(cells)
    && TableOk(nodeMap, cells, car, goal, h)
    && (forall n :: n in queue ==> n.pos in nodeMap)
    && (forall p {:trigger Settled(nodeMap, queue, cells, goal, p)} :: p in nodeMap ==> Settled(nodeMap, queue, cells, goal, p))
  }

  /**
   * After one round a table entry is still in the frontier or closed: an
   * improved neighbour was pushed, the expanded node is closed by the
   * relaxation, any other frontier entry stays, and a closed entry whose
   * distance did not fall stays closed since no distance grows.
   */
  lemma ExpandOpenOrClosed(nodeMap: map<Pos, AStarNode>, queue: seq<AStarNode>, i: nat, cells: seq<seq<Content>>,
                           car: Pos, goal: Pos, h: (Pos, Pos) -> nat, pushes: seq<AStarNode>, p: Pos)
    requires SearchInv(nodeMap, queue, cells, car, goal, h)
    requires i < |queue| && queue[i].pos != goal
    requires var current := nodeMap[queue[i].pos];
      forall q :: q in Improved(nodeMap, current, Neighbours(cells, current.pos)) ==> Relaxed(current, q, goal, h) in pushes
    requires var current := nodeMap[queue[i].pos];
      p in AfterRelax(nodeMap, current, Neighbours(cells, current.pos), goal, h)
    ensures var current := nodeMap[queue[i].pos];
      var table := AfterRelax(nodeMap, current, Neighbours(cells, current.pos), goal, h);
      Settled(table, queue[..i] + queue[i + 1..] + pushes, cells, goal, p)
  {
    var current := nodeMap[queue[i].pos];
    var ns := Neighbours(cells, current.pos);
    var table := AfterRelax(nodeMap, current, ns, goal, h);
    var rest := queue[..i] + queue[i + 1..];
    var queue' := rest + pushes;
    if p in Improved(nodeMap, current, ns) {
      assert Relaxed(current, p, goal, h) in queue';
    } else {
      assert table[p] == nodeMap[p];
      assert Settled(nodeMap, queue, cells, goal, p);
      if p == current.pos {
        ExpandClosesCurrent(nodeMap, current, cells, goal, h);
      } else if p in Queued(queue) {
        OtherEntryStaysQueued(queue, i, pushes, p);
      } else {
        StaysClosed(nodeMap, current, cells, goal, h, p);
      }
    }
  }

  /** Removing the entry at `i` and appending `pushes` keeps every other position in the frontier. */
  lemma OtherEntryStaysQueued(queue: seq<AStarNode>, i: nat, pushes: seq<AStarNode>, p: Pos)
    requires i < |queue| && p in Queued(queue) && p != queue[i].pos
    ensures p in Queued(queue[..i] + queue[i + 1..] + pushes)
  {
    var rest := queue[..i] + queue[i + 1..];
    var n :| n in queue && n.pos == p;
    var k :| 0 <= k < |queue| && queue[k] == n;
    assert n in rest by {
      if k < i { assert rest[k] == n; } else { assert rest[k - 1] == n; }
    }
    assert n in rest + pushes;
  }

  /** Relaxing the neighbours of `current` closes `current`. */
  lemma ExpandClosesCurrent(nodeMap: map<Pos, AStarNode>, current: AStarNode, cells: seq<seq<Content>>,
                            goal: Pos, h: (Pos, Pos) -> nat)
    requires Rectangular(cells) && current.pos in nodeMap && nodeMap[current.pos] == current
    requires InBounds(cells, current.pos)
    ensures var table := AfterRelax(nodeMap, current, Neighbours(cells, current.pos), goal, h);
      current.pos in table && Closed(table, cells, current.pos)
  {
    var ns := Neighbours(cells, current.pos);
    var table := AfterRelax(nodeMap, current, ns, goal, h);
    AfterRelaxDist(nodeMap, current, ns, goal, h, current.pos);
    forall q | q in ns
      ensures Dist(table, q) <= table[current.pos].dist + 1
    {
      AfterRelaxDist(nodeMap, current, ns, goal, h, q);
    }
  }

  /** A closed entry whose distance did not fall stays closed, since no distance grows. */
  lemma StaysClosed(nodeMap: map<Pos, AStarNode>, current: AStarNode, cells: seq<seq<Content>>,
                    goal: Pos, h: (Pos, Pos) -> nat, p: Pos)
    requires Rectangular(cells) && p in nodeMap && Closed(nodeMap, cells, p) && InBounds(cells, current.pos)
    requires var table := AfterRelax(nodeMap, current, Neighbours(cells, current.pos), goal, h);
      p in table && table[p] == nodeMap[p]
    ensures var table := AfterRelax(nodeMap, current, Neighbours(cells, current.pos), goal, h);
      Closed(table, cells, p)
  {
    var ns := Neighbours(cells, current.pos);
    var table := AfterRelax(nodeMap, current, ns, goal, h);
    forall q | q in Neighbours(cells, p)
      ensures Dist(table, q) <= table[p].dist + 1
    {
      AfterRelaxDist(nodeMap, current, ns, goal, h, q);
    }
  }

  /**
   * One round of the search loop keeps the invariant: pop the entry at `i`,
   * re-read its node from the table, and relax its open neighbours. The
   * table only gains keys, and either nothing was relaxed or `DistPairs`
   * fell.
   */
  lemma ExpandKeepsInv(nodeMap: map<Pos, AStarNode>, queue: seq<AStarNode>, i: nat, cells: seq<seq<Content>>,
                       car: Pos, goal: Pos, h: (Pos, Pos) -> nat)
    requires SearchInv(nodeMap, queue, cells, car, goal, h)
    requires i < |queue| && queue[i].pos != goal
    ensures var current := nodeMap[queue[i].pos];
      var (table, pushes) := Relaxation(nodeMap, current, Neighbours(cells, current.pos), goal, h);
      && SearchInv(table, queue[..i] + queue[i + 1..] + pushes, cells, car, goal, h)
      && nodeMap.Keys <= table.Keys
      && ((table == nodeMap && pushes == []) || DistPairs(table, cells) < DistPairs(nodeMap, cells))
  {
    var current := nodeMap[queue[i].pos];
    var ns := Neighbours(cells, current.pos);
    var (table, pushes) := Relaxation(nodeMap, current, ns, goal, h);
    var rest := queue[..i] + queue[i + 1..];
    RelaxationIsAfterRelax(nodeMap, current, ns, goal, h);
    AfterRelaxKeepsTable(nodeMap, cells, car, goal, h, current, ns);
    AfterRelaxShrinks(nodeMap, cells, current, ns, goal, h);
    forall p | p in table
      ensures Settled(table, rest + pushes, cells, goal, p)
    {
      ExpandOpenOrClosed(nodeMap, queue, i, cells, car, goal, h, pushes, p);
    }
    forall p | p in nodeMap
      ensures p in table
    {
      AfterRelaxDist(nodeMap, current, ns, goal, h, p);
    }
    forall n | n in rest + pushes
      ensures n.pos in table
    {
      if n !in rest {
        var k :| 0 <= k < |pushes| && pushes[k] == n;
      }
    }
  }

  /**
   * Once the frontier is empty, the table holds every cell an open walk from
   * the car reaches in fewer than `usize::MAX` steps, each within its step
   * count.
   */
  lemma {:induction false} ClosedTableCoversWalks(nodeMap: map<Pos, AStarNode>, cells: seq<seq<Content>>,
                                                  car: Pos, goal: Pos, h: (Pos, Pos) -> nat, w: seq<Pos>, k: nat)
    requires SearchInv(nodeMap, [], cells, car, goal, h)
    requires OpenWalk(cells, w) && |w| > 0 && w[0] == car && k < |w| && k < USIZE_MAX
    ensures w[k] in nodeMap && nodeMap[w[k]].dist <= k
  {
    if k > 0 {
      ClosedTableCoversWalks(nodeMap, cells, car, goal, h, w, k - 1);
      var p, q := w[k - 1], w[k];
      assert Adjacent(p, q) && InBounds(cells, q) && At(cells, q) != Wall;
      ClosedNeighbour(nodeMap, cells, car, goal, h, p, q);
    }
  }

  /** With an empty frontier, every open neighbour of a table entry is in the table, at most one step farther. */
  lemma ClosedNeighbour(nodeMap: map<Pos, AStarNode>, cells: seq<seq<Content>>, car: Pos, goal: Pos,
                        h: (Pos, Pos) -> nat, p: Pos, q: Pos)
    requires SearchInv(nodeMap, [], cells, car, goal, h)
    requires p in nodeMap && nodeMap[p].dist + 1 < USIZE_MAX
    requires InBounds(cells, q) && Adjacent(p, q) && At(cells, q) != Wall
    ensures q in nodeMap && nodeMap[q].dist <= nodeMap[p].dist + 1
  {
    assert Settled(nodeMap, [], cells, goal, p);
    assert q in Neighbours(cells, p);
  }

  /** With an empty frontier, no open walk from the car of at most `usize::MAX` positions ends at the goal. */
  lemma GoalUnreachable(nodeMap: map<Pos, AStarNode>, cells: seq<seq<Content>>, car: Pos, goal: Pos,
                        h: (Pos, Pos) -> nat, w: seq<Pos>)
    requires SearchInv(nodeMap, [], cells, car, goal, h)
    requires OpenWalk(cells, w) && 0 < |w| <= USIZE_MAX && w[0] == car
    ensures w[|w| - 1] != goal
  {
    ClosedTableCoversWalks(nodeMap, cells, car, goal, h, w, |w| - 1);
    assert Settled(nodeMap, [], cells, goal, w[|w| - 1]);
  }

  /** `cells` with every popped cell other than the car's turned Explored, one pop after the other. */
  ghost function ExploredGrid(cells: seq<seq<Content>>, popped: seq<Pos>, car: Pos): (r: seq<seq<Content>>)
    ensures SameShape(r, cells)
    decreases |popped|
  {
    if popped == [] then cells
    else
      var marked := ExploredGrid(cells, popped[..|popped| - 1], car);
      var p := popped[|popped| - 1];
      if p != car && InBounds(marked, p) then SetAt(marked, p, Explored) else marked
  }

  /** `ExploredGrid` marks exactly the popped cells other than the car's. */
  lemma {:induction false} ExploredGridAt(cells: seq<seq<Content>>, popped: seq<Pos>, car: Pos)
    ensures forall p: Pos :: InBounds(cells, p) ==>
              At(ExploredGrid(cells, popped, car), p) == if p in popped && p != car then Explored else At(cells, p)
    decreases |popped|
  {
    if popped != [] {
      var init := popped[..|popped| - 1];
      ExploredGridAt(cells, init, car);
      assert popped == init + [popped[|popped| - 1]];
    }
  }

  /**
   * Marking the popped cells keeps the placement invariant and the walls,
   * when every popped cell is an open cell other than the goal.
   */
  lemma ExploredGridKeepsWalls(cells: seq<seq<Content>>, popped: seq<Pos>, car: Pos, goal: Pos)
    requires ValidState(cells, Some(car), Some(goal))
    requires forall k :: 0 <= k < |popped| ==> InBounds(cells, popped[k]) && At(cells, popped[k]) != Wall && popped[k] != goal
    ensures ValidState(ExploredGrid(cells, popped, car), Some(car), Some(goal))
    ensures SameShape(ExploredGrid(cells, popped, car), cells)
    ensures forall q: Pos :: InBounds(cells, q) ==> (At(ExploredGrid(cells, popped, car), q) == Wall <==> At(cells, q) == Wall)
  {
    var r := ExploredGrid(cells, popped, car);
    ExploredGridAt(cells, popped, car);
    forall p: Pos | InBounds(cells, p)
      ensures At(r, p) == At(cells, p) ||
              (IsSearchMark(At(r, p)) && At(cells, p) != Car && At(cells, p) != Goal)
      ensures At(r, p) == Wall <==> At(cells, p) == Wall
    {
      if p in popped && p != car {
        var k :| 0 <= k < |popped| && popped[k] == p;
      }
    }
    MarksKeepValid(cells, r, Some(car), Some(goal));
  }

  /**
   * The state of `find_path` between two pops: the search invariant over the
   * grid as it was when the search began, the grid itself with the popped
   * cells marked, and every popped cell a table entry other than the goal.
   */
  ghost predicate SearchState(cells: seq<seq<Content>>, cells0: seq<seq<Content>>, nodeMap: map<Pos, AStarNode>,
                              queue: seq<AStarNode>, popped: seq<Pos>, car: Pos, goal: Pos, h: (Pos, Pos) -> nat)
  {
    && ValidState(cells0, Some(car), Some(goal))
    && SearchInv(nodeMap, queue, cells0, car, goal, h)
    && cells == ExploredGrid(cells0, popped, car)
    && (forall k :: 0 <= k < |popped| ==> popped[k] in nodeMap && popped[k] != goal)
  }

  /**
   * Popping a cell other than the goal marks it on the grid of the earlier
   * pops unless it is the car's, and the neighbours read off the marked grid
   * are those of the original grid.
   */
  lemma PopMarksCell(cells0: seq<seq<Content>>, nodeMap: map<Pos, AStarNode>, queue: seq<AStarNode>, i: nat,
                     popped: seq<Pos>, car: Pos, goal: Pos, h: (Pos, Pos) -> nat)
    requires SearchState(ExploredGrid(cells0, popped, car), cells0, nodeMap, queue, popped, car, goal, h)
    requires i < |queue| && queue[i].pos != goal
    ensures var pos := queue[i].pos;
      var marked := ExploredGrid(cells0, popped + [pos], car);
      && InBounds(cells0, pos) && Rectangular(marked)
      && marked == (if pos != car then SetAt(ExploredGrid(cells0, popped, car), pos, Explored) else ExploredGrid(cells0, popped, car))
      && Neighbours(marked, pos) == Neighbours(cells0, pos)
  {
    var pos := queue[i].pos;
    assert (popped + [pos])[..|popped|] == popped;
    assert Settled(nodeMap, queue, cells0, goal, pos);
    ExploredGridKeepsWalls(cells0, popped + [pos], car, goal);
    NeighboursSameWalls(cells0, ExploredGrid(cells0, popped + [pos], car), pos);
  }

  /**
   * One round of `find_path` that does not pop the goal keeps its state: the
   * relaxation keeps the search invariant over the grid with one more cell
   * marked, while the measure falls or the frontier shrinks.
   */
  lemma PopKeepsSearchState(cells0: seq<seq<Content>>, nodeMap: map<Pos, AStarNode>, queue: seq<AStarNode>, i: nat,
                            popped: seq<Pos>, car: Pos, goal: Pos, h: (Pos, Pos) -> nat)
    requires SearchState(ExploredGrid(cells0, popped, car), cells0, nodeMap, queue, popped, car, goal, h)
    requires i < |queue| && queue[i].pos != goal
    ensures var pos := queue[i].pos;
      var (table, pushes) := Relaxation(nodeMap, nodeMap[pos], Neighbours(cells0, pos), goal, h);
      && SearchState(ExploredGrid(cells0, popped + [pos], car), cells0, table, queue[..i] + queue[i + 1..] + pushes,
                     popped + [pos], car, goal, h)
      && ((table == nodeMap && pushes == []) || DistPairs(table, cells0) < DistPairs(nodeMap, cells0))
  {
    var pos := queue[i].pos;
    var (table, pushes) := Relaxation(nodeMap, nodeMap[pos], Neighbours(cells0, pos), goal, h);
    ExpandKeepsInv(nodeMap, queue, i, cells0, car, goal, h);
    PoppedStaysInTable(nodeMap, table, popped, pos, goal);
    SearchStateFrom(cells0, table, queue[..i] + queue[i + 1..] + pushes, popped + [pos], car, goal, h);
  }

  /** The table only gains keys, so every popped cell keeps its entry. */
  lemma PoppedStaysInTable(nodeMap: map<Pos, AStarNode>, table: map<Pos, AStarNode>, popped: seq<Pos>, pos: Pos, goal: Pos)
    requires nodeMap.Keys <= table.Keys && pos in nodeMap && pos != goal
    requires forall k :: 0 <= k < |popped| ==> popped[k] in nodeMap && popped[k] != goal
    ensures forall k :: 0 <= k < |popped + [pos]| ==> (popped + [pos])[k] in table && (popped + [pos])[k] != goal
  {
    var popped' := popped + [pos];
    forall k | 0 <= k < |popped'|
      ensures popped'[k] in table && popped'[k] != goal
    {
      if k < |popped| {
        assert popped'[k] == popped[k];
      }
    }
  }

  /** The parts of `SearchState` put together. */
  lemma SearchStateFrom(cells0: seq<seq<Content>>, nodeMap: map<Pos, AStarNode>, queue: seq<AStarNode>,
                        popped: seq<Pos>, car: Pos, goal: Pos, h: (Pos, Pos) -> nat)
    requires ValidState(cells0, Some(car), Some(goal)) && SearchInv(nodeMap, queue, cells0, car, goal, h)
    requires forall k :: 0 <= k < |popped| ==> popped[k] in nodeMap && popped[k] != goal
    ensures SearchState(ExploredGrid(cells0, popped, car), cells0, nodeMap, queue, popped, car, goal, h)
  {
  }

  /**
   * Every expanded cell is an open cell, other than the goal, of the grid as
   * the search began, so marking them keeps every wall.
   */
  lemma PoppedOpen(cells: seq<seq<Content>>, cells0: seq<seq<Content>>, nodeMap: map<Pos, AStarNode>,
                   queue: seq<AStarNode>, popped: seq<Pos>, car: Pos, goal: Pos, h: (Pos, Pos) -> nat)
    requires SearchState(cells, cells0, nodeMap, queue, popped, car, goal, h)
    ensures forall k :: 0 <= k < |popped| ==>
              InBounds(cells0, popped[k]) && At(cells0, popped[k]) != Wall && popped[k] != goal
    ensures SameWalls(cells0, cells)
  {
    ExploredGridKeepsWalls(cells0, popped, car, goal);
  }

  /** A trace drawn along the interior of an open walk overwrites no wall. */
  lemma TraceKeepsWalls(before: seq<seq<Content>>, marked: seq<seq<Content>>, after: seq<seq<Content>>, path: seq<Pos>)
    requires SameWalls(before, marked) && |path| >= 2 && OpenWalk(before, path)
    requires TracedUpTo(after, marked, path, |path| - 2)
    ensures SameWalls(before, after)
  {
    forall p: Pos | InBounds(before, p)
      ensures InBounds(after, p) && (At(before, p) == Wall <==> At(after, p) == Wall)
    {
      if p in path[1..|path| - 1] {
        var j :| 0 <= j < |path| - 2 && path[1..|path| - 1][j] == p;
        assert path[j + 1] == p && At(before, path[j + 1]) != Wall;
        assert At(after, path[j + 1]) == Trace(DirectionToward(path[j + 1], path[j]));
      } else {
        assert InBounds(marked, p) && At(after, p) == At(marked, p);
      }
    }
  }

  /**
   * When the goal is popped the table links it back to the car along an open
   * walk that never repeats a cell, which is a predecessor chain of the table
   * in the marked grid, and the marked grid still satisfies the placement
   * invariant.
   */
  lemma GoalPathFacts(cells0: seq<seq<Content>>, nodeMap: map<Pos, AStarNode>, queue: seq<AStarNode>,
                      popped: seq<Pos>, car: Pos, goal: Pos, h: (Pos, Pos) -> nat)
    returns (path: seq<Pos>)
    requires SearchState(ExploredGrid(cells0, popped, car), cells0, nodeMap, queue, popped, car, goal, h)
    requires goal in nodeMap
    ensures ValidState(ExploredGrid(cells0, popped, car), Some(car), Some(goal))
    ensures LinksOk(Links(nodeMap), car) && nodeMap[goal].dist < USIZE_MAX && goal != car
    ensures path == Chain(Links(nodeMap), car, goal)
    ensures MapChain(nodeMap, ExploredGrid(cells0, popped, car), car, goal, path) && OpenWalk(cells0, path)
  {
    ExploredGridKeepsWalls(cells0, popped, car, goal);
    TableLinksOk(nodeMap, cells0, car, goal, h);
    path := Chain(Links(nodeMap), car, goal);
    ChainInMap(nodeMap, ExploredGrid(cells0, popped, car), car, goal);
  }

  /**
   * What a successful search hands back: the number of pops, the table, and
   * the two ends of the path.
   */
  datatype PathResult = PathResult(explored: nat, nodeMap: map<Pos, AStarNode>, start: Pos, end: Pos)

  /** A result as `find_path` builds it: a predecessor table that reaches `end` from a different `start`. */
  ghost predicate PathResultOk(r: PathResult)
  {
    LinksOk(Links(r.nodeMap), r.start) && r.end in r.nodeMap && r.nodeMap[r.end].dist < USIZE_MAX &&
    r.end != r.start && r.explored >= 1
  }

  /**
   * Step `i` of the chain from `p` is the table's own predecessor entry, and
   * the chain reaches the start exactly at its last position.
   */
  lemma ChainNext(nodeMap: map<Pos, AStarNode>, start: Pos, p: Pos, i: nat)
    requires LinksOk(Links(nodeMap), start) && p in nodeMap && nodeMap[p].dist < USIZE_MAX
    requires i < |Chain(Links(nodeMap), start, p)| - 1
    ensures var ch := Chain(Links(nodeMap), start, p);
      && ch[i] in nodeMap && nodeMap[ch[i]].predecessor == Some(ch[i + 1]) && Adjacent(ch[i], ch[i + 1])
      && (ch[i + 1] == start <==> i + 1 == |ch| - 1)
  {
    var ch := Chain(Links(nodeMap), start, p);
    assert Links(nodeMap)[ch[i]].pred == Some(ch[i + 1]);
  }

  /**
   * `get_path_length`: the number of cells strictly between start and end on
   * the predecessor chain, one less than its number of steps, so 0 when the
   * end's predecessor is the start; it is never below the grid distance
   * minus one, nor above the end's distance minus one.
   */
  method GetPathLength(r: PathResult) returns (length: nat)
    requires PathResultOk(r)
    ensures length == |Chain(Links(r.nodeMap), r.start, r.end)| - 2
    ensures length == 0 <==> r.nodeMap[r.end].predecessor == Some(r.start)
    ensures length + 1 >= GridDistance(r.end, r.start)
    ensures length + 1 <= r.nodeMap[r.end].dist
  {
    ghost var links := Links(r.nodeMap);
    ghost var ch := Chain(links, r.start, r.end);
    ChainCoversDistance(links, r.start, r.end);
    var current := r.end;
    length := 0;
    ghost var i := 0;
    while true
      invariant 0 <= i < |ch| - 1 && current == ch[i] && length == i
      invariant i == 0 || r.nodeMap[r.end].predecessor != Some(r.start)
      decreases |ch| - i
    {
      ChainNext(r.nodeMap, r.start, r.end, i);
      current := r.nodeMap[current].predecessor.value;
      i := i + 1;
      if current == r.start {
        return;
      }
      length := length + 1;
    }
  }

  /** `get_n_explored`: the number of frontier pops, the goal's included. */
  function GetNExplored(r: PathResult): (n: nat)
    requires PathResultOk(r)
    ensures n >= 1
  {
    r.explored
  }

  /**
   * `ch` is the predecessor chain of the table from `end` back to `start`:
   * it lies in the grid, steps between neighbours and never repeats a cell,
   * each of its cells but the last has a table entry naming the next one as
   * predecessor, and it meets `start` only at its end.
   */
  ghost predicate MapChain(nodeMap: map<Pos, AStarNode>, cells: seq<seq<Content>>, start: Pos, end: Pos, ch: seq<Pos>)
  {
    && |ch| >= 2 && ch[0] == end && ch[|ch| - 1] == start && AdjacentSteps(ch)
    && (forall a, b :: 0 <= a < b < |ch| ==> ch[a] != ch[b])
    && (forall k :: 0 <= k < |ch| ==> InBounds(cells, ch[k]))
    && (forall k, j :: 0 <= k && j == k + 1 && j < |ch| ==> ch[k] in nodeMap && nodeMap[ch[k]].predecessor == Some(ch[j]))
  }

  /** The chain `Links` gives from `end` back to `start` is a predecessor chain of the table. */
  lemma ChainInMap(nodeMap: map<Pos, AStarNode>, cells: seq<seq<Content>>, start: Pos, end: Pos)
    requires LinksOk(Links(nodeMap), start) && end in nodeMap && nodeMap[end].dist < USIZE_MAX && end != start
    requires forall p :: p in nodeMap ==> InBounds(cells, p)
    ensures MapChain(nodeMap, cells, start, end, Chain(Links(nodeMap), start, end))
  {
    var links := Links(nodeMap);
    var ch := Chain(links, start, end);
    ChainDistinct(links, start, end);
    ChainAdjacentSteps(links, start, end);
    forall k, j | 0 <= k && j == k + 1 && j < |ch|
      ensures InBounds(cells, ch[k]) && InBounds(cells, ch[j])
      ensures ch[k] in nodeMap && nodeMap[ch[k]].predecessor == Some(ch[j])
    {
      ChainNext(nodeMap, start, end, k);
      assert ch[j] in nodeMap by {
        assert links[ch[k]].pred == Some(ch[j]);
      }
    }
    ChainNext(nodeMap, start, end, |ch| - 2);
  }

  /**
   * `draw_path`: follows the predecessors from `end` back to `start` and
   * writes on every cell strictly between them a Trace pointing to its
   * neighbour on the end side; no other cell changes. `ch` is that chain of
   * predecessors.
   */
  method DrawPath(g: Grid, nodeMap: map<Pos, AStarNode>, start: Pos, end: Pos, ghost ch: seq<Pos>)
    requires MapChain(nodeMap, g.cells, start, end, ch)
    modifies g`cells
    ensures TracedUpTo(g.cells, old(g.cells), ch, |ch| - 2)
  {
    assert ch[1..1] == [];
    var current := end;
    ghost var i := 0;
    while true
      invariant 0 <= i < |ch| - 1 && current == ch[i]
      invariant TracedUpTo(g.cells, old(g.cells), ch, i)
      decreases |ch| - i
    {
      var prev := current;
      ghost var next := ch[i + 1];
      assert current in nodeMap && nodeMap[current].predecessor == Some(next);
      current := nodeMap[current].predecessor.value;
      if current == start {
        assert i == |ch| - 2;
        break;
      }
      DrawStep(g.cells, old(g.cells), ch, i);
      g.cells := SetAt(g.cells, current, Trace(DirectionToward(current, prev)));
      i := i + 1;
    }
  }

  /**
   * A search that ran out of frontier leaves a grid that still satisfies the
   * placement invariant, and no open walk from the car reaches the goal.
   */
  lemma ExhaustedSearch(g: Grid, cells0: seq<seq<Content>>, nodeMap: map<Pos, AStarNode>,
                        popped: seq<Pos>, car: Pos, goal: Pos, h: (Pos, Pos) -> nat)
    requires SearchState(g.cells, cells0, nodeMap, [], popped, car, goal, h)
    requires g.car == Some(car) && g.goal == Some(goal)
    ensures g.Valid() && SameShape(g.cells, cells0)
    ensures forall k :: 0 <= k < |popped| ==>
              InBounds(cells0, popped[k]) && At(cells0, popped[k]) != Wall && popped[k] != goal
    ensures SameWalls(cells0, g.cells)
    ensures NoWalkReaches(cells0, car, goal)
  {
    PoppedOpen(g.cells, cells0, nodeMap, [], popped, car, goal, h);
    forall w | OpenWalk(cells0, w) && 0 < |w| <= USIZE_MAX && w[0] == car
      ensures w[|w| - 1] != goal
    {
      GoalUnreachable(nodeMap, cells0, car, goal, h, w);
    }
    ExploredGridKeepsWalls(cells0, popped, car, goal);
  }

  /**
   * The second half of a round of `find_path`, for a popped node other than
   * the goal: mark its cell Explored unless it is the car's, then relax its
   * open neighbours. The search state moves on by one pop, and either the
   * measure falls or it stays and the frontier has shrunk.
   */
  method ExpandCurrent(g: Grid, current: AStarNode, nodeMap: map<Pos, AStarNode>, queue: seq<AStarNode>,
                       car: Pos, goal: Pos, h: (Pos, Pos) -> nat,
                       ghost cells0: seq<seq<Content>>, ghost queue0: seq<AStarNode>, ghost i: nat, ghost popped: seq<Pos>)
    returns (nodeMap': map<Pos, AStarNode>, queue': seq<AStarNode>)
    requires SearchState(g.cells, cells0, nodeMap, queue0, popped, car, goal, h)
    requires i < |queue0| && queue0[i].pos != goal && queue == queue0[..i] + queue0[i + 1..]
    requires current == nodeMap[queue0[i].pos]
    modifies g`cells
    ensures SearchState(g.cells, cells0, nodeMap', queue', popped + [current.pos], car, goal, h)
    ensures DistPairs(nodeMap', cells0) < DistPairs(nodeMap, cells0) ||
            (DistPairs(nodeMap', cells0) == DistPairs(nodeMap, cells0) && |queue'| < |queue0|)
  {
    PopMarksCell(cells0, nodeMap, queue0, i, popped, car, goal, h);
    PopKeepsSearchState(cells0, nodeMap, queue0, i, popped, car, goal, h);
    if current.pos != car {
      g.cells := SetAt(g.cells, current.pos, Explored);
    }
    var neighbours := Neighbours(g.cells, current.pos);
    nodeMap', queue' := RelaxNeighbours(nodeMap, queue, current, neighbours, goal, h);
  }

  /**
   * What `find_path` returns when it pops the goal, for a run from `before`
   * that expanded `popped` and left `after`: a result from the car to the
   * goal counting every pop, whose predecessor chain is an open walk of
   * `before` that never repeats a cell, drawn as a trace on the grid with
   * the expanded cells marked; `path` is that chain.
   */
  ghost predicate FoundResult(res: PathResult, path: seq<Pos>, before: seq<seq<Content>>, after: seq<seq<Content>>,
                              popped: seq<Pos>, car: Pos, goal: Pos)
  {
    && res.start == car && res.end == goal && res.explored == |popped| + 1
    && PathResultOk(res)
    && path == Chain(Links(res.nodeMap), res.start, res.end)
    && |path| >= 2 && OpenWalk(before, path) && (forall a, b :: 0 <= a < b < |path| ==> path[a] != path[b])
    && TracedUpTo(after, ExploredGrid(before, popped, car), path, |path| - 2)
  }

  /** The parts of `FoundResult` put together. */
  lemma FoundResultFrom(res: PathResult, path: seq<Pos>, before: seq<seq<Content>>, marked: seq<seq<Content>>,
                        after: seq<seq<Content>>, popped: seq<Pos>, car: Pos, goal: Pos)
    requires res.start == car && res.end == goal && res.explored == |popped| + 1
    requires LinksOk(Links(res.nodeMap), car) && goal in res.nodeMap && res.nodeMap[goal].dist < USIZE_MAX && goal != car
    requires path == Chain(Links(res.nodeMap), car, goal) && |path| >= 2 && OpenWalk(before, path)
    requires forall a, b :: 0 <= a < b < |path| ==> path[a] != path[b]
    requires marked == ExploredGrid(before, popped, car) && TracedUpTo(after, marked, path, |path| - 2)
    ensures FoundResult(res, path, before, after, popped, car, goal)
  {
  }

  /**
   * Drawing the table's chain from the goal back to the car keeps the
   * placement invariant and the shape of the grid.
   */
  method DrawChain(g: Grid, nodeMap: map<Pos, AStarNode>, car: Pos, goal: Pos, ghost path: seq<Pos>)
    requires MapChain(nodeMap, g.cells, car, goal, path)
    requires g.Valid() && g.car == Some(car) && g.goal == Some(goal)
    modifies g`cells
    ensures g.Valid() && SameShape(g.cells, old(g.cells))
    ensures TracedUpTo(g.cells, old(g.cells), path, |path| - 2)
  {
    DrawPath(g, nodeMap, car, goal, path);
    TracedPathKeepsValid(old(g.cells), g.cells, path, car, goal);
  }

  /**
   * The goal branch of `find_path`: draw the path the table links from the
   * goal back to the car. It runs along an open walk of the grid as the
   * search found it, and the placement invariant survives the drawing.
   */
  method DrawFoundPath(g: Grid, nodeMap: map<Pos, AStarNode>, car: Pos, goal: Pos, h: (Pos, Pos) -> nat, explored: nat,
                       ghost cells0: seq<seq<Content>>, ghost queue: seq<AStarNode>, ghost popped: seq<Pos>)
    returns (ghost path: seq<Pos>)
    requires SearchState(g.cells, cells0, nodeMap, queue, popped, car, goal, h) && goal in nodeMap
    requires g.car == Some(car) && g.goal == Some(goal) && explored == |popped| + 1
    modifies g`cells
    ensures g.Valid() && SameShape(g.cells, cells0)
    ensures forall k :: 0 <= k < |popped| ==>
              InBounds(cells0, popped[k]) && At(cells0, popped[k]) != Wall && popped[k] != goal
    ensures SameWalls(cells0, g.cells)
    ensures FoundResult(PathResult(explored, nodeMap, car, goal), path, cells0, g.cells, popped, car, goal)
  {
    ghost var marked := g.cells;
    PoppedOpen(marked, cells0, nodeMap, queue, popped, car, goal, h);
    path := GoalPathFacts(cells0, nodeMap, queue, popped, car, goal, h);
    DrawChain(g, nodeMap, car, goal, path);
    TraceKeepsWalls(cells0, marked, g.cells, path);
    FoundResultFrom(PathResult(explored, nodeMap, car, goal), path, cells0, marked, g.cells, popped, car, goal);
  }

  /**
   * The search loop of `find_path`: pop the best frontier entry and re-read
   * its node from the table; stop when it is the goal, otherwise expand it.
   * It ends either at the pop of the goal, with the state before that pop,
   * or with an empty frontier. `popped` lists the expanded cells in order,
   * the car's first; every pop is counted.
   */
  method Search(g: Grid, car: Pos, goal: Pos, h: (Pos, Pos) -> nat)
    returns (found: bool, nodeMap: map<Pos, AStarNode>, iterationCount: nat,
             ghost frontier: seq<AStarNode>, ghost popped: seq<Pos>)
    requires g.Valid() && g.car == Some(car) && g.goal == Some(goal)
    modifies g`cells
    ensures SearchState(g.cells, old(g.cells), nodeMap, frontier, popped, car, goal, h)
    ensures |popped| >= 1 && popped[0] == car
    ensures iterationCount == |popped| + if found then 1 else 0
    ensures found ==> goal in nodeMap
    ensures !found ==> frontier == []
  {
    ghost var cells0 := g.cells;
    var carNode := AStarNode(car, None, 0, h(car, goal), 0);
    nodeMap := map[car := carNode];
    var queue := [carNode];
    iterationCount := 0;
    found := false;
    popped := [];
    assert Settled(nodeMap, queue, cells0, goal, car);
    while |queue| > 0
      invariant SearchState(g.cells, cells0, nodeMap, queue, popped, car, goal, h)
      invariant popped == [] ==> queue == [carNode]
      invariant |popped| > 0 ==> popped[0] == car
      invariant iterationCount == |popped|
      decreases DistPairs(nodeMap, cells0), |queue|
    {
      iterationCount := iterationCount + 1;
      var i := PopBest(queue);
      var pos := queue[i].pos;
      var current := nodeMap[pos];
      if pos == goal {
        found := true;
        break;
      }
      nodeMap, queue := ExpandCurrent(g, current, nodeMap, queue[..i] + queue[i + 1..], car, goal, h, cells0, queue, i, popped);
      popped := popped + [pos];
    }
    frontier := queue;
  }

  /**
   * `find_path`: A* from the car to the goal. Every pop re-reads its node
   * from the table; a popped cell other than the car's is marked Explored;
   * an open neighbour whose table distance exceeds the popped distance plus
   * one gets the relaxed node and is pushed. Popping the goal draws the path
   * and returns it with the number of pops; an empty frontier returns None,
   * and then no open walk from the car reaches the goal. `popped` lists the
   * expanded cells: exactly those marked Explored, the car's excepted.
   */
  method FindPath(g: Grid, h: (Pos, Pos) -> nat)
    returns (r: Option<PathResult>, ghost popped: seq<Pos>, ghost path: seq<Pos>)
    requires g.Valid() && g.car.Some? && g.goal.Some?
    modifies g`cells
    ensures g.Valid() && SameShape(g.cells, old(g.cells))
    ensures |popped| >= 1 && popped[0] == g.car.value
    ensures forall k :: 0 <= k < |popped| ==>
              InBounds(old(g.cells), popped[k]) && At(old(g.cells), popped[k]) != Wall && popped[k] != g.goal.value
    ensures SameWalls(old(g.cells), g.cells)
    ensures r.None? ==> g.cells == ExploredGrid(old(g.cells), popped, g.car.value)
    ensures r.None? ==> NoWalkReaches(old(g.cells), g.car.value, g.goal.value)
    ensures r.Some? ==> FoundResult(r.value, path, old(g.cells), g.cells, popped, g.car.value, g.goal.value)
  {
    var car, goal := g.car.value, g.goal.value;
    var found, nodeMap, iterationCount;
    ghost var frontier;
    found, nodeMap, iterationCount, frontier, popped := Search(g, car, goal, h);
    path := [];
    if found {
      path := DrawFoundPath(g, nodeMap, car, goal, h, iterationCount, old(g.cells), frontier, popped);
      r := Some(PathResult(iterationCount, nodeMap, car, goal));
    } else {
      ExhaustedSearch(g, old(g.cells), nodeMap, popped, car, goal, h);
      r := None;
    }
  }

  /** The matrix `clear_path` leaves behind: every search mark of `cells` emptied. */
  ghost function Cleared(cells: seq<seq<Content>>): (r: seq<seq<Content>>)
    ensures SameShape(r, cells)
    ensures forall p: Pos :: InBounds(r, p) ==>
              At(r, p) == if IsSearchMark(At(cells, p)) then Empty else At(cells, p)
  {
    seq(|cells|, y requires 0 <= y < |cells| =>
      seq(|cells[y]|, x requires 0 <= x < |cells[y]| =>
        if IsSearchMark(cells[y][x]) then Empty else cells[y][x]))
  }

  /**
   * `clear_path`: every Trace and Explored cell becomes Empty; every other
   * cell keeps its content.
   */
  method ClearPath(g: Grid)
    requires Rectangular(g.cells)
    modifies g`cells
    ensures SameShape(g.cells, old(g.cells))
    ensures forall p: Pos :: InBounds(g.cells, p) ==>
              At(g.cells, p) == if IsSearchMark(At(old(g.cells), p)) then Empty else At(old(g.cells), p)
    ensures g.cells == Cleared(old(g.cells))
    ensures SameWalls(old(g.cells), g.cells)
  {
    var y := 0;
    while y < |g.cells|
      invariant 0 <= y <= |g.cells|
      invariant Rectangular(g.cells) && SameShape(g.cells, old(g.cells))
      invariant forall p: Pos :: InBounds(g.cells, p) ==>
                  At(g.cells, p) == if p.1 < y && IsSearchMark(At(old(g.cells), p)) then Empty else At(old(g.cells), p)
    {
      var x := 0;
      while x < |g.cells[y]|
        invariant y < |g.cells| && 0 <= x <= |g.cells[y]|
        invariant Rectangular(g.cells) && SameShape(g.cells, old(g.cells))
        invariant forall p: Pos :: InBounds(g.cells, p) ==>
                    At(g.cells, p) == if (p.1 < y || (p.1 == y && p.0 < x)) && IsSearchMark(At(old(g.cells), p))
                                      then Empty else At(old(g.cells), p)
      {
        if IsSearchMark(g.cells[y][x]) {
          g.cells := SetAt(g.cells, (x, y), Empty);
        }
        x := x + 1;
      }
      y := y + 1;
    }
    GridExt(g.cells, Cleared(old(g.cells)));
  }

  /**
   * Clearing the path twice is clearing it once: after the first pass
   * every Trace and Explored cell is already Empty, so the second changes no cell.
   */
  lemma ClearPathIdempotent(before: seq<seq<Content>>, once: seq<seq<Content>>, twice: seq<seq<Content>>)
    requires SameShape(once, before) && SameShape(twice, once)
    requires forall p: Pos :: InBounds(once, p) ==>
               At(once, p) == if IsSearchMark(At(before, p)) then Empty else At(before, p)
    requires forall p: Pos :: InBounds(twice, p) ==>
               At(twice, p) == if IsSearchMark(At(once, p)) then Empty else At(once, p)
    ensures twice == once
  {
    GridExt(twice, once);
  }
}
