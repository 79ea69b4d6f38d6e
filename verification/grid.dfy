/**
 * The grid model (src/grid/mod.rs): a rectangular matrix of cell contents,
 * indexed `cells[y][x]` with positions written `(x, y)`, plus the tracked
 * positions of the car and of the goal.
 */
module GridModel {
  import opened Options
  import opened Content

  /** A position `(x, y)`: column first, row second. */
  type Pos = (nat, nat)

  /** At least one row, at least one column, and every row as long as the first. */
  predicate Rectangular(cells: seq<seq<Content>>)
  {
    |cells| > 0 && |cells[0]| > 0 &&
    forall y :: 0 <= y < |cells| ==> |cells[y]| == |cells[0]|
  }

  predicate InBounds(cells: seq<seq<Content>>, p: Pos)
  {
    p.1 < |cells| && p.0 < |cells[p.1]|
  }

  /** Two matrices with the same rows and the same row lengths. */
  predicate SameShape(a: seq<seq<Content>>, b: seq<seq<Content>>)
  {
    |a| == |b| && forall y :: 0 <= y < |a| ==> |a[y]| == |b[y]|
  }

  function At(cells: seq<seq<Content>>, p: Pos): Content
    requires InBounds(cells, p)
  {
    cells[p.1][p.0]
  }

  /** Two matrices of the same shape with walls on exactly the same cells. */
  ghost predicate SameWalls(a: seq<seq<Content>>, b: seq<seq<Content>>)
  {
    SameShape(a, b) && forall p: Pos :: InBounds(a, p) ==> InBounds(b, p) && (At(a, p) == Wall <==> At(b, p) == Wall)
  }

  lemma SameWallsTrans(a: seq<seq<Content>>, b: seq<seq<Content>>, c: seq<seq<Content>>)
    requires SameWalls(a, b) && SameWalls(b, c)
    ensures SameWalls(a, c)
  {
  }

  /** The matrix with the one cell at `p` overwritten by `c`. */
  function SetAt(cells: seq<seq<Content>>, p: Pos, c: Content): (r: seq<seq<Content>>)
    requires InBounds(cells, p)
    ensures SameShape(r, cells)
    ensures At(r, p) == c
    ensures forall q: Pos :: InBounds(cells, q) && q != p ==> At(r, q) == At(cells, q)
  {
    cells[p.1 := cells[p.1][p.0 := c]]
  }

  /** Two matrices of the same shape that agree at every position are equal. */
  lemma GridExt(a: seq<seq<Content>>, b: seq<seq<Content>>)
    requires SameShape(a, b)
    requires forall p: Pos :: InBounds(a, p) ==> At(a, p) == At(b, p)
    ensures a == b
  {
    forall y | 0 <= y < |a|
      ensures a[y] == b[y]
    {
      forall x | 0 <= x < |a[y]|
        ensures a[y][x] == b[y][x]
      {
        assert At(a, (x, y)) == At(b, (x, y));
      }
    }
  }

  /**
   * The placement invariant for one kind of content: a tracked position lies
   * in the grid and holds `c`, and every cell holding `c` is the tracked one.
   */
  ghost predicate Tracks(cells: seq<seq<Content>>, pos: Option<Pos>, c: Content)
  {
    (pos.Some? ==> InBounds(cells, pos.value) && At(cells, pos.value) == c) &&
    (forall p: Pos :: InBounds(cells, p) && At(cells, p) == c ==> pos == Some(p))
  }

  ghost predicate ValidState(cells: seq<seq<Content>>, car: Option<Pos>, goal: Option<Pos>)
  {
    Rectangular(cells) && Tracks(cells, car, Car) && Tracks(cells, goal, Goal)
  }

  /** Overwriting a cell that neither holds nor is tracked as `k` by other content keeps the tracking. */
  lemma TracksOther(cells: seq<seq<Content>>, p: Pos, c: Content, pos: Option<Pos>, k: Content)
    requires InBounds(cells, p) && Tracks(cells, pos, k) && c != k && pos != Some(p)
    ensures Tracks(SetAt(cells, p, c), pos, k)
  {
  }

  /** Overwriting the tracked cell of `k` by other content leaves `k` untracked. */
  lemma TracksRemove(cells: seq<seq<Content>>, p: Pos, c: Content, k: Content)
    requires InBounds(cells, p) && Tracks(cells, Some(p), k) && c != k
    ensures Tracks(SetAt(cells, p, c), None, k)
  {
  }

  /** Writing `k` into a grid where `k` is untracked makes `p` the tracked cell. */
  lemma TracksPlace(cells: seq<seq<Content>>, p: Pos, k: Content)
    requires InBounds(cells, p) && Tracks(cells, None, k)
    ensures Tracks(SetAt(cells, p, k), Some(p), k)
  {
  }

  /** Two writes to different cells commute. */
  lemma SetAtCommute(cells: seq<seq<Content>>, p: Pos, a: Content, q: Pos, b: Content)
    requires InBounds(cells, p) && InBounds(cells, q) && p != q
    ensures SetAt(SetAt(cells, p, a), q, b) == SetAt(SetAt(cells, q, b), p, a)
  {
    var l, r := SetAt(SetAt(cells, p, a), q, b), SetAt(SetAt(cells, q, b), p, a);
    assert |l| == |r|;
    forall y | 0 <= y < |l|
      ensures l[y] == r[y]
    {
      assert |l[y]| == |r[y]|;
      forall x | 0 <= x < |l[y]|
        ensures l[y][x] == r[y][x]
      {
        assert l[y][x] == At(l, (x, y)) && r[y][x] == At(r, (x, y));
      }
    }
  }

  /**
   * The cells after writing `k` at `p` and then blanking the previously
   * tracked cell of `k`, as `set_car` and `set_goal` do.
   */
  function Place(cells: seq<seq<Content>>, p: Pos, k: Content, pos: Option<Pos>): seq<seq<Content>>
    requires InBounds(cells, p) && (pos.Some? ==> InBounds(cells, pos.value))
  {
    var written := SetAt(cells, p, k);
    if pos.Some? then SetAt(written, pos.value, Empty) else written
  }

  /**
   * Placing `k` on a cell that does not hold it moves the tracking of `k` to
   * `p`, forgets the other content if `p` held it, and changes no other cell.
   */
  lemma PlaceTracks(cells: seq<seq<Content>>, p: Pos, k: Content, pos: Option<Pos>,
                    other: Content, otherPos: Option<Pos>)
    requires InBounds(cells, p) && At(cells, p) != k
    requires k != Empty && other != Empty && k != other
    requires Tracks(cells, pos, k) && Tracks(cells, otherPos, other)
    ensures SameShape(Place(cells, p, k, pos), cells)
    ensures Tracks(Place(cells, p, k, pos), Some(p), k)
    ensures Tracks(Place(cells, p, k, pos), if At(cells, p) == other then None else otherPos, other)
    ensures forall q: Pos :: InBounds(cells, q) ==>
              At(Place(cells, p, k, pos), q) ==
                if q == p then k else if pos == Some(q) then Empty else At(cells, q)
  {
    if otherPos == Some(p) {
      TracksRemove(cells, p, k, other);
    } else {
      TracksOther(cells, p, k, otherPos, other);
    }
    if pos.Some? {
      var old_ := pos.value;
      SetAtCommute(cells, p, k, old_, Empty);
      TracksRemove(cells, old_, Empty, k);
      TracksPlace(SetAt(cells, old_, Empty), p, k);
      TracksOther(SetAt(cells, p, k), old_, Empty, if otherPos == Some(p) then None else otherPos, other);
    } else {
      TracksPlace(cells, p, k);
    }
  }

  /** Placing the car on a cell that does not hold it keeps the placement invariant, forgetting a goal it covers. */
  lemma PlaceCarValid(cells: seq<seq<Content>>, p: Pos, car: Option<Pos>, goal: Option<Pos>)
    requires ValidState(cells, car, goal) && InBounds(cells, p) && At(cells, p) != Car
    ensures ValidState(Place(cells, p, Car, car), Some(p), if At(cells, p) == Goal then None else goal)
  {
    PlaceTracks(cells, p, Car, car, Goal, goal);
  }

  /** Placing the goal on a cell that does not hold it keeps the placement invariant, forgetting a car it covers. */
  lemma PlaceGoalValid(cells: seq<seq<Content>>, p: Pos, car: Option<Pos>, goal: Option<Pos>)
    requires ValidState(cells, car, goal) && InBounds(cells, p) && At(cells, p) != Goal
    ensures ValidState(Place(cells, p, Goal, goal), if At(cells, p) == Car then None else car, Some(p))
  {
    PlaceTracks(cells, p, Goal, goal, Car, car);
  }

  /**
   * A grid whose cells are those of `a` that it keeps: a tracked position it
   * drops is forgotten, any other is kept.
   */
  lemma TracksAfterShrink(a: seq<seq<Content>>, b: seq<seq<Content>>, pos: Option<Pos>, k: Content)
    requires Tracks(a, pos, k)
    requires forall p: Pos :: InBounds(b, p) ==> InBounds(a, p) && At(b, p) == At(a, p)
    ensures Tracks(b, if pos.Some? && !InBounds(b, pos.value) then None else pos, k)
  {
  }

  /** A grid that keeps every cell of `a` and adds only Empty cells keeps the tracking. */
  lemma TracksAfterGrow(a: seq<seq<Content>>, b: seq<seq<Content>>, pos: Option<Pos>, k: Content)
    requires Tracks(a, pos, k) && k != Empty
    requires forall p: Pos :: InBounds(a, p) ==> InBounds(b, p)
    requires forall p: Pos :: InBounds(b, p) ==> At(b, p) == if InBounds(a, p) then At(a, p) else Empty
    ensures Tracks(b, pos, k)
  {
  }

  /** A row truncated to, or padded with Empty up to, `n` cells. */
  function ResizedRow(row: seq<Content>, n: nat): (r: seq<Content>)
    ensures |r| == n
    ensures forall x :: 0 <= x < n ==> r[x] == if x < |row| then row[x] else Empty
  {
    if n <= |row| then row[..n] else row + seq(n - |row|, _ => Empty)
  }

  /** Every row truncated to its first `n` cells, one row after the other. */
  method TruncateRows(cells: seq<seq<Content>>, n: nat) returns (rows: seq<seq<Content>>)
    requires forall y :: 0 <= y < |cells| ==> n <= |cells[y]|
    ensures |rows| == |cells|
    ensures forall y :: 0 <= y < |rows| ==> rows[y] == ResizedRow(cells[y], n)
  {
    rows := cells;
    var i := 0;
    while i < |rows|
      invariant 0 <= i <= |rows| == |cells|
      invariant forall y :: 0 <= y < i ==> rows[y] == cells[y][..n]
      invariant forall y :: i <= y < |rows| ==> rows[y] == cells[y]
    {
      rows := rows[i := rows[i][..n]];
      i := i + 1;
    }
  }

  /** Every row with `extra` Empty cells pushed at its end, one row after the other. */
  method PadRows(cells: seq<seq<Content>>, extra: nat) returns (rows: seq<seq<Content>>)
    ensures |rows| == |cells|
    ensures forall y :: 0 <= y < |rows| ==> rows[y] == ResizedRow(cells[y], |cells[y]| + extra)
  {
    rows := cells;
    var i := 0;
    while i < |rows|
      invariant 0 <= i <= |rows| == |cells|
      invariant forall y :: 0 <= y < i ==> rows[y] == cells[y] + seq(extra, _ => Empty)
      invariant forall y :: i <= y < |rows| ==> rows[y] == cells[y]
    {
      rows := rows[i := rows[i] + seq(extra, _ => Empty)];
      i := i + 1;
    }
  }

  /**
   * Resizing every row to `n` cells keeps the cells left of the new edge,
   * adds only Empty ones, and keeps the placement invariant once a car or
   * goal beyond the edge is forgotten.
   */
  lemma ResizedRowsValid(cells: seq<seq<Content>>, rows: seq<seq<Content>>, n: nat, car: Option<Pos>, goal: Option<Pos>)
    requires ValidState(cells, car, goal) && n != 0 && |rows| == |cells|
    requires forall y :: 0 <= y < |rows| ==> rows[y] == ResizedRow(cells[y], n)
    ensures Rectangular(rows) && |rows[0]| == n
    ensures forall p: Pos :: InBounds(rows, p) ==> At(rows, p) == if p.0 < |cells[0]| then At(cells, p) else Empty
    ensures ValidState(rows, if car.Some? && car.value.0 >= n then None else car,
                             if goal.Some? && goal.value.0 >= n then None else goal)
  {
    assert forall p: Pos :: InBounds(rows, p) ==> At(rows, p) == if InBounds(cells, p) then At(cells, p) else Empty;
    if n < |cells[0]| {
      TracksAfterShrink(cells, rows, car, Car);
      TracksAfterShrink(cells, rows, goal, Goal);
    } else {
      TracksAfterGrow(cells, rows, car, Car);
      TracksAfterGrow(cells, rows, goal, Goal);
    }
  }

  /**
   * Keeping the first `m` rows, or appending all-Empty rows of the same width
   * up to `m`, keeps the cells above the new edge and the placement invariant
   * once a car or goal below the edge is forgotten.
   */
  lemma ResizedHeightValid(cells: seq<seq<Content>>, rows: seq<seq<Content>>, m: nat, car: Option<Pos>, goal: Option<Pos>)
    requires ValidState(cells, car, goal) && m != 0 && |rows| == m
    requires forall y :: 0 <= y < m ==> rows[y] == if y < |cells| then cells[y] else seq(|cells[0]|, _ => Empty)
    ensures Rectangular(rows) && |rows[0]| == |cells[0]|
    ensures forall p: Pos :: InBounds(rows, p) ==> At(rows, p) == if p.1 < |cells| then At(cells, p) else Empty
    ensures ValidState(rows, if car.Some? && car.value.1 >= m then None else car,
                             if goal.Some? && goal.value.1 >= m then None else goal)
  {
    assert forall p: Pos :: InBounds(rows, p) ==> At(rows, p) == if InBounds(cells, p) then At(cells, p) else Empty;
    if m < |cells| {
      TracksAfterShrink(cells, rows, car, Car);
      TracksAfterShrink(cells, rows, goal, Goal);
    } else {
      TracksAfterGrow(cells, rows, car, Car);
      TracksAfterGrow(cells, rows, goal, Goal);
    }
  }

  /** The row-major index that `get_random_pos` inverts. */
  function RowMajorIndex(p: Pos, n: nat): nat
  {
    p.1 * n + p.0
  }

  /** Sign facts about a product with a natural factor. */
  lemma MulSign(d: int, n: nat)
    ensures d >= 1 ==> d * n >= n
    ensures d <= 0 ==> d * n <= 0
  {
    if d >= 1 {
      assert d * n == (d - 1) * n + n;
    }
  }

  lemma RowMajorBelow(p: Pos, m: nat, n: nat)
    requires p.0 < n && p.1 < m
    ensures RowMajorIndex(p, n) < m * n
  {
    MulSign(m - p.1, n);
    assert (m - p.1) * n == m * n - p.1 * n;
  }

  /**
   * `get_random_pos` with the random draw passed in: index `idx` of a grid
   * with `m` rows and `n` columns, counted row by row, as a position.
   */
  function GetRandomPos(idx: nat, m: nat, n: nat): (r: Pos)
    requires n > 0 && idx < m * n
    ensures r.0 < n && r.1 < m
    ensures RowMajorIndex(r, n) == idx
  {
    var y := idx / n;
    var x := idx % n;
    assert idx == y * n + x;
    assert y < m by {
      MulSign(m - y, n);
      assert (m - y) * n == m * n - y * n;
    }
    (x, y)
  }

  /** Every in-bounds position is the image of its own row-major index. */
  lemma {:induction false} GetRandomPosOfIndex(p: Pos, m: nat, n: nat)
    requires p.0 < n && p.1 < m
    ensures RowMajorIndex(p, n) < m * n
    ensures GetRandomPos(RowMajorIndex(p, n), m, n) == p
  {
    RowMajorBelow(p, m, n);
    var q := GetRandomPos(RowMajorIndex(p, n), m, n);
    var d := q.1 - p.1;
    assert d * n == p.0 - q.0;
    MulSign(d, n);
    MulSign(-d, n);
    assert (-d) * n == -(d * n);
  }

  /** Distinct indices below `m * n` give distinct positions. */
  lemma GetRandomPosInjective(i: nat, j: nat, m: nat, n: nat)
    requires n > 0 && i < m * n && j < m * n && i != j
    ensures GetRandomPos(i, m, n) != GetRandomPos(j, m, n)
  {
  }

  /** The matrix `clear` writes: the same shape, every cell Empty. */
  function Blank(m: nat, n: nat): (r: seq<seq<Content>>)
    ensures |r| == m && forall y :: 0 <= y < m ==> |r[y]| == n
    ensures forall p: Pos :: InBounds(r, p) ==> At(r, p) == Empty
  {
    seq(m, _ => seq(n, _ => Empty))
  }

  /**
   * `clear` blanks the cells and keeps the tracked positions: once a car is
   * tracked, the resulting state breaks the placement invariant.
   */
  lemma ClearLeavesStaleCar(m: nat, n: nat, car: Option<Pos>, goal: Option<Pos>)
    requires car.Some?
    ensures !ValidState(Blank(m, n), car, goal)
  {
    var b := Blank(m, n);
    if InBounds(b, car.value) {
      assert At(b, car.value) == Empty;
    }
  }

  class Grid {
    var cells: seq<seq<Content>>
    var goal: Option<Pos>
    var car: Option<Pos>

    ghost predicate Valid()
      reads this
    {
      ValidState(cells, car, goal)
    }

    /** `new(m, n)`: an all-Empty grid of `m` rows and `n` columns, nothing tracked. */
    constructor (m: nat, n: nat)
      requires m != 0 && n != 0
      ensures Valid()
      ensures |cells| == m && |cells[0]| == n
      ensures forall p: Pos :: InBounds(cells, p) ==> At(cells, p) == Empty
      ensures car == None && goal == None
    {
      cells := Blank(m, n);
      goal := None;
      car := None;
    }

    /** The number of rows. */
    function M(): (r: nat)
      reads this
      requires Rectangular(cells)
      ensures r > 0 && forall p: Pos :: InBounds(cells, p) ==> p.1 < r
    {
      |cells|
    }

    /** The number of columns, the length of every row. */
    function N(): (r: nat)
      reads this
      requires Rectangular(cells)
      ensures r > 0 && forall p: Pos :: InBounds(cells, p) <==> p.1 < M() && p.0 < r
    {
      |cells[0]|
    }

    /** Whether a goal is tracked: exactly when some cell holds the goal. */
    function HasGoal(): (r: bool)
      reads this
      requires Valid()
      ensures r <==> exists p: Pos :: InBounds(cells, p) && At(cells, p) == Goal
    {
      match goal
      case None => false
      case Some(_) => true
    }

    /** Whether a car is tracked: exactly when some cell holds the car. */
    function HasCar(): (r: bool)
      reads this
      requires Valid()
      ensures r <==> exists p: Pos :: InBounds(cells, p) && At(cells, p) == Car
    {
      match car
      case None => false
      case Some(_) => true
    }

    /** `check_car_valididy`: forget a car that lies outside the grid. */
    method CheckCarValidity()
      requires Rectangular(cells)
      modifies this`car
      ensures car == if old(car).Some? && !InBounds(cells, old(car).value) then None else old(car)
    {
      if car.Some? {
        var pos := car.value;
        if pos.0 >= N() || pos.1 >= M() {
          car := None;
        }
      }
    }

    /** `check_goal_valididy`: forget a goal that lies outside the grid. */
    method CheckGoalValidity()
      requires Rectangular(cells)
      modifies this`goal
      ensures goal == if old(goal).Some? && !InBounds(cells, old(goal).value) then None else old(goal)
    {
      if goal.Some? {
        var pos := goal.value;
        if pos.0 >= N() || pos.1 >= M() {
          goal := None;
        }
      }
    }

    /**
     * `set_width(n)`: every row is truncated to, or padded with Empty up to,
     * `n` cells; a car or goal that falls outside is forgotten.
     */
    method SetWidth(n: nat)
      requires Valid() && n != 0
      modifies this
      ensures Valid()
      ensures |cells| == old(|cells|) && N() == n
      ensures n == old(N()) ==> cells == old(cells)
      ensures forall p: Pos :: InBounds(cells, p) ==>
                At(cells, p) == if p.0 < old(N()) then old(At(cells, p)) else Empty
      ensures car == if old(car).Some? && old(car).value.0 >= n then None else old(car)
      ensures goal == if old(goal).Some? && old(goal).value.0 >= n then None else old(goal)
    {
      var width := |cells[0]|;
      if n == width {
        return;
      }
      if n < width {
        var rows := TruncateRows(cells, n);
        ResizedRowsValid(cells, rows, n, car, goal);
        cells := rows;
        CheckCarValidity();
        CheckGoalValidity();
      } else {
        var rows := PadRows(cells, n - width);
        ResizedRowsValid(cells, rows, n, car, goal);
        cells := rows;
      }
    }

    /**
     * `set_height(m)`: rows are dropped from the bottom, or all-Empty rows
     * appended, until there are `m`; a car or goal that falls outside is
     * forgotten.
     */
    method SetHeight(m: nat)
      requires Valid() && m != 0
      modifies this
      ensures Valid()
      ensures M() == m && N() == old(N())
      ensures m == old(M()) ==> cells == old(cells)
      ensures forall p: Pos :: InBounds(cells, p) ==>
                At(cells, p) == if p.1 < old(M()) then old(At(cells, p)) else Empty
      ensures car == if old(car).Some? && old(car).value.1 >= m then None else old(car)
      ensures goal == if old(goal).Some? && old(goal).value.1 >= m then None else old(goal)
    {
      var height := |cells|;
      if m == height {
        return;
      } else if m < height {
        ResizedHeightValid(cells, cells[..m], m, car, goal);
        cells := cells[..m];
        CheckCarValidity();
        CheckGoalValidity();
      } else {
        var width := |cells[0]|;
        var rows := cells;
        while |rows| < m
          invariant height <= |rows| <= m
          invariant rows[..height] == cells
          invariant forall y :: height <= y < |rows| ==> rows[y] == seq(width, _ => Empty)
        {
          rows := rows + [seq(width, _ => Empty)];
        }
        ResizedHeightValid(cells, rows, m, car, goal);
        cells := rows;
      }
    }

    /** `set_wall(x, y)`: the cell becomes Wall; a car or goal on it is forgotten. */
    method SetWall(x: nat, y: nat)
      requires Valid() && InBounds(cells, (x, y))
      modifies this
      ensures Valid()
      ensures cells == SetAt(old(cells), (x, y), Wall)
      ensures car == if old(At(cells, (x, y))) == Car then None else old(car)
      ensures goal == if old(At(cells, (x, y))) == Goal then None else old(goal)
    {
      match cells[y][x] {
        case Car => car := None;
        case Goal => goal := None;
        case _ =>
      }
      cells := SetAt(cells, (x, y), Wall);
    }

    /**
     * `set_goal(x, y)`: nothing changes on a Goal cell; otherwise a car on the
     * cell is forgotten, the cell becomes Goal, the previous goal cell becomes
     * Empty and the goal is tracked at `(x, y)`.
     */
    method SetGoal(x: nat, y: nat)
      requires Valid() && InBounds(cells, (x, y))
      modifies this
      ensures Valid()
      ensures old(At(cells, (x, y))) == Goal ==>
                cells == old(cells) && car == old(car) && goal == old(goal)
      ensures old(At(cells, (x, y))) != Goal ==>
                && goal == Some((x, y))
                && car == (if old(At(cells, (x, y))) == Car then None else old(car))
                && SameShape(cells, old(cells))
                && forall p: Pos :: InBounds(cells, p) ==>
                     At(cells, p) == if p == (x, y) then Goal
                                     else if old(goal) == Some(p) then Empty
                                     else old(At(cells, p))
    {
      var prev := cells[y][x];
      if prev == Goal {
        return;
      }
      PlaceTracks(cells, (x, y), Goal, goal, Car, car);
      PlaceGoalValid(cells, (x, y), car, goal);
      if prev == Car {
        car := None;
      }
      ghost var placed := Place(cells, (x, y), Goal, goal);
      cells := SetAt(cells, (x, y), Goal);
      if goal.Some? {
        var oldGoal := goal.value;
        cells := SetAt(cells, oldGoal, Empty);
      }
      assert cells == placed;
      goal := Some((x, y));
    }

    /**
     * `set_car(x, y)`: nothing changes on a Car cell; otherwise a goal on the
     * cell is forgotten, the cell becomes Car, the previous car cell becomes
     * Empty and the car is tracked at `(x, y)`.
     */
    method SetCar(x: nat, y: nat)
      requires Valid() && InBounds(cells, (x, y))
      modifies this
      ensures Valid()
      ensures old(At(cells, (x, y))) == Car ==>
                cells == old(cells) && car == old(car) && goal == old(goal)
      ensures old(At(cells, (x, y))) != Car ==>
                && car == Some((x, y))
                && goal == (if old(At(cells, (x, y))) == Goal then None else old(goal))
                && SameShape(cells, old(cells))
                && forall p: Pos :: InBounds(cells, p) ==>
                     At(cells, p) == if p == (x, y) then Car
                                     else if old(car) == Some(p) then Empty
                                     else old(At(cells, p))
    {
      var prev := cells[y][x];
      if prev == Car {
        return;
      }
      PlaceTracks(cells, (x, y), Car, car, Goal, goal);
      PlaceCarValid(cells, (x, y), car, goal);
      if prev == Goal {
        goal := None;
      }
      ghost var placed := Place(cells, (x, y), Car, car);
      cells := SetAt(cells, (x, y), Car);
      if car.Some? {
        var oldCar := car.value;
        cells := SetAt(cells, oldCar, Empty);
      }
      assert cells == placed;
      car := Some((x, y));
    }

    /** `set_empty(x, y)`: the cell becomes Empty; a car or goal on it is forgotten. */
    method SetEmpty(x: nat, y: nat)
      requires Valid() && InBounds(cells, (x, y))
      modifies this
      ensures Valid()
      ensures cells == SetAt(old(cells), (x, y), Empty)
      ensures car == if old(At(cells, (x, y))) == Car then None else old(car)
      ensures goal == if old(At(cells, (x, y))) == Goal then None else old(goal)
    {
      match cells[y][x] {
        case Goal => goal := None;
        case Car => car := None;
        case _ =>
      }
      cells := SetAt(cells, (x, y), Empty);
    }

    /**
     * `clear`: every cell becomes Empty and the tracked positions are kept,
     * so a tracked car or goal no longer matches its cell (ClearLeavesStaleCar).
     */
    method Clear()
      requires Rectangular(cells)
      modifies this`cells
      ensures cells == Blank(old(|cells|), old(|cells[0]|))
    {
      cells := Blank(|cells|, |cells[0]|);
    }

    /**
     * `fill_random_walls` with the random draws passed in: the cell with
     * row-major index `i` becomes Wall when `rolls[i] <= wallPercentage`,
     * otherwise Empty.
     */
    method FillRandomWalls(wallPercentage: nat, rolls: seq<nat>)
      requires Rectangular(cells) && |rolls| == M() * N()
      modifies this`cells
      ensures SameShape(cells, old(cells))
      ensures forall p: Pos :: InBounds(cells, p) ==>
                RowMajorIndex(p, N()) < |rolls| &&
                At(cells, p) == if rolls[RowMajorIndex(p, N())] <= wallPercentage then Wall else Empty
    {
      var m, n := |cells|, |cells[0]|;
      var rows := cells;
      var y := 0;
      while y < m
        invariant 0 <= y <= m
        invariant cells == old(cells)
        invariant SameShape(rows, cells)
        invariant forall p: Pos :: InBounds(rows, p) && p.1 < y ==>
                    RowMajorIndex(p, n) < |rolls| &&
                    At(rows, p) == if rolls[RowMajorIndex(p, n)] <= wallPercentage then Wall else Empty
      {
        var x := 0;
        while x < n
          invariant 0 <= x <= n && y < m
          invariant cells == old(cells)
          invariant SameShape(rows, cells)
          invariant forall p: Pos :: InBounds(rows, p) && (p.1 < y || (p.1 == y && p.0 < x)) ==>
                      RowMajorIndex(p, n) < |rolls| &&
                      At(rows, p) == if rolls[RowMajorIndex(p, n)] <= wallPercentage then Wall else Empty
        {
          RowMajorBelow((x, y), m, n);
          var c := if rolls[y * n + x] <= wallPercentage then Wall else Empty;
          rows := SetAt(rows, (x, y), c);
          x := x + 1;
        }
        y := y + 1;
      }
      cells := rows;
    }

    /**
     * `fill_random(p)` with the random draws passed in: walls per
     * FillRandomWalls, the car at index `carIndex` and, unless the grid has a
     * single cell, the goal at index `goalIndex`, which must differ from the
     * car's (the source draws again until it does).
     */
    method FillRandom(wallPercentage: nat, rolls: seq<nat>, carIndex: nat, goalIndex: nat)
      requires Rectangular(cells) && wallPercentage <= 100
      requires |rolls| == M() * N() && carIndex < M() * N() && goalIndex < M() * N()
      requires M() * N() != 1 ==> goalIndex != carIndex
      modifies this
      ensures Valid()
      ensures SameShape(cells, old(cells))
      ensures car == Some(GetRandomPos(carIndex, M(), N()))
      ensures goal == if M() * N() != 1 then Some(GetRandomPos(goalIndex, M(), N())) else None
      ensures goal != car
      ensures forall p: Pos :: InBounds(cells, p) ==>
                RowMajorIndex(p, N()) < |rolls| &&
                At(cells, p) == if car == Some(p) then Car
                                else if goal == Some(p) then Goal
                                else if rolls[RowMajorIndex(p, N())] <= wallPercentage then Wall
                                else Empty
    {
      car := None;
      goal := None;
      FillRandomWalls(wallPercentage, rolls);
      var carPos := GetRandomPos(carIndex, M(), N());
      SetCar(carPos.0, carPos.1);
      if M() * N() != 1 {
        var goalPos := GetRandomPos(goalIndex, M(), N());
        GetRandomPosInjective(carIndex, goalIndex, M(), N());
        SetGoal(goalPos.0, goalPos.1);
      }
    }
  }
}
