/**
 * Maze carving and dot placement of snake.py. The module-level state of the
 * script (the grid `maze`, the list `DIRECTIONS`, the list `dots` and the
 * random generator) is the state of one Game object. The grid is indexed
 * maze[y, x] with x < COLS a column and y < ROWS a row; cells are (x, y)
 * pairs here, as in the source. 0 is a wall, 1 a path.
 */
module Snake {

  const ROWS: nat := 50
  const COLS: nat := 50

  type Cell = (int, int)

  /** DIRECTIONS before any shuffle: right, left, down, up. */
  const DIRECTIONS: seq<(int, int)> := [(1, 0), (-1, 0), (0, 1), (0, -1)]

  const START: Cell := (0, 0)
  const END: Cell := (COLS - 1, ROWS - 1)

  /** A dot: its cell and its colour (r, g, b). */
  datatype Dot = Dot(x: int, y: int, color: (int, int, int))

  predicate IsInBounds(x: int, y: int)
  {
    0 <= x < COLS && 0 <= y < ROWS
  }

  ghost function AllCells(): set<Cell>
  {
    set x, y | 0 <= x < COLS && 0 <= y < ROWS :: (x, y)
  }

  lemma InBoundsIsGridCell(x: int, y: int)
    ensures IsInBounds(x, y) <==> (x, y) in AllCells()
  {
    if (x, y) in AllCells() {
      var x', y' :| 0 <= x' < COLS && 0 <= y' < ROWS && (x, y) == (x', y');
    }
  }

  predicate Adjacent(a: Cell, b: Cell)
  {
    (a.0 == b.0 && (a.1 - b.1 == 1 || b.1 - a.1 == 1)) ||
    (a.1 == b.1 && (a.0 - b.0 == 1 || b.0 - a.0 == 1))
  }

  /** A walk through open cells: every cell in `open`, each step to a 4-neighbour. */
  ghost predicate IsWalk(open: set<Cell>, p: seq<Cell>)
  {
    |p| > 0 &&
    (forall i :: 0 <= i < |p| ==> p[i] in open) &&
    (forall i :: 0 <= i < |p| - 1 ==> Adjacent(p[i], p[i + 1]))
  }

  ghost predicate ReachesStart(open: set<Cell>, c: Cell)
  {
    exists p :: IsWalk(open, p) && p[0] == c && p[|p| - 1] == START
  }

  /**
   * The carving witness: every open cell has a rank, and every open cell
   * other than START has an open 4-neighbour of smaller rank (the cell it
   * was carved from).
   */
  ghost predicate Linked(open: set<Cell>, parent: map<Cell, Cell>, rank: map<Cell, nat>)
  {
    forall c :: c in open ==>
      c in rank &&
      (c != START ==>
         c in parent && parent[c] in open && parent[c] in rank &&
         Adjacent(parent[c], c) && rank[parent[c]] < rank[c])
  }

  /** Following parents from an open cell leads through open cells to START. */
  lemma {:induction false} LinkedReachesStart(open: set<Cell>, parent: map<Cell, Cell>, rank: map<Cell, nat>, c: Cell)
    requires Linked(open, parent, rank) && c in open
    ensures ReachesStart(open, c)
    decreases rank[c]
  {
    if c == START {
      assert IsWalk(open, [c]);
    } else {
      var q := parent[c];
      LinkedReachesStart(open, parent, rank, q);
      var p :| IsWalk(open, p) && p[0] == q && p[|p| - 1] == START;
      var p' := [c] + p;
      assert p'[1..] == p;
      assert IsWalk(open, p');
    }
  }

  /**
   * A step of two from (x, y) in one of the DIRECTIONS, both ends in bounds:
   * the midpoint is in bounds and joins the two ends. From a cell with both
   * coordinates even, the far end has both even and the midpoint one odd.
   */
  lemma StepOfTwo(x: int, y: int, dx: int, dy: int)
    requires (dx, dy) in DIRECTIONS && IsInBounds(x, y) && IsInBounds(x + dx * 2, y + dy * 2)
    ensures IsInBounds(x + dx, y + dy)
    ensures Adjacent((x, y), (x + dx, y + dy)) && Adjacent((x + dx, y + dy), (x + dx * 2, y + dy * 2))
    ensures (x + dx, y + dy) != (x, y) && (x + dx, y + dy) != (x + dx * 2, y + dy * 2)
    ensures x % 2 == 0 && y % 2 == 0 ==>
              ((x + dx) % 2 == 0 || (y + dy) % 2 == 0) && (x + dx * 2) % 2 == 0 && (y + dy * 2) % 2 == 0
  {
  }

  /** No cell of s has both coordinates odd. */
  ghost predicate NoOddOdd(s: set<Cell>)
  {
    forall c :: c in s ==> c.0 % 2 == 0 || c.1 % 2 == 0
  }

  lemma NoOddOddGrows(s0: set<Cell>, s1: set<Cell>, s2: set<Cell>, mid: Cell)
    requires s1 == s0 + {mid} && s1 <= s2
    requires NoOddOdd(s2 - s1) && (mid.0 % 2 == 0 || mid.1 % 2 == 0)
    ensures NoOddOdd(s2 - s0)
  {
  }

  lemma NoOddOddJoin(s0: set<Cell>, s1: set<Cell>, s2: set<Cell>)
    requires s0 <= s1 <= s2 && NoOddOdd(s1 - s0) && NoOddOdd(s2 - s1)
    ensures NoOddOdd(s2 - s0)
  {
  }

  /** Carving a grid cell (and maybe more) strictly shrinks the set of cells never carved. */
  lemma Unvisited(s0: set<Cell>, s1: set<Cell>, c: Cell)
    requires c in AllCells() && c !in s0 && s0 + {c} <= s1
    ensures AllCells() - s1 < AllCells() - s0
  {
    assert c in AllCells() - s0;
  }

  /** The largest x and y generate_dot may draw at a given progress. */
  function Window(progress: nat): (w: (nat, nat))
    ensures w.0 < COLS && w.1 < ROWS
    ensures w.0 <= progress && w.1 <= progress
    ensures w.0 == progress || w.0 == COLS - 1
    ensures w.1 == progress || w.1 == ROWS - 1
  {
    (Min(COLS - 1, START.0 + progress), Min(ROWS - 1, START.1 + progress))
  }

  function Min(a: int, b: int): (m: int)
    ensures m <= a && m <= b && (m == a || m == b)
  {
    if a <= b then a else b
  }

  /** The squared Euclidean distance from (x, y) to the dot d; zero exactly on d's cell. */
  function SquaredDistance(x: int, y: int, d: Dot): (r: nat)
    ensures r == 0 <==> x == d.x && y == d.y
  {
    var dx, dy := x - d.x, y - d.y;
    assert dx * dx >= 0 && dy * dy >= 0;
    assert dx != 0 ==> dx * dx > 0;
    assert dy != 0 ==> dy * dy > 0;
    dx * dx + dy * dy
  }

  /**
   * generate_dot's test math.sqrt(dist2) < min_distance, stated on integers
   * (see SqrtTest): never true for a minimum distance of zero or below.
   */
  predicate Closer(dist2: nat, minDistance: int)
  {
    minDistance > 0 && dist2 < minDistance * minDistance
  }

  /** The integer test agrees with the square-root test for every minimum distance. */
  lemma SqrtTest(dist2: nat, r: real, minDistance: int)
    requires r >= 0.0 && r * r == dist2 as real
    ensures r < minDistance as real <==> Closer(dist2, minDistance)
  {
    var m := minDistance as real;
    if minDistance > 0 {
      if r < m {
        assert r * r <= r * m < m * m;
      } else {
        assert r * r >= m * r >= m * m;
      }
      assert (minDistance * minDistance) as real == m * m;
    }
  }

  /** Some dot is closer than minDistance to (x, y). */
  predicate TooClose(dots: seq<Dot>, x: int, y: int, minDistance: int)
  {
    exists k :: 0 <= k < |dots| && Closer(SquaredDistance(x, y, dots[k]), minDistance)
  }

  /** With a positive minimum distance, a cell that is not too close carries no dot. */
  lemma NotTooCloseIsFree(dots: seq<Dot>, x: int, y: int, minDistance: int)
    requires minDistance > 0 && !TooClose(dots, x, y, minDistance)
    ensures forall d :: d in dots ==> (d.x, d.y) != (x, y)
  {
    forall d | d in dots ensures (d.x, d.y) != (x, y) {
      var k :| 0 <= k < |dots| && dots[k] == d;
      assert !Closer(SquaredDistance(x, y, dots[k]), minDistance);
    }
  }

  /** Every two dots are at least minDistance apart. */
  ghost predicate Spread(dots: seq<Dot>, minDistance: int)
  {
    forall i, j :: 0 <= i < j < |dots| ==> !Closer(SquaredDistance(dots[j].x, dots[j].y, dots[i]), minDistance)
  }

  /** Appending a dot that is not too close to any other keeps the dots spread. */
  lemma {:induction false} SpreadAppend(dots: seq<Dot>, d: Dot, minDistance: int)
    requires Spread(dots, minDistance) && !TooClose(dots, d.x, d.y, minDistance)
    ensures Spread(dots + [d], minDistance)
  {
    var ds := dots + [d];
    forall i, j | 0 <= i < j < |ds| ensures !Closer(SquaredDistance(ds[j].x, ds[j].y, ds[i]), minDistance) {
      if j == |dots| {
        assert ds[i] == dots[i];
      } else {
        assert ds[i] == dots[i] && ds[j] == dots[j];
      }
    }
  }

  class Game {
    /** The grid, maze[y, x]. */
    const maze: array2<int>
    /** The list DIRECTIONS, which every call of dfs shuffles in place. */
    const directions: array<(int, int)>
    /** The list dots. */
    var dots: seq<Dot>
    /** The random source: the value of the k-th draw. */
    const rng: nat -> nat
    var draws: nat

    /** The set of open cells, and the carving witness (see Linked). */
    ghost var carved: set<Cell>
    ghost var parent: map<Cell, Cell>
    ghost var rank: map<Cell, nat>
    ghost var clock: nat

    ghost predicate Valid()
      reads this, maze, directions
    {
      maze.Length0 == ROWS && maze.Length1 == COLS &&
      directions.Length == 4 &&
      multiset(directions[..]) == multiset(DIRECTIONS) &&
      (forall y, x :: 0 <= y < ROWS && 0 <= x < COLS ==>
         (maze[y, x] == 0 || maze[y, x] == 1) && (maze[y, x] == 1 <==> (x, y) in carved)) &&
      carved <= AllCells() &&
      Linked(carved, parent, rank) &&
      (forall c :: c in rank ==> rank[c] < clock)
    }

    /** The script's initial state: all walls, DIRECTIONS as written, no dots. */
    constructor (rng: nat -> nat)
      ensures Valid() && fresh(maze) && fresh(directions)
      ensures carved == {} && dots == [] && draws == 0 && this.rng == rng
      ensures directions[..] == DIRECTIONS
      ensures forall y, x :: 0 <= y < ROWS && 0 <= x < COLS ==> maze[y, x] == 0
    {
      maze := new int[ROWS, COLS]((y, x) => 0);
      directions := new (int, int)[4] (i requires 0 <= i < 4 => DIRECTIONS[i]);
      dots := [];
      this.rng := rng;
      draws := 0;
      carved := {};
      parent := map[];
      rank := map[];
      clock := 0;
      new;
      assert directions[..] == DIRECTIONS;
    }

    /** random.randrange(n): the next draw reduced below n. */
    method RandBelow(n: nat) returns (v: int)
      requires n > 0
      modifies this`draws
      ensures 0 <= v < n && v == rng(old(draws)) % n
      ensures draws == old(draws) + 1
    {
      v := rng(draws) % n;
      draws := draws + 1;
    }

    /** random.randint(a, b): a value in [a, b] from one draw. */
    method RandInt(a: int, b: int) returns (v: int)
      requires a <= b
      modifies this`draws
      ensures a <= v <= b && v == a + rng(old(draws)) % (b - a + 1)
      ensures draws == old(draws) + 1
    {
      var r := RandBelow(b - a + 1);
      v := a + r;
    }

    /** random.shuffle(DIRECTIONS): Fisher-Yates, one draw for each of i = 3, 2, 1. */
    method Shuffle()
      requires directions.Length == 4
      modifies this`draws, directions
      ensures multiset(directions[..]) == old(multiset(directions[..]))
      ensures draws == old(draws) + 3
    {
      var i := 3;
      while i > 0
        invariant 0 <= i <= 3
        invariant multiset(directions[..]) == old(multiset(directions[..]))
        invariant draws == old(draws) + (3 - i)
      {
        var j := RandBelow(i + 1);
        directions[i], directions[j] := directions[j], directions[i];
        i := i - 1;
      }
    }

    /** Every entry of the shuffled DIRECTIONS is still one of the four unit steps. */
    lemma StepsAreUnit(i: nat)
      requires directions.Length == 4 && multiset(directions[..]) == multiset(DIRECTIONS) && i < 4
      ensures directions[i] in DIRECTIONS
    {
      assert directions[i] in directions[..];
      assert directions[i] in multiset(directions[..]);
    }

    /**
     * Opens the wall cell (x, y) and records `via` (the open neighbour it
     * was carved from) as its parent.
     */
    method Carve(x: int, y: int, ghost via: Cell)
      requires Valid() && IsInBounds(x, y)
      requires maze[y, x] == 0 ==> (x, y) == START || (via in carved && Adjacent(via, (x, y)))
      modifies this, maze
      ensures Valid()
      ensures maze[y, x] == 1
      ensures forall j, i :: 0 <= j < ROWS && 0 <= i < COLS && (i, j) != (x, y) ==> maze[j, i] == old(maze[j, i])
      ensures carved == old(carved) + {(x, y)}
      ensures dots == old(dots) && draws == old(draws)
    {
      if maze[y, x] == 0 {
        assert (x, y) !in carved;
        parent := parent[(x, y) := via];
        rank := rank[(x, y) := clock];
        clock := clock + 1;
      }
      maze[y, x] := 1;
      carved := carved + {(x, y)};
      InBoundsIsGridCell(x, y);
    }

    /**
     * dfs(x, y): opens (x, y), shuffles DIRECTIONS, and for each entry of
     * the list, read afresh at each index since the recursive calls
     * reshuffle it, tries a step of two in that direction.
     */
    method Dfs(x: int, y: int, ghost via: Cell)
      requires Valid() && IsInBounds(x, y) && maze[y, x] == 0
      requires (x, y) == START || (via in carved && Adjacent(via, (x, y)))
      modifies this, maze, directions
      decreases AllCells() - carved, 0
      ensures Valid()
      ensures maze[y, x] == 1
      ensures forall j, i :: 0 <= j < ROWS && 0 <= i < COLS ==> maze[j, i] == old(maze[j, i]) || maze[j, i] == 1
      ensures old(carved) + {(x, y)} <= carved
      ensures x % 2 == 0 && y % 2 == 0 ==> NoOddOdd(carved - old(carved))
      ensures dots == old(dots)
    {
      InBoundsIsGridCell(x, y);
      Carve(x, y, via);
      Shuffle();
      for i := 0 to 4
        invariant Valid()
        invariant old(carved) + {(x, y)} <= carved
        invariant x % 2 == 0 && y % 2 == 0 ==> NoOddOdd(carved - old(carved))
        invariant dots == old(dots)
      {
        StepsAreUnit(i);
        Unvisited(old(carved), carved, (x, y));
        ghost var before := carved;
        TryStep(x, y, directions[i]);
        if x % 2 == 0 && y % 2 == 0 {
          NoOddOddJoin(old(carved), before, carved);
        }
      }
      OnlyOpened();
    }

    /**
     * The body of dfs's loop for the entry (dx, dy): if the cell two steps
     * away is in bounds and a wall, opens the midpoint and recurses there.
     */
    method TryStep(x: int, y: int, d: (int, int))
      requires Valid() && IsInBounds(x, y) && (x, y) in carved && d in DIRECTIONS
      modifies this, maze, directions
      decreases AllCells() - carved, 1
      ensures Valid()
      ensures old(carved) <= carved
      ensures forall j, i :: 0 <= j < ROWS && 0 <= i < COLS ==> maze[j, i] == old(maze[j, i]) || maze[j, i] == 1
      ensures IsInBounds(x + d.0 * 2, y + d.1 * 2) && old(maze[y + d.1 * 2, x + d.0 * 2]) == 0 ==>
                maze[y + d.1, x + d.0] == 1 && maze[y + d.1 * 2, x + d.0 * 2] == 1
      ensures !(IsInBounds(x + d.0 * 2, y + d.1 * 2) && old(maze[y + d.1 * 2, x + d.0 * 2]) == 0) ==>
                carved == old(carved) && draws == old(draws) && directions[..] == old(directions[..])
      ensures x % 2 == 0 && y % 2 == 0 ==> NoOddOdd(carved - old(carved))
      ensures dots == old(dots)
    {
      var (dx, dy) := d;
      var nx, ny := x + dx * 2, y + dy * 2;
      if IsInBounds(nx, ny) && maze[ny, nx] == 0 {
        StepOfTwo(x, y, dx, dy);
        Carve(x + dx, y + dy, (x, y));
        ghost var between := carved;
        Dfs(nx, ny, (x + dx, y + dy));
        if x % 2 == 0 && y % 2 == 0 {
          NoOddOddGrows(old(carved), between, carved, (x + dx, y + dy));
        }
        OnlyOpened();
      }
    }

    /** Growing the open set of a valid grid only turns walls into paths. */
    twostate lemma OnlyOpened()
      requires old(Valid()) && Valid() && old(carved) <= carved
      ensures forall j, i :: 0 <= j < ROWS && 0 <= i < COLS ==> maze[j, i] == old(maze[j, i]) || maze[j, i] == 1
    {
    }

    /**
     * The script's call dfs(0, 0) on the all-wall grid. Afterwards the
     * entrance is open, every open cell is joined to it through open cells,
     * and the exit END, whose coordinates are both odd, is still a wall.
     */
    method GenerateMaze()
      requires Valid() && carved == {}
      modifies this, maze, directions
      ensures Valid()
      ensures maze[0, 0] == 1
      ensures forall c :: c in carved ==> ReachesStart(carved, c)
      ensures forall j, i :: 0 <= j < ROWS && 0 <= i < COLS && j % 2 == 1 && i % 2 == 1 ==> maze[j, i] == 0
      ensures maze[END.1, END.0] == 0
      ensures dots == old(dots)
    {
      assert maze[0, 0] == 0 by { assert (0, 0) !in carved; }
      Dfs(0, 0, START);
      forall c | c in carved ensures ReachesStart(carved, c) {
        LinkedReachesStart(carved, parent, rank, c);
      }
      forall j, i | 0 <= j < ROWS && 0 <= i < COLS && j % 2 == 1 && i % 2 == 1 ensures maze[j, i] == 0 {
        assert (i, j) !in carved - old(carved);
      }
    }

    /**
     * generate_dot's scan of dots, stopping at the first dot closer than
     * minDistance to (x, y).
     */
    method CheckDistance(x: int, y: int, minDistance: int) returns (tooClose: bool)
      ensures tooClose <==> TooClose(dots, x, y, minDistance)
    {
      tooClose := false;
      var k := 0;
      while k < |dots|
        invariant 0 <= k <= |dots|
        invariant forall j :: 0 <= j < k ==> !Closer(SquaredDistance(x, y, dots[j]), minDistance)
      {
        var dist2 := SquaredDistance(x, y, dots[k]);
        if Closer(dist2, minDistance) {
          tooClose := true;
          break;
        }
        k := k + 1;
      }
    }

    /** The cell generate_dot draws at attempt k, its first draw being the base-th. */
    ghost function Candidate(base: nat, k: nat, xEnd: nat, yEnd: nat): (c: Cell)
      requires xEnd < COLS && yEnd < ROWS
      ensures 0 <= c.0 <= xEnd && 0 <= c.1 <= yEnd && IsInBounds(c.0, c.1)
    {
      (rng(base + 2 * k) % (xEnd + 1), rng(base + 2 * k + 1) % (yEnd + 1))
    }

    /** generate_dot keeps a candidate: an open cell, not too close to a dot. */
    predicate Accepts(dots: seq<Dot>, c: Cell, minDistance: int)
      requires maze.Length0 == ROWS && maze.Length1 == COLS && IsInBounds(c.0, c.1)
      reads maze
    {
      maze[c.1, c.0] == 1 && !TooClose(dots, c.0, c.1, minDistance)
    }

    /**
     * generate_dot(progress, min_distance, max_attempts): up to maxAttempts
     * times, draws a cell in the window [0, progress] x [0, progress] (cut
     * at the grid); the first open cell not too close to an existing dot
     * gets a dot of a random colour. The result is fixed by the draws: the
     * dot, if any, is at the first accepted candidate, and without a dot
     * every candidate was rejected.
     */
    method GenerateDot(progress: nat, minDistance: int := 5, maxAttempts: int := 100)
      requires maze.Length0 == ROWS && maze.Length1 == COLS
      modifies this`dots, this`draws
      ensures dots == old(dots) || (|dots| == |old(dots)| + 1 && dots[..|old(dots)|] == old(dots))
      ensures dots == old(dots) ==>
        draws == old(draws) + 2 * (if maxAttempts < 0 then 0 else maxAttempts) &&
        forall k :: 0 <= k < maxAttempts ==>
          !Accepts(dots, Candidate(old(draws), k, Window(progress).0, Window(progress).1), minDistance)
      ensures dots != old(dots) ==>
        var d := dots[|old(dots)|];
        0 <= d.color.0 <= 255 && 0 <= d.color.1 <= 255 && 0 <= d.color.2 <= 255 &&
        exists k :: 0 <= k < maxAttempts && draws == old(draws) + 2 * k + 5 &&
          (d.x, d.y) == Candidate(old(draws), k, Window(progress).0, Window(progress).1) &&
          Accepts(old(dots), (d.x, d.y), minDistance) &&
          forall j :: 0 <= j < k ==>
            !Accepts(old(dots), Candidate(old(draws), j, Window(progress).0, Window(progress).1), minDistance)
    {
      var xStart, xEnd := 0, Min(COLS - 1, START.0 + progress);
      var yStart, yEnd := 0, Min(ROWS - 1, START.1 + progress);
      assert (xEnd, yEnd) == Window(progress);
      var attempts := 0;
      while attempts < maxAttempts
        invariant 0 <= attempts <= (if maxAttempts < 0 then 0 else maxAttempts)
        invariant dots == old(dots) && draws == old(draws) + 2 * attempts
        invariant forall j :: 0 <= j < attempts ==> !Accepts(dots, Candidate(old(draws), j, xEnd, yEnd), minDistance)
      {
        var xLocal := RandInt(xStart, xEnd);
        var yLocal := RandInt(yStart, yEnd);
        assert (xLocal, yLocal) == Candidate(old(draws), attempts, xEnd, yEnd);
        // The script also asks that (x_local, y_local) not be in dots; dots
        // holds (x, y, colour) triples, so that test is always true.
        if maze[yLocal, xLocal] == 1 {
          var tooClose := CheckDistance(xLocal, yLocal, minDistance);
          if !tooClose {
            assert Accepts(dots, (xLocal, yLocal), minDistance);
            var r := RandInt(0, 255);
            var g := RandInt(0, 255);
            var b := RandInt(0, 255);
            ghost var k := attempts;
            dots := dots + [Dot(xLocal, yLocal, (r, g, b))];
            assert draws == old(draws) + 2 * k + 5;
            return;
          }
        }
        assert !Accepts(dots, (xLocal, yLocal), minDistance);
        attempts := attempts + 1;
      }
    }
  }
}
