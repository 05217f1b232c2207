/**
 * The path finder of astar.py: class MazeSolver with a grid of 0 (wall) and
 * 1 (path) cells, indexed maze[x][y] with x a row and y a column.
 * Cells are (row, column) pairs here, as in the source.
 */
module Astar {

  type Cell = (int, int)

  /** One heap entry: (priority, cell), as pushed onto open_set. */
  type Entry = (int, Cell)

  datatype Option<T> = None | Some(value: T)

  /** The neighbour offsets of a_star, in the order it tries them. */
  const STEPS: seq<(int, int)> := [(-1, 0), (1, 0), (0, -1), (0, 1)]

  function Abs(n: int): (a: nat)
  {
    if n < 0 then -n else n
  }

  function Neighbor(c: Cell, k: nat): (n: Cell)
    requires k < 4
  {
    (c.0 + STEPS[k].0, c.1 + STEPS[k].1)
  }

  /** a and b are 4-neighbours: one coordinate equal, the other off by one. */
  predicate Adjacent(a: Cell, b: Cell)
  {
    (a.0 == b.0 && (a.1 - b.1 == 1 || b.1 - a.1 == 1)) ||
    (a.1 == b.1 && (a.0 - b.0 == 1 || b.0 - a.0 == 1))
  }

  /** The index into STEPS that leads from a to its neighbour b. */
  function StepTo(a: Cell, b: Cell): (k: nat)
    requires Adjacent(a, b)
    ensures k < 4 && Neighbor(a, k) == b
  {
    if b.0 == a.0 - 1 then 0
    else if b.0 == a.0 + 1 then 1
    else if b.1 == a.1 - 1 then 2
    else 3
  }

  lemma NeighborOf(c: Cell, x: int, y: int, k: nat, dx: int, dy: int)
    requires k < 4 && c == (x, y) && STEPS[k] == (dx, dy)
    ensures (x + dx, y + dy) == Neighbor(c, k)
  {
  }

  lemma NeighborIsAdjacent(c: Cell, k: nat)
    requires k < 4
    ensures Adjacent(c, Neighbor(c, k)) && Adjacent(Neighbor(c, k), c)
  {
  }

  /** Least priority first: e may be popped from the heap m. */
  predicate IsMinimal(e: Entry, m: multiset<Entry>)
  {
    e in m && forall e' :: e' in m ==> e.0 <= e'.0
  }

  /** A non-empty heap always has an entry of least priority to pop. */
  lemma {:induction false} MinimalExists(m: multiset<Entry>)
    requires |m| > 0
    ensures exists e :: IsMinimal(e, m)
    decreases |m|
  {
    var x :| x in m;
    var rest := m - multiset{x};
    if |rest| == 0 {
      assert m == rest + multiset{x};
      assert m == multiset{x};
      assert IsMinimal(x, m);
    } else {
      MinimalExists(rest);
      var y :| IsMinimal(y, rest);
      assert forall e' :: e' in m ==> e' == x || e' in rest;
      if x.0 < y.0 {
        assert IsMinimal(x, m);
      } else {
        assert IsMinimal(y, m);
      }
    }
  }

  /**
   * Sums of g over the grid, used to bound the number of rounds of a_star:
   * a g-score only ever decreases, and a decrease of one lowers this sum.
   */
  function Score(g: map<Cell, nat>, c: Cell): (s: nat)
  {
    if c in g then g[c] else 0
  }

  function RowSum(g: map<Cell, nat>, r: int, n: nat): (s: nat)
  {
    if n == 0 then 0 else RowSum(g, r, n - 1) + Score(g, (r, n - 1))
  }

  function GridSum(g: map<Cell, nat>, m: nat, n: nat): (s: nat)
  {
    if m == 0 then 0 else GridSum(g, m - 1, n) + RowSum(g, m - 1, n)
  }

  lemma {:induction false} RowSumBelow(g: map<Cell, nat>, g': map<Cell, nat>, r: int, n: nat)
    requires forall c :: Score(g', c) <= Score(g, c)
    ensures RowSum(g', r, n) <= RowSum(g, r, n)
    ensures forall j :: 0 <= j < n && Score(g', (r, j)) < Score(g, (r, j)) ==>
              RowSum(g', r, n) < RowSum(g, r, n)
  {
    if n > 0 {
      RowSumBelow(g, g', r, n - 1);
    }
  }

  lemma {:induction false} GridSumBelow(g: map<Cell, nat>, g': map<Cell, nat>, m: nat, n: nat)
    requires forall c :: Score(g', c) <= Score(g, c)
    ensures GridSum(g', m, n) <= GridSum(g, m, n)
    ensures forall c: Cell :: 0 <= c.0 < m && 0 <= c.1 < n && Score(g', c) < Score(g, c) ==>
              GridSum(g', m, n) < GridSum(g, m, n)
  {
    if m > 0 {
      GridSumBelow(g, g', m - 1, n);
      RowSumBelow(g, g', m - 1, n);
    }
  }

  class MazeSolver {
    const maze: seq<seq<int>>
    const rows: nat
    const cols: nat

    /** rows and cols as __init__ computes them; every row is cols long. */
    ghost predicate Valid()
    {
      rows == |maze| > 0 && cols == |maze[0]| &&
      forall r :: 0 <= r < rows ==> |maze[r]| == cols
    }

    constructor (maze: seq<seq<int>>)
      requires |maze| > 0
      requires forall r :: 0 <= r < |maze| ==> |maze[r]| == |maze[0]|
      ensures Valid() && this.maze == maze
    {
      this.maze := maze;
      this.rows := |maze|;
      this.cols := |maze[0]|;
    }

    /** A cell of the grid that is a path. */
    predicate IsValid(x: int, y: int)
      requires Valid()
    {
      0 <= x < rows && 0 <= y < cols && maze[x][y] == 1
    }

    ghost function GridCells(): set<Cell>
    {
      set x, y | 0 <= x < rows && 0 <= y < cols :: (x, y)
    }

    lemma ValidCellInGrid(x: int, y: int)
      requires Valid()
      ensures IsValid(x, y) <==> (x, y) in GridCells() && maze[x][y] == 1
    {
      if (x, y) in GridCells() {
        var x', y' :| 0 <= x' < rows && 0 <= y' < cols && (x, y) == (x', y');
      }
    }

    /** Manhattan distance. */
    function Heuristic(a: Cell, b: Cell): (h: nat)
      ensures h == 0 <==> a == b
    {
      Abs(a.0 - b.0) + Abs(a.1 - b.1)
    }

    lemma HeuristicSymmetric(a: Cell, b: Cell)
      ensures Heuristic(a, b) == Heuristic(b, a)
    {
    }

    /** One step changes the heuristic by exactly one, so it is consistent. */
    lemma HeuristicStep(a: Cell, b: Cell, t: Cell)
      requires Adjacent(a, b)
      ensures Heuristic(a, t) == Heuristic(b, t) + 1 || Heuristic(b, t) == Heuristic(a, t) + 1
    {
    }

    /** Any chain of 4-neighbours from p[0] to its last cell has at least Heuristic steps. */
    lemma {:induction false} HeuristicAdmissible(p: seq<Cell>)
      requires |p| > 0
      requires forall i :: 0 <= i < |p| - 1 ==> Adjacent(p[i], p[i + 1])
      ensures Heuristic(p[0], p[|p| - 1]) <= |p| - 1
    {
      if |p| > 1 {
        HeuristicAdmissible(p[1..]);
        assert p[1..][0] == p[1] && p[1..][|p| - 2] == p[|p| - 1];
        HeuristicStep(p[0], p[1], p[|p| - 1]);
      }
    }

    /**
     * A route a_star can follow: 4-neighbour steps from `from` to `to` in
     * which every cell after the first is a valid cell (the start cell
     * itself is never checked by a_star).
     */
    ghost predicate IsRoute(p: seq<Cell>, from: Cell, to: Cell)
      requires Valid()
    {
      |p| > 0 && p[0] == from && p[|p| - 1] == to &&
      (forall i :: 0 <= i < |p| - 1 ==> Adjacent(p[i], p[i + 1])) &&
      (forall i :: 1 <= i < |p| ==> IsValid(p[i].0, p[i].1))
    }

    /** A route to an invalid cell other than the start cannot exist. */
    lemma NoRouteToInvalid(p: seq<Cell>, start: Cell, end: Cell)
      requires Valid()
      requires end != start && !IsValid(end.0, end.1)
      ensures !IsRoute(p, start, end)
    {
    }

    /**
     * Walks came_from back from `current` and reverses what it collected.
     * `rank` (a_star passes g_score) strictly decreases along came_from,
     * which is why the walk ends.
     */
    method ReconstructPath(cameFrom: map<Cell, Cell>, current: Cell, ghost rank: map<Cell, nat>)
      returns (path: seq<Cell>)
      requires current in rank
      requires forall c :: c in cameFrom ==> c in rank && cameFrom[c] in rank && rank[cameFrom[c]] < rank[c]
      ensures |path| > 0 && path[|path| - 1] == current && path[0] !in cameFrom
      ensures forall i :: 1 <= i < |path| ==> path[i] in cameFrom && cameFrom[path[i]] == path[i - 1]
      ensures forall i :: 0 <= i < |path| ==> path[i] in rank
      ensures rank[path[0]] + |path| - 1 <= rank[current]
    {
      var c := current;
      var back: seq<Cell> := [];
      while c in cameFrom
        invariant c in rank
        invariant |back| > 0 ==> back[0] == current && back[|back| - 1] in cameFrom && cameFrom[back[|back| - 1]] == c
        invariant |back| == 0 ==> c == current
        invariant forall i :: 0 <= i < |back| - 1 ==> back[i] in cameFrom && cameFrom[back[i]] == back[i + 1]
        invariant forall i :: 0 <= i < |back| ==> back[i] in rank
        invariant rank[c] + |back| <= rank[current]
        decreases rank[c]
      {
        back := back + [c];
        c := cameFrom[c];
      }
      back := back + [c];
      path := Reverse(back);
    }

    /**
     * c is still waiting in the heap: some entry for c carries a priority no
     * larger than its current g plus the heuristic.
     */
    ghost predicate Pending(open: multiset<Entry>, g: map<Cell, nat>, end: Cell, c: Cell)
      requires c in g
    {
      exists e :: e in open && e.1 == c && e.0 <= g[c] + Heuristic(c, end)
    }

    /** c has been expanded at its current g: each valid neighbour is scored at most g[c] + 1. */
    ghost predicate Expanded(g: map<Cell, nat>, c: Cell)
      requires Valid()
    {
      c in g &&
      forall k :: 0 <= k < 4 && IsValid(Neighbor(c, k).0, Neighbor(c, k).1) ==>
        Neighbor(c, k) in g && g[Neighbor(c, k)] <= g[c] + 1
    }

    /** came_from links every scored cell but start to a scored 4-neighbour of smaller g. */
    ghost predicate LinksOk(start: Cell, g: map<Cell, nat>, cf: map<Cell, Cell>)
      requires Valid()
    {
      start in g && g[start] == 0 && start !in cf &&
      (forall c :: c in cf <==> c in g && c != start) &&
      (forall c :: c in cf ==>
         IsValid(c.0, c.1) && Adjacent(cf[c], c) && cf[c] in g && g[cf[c]] < g[c])
    }

    /** f_score is g_score plus the heuristic. */
    ghost predicate FScoresOk(end: Cell, g: map<Cell, nat>, f: map<Cell, int>)
    {
      f.Keys == g.Keys && forall c :: c in f ==> f[c] == g[c] + Heuristic(c, end)
    }

    /** Every heap entry is for a scored cell, with priority at least its f (or the initial 0 of start). */
    ghost predicate EntriesOk(start: Cell, end: Cell, open: multiset<Entry>, g: map<Cell, nat>)
    {
      forall e :: e in open ==>
        e.1 in g && ((e.1 == start && e.0 == 0) || e.0 >= g[e.1] + Heuristic(e.1, end))
    }

    /** What a_star keeps true of g_score, f_score, came_from and the heap. */
    ghost predicate Bookkeeping(start: Cell, end: Cell, open: multiset<Entry>,
                                g: map<Cell, nat>, f: map<Cell, int>, cf: map<Cell, Cell>)
    {
      Valid() && LinksOk(start, g, cf) && FScoresOk(end, g, f) && EntriesOk(start, end, open, g)
    }

    /** The loop invariant of a_star: every scored cell is pending or expanded, and end, once scored, is pending. */
    ghost predicate SearchInv(start: Cell, end: Cell, open: multiset<Entry>,
                              g: map<Cell, nat>, f: map<Cell, int>, cf: map<Cell, Cell>)
    {
      Bookkeeping(start, end, open, g, f, cf) &&
      (forall c :: c in g ==> Pending(open, g, end, c) || Expanded(g, c)) &&
      (end in g ==> Pending(open, g, end, end))
    }

    /** The invariant of the neighbour loop: as SearchInv, with current expanded for its first i neighbours. */
    ghost predicate ExpandInv(start: Cell, end: Cell, open: multiset<Entry>,
                              g: map<Cell, nat>, f: map<Cell, int>, cf: map<Cell, Cell>,
                              current: Cell, i: nat)
    {
      Bookkeeping(start, end, open, g, f, cf) &&
      current in g && current != end && i <= 4 &&
      (forall c :: c in g && c != current ==> Pending(open, g, end, c) || Expanded(g, c)) &&
      (forall k :: 0 <= k < i && IsValid(Neighbor(current, k).0, Neighbor(current, k).1) ==>
         Neighbor(current, k) in g && g[Neighbor(current, k)] <= g[current] + 1) &&
      (end in g ==> Pending(open, g, end, end))
    }

    lemma InitialInv(start: Cell, end: Cell)
      requires Valid()
      ensures SearchInv(start, end, multiset{(0, start)}, map[start := 0],
                        map[start := Heuristic(start, end)], map[])
    {
      var open := multiset{(0, start)};
      var g: map<Cell, nat> := map[start := 0];
      assert Pending(open, g, end, start) by { assert (0, start) in open; }
    }

    lemma {:induction false} PopKeepsInv(start: Cell, end: Cell, open: multiset<Entry>,
                                         g: map<Cell, nat>, f: map<Cell, int>, cf: map<Cell, Cell>, e: Entry)
      requires SearchInv(start, end, open, g, f, cf)
      requires e in open && e.1 != end
      ensures ExpandInv(start, end, open - multiset{e}, g, f, cf, e.1, 0)
    {
      var open' := open - multiset{e};
      forall c | c in g && c != e.1 && Pending(open, g, end, c)
        ensures Pending(open', g, end, c)
      {
        var e' :| e' in open && e'.1 == c && e'.0 <= g[c] + Heuristic(c, end);
        assert e' in open';
      }
      if end in g {
        var e' :| e' in open && e'.1 == end && e'.0 <= g[end] + Heuristic(end, end);
        assert e' in open';
      }
    }

    lemma {:induction false} ScoreKeepsLinks(start: Cell, g: map<Cell, nat>, cf: map<Cell, Cell>,
                                             current: Cell, n: Cell, t: nat)
      requires Valid() && LinksOk(start, g, cf) && current in g
      requires Adjacent(current, n) && IsValid(n.0, n.1)
      requires t == g[current] + 1 && (n !in g || t < g[n])
      ensures LinksOk(start, g[n := t], cf[n := current])
    {
      var g', cf' := g[n := t], cf[n := current];
      assert n != start;
      forall c | c in cf' ensures IsValid(c.0, c.1) && Adjacent(cf'[c], c) && cf'[c] in g' && g'[cf'[c]] < g'[c] {
        if c != n {
          assert cf'[c] == cf[c] && c in cf;
        }
      }
    }

    lemma {:induction false} ScoreKeepsEntries(start: Cell, end: Cell, open: multiset<Entry>, g: map<Cell, nat>,
                                               n: Cell, t: nat)
      requires EntriesOk(start, end, open, g)
      requires n in g ==> t < g[n]
      requires n != start
      ensures EntriesOk(start, end, open + multiset{(t + Heuristic(n, end), n)}, g[n := t])
    {
      var open', g' := open + multiset{(t + Heuristic(n, end), n)}, g[n := t];
      forall e | e in open' ensures e.1 in g' && ((e.1 == start && e.0 == 0) || e.0 >= g'[e.1] + Heuristic(e.1, end)) {
        if e != (t + Heuristic(n, end), n) {
          assert e in open;
        }
      }
    }

    lemma {:induction false} ScoreKeepsBookkeeping(start: Cell, end: Cell, open: multiset<Entry>,
                                                   g: map<Cell, nat>, f: map<Cell, int>, cf: map<Cell, Cell>,
                                                   current: Cell, n: Cell, t: nat)
      requires Bookkeeping(start, end, open, g, f, cf) && current in g
      requires Adjacent(current, n) && IsValid(n.0, n.1)
      requires t == g[current] + 1 && (n !in g || t < g[n])
      ensures Bookkeeping(start, end, open + multiset{(t + Heuristic(n, end), n)},
                          g[n := t], f[n := t + Heuristic(n, end)], cf[n := current])
    {
      ScoreKeepsLinks(start, g, cf, current, n, t);
      ScoreKeepsEntries(start, end, open, g, n, t);
    }

    lemma {:induction false} ScoreKeepsPending(open: multiset<Entry>, g: map<Cell, nat>, end: Cell,
                                               n: Cell, t: nat, c: Cell)
      requires c in g && c != n && Pending(open, g, end, c)
      ensures Pending(open + multiset{(t + Heuristic(n, end), n)}, g[n := t], end, c)
    {
      var e' :| e' in open && e'.1 == c && e'.0 <= g[c] + Heuristic(c, end);
      assert e' in open + multiset{(t + Heuristic(n, end), n)};
    }

    lemma {:induction false} ScoreKeepsExpanded(g: map<Cell, nat>, n: Cell, t: nat, c: Cell)
      requires Valid() && Expanded(g, c) && c != n
      requires n in g ==> t < g[n]
      ensures Expanded(g[n := t], c)
    {
      var g' := g[n := t];
      forall k | 0 <= k < 4 && IsValid(Neighbor(c, k).0, Neighbor(c, k).1)
        ensures Neighbor(c, k) in g' && g'[Neighbor(c, k)] <= g'[c] + 1
      {
        assert Neighbor(c, k) in g && g[Neighbor(c, k)] <= g[c] + 1;
      }
    }

    lemma {:induction false} ScoreKeepsClosure(end: Cell, open: multiset<Entry>, g: map<Cell, nat>,
                                               open': multiset<Entry>, g': map<Cell, nat>,
                                               current: Cell, n: Cell, t: nat)
      requires Valid() && (n in g ==> t < g[n])
      requires open' == open + multiset{(t + Heuristic(n, end), n)} && g' == g[n := t]
      requires forall c :: c in g && c != current ==> Pending(open, g, end, c) || Expanded(g, c)
      ensures forall c :: c in g' && c != current ==> Pending(open', g', end, c) || Expanded(g', c)
    {
      assert Pending(open', g', end, n) by { assert (t + Heuristic(n, end), n) in open'; }
      forall c | c in g' && c != current && c != n ensures Pending(open', g', end, c) || Expanded(g', c) {
        if Pending(open, g, end, c) {
          ScoreKeepsPending(open, g, end, n, t, c);
        } else {
          ScoreKeepsExpanded(g, n, t, c);
        }
      }
    }

    lemma {:induction false} ScoreKeepsPartial(g: map<Cell, nat>, current: Cell, i: nat, n: Cell, t: nat)
      requires Valid() && current in g && i < 4 && n == Neighbor(current, i) && n != current
      requires t == g[current] + 1 && (n in g ==> t < g[n])
      requires forall k :: 0 <= k < i && IsValid(Neighbor(current, k).0, Neighbor(current, k).1) ==>
                 Neighbor(current, k) in g && g[Neighbor(current, k)] <= g[current] + 1
      ensures var g' := g[n := t];
              forall k :: 0 <= k < i + 1 && IsValid(Neighbor(current, k).0, Neighbor(current, k).1) ==>
                Neighbor(current, k) in g' && g'[Neighbor(current, k)] <= g'[current] + 1
    {
      var g' := g[n := t];
      forall k | 0 <= k < i + 1 && IsValid(Neighbor(current, k).0, Neighbor(current, k).1)
        ensures Neighbor(current, k) in g' && g'[Neighbor(current, k)] <= g'[current] + 1
      {
        if k < i {
          assert Neighbor(current, k) in g && g[Neighbor(current, k)] <= g[current] + 1;
        }
      }
    }

    lemma {:induction false} ScoreKeepsInv(start: Cell, end: Cell, open: multiset<Entry>,
                                           g: map<Cell, nat>, f: map<Cell, int>, cf: map<Cell, Cell>,
                                           current: Cell, i: nat, n: Cell, t: nat)
      requires ExpandInv(start, end, open, g, f, cf, current, i) && i < 4
      requires n == Neighbor(current, i) && IsValid(n.0, n.1)
      requires t == g[current] + 1 && (n !in g || t < g[n])
      ensures ExpandInv(start, end, open + multiset{(t + Heuristic(n, end), n)},
                        g[n := t], f[n := t + Heuristic(n, end)], cf[n := current], current, i + 1)
    {
      NeighborIsAdjacent(current, i);
      ScoreKeepsBookkeeping(start, end, open, g, f, cf, current, n, t);
      ScoreKeepsClosure(end, open, g, open + multiset{(t + Heuristic(n, end), n)}, g[n := t], current, n, t);
      ScoreKeepsPartial(g, current, i, n, t);
      if end != n && end in g {
        ScoreKeepsPending(open, g, end, n, t, end);
      }
      if end == n {
        assert (t + Heuristic(n, end), n) in open + multiset{(t + Heuristic(n, end), n)};
      }
    }

    lemma {:induction false} SkipKeepsInv(start: Cell, end: Cell, open: multiset<Entry>,
                                          g: map<Cell, nat>, f: map<Cell, int>, cf: map<Cell, Cell>,
                                          current: Cell, i: nat)
      requires ExpandInv(start, end, open, g, f, cf, current, i) && i < 4
      requires var n := Neighbor(current, i);
               IsValid(n.0, n.1) ==> n in g && g[n] <= g[current] + 1
      ensures ExpandInv(start, end, open, g, f, cf, current, i + 1)
    {
    }

    lemma {:induction false} ExpandedInv(start: Cell, end: Cell, open: multiset<Entry>,
                                         g: map<Cell, nat>, f: map<Cell, int>, cf: map<Cell, Cell>, current: Cell)
      requires ExpandInv(start, end, open, g, f, cf, current, 4)
      ensures SearchInv(start, end, open, g, f, cf)
    {
      assert Expanded(g, current);
    }

    /** Once the heap is empty, the scored cells are closed under steps to valid neighbours. */
    lemma {:induction false} ScoredAlongRoute(g: map<Cell, nat>, p: seq<Cell>, start: Cell, end: Cell, i: nat)
      requires Valid() && IsRoute(p, start, end) && start in g
      requires forall c :: c in g ==> Expanded(g, c)
      requires i < |p|
      ensures p[i] in g
    {
      if i > 0 {
        ScoredAlongRoute(g, p, start, end, i - 1);
        var k := StepTo(p[i - 1], p[i]);
        assert Expanded(g, p[i - 1]);
      }
    }

    /**
     * Along a route from start to end there is a heap entry whose priority
     * is at most the route's step count; so is the least priority.
     */
    lemma {:induction false} CheapEntryOnRoute(start: Cell, end: Cell, open: multiset<Entry>,
                                               g: map<Cell, nat>, f: map<Cell, int>, cf: map<Cell, Cell>,
                                               p: seq<Cell>, i: nat)
      requires SearchInv(start, end, open, g, f, cf) && IsRoute(p, start, end)
      requires i < |p| && p[i] in g && g[p[i]] <= i
      ensures exists e :: e in open && e.0 <= |p| - 1
      decreases |p| - i
    {
      if Pending(open, g, end, p[i]) {
        var e :| e in open && e.1 == p[i] && e.0 <= g[p[i]] + Heuristic(p[i], end);
        HeuristicAdmissible(p[i..]);
        assert p[i..][0] == p[i] && p[i..][|p| - i - 1] == end;
      } else if i == |p| - 1 {
        assert false;
      } else {
        assert Expanded(g, p[i]);
        var k := StepTo(p[i], p[i + 1]);
        assert IsValid(p[i + 1].0, p[i + 1].1);
        CheapEntryOnRoute(start, end, open, g, f, cf, p, i + 1);
      }
    }

    /** Grid cells that have no g-score yet. */
    ghost function Unseen(g: map<Cell, nat>): set<Cell>
    {
      GridCells() - g.Keys
    }

    /**
     * How one round of a_star changed g from g0 and the heap from open0:
     * scores only fall, new keys are grid cells, and if nothing was scored
     * the heap only lost the popped entry.
     */
    ghost predicate RoundProgress(g0: map<Cell, nat>, open0: multiset<Entry>,
                                  g: map<Cell, nat>, open: multiset<Entry>,
                                  added: bool, improved: bool, better: Cell)
    {
      g0.Keys <= g.Keys <= g0.Keys + GridCells() &&
      (forall c :: c in g0 ==> g[c] <= g0[c]) &&
      (added ==> Unseen(g) < Unseen(g0)) &&
      (!added ==> g.Keys == g0.Keys) &&
      (improved ==> better in g0 && better in GridCells() && g[better] < g0[better]) &&
      (!added && !improved ==> g == g0 && open == open0)
    }

    lemma ProgressAfterScore(g0: map<Cell, nat>, open0: multiset<Entry>,
                             g: map<Cell, nat>, open: multiset<Entry>,
                             added: bool, improved: bool, better: Cell, n: Cell, t: nat, h: int)
      requires RoundProgress(g0, open0, g, open, added, improved, better)
      requires n in GridCells() && (n in g ==> t < g[n])
      ensures n in g0 ==> RoundProgress(g0, open0, g[n := t], open + multiset{(h, n)}, added, true, n)
      ensures n !in g0 ==> RoundProgress(g0, open0, g[n := t], open + multiset{(h, n)}, true, improved, better)
    {
      if n !in g0 {
        assert n in Unseen(g0) && n !in Unseen(g[n := t]);
      }
    }

    /** Each round lowers (Unseen(g), GridSum(g), |heap|) lexicographically. */
    lemma RoundDecreases(g0: map<Cell, nat>, open0: multiset<Entry>, before: multiset<Entry>, e: Entry,
                         g: map<Cell, nat>, open: multiset<Entry>,
                         added: bool, improved: bool, better: Cell)
      requires RoundProgress(g0, open0, g, open, added, improved, better)
      requires e in before && open0 == before - multiset{e}
      ensures Unseen(g) < Unseen(g0) ||
              (Unseen(g) == Unseen(g0) &&
               (GridSum(g, rows, cols) < GridSum(g0, rows, cols) ||
                (GridSum(g, rows, cols) == GridSum(g0, rows, cols) && |open| < |before|)))
    {
      if !added {
        assert Unseen(g) == Unseen(g0);
        if improved {
          assert Score(g, better) < Score(g0, better);
          var x, y :| 0 <= x < rows && 0 <= y < cols && better == (x, y);
          GridSumBelow(g0, g, rows, cols);
        }
      }
    }

    /** When end is popped, came_from leads back from it to start along a shortest route. */
    lemma FoundRouteIsShortest(start: Cell, end: Cell, open: multiset<Entry>,
                               g: map<Cell, nat>, f: map<Cell, int>, cf: map<Cell, Cell>,
                               e: Entry, path: seq<Cell>)
      requires SearchInv(start, end, open, g, f, cf) && IsMinimal(e, open) && e.1 == end
      requires |path| > 0 && path[|path| - 1] == end && path[0] !in cf
      requires forall i :: 1 <= i < |path| ==> path[i] in cf && cf[path[i]] == path[i - 1]
      requires forall i :: 0 <= i < |path| ==> path[i] in g
      requires g[path[0]] + |path| - 1 <= g[end]
      ensures IsRoute(path, start, end)
      ensures forall p :: IsRoute(p, start, end) ==> |path| <= |p|
      ensures start == end ==> path == [start]
    {
      assert path[0] == start;
      forall i | 0 <= i < |path| - 1 ensures Adjacent(path[i], path[i + 1]) {
        assert path[i + 1] in cf;
      }
      forall p | IsRoute(p, start, end) ensures |path| <= |p| {
        CheapEntryOnRoute(start, end, open, g, f, cf, p, 0);
      }
    }

    /** With the heap empty and end never scored, no route from start reaches end. */
    lemma ExhaustedMeansNoRoute(start: Cell, end: Cell, g: map<Cell, nat>, f: map<Cell, int>, cf: map<Cell, Cell>)
      requires SearchInv(start, end, multiset{}, g, f, cf)
      ensures forall p :: !IsRoute(p, start, end)
    {
      forall c | c in g ensures Expanded(g, c) {
        assert !Pending(multiset{}, g, end, c);
      }
      forall p | IsRoute(p, start, end) ensures false {
        ScoredAlongRoute(g, p, start, end, |p| - 1);
      }
    }

    /**
     * a_star: best-first search from start to end with priority g + Manhattan
     * distance. Entries made stale by a better score stay in the heap and are
     * expanded again when popped; there is no closed set.
     */
    method AStar(start: Cell, end: Cell) returns (r: Option<seq<Cell>>)
      requires Valid()
      ensures r.Some? ==> IsRoute(r.value, start, end)
      ensures r.Some? ==> forall p :: IsRoute(p, start, end) ==> |r.value| <= |p|
      ensures r.None? ==> forall p :: !IsRoute(p, start, end)
      ensures start == end ==> r == Some([start])
      ensures start != end && !IsValid(end.0, end.1) ==> r == None
    {
      var open: multiset<Entry> := multiset{(0, start)};
      var gScore: map<Cell, nat> := map[start := 0];
      var fScore: map<Cell, int> := map[start := Heuristic(start, end)];
      var cameFrom: map<Cell, Cell> := map[];
      InitialInv(start, end);

      while |open| > 0
        invariant SearchInv(start, end, open, gScore, fScore, cameFrom)
        decreases Unseen(gScore), GridSum(gScore, rows, cols), |open|
      {
        MinimalExists(open);
        var e :| e in open && IsMinimal(e, open);
        ghost var before := open;
        open := open - multiset{e};
        var current := e.1;

        if current == end {
          var path := ReconstructPath(cameFrom, current, gScore);
          FoundRouteIsShortest(start, end, before, gScore, fScore, cameFrom, e, path);
          return Some(path);
        }

        PopKeepsInv(start, end, before, gScore, fScore, cameFrom, e);
        ghost var g0, open0 := gScore, open;
        ghost var added, improved, better := false, false, start;
        var (x, y) := current;
        for i := 0 to 4
          invariant ExpandInv(start, end, open, gScore, fScore, cameFrom, current, i)
          invariant RoundProgress(g0, open0, gScore, open, added, improved, better)
        {
          var (dx, dy) := STEPS[i];
          var neighbor := (x + dx, y + dy);
          NeighborOf(current, x, y, i, dx, dy);
          if IsValid(neighbor.0, neighbor.1) {
            var tentative := gScore[current] + 1;
            if neighbor !in gScore || tentative < gScore[neighbor] {
              ValidCellInGrid(neighbor.0, neighbor.1);
              ScoreKeepsInv(start, end, open, gScore, fScore, cameFrom, current, i, neighbor, tentative);
              ProgressAfterScore(g0, open0, gScore, open, added, improved, better, neighbor, tentative,
                                 tentative + Heuristic(neighbor, end));
              if neighbor in g0 {
                improved, better := true, neighbor;
              } else {
                added := true;
              }
              cameFrom := cameFrom[neighbor := current];
              gScore := gScore[neighbor := tentative];
              fScore := fScore[neighbor := tentative + Heuristic(neighbor, end)];
              open := open + multiset{(fScore[neighbor], neighbor)};
            } else {
              SkipKeepsInv(start, end, open, gScore, fScore, cameFrom, current, i);
            }
          } else {
            SkipKeepsInv(start, end, open, gScore, fScore, cameFrom, current, i);
          }
        }
        ExpandedInv(start, end, open, gScore, fScore, cameFrom, current);
        RoundDecreases(g0, open0, before, e, gScore, open, added, improved, better);
      }

      ExhaustedMeansNoRoute(start, end, gScore, fScore, cameFrom);
      return None;
    }
  }

  function Reverse(s: seq<Cell>): (r: seq<Cell>)
    ensures |r| == |s|
    ensures forall i :: 0 <= i < |s| ==> r[i] == s[|s| - 1 - i]
  {
    if s == [] then [] else Reverse(s[1..]) + [s[0]]
  }

  /** The 10 x 10 grid of the usage example in the comments of astar.py. */
  const EXAMPLE_MAZE: seq<seq<int>> := [
    [1, 0, 1, 1, 1, 1, 1, 1, 1, 0],
    [1, 0, 1, 0, 0, 0, 1, 0, 1, 0],
    [1, 0, 1, 0, 1, 1, 1, 0, 1, 0],
    [1, 0, 0, 0, 1, 0, 0, 0, 1, 0],
    [1, 1, 1, 1, 1, 0, 1, 1, 1, 0],
    [0, 0, 0, 0, 0, 0, 0, 0, 1, 0],
    [1, 1, 1, 1, 1, 1, 1, 1, 1, 0],
    [1, 0, 0, 0, 0, 0, 0, 0, 0, 0],
    [1, 1, 1, 1, 1, 1, 1, 1, 1, 0],
    [0, 0, 0, 0, 0, 0, 0, 0, 0, 0]
  ]

  /** The example's end cell (9, 9) is a wall, so a_star((0, 0), (9, 9)) finds no path. */
  method SolveCommentedExample() returns (r: Option<seq<Cell>>)
    ensures r == None
  {
    var solver := new MazeSolver(EXAMPLE_MAZE);
    r := solver.AStar((0, 0), (9, 9));
  }
}
