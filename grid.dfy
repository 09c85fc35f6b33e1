/**
 * Geometry of the maze: cells, the four moves in the engine's fixed order,
 * passability, walks, and the breadth-first layers used to state and prove
 * what the searches compute.
 */
module MazeGraph {

  /** Capacities of the program's static arrays. */
  const MAXR: int := 105
  const MAXC: int := 105
  const QSIZE: int := MAXR * MAXC
  const MAX_PATHS_TO_SHOW: int := 20

  datatype Cell = Cell(r: int, c: int)

  /** A grid as rows of characters; `#` is a wall, every other character is open. */
  type Grid = seq<seq<char>>

  /** Row and column deltas of the four moves, in the order up, down, left, right. */
  const DR: seq<int> := [-1, 1, 0, 0]
  const DC: seq<int> := [0, 0, -1, 1]

  predicate Adjacent(x: Cell, y: Cell) {
    || (x.r == y.r && (x.c == y.c + 1 || y.c == x.c + 1))
    || (x.c == y.c && (x.r == y.r + 1 || y.r == x.r + 1))
  }

  /** The neighbour of `x` in direction `d`. */
  function Step(x: Cell, d: int): (y: Cell)
    requires 0 <= d < 4
    ensures Adjacent(x, y)
  {
    Cell(x.r + DR[d], x.c + DC[d])
  }

  /** The direction that leads from `x` to the adjacent cell `y`. */
  function DirectionTo(x: Cell, y: Cell): (d: int)
    requires Adjacent(x, y)
    ensures 0 <= d < 4 && Step(x, d) == y
  {
    if y.r == x.r - 1 then 0
    else if y.r == x.r + 1 then 1
    else if y.c == x.c - 1 then 2
    else 3
  }

  predicate InGrid(g: Grid, x: Cell) {
    0 <= x.r < |g| && 0 <= x.c < |g[x.r]|
  }

  /** In bounds and not a wall. */
  predicate Open(g: Grid, x: Cell) {
    InGrid(g, x) && g[x.r][x.c] != '#'
  }

  predicate Rectangular(g: Grid, rows: int, cols: int) {
    |g| == rows && forall i :: 0 <= i < rows ==> |g[i]| == cols
  }

  /** A non-empty sequence of open cells, each a cardinal neighbour of the previous one. */
  ghost predicate IsWalk(g: Grid, p: seq<Cell>) {
    && |p| > 0
    && (forall i :: 0 <= i < |p| ==> Open(g, p[i]))
    && (forall i :: 0 <= i < |p| - 1 ==> Adjacent(p[i], p[i + 1]))
  }

  /** A walk extended by an open neighbour of its last cell is a walk. */
  lemma WalkSnoc(g: Grid, q: seq<Cell>, x: Cell)
    requires IsWalk(g, q) && Open(g, x) && Adjacent(q[|q| - 1], x)
    ensures IsWalk(g, q + [x])
  {
    var p := q + [x];
    forall m | 0 <= m < |p|
      ensures Open(g, p[m])
    {
      if m < |q| {
        assert p[m] == q[m];
      }
    }
    forall m | 0 <= m < |p| - 1
      ensures Adjacent(p[m], p[m + 1])
    {
      if m < |q| - 1 {
        assert p[m] == q[m] && p[m + 1] == q[m + 1];
      }
    }
  }

  /** An open cell followed by a walk that starts next to it is a walk. */
  lemma WalkCons(g: Grid, x: Cell, q: seq<Cell>)
    requires IsWalk(g, q) && Open(g, x) && Adjacent(x, q[0])
    ensures IsWalk(g, [x] + q)
  {
    var p := [x] + q;
    forall m | 0 <= m < |p|
      ensures Open(g, p[m])
    {
      if m > 0 {
        assert p[m] == q[m - 1];
      }
    }
    forall m | 0 <= m < |p| - 1
      ensures Adjacent(p[m], p[m + 1])
    {
      if m > 0 {
        assert p[m] == q[m - 1] && p[m + 1] == q[m];
      }
    }
  }

  ghost predicate WalkBetween(g: Grid, p: seq<Cell>, s: Cell, t: Cell) {
    IsWalk(g, p) && p[0] == s && p[|p| - 1] == t
  }

  ghost predicate Distinct<T>(p: seq<T>) {
    forall i, j :: 0 <= i < j < |p| ==> p[i] != p[j]
  }

  ghost predicate Reachable(g: Grid, s: Cell, t: Cell) {
    exists p :: WalkBetween(g, p, s, t)
  }

  /** `n` is the least number of steps of a walk from `s` to `t`. */
  ghost predicate IsDistance(g: Grid, s: Cell, t: Cell, n: nat) {
    && (exists p :: WalkBetween(g, p, s, t) && |p| == n + 1)
    && (forall p :: WalkBetween(g, p, s, t) ==> n + 1 <= |p|)
  }

  /** The cells reachable from `s` by a walk of at most `k` steps. */
  ghost function Within(g: Grid, s: Cell, k: nat): set<Cell>
  {
    if k == 0 then (if Open(g, s) then {s} else {})
    else
      var w := Within(g, s, k - 1);
      w + Frontier(g, w)
  }

  /** The open cells one step away from some cell of `w`. */
  ghost function Frontier(g: Grid, w: set<Cell>): set<Cell>
  {
    set x, d | x in w && 0 <= d < 4 && Open(g, Step(x, d)) :: Step(x, d)
  }

  /** `x` is first reached from `s` after exactly `n` steps. */
  ghost predicate Exact(g: Grid, s: Cell, x: Cell, n: nat) {
    x in Within(g, s, n) && (n > 0 ==> x !in Within(g, s, n - 1))
  }

  lemma {:induction false} WithinGrows(g: Grid, s: Cell, j: nat, k: nat)
    requires j <= k
    ensures Within(g, s, j) <= Within(g, s, k)
  {
    if j < k {
      WithinGrows(g, s, j, k - 1);
    }
  }

  lemma {:induction false} WithinMono(g: Grid, s: Cell, j: nat, k: nat, x: Cell)
    requires j <= k && x in Within(g, s, j)
    ensures x in Within(g, s, k)
  {
    if j < k {
      WithinMono(g, s, j, k - 1, x);
    }
  }

  lemma {:induction false} WithinOpen(g: Grid, s: Cell, k: nat, x: Cell)
    requires x in Within(g, s, k)
    ensures Open(g, x)
  {
    if k > 0 && x !in Within(g, s, k - 1) {
      var w, d :| w in Within(g, s, k - 1) && 0 <= d < 4 && Open(g, Step(w, d)) && x == Step(w, d);
    } else if k > 0 {
      WithinOpen(g, s, k - 1, x);
    }
  }

  /** The last cell of a walk of `n` steps from its first cell lies in layer `n` or below. */
  lemma {:induction false} WalkWithin(g: Grid, p: seq<Cell>)
    requires IsWalk(g, p)
    ensures p[|p| - 1] in Within(g, p[0], |p| - 1)
  {
    var n := |p| - 1;
    if n > 0 {
      var q := p[..n];
      assert IsWalk(g, q);
      WalkWithin(g, q);
      var x := q[n - 1];
      assert x == p[n - 1] && Adjacent(p[n - 1], p[n]);
      var d := DirectionTo(x, p[n]);
      assert x in Within(g, p[0], n - 1) && Open(g, Step(x, d));
    }
  }

  /** A cell has at most one exact layer. */
  lemma ExactDistinct(g: Grid, s: Cell, x: Cell, a: nat, y: Cell, b: nat)
    requires Exact(g, s, x, a) && Exact(g, s, y, b) && a != b
    ensures x != y
  {
    if a < b {
      WithinGrows(g, s, a, b - 1);
    } else {
      WithinGrows(g, s, b, a - 1);
    }
  }

  /** No walk reaches a cell of exact layer `n` in fewer than `n` steps. */
  lemma ExactIsLowerBound(g: Grid, s: Cell, t: Cell, n: nat, p: seq<Cell>)
    requires Exact(g, s, t, n) && WalkBetween(g, p, s, t)
    ensures n + 1 <= |p|
  {
    WalkWithin(g, p);
    if |p| - 1 < n {
      WithinGrows(g, s, |p| - 1, n - 1);
    }
  }

  /**
   * Completeness of breadth-first search: if `cells` lists cells with their exact
   * layers, starts with `s`, and every listed cell of a layer below `B` has all its
   * open neighbours listed, then every cell of layer `D <= B` or below is listed.
   */
  lemma {:induction false} LayerCovered(g: Grid, s: Cell, cells: seq<Cell>, lv: seq<nat>, B: nat, D: nat)
    requires |cells| == |lv| && |cells| > 0 && cells[0] == s && D <= B
    requires forall i :: 0 <= i < |cells| ==> Exact(g, s, cells[i], lv[i])
    requires forall j, d :: 0 <= j < |cells| && lv[j] < B && 0 <= d < 4 && Open(g, Step(cells[j], d))
                            ==> Step(cells[j], d) in cells
    ensures forall x :: x in Within(g, s, D) ==> x in cells
  {
    if D == 0 {
      assert Within(g, s, 0) <= {s};
    } else {
      LayerCovered(g, s, cells, lv, B, D - 1);
      LayerClosed(g, s, cells, lv, B, D - 1);
      NextLayerCovered(g, s, cells, D, D - 1);
    }
  }

  /**
   * Within the listed cells, those of layer `K < B` have listed neighbours; so every
   * cell of `Within(g, s, K)` does, once that set is listed.
   */
  lemma LayerClosed(g: Grid, s: Cell, cells: seq<Cell>, lv: seq<nat>, B: nat, K: nat)
    requires |cells| == |lv| && K < B
    requires forall i :: 0 <= i < |cells| ==> Exact(g, s, cells[i], lv[i])
    requires forall j, d :: 0 <= j < |cells| && lv[j] < B && 0 <= d < 4 && Open(g, Step(cells[j], d))
                            ==> Step(cells[j], d) in cells
    requires forall y :: y in Within(g, s, K) ==> y in cells
    ensures forall y, d :: y in Within(g, s, K) && 0 <= d < 4 && Open(g, Step(y, d)) ==> Step(y, d) in cells
  {
    forall y, d | y in Within(g, s, K) && 0 <= d < 4 && Open(g, Step(y, d))
      ensures Step(y, d) in cells
    {
      var j :| 0 <= j < |cells| && cells[j] == y;
      ExactAtMost(g, s, y, lv[j], K);
    }
  }

  lemma WithinStep(g: Grid, s: Cell, k: nat)
    ensures Within(g, s, k + 1) == Within(g, s, k) + Frontier(g, Within(g, s, k))
  {
  }

  /** One step of LayerCovered: when layer `K` and its open neighbours are listed, so is layer `D == K + 1`. */
  lemma NextLayerCovered(g: Grid, s: Cell, cells: seq<Cell>, D: nat, K: nat)
    requires D == K + 1
    requires forall y :: y in Within(g, s, K) ==> y in cells
    requires forall y, d :: y in Within(g, s, K) && 0 <= d < 4 && Open(g, Step(y, d)) ==> Step(y, d) in cells
    ensures forall x :: x in Within(g, s, D) ==> x in cells
  {
    var wk := Within(g, s, K);
    WithinStep(g, s, K);
    forall x | x in Within(g, s, D)
      ensures x in cells
    {
      if x !in wk {
        assert x in Frontier(g, wk);
        var w, d :| w in wk && 0 <= d < 4 && Open(g, Step(w, d)) && x == Step(w, d);
      }
    }
  }

  /** A cell first reached after exactly `n` steps is not in any layer below `n`. */
  lemma ExactAtMost(g: Grid, s: Cell, x: Cell, n: nat, k: nat)
    requires Exact(g, s, x, n) && x in Within(g, s, k)
    ensures n <= k
  {
    if k < n {
      WithinMono(g, s, k, n - 1, x);
    }
  }

  /**
   * When every listed cell has all its open neighbours listed, the list holds
   * every cell reachable from its first cell.
   */
  lemma ClosedListHoldsReachable(g: Grid, s: Cell, cells: seq<Cell>, lv: seq<nat>, t: Cell)
    requires |cells| == |lv| && |cells| > 0 && cells[0] == s
    requires forall i :: 0 <= i < |cells| ==> Exact(g, s, cells[i], lv[i])
    requires forall j, d :: 0 <= j < |cells| && 0 <= d < 4 && Open(g, Step(cells[j], d))
                            ==> Step(cells[j], d) in cells
    ensures Reachable(g, s, t) ==> t in cells
  {
    if Reachable(g, s, t) {
      var p :| WalkBetween(g, p, s, t);
      WalkWithin(g, p);
      LayerCovered(g, s, cells, lv, |p| - 1, |p| - 1);
    }
  }

  /** A set of cells of one row with columns below `n` has at most `n` elements. */
  lemma {:induction false} RowCardinality(cells: set<Cell>, r: int, n: nat)
    requires forall x :: x in cells ==> x.r == r && 0 <= x.c < n
    ensures |cells| <= n
  {
    if n == 0 {
      assert cells == {};
    } else {
      var rest := cells - {Cell(r, n - 1)};
      RowCardinality(rest, r, n - 1);
    }
  }

  /** A set of cells inside an `m` by `n` grid has at most `m * n` elements. */
  lemma {:induction false} GridCardinality(cells: set<Cell>, m: nat, n: nat)
    requires forall x :: x in cells ==> 0 <= x.r < m && 0 <= x.c < n
    ensures |cells| <= m * n
  {
    if m == 0 {
      assert cells == {};
    } else {
      var top := set x | x in cells && x.r == m - 1;
      var rest := cells - top;
      RowCardinality(top, m - 1, n);
      GridCardinality(rest, m - 1, n);
      assert cells == rest + top;
      assert (m - 1) * n + n == m * n;
    }
  }

  lemma {:induction false} DistinctSetSize(s: seq<Cell>)
    requires Distinct(s)
    ensures |set x | x in s| == |s|
  {
    if |s| > 0 {
      var t := s[..|s| - 1];
      DistinctSetSize(t);
      assert (set x | x in s) == (set x | x in t) + {s[|s| - 1]};
    }
  }

  /** Pigeonhole: distinct cells of an `m` by `n` grid number at most `m * n`. */
  lemma DistinctCellsFit(s: seq<Cell>, m: nat, n: nat)
    requires Distinct(s)
    requires forall i :: 0 <= i < |s| ==> 0 <= s[i].r < m && 0 <= s[i].c < n
    ensures |s| <= m * n
  {
    DistinctSetSize(s);
    GridCardinality((set x | x in s), m, n);
  }

  /** `g` with every cell of `cells` overwritten by `ch`. */
  function Paint(g: Grid, cells: set<Cell>, ch: char): (h: Grid)
    ensures |h| == |g| && forall i :: 0 <= i < |g| ==> |h[i]| == |g[i]|
    ensures forall i, j :: 0 <= i < |g| && 0 <= j < |g[i]| ==>
              h[i][j] == if Cell(i, j) in cells then ch else g[i][j]
  {
    seq(|g|, i requires 0 <= i < |g| =>
      seq(|g[i]|, j requires 0 <= j < |g[i]| => if Cell(i, j) in cells then ch else g[i][j]))
  }

  /** The cells of a path other than its first and last. */
  ghost function Interior(p: seq<Cell>): set<Cell> {
    set k | 0 < k < |p| - 1 :: p[k]
  }

  /** The cells of `cells` whose character in `g` is not a start or exit marker. */
  ghost function Unmarked(g: Grid, cells: set<Cell>): set<Cell> {
    set x | x in cells && InGrid(g, x) && g[x.r][x.c] != 'S' && g[x.r][x.c] != 'E'
  }

  /** The cells a sequence visits. */
  ghost function Cells(p: seq<Cell>): set<Cell> {
    set y | y in p
  }

  lemma RestIsTail(x: Cell, t: seq<Cell>)
    ensures Rest([x] + t) == Cells(t)
  {
    var p := [x] + t;
    forall y | y in Rest(p)
      ensures y in Cells(t)
    {
      var m :| 1 <= m < |p| && p[m] == y;
      assert t[m - 1] == y;
    }
    forall y | y in Cells(t)
      ensures y in Rest(p)
    {
      var m :| 0 <= m < |t| && t[m] == y;
      assert p[m + 1] == y;
    }
  }

  /** The cells of a path after its first. */
  ghost function Rest(p: seq<Cell>): set<Cell> {
    set m | 1 <= m < |p| :: p[m]
  }

  lemma RestCons(x: Cell, p: seq<Cell>, q: seq<Cell>)
    requires |p| > 0 && q == [x] + p
    ensures Rest(q) == Rest(p) + {p[0]}
  {
    forall y | y in Rest(q)
      ensures y in Rest(p) + {p[0]}
    {
      var m :| 1 <= m < |q| && q[m] == y;
      if m > 1 {
        assert p[m - 1] == y;
      }
    }
    forall y | y in Rest(p) + {p[0]}
      ensures y in Rest(q)
    {
      if y == p[0] {
        assert q[1] == y;
      } else {
        var m :| 1 <= m < |p| && p[m] == y;
        assert q[m + 1] == y;
      }
    }
  }

  /** Leaving the markers alone, painting a path's cells after its first is painting its interior when it ends on the exit marker. */
  lemma RestInterior(g: Grid, p: seq<Cell>)
    requires |p| > 0 && InGrid(g, p[|p| - 1]) && g[p[|p| - 1].r][p[|p| - 1].c] == 'E'
    ensures Unmarked(g, Rest(p)) == Unmarked(g, Interior(p))
  {
    forall y | y in Unmarked(g, Rest(p))
      ensures y in Unmarked(g, Interior(p))
    {
      var m :| 1 <= m < |p| && p[m] == y;
    }
  }

  lemma SameGrid(a: Grid, b: Grid)
    requires |a| == |b|
    requires forall i :: 0 <= i < |a| ==> |a[i]| == |b[i]|
    requires forall i, j :: 0 <= i < |a| && 0 <= j < |a[i]| ==> a[i][j] == b[i][j]
    ensures a == b
  {
    forall i | 0 <= i < |a|
      ensures a[i] == b[i]
    {
      assert a[i] == b[i];
    }
  }
}
