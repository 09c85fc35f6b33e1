/**
 * The breadth-first search tree the maze engine builds, as ghost bookkeeping:
 * the cells in the order they were enqueued, the layer of each, and the index of
 * the cell it was reached from.  The lemmas here are the steps of the search
 * (`MazeGame.Maze.BfsShortest`) and what they establish: every enqueued cell sits
 * in its exact breadth-first layer, and a search that runs dry has enqueued every
 * reachable cell.
 */
module SearchTree {
  import opened MazeGraph

  /**
   * `order` lists the enqueued cells, `lv` their layers, `par` the index each was
   * reached from; the first `h` cells have been dequeued.
   */
  ghost predicate Tree(g: Grid, s: Cell, order: seq<Cell>, lv: seq<nat>, par: seq<nat>, h: nat) {
    && Shape(s, order, lv, par, h)
    && AllOpen(g, order)
    && AllExact(g, s, order, lv)
    && Parents(order, lv, par, h)
    && Layers(lv, h)
  }

  /** The first enqueued cell is the start, in layer 0, and no cell is enqueued twice. */
  ghost predicate Shape(s: Cell, order: seq<Cell>, lv: seq<nat>, par: seq<nat>, h: nat) {
    && |order| == |lv| == |par| && |order| > 0 && h <= |order| && (h == 0 ==> |order| == 1)
    && order[0] == s && lv[0] == 0
    && Distinct(order)
  }

  ghost predicate AllOpen(g: Grid, order: seq<Cell>) {
    forall i :: 0 <= i < |order| ==> Open(g, order[i])
  }

  /** Every enqueued cell sits in its exact breadth-first layer. */
  ghost predicate AllExact(g: Grid, s: Cell, order: seq<Cell>, lv: seq<nat>)
    requires |order| == |lv|
  {
    forall i :: 0 <= i < |order| ==> Exact(g, s, order[i], lv[i])
  }

  /** Every cell but the first was reached from an earlier, dequeued neighbour one layer below it. */
  ghost predicate Parents(order: seq<Cell>, lv: seq<nat>, par: seq<nat>, h: nat)
    requires |order| == |lv| == |par|
  {
    forall i :: 0 < i < |order| ==>
      par[i] < i && par[i] < h && Adjacent(order[par[i]], order[i]) && lv[i] == lv[par[i]] + 1
  }

  /** Layers never decrease along the queue, and none is more than one past the current cell's. */
  ghost predicate Layers(lv: seq<nat>, h: nat)
    requires h <= |lv|
  {
    && (forall i, j :: 0 <= i <= j < |lv| ==> lv[i] <= lv[j])
    && (h > 0 ==> forall i :: 0 <= i < |lv| ==> lv[i] <= lv[h - 1] + 1)
  }

  /**
   * Every open neighbour of the first `n` cells is enqueued, and so is every open
   * neighbour of cell `n` in the directions below `dd`.
   */
  ghost predicate Closed(g: Grid, order: seq<Cell>, n: nat, dd: nat) {
    forall j, d :: 0 <= j < |order| && 0 <= d < 4 && (j < n || (j == n && d < dd)) && Open(g, Step(order[j], d))
                   ==> Step(order[j], d) in order
  }

  lemma TreeStart(g: Grid, s: Cell)
    requires Open(g, s)
    ensures Tree(g, s, [s], [0], [0], 0) && Closed(g, [s], 0, 0)
  {
    assert Within(g, s, 0) == {s};
  }

  /** Dequeuing the next cell keeps the tree. */
  lemma TreePop(g: Grid, s: Cell, order: seq<Cell>, lv: seq<nat>, par: seq<nat>, h: nat)
    requires Tree(g, s, order, lv, par, h) && h < |order|
    ensures Tree(g, s, order, lv, par, h + 1)
  {
  }

  /** All directions of cell `n` done is the same as no direction of cell `n + 1` done. */
  lemma ClosedNext(g: Grid, order: seq<Cell>, n: nat)
    requires Closed(g, order, n, 4)
    ensures Closed(g, order, n + 1, 0)
  {
  }

  /** A direction that leads to a wall, off the grid, or to an enqueued cell needs no push. */
  lemma ClosedSkip(g: Grid, order: seq<Cell>, n: nat, d: nat)
    requires Closed(g, order, n, d) && n < |order| && d < 4
    requires !Open(g, Step(order[n], d)) || Step(order[n], d) in order
    ensures Closed(g, order, n, d + 1)
  {
  }

  /** The cells of layers below that of the current cell `h - 1` have had all their neighbours enqueued. */
  lemma ClosedBelow(g: Grid, s: Cell, order: seq<Cell>, lv: seq<nat>, par: seq<nat>, h: nat, d: nat)
    requires Tree(g, s, order, lv, par, h) && 0 < h && Closed(g, order, h - 1, d)
    ensures forall j, e :: 0 <= j < |order| && lv[j] < lv[h - 1] && 0 <= e < 4 && Open(g, Step(order[j], e))
                           ==> Step(order[j], e) in order
  {
    forall j, e | 0 <= j < |order| && lv[j] < lv[h - 1] && 0 <= e < 4 && Open(g, Step(order[j], e))
      ensures Step(order[j], e) in order
    {
      var a, b := lv[h - 1], lv[j];
      assert j < h - 1 || a <= b;
    }
  }

  /**
   * An open neighbour of the current cell that is not yet enqueued is first reached
   * one layer after the current cell.
   */
  lemma FreshNeighbourExact(g: Grid, s: Cell, order: seq<Cell>, lv: seq<nat>, par: seq<nat>, h: nat, d: nat)
    requires Tree(g, s, order, lv, par, h) && 0 < h && d < 4 && Closed(g, order, h - 1, d)
    requires Open(g, Step(order[h - 1], d)) && Step(order[h - 1], d) !in order
    ensures Exact(g, s, Step(order[h - 1], d), lv[h - 1] + 1)
  {
    var x, y, L := order[h - 1], Step(order[h - 1], d), lv[h - 1];
    ClosedBelow(g, s, order, lv, par, h, d);
    LayerCovered(g, s, order, lv, L, L);
    assert x in Within(g, s, L);
    assert y in Frontier(g, Within(g, s, L));
  }

  /** Enqueuing a fresh open neighbour of the current cell, in the layer after it, keeps the tree. */
  lemma TreePush(g: Grid, s: Cell, order: seq<Cell>, lv: seq<nat>, par: seq<nat>, h: nat, d: nat)
    requires Tree(g, s, order, lv, par, h) && 0 < h && d < 4
    requires Open(g, Step(order[h - 1], d)) && Step(order[h - 1], d) !in order
    requires Exact(g, s, Step(order[h - 1], d), lv[h - 1] + 1)
    ensures Tree(g, s, order + [Step(order[h - 1], d)], lv + [lv[h - 1] + 1], par + [h - 1], h)
  {
    var y, L := Step(order[h - 1], d), lv[h - 1];
    PushShape(s, order, lv, par, h, y);
    PushOpen(g, order, y);
    PushExact(g, s, order, lv, y, L + 1);
    PushParents(order, lv, par, h, d);
    PushLayers(lv, h);
  }

  lemma PushShape(s: Cell, order: seq<Cell>, lv: seq<nat>, par: seq<nat>, h: nat, y: Cell)
    requires Shape(s, order, lv, par, h) && 0 < h && y !in order
    ensures Shape(s, order + [y], lv + [lv[h - 1] + 1], par + [h - 1], h)
  {
    var order' := order + [y];
    forall i, j | 0 <= i < j < |order'|
      ensures order'[i] != order'[j]
    {
      if j == |order| {
        assert order[i] in order;
      }
    }
  }

  lemma PushOpen(g: Grid, order: seq<Cell>, y: Cell)
    requires AllOpen(g, order) && Open(g, y)
    ensures AllOpen(g, order + [y])
  {
    var order' := order + [y];
    forall i | 0 <= i < |order'|
      ensures Open(g, order'[i])
    {
      if i < |order| {
        assert order'[i] == order[i];
      }
    }
  }

  lemma PushExact(g: Grid, s: Cell, order: seq<Cell>, lv: seq<nat>, y: Cell, n: nat)
    requires |order| == |lv| && AllExact(g, s, order, lv) && Exact(g, s, y, n)
    ensures AllExact(g, s, order + [y], lv + [n])
  {
    var order', lv' := order + [y], lv + [n];
    forall i | 0 <= i < |order'|
      ensures Exact(g, s, order'[i], lv'[i])
    {
      if i < |order| {
        assert order'[i] == order[i] && lv'[i] == lv[i];
      }
    }
  }

  lemma PushParents(order: seq<Cell>, lv: seq<nat>, par: seq<nat>, h: nat, d: nat)
    requires |order| == |lv| == |par| && 0 < h <= |order| && d < 4 && Parents(order, lv, par, h)
    ensures Parents(order + [Step(order[h - 1], d)], lv + [lv[h - 1] + 1], par + [h - 1], h)
  {
    var order', lv', par' := order + [Step(order[h - 1], d)], lv + [lv[h - 1] + 1], par + [h - 1];
    forall i | 0 < i < |order'|
      ensures par'[i] < i && par'[i] < h && Adjacent(order'[par'[i]], order'[i]) && lv'[i] == lv'[par'[i]] + 1
    {
      if i < |order| {
        assert order'[i] == order[i] && lv'[i] == lv[i] && par'[i] == par[i];
        assert order'[par[i]] == order[par[i]] && lv'[par[i]] == lv[par[i]];
      } else {
        assert order'[h - 1] == order[h - 1] && lv'[h - 1] == lv[h - 1];
      }
    }
  }

  lemma PushLayers(lv: seq<nat>, h: nat)
    requires 0 < h <= |lv| && Layers(lv, h)
    ensures Layers(lv + [lv[h - 1] + 1], h)
  {
    var lv' := lv + [lv[h - 1] + 1];
    forall i, j | 0 <= i <= j < |lv'|
      ensures lv'[i] <= lv'[j]
    {
      if j == |lv| && i < |lv| {
        assert lv'[i] == lv[i];
      } else if j < |lv| {
        assert lv'[i] == lv[i] && lv'[j] == lv[j];
      }
    }
    assert lv'[h - 1] == lv[h - 1];
  }

  /** Enqueuing a fresh open neighbour of the current cell completes that direction. */
  lemma ClosedPush(g: Grid, order: seq<Cell>, n: nat, d: nat)
    requires Closed(g, order, n, d) && n < |order| && d < 4
    ensures Closed(g, order + [Step(order[n], d)], n, d + 1)
  {
    var y := Step(order[n], d);
    var order' := order + [y];
    forall j, e | 0 <= j < |order'| && 0 <= e < 4 && (j < n || (j == n && e < d + 1)) && Open(g, Step(order'[j], e))
      ensures Step(order'[j], e) in order'
    {
      assert order'[j] == order[j];
      if j == n && e == d {
        assert order'[|order|] == y;
      } else {
        assert Step(order[j], e) in order;
      }
    }
  }

  /**
   * One enqueue of the inner loop: a fresh open neighbour of the current cell,
   * appended in the layer after it with the current cell as parent, keeps the tree
   * and completes that direction.
   */
  lemma TreeGrow(g: Grid, s: Cell, order: seq<Cell>, lv: seq<nat>, par: seq<nat>, h: nat, d: nat,
                 order': seq<Cell>, lv': seq<nat>, par': seq<nat>)
    requires Tree(g, s, order, lv, par, h) && 0 < h && d < 4 && Closed(g, order, h - 1, d)
    requires Open(g, Step(order[h - 1], d)) && Step(order[h - 1], d) !in order
    requires order' == order + [Step(order[h - 1], d)] && lv' == lv + [lv[h - 1] + 1] && par' == par + [h - 1]
    ensures Tree(g, s, order', lv', par', h) && Closed(g, order', h - 1, d + 1)
  {
    FreshNeighbourExact(g, s, order, lv, par, h, d);
    TreePush(g, s, order, lv, par, h, d);
    ClosedPush(g, order, h - 1, d);
  }

  /** A search that has dequeued and expanded every enqueued cell has enqueued every reachable cell. */
  lemma ExhaustedHoldsReachable(g: Grid, s: Cell, order: seq<Cell>, lv: seq<nat>, par: seq<nat>, t: Cell)
    requires Tree(g, s, order, lv, par, |order|) && Closed(g, order, |order|, 0)
    ensures Reachable(g, s, t) ==> t in order
  {
    ClosedListHoldsReachable(g, s, order, lv, t);
  }

  /** A walk to an enqueued cell with one cell more than its layer is a shortest walk. */
  lemma LayerIsDistance(g: Grid, s: Cell, order: seq<Cell>, lv: seq<nat>, par: seq<nat>, h: nat, k: nat, p: seq<Cell>)
    requires Tree(g, s, order, lv, par, h) && k < |order|
    requires WalkBetween(g, p, s, order[k]) && |p| == lv[k] + 1
    ensures IsDistance(g, s, order[k], lv[k])
  {
    forall q | WalkBetween(g, q, s, order[k])
      ensures lv[k] + 1 <= |q|
    {
      ExactIsLowerBound(g, s, order[k], lv[k], q);
    }
  }

  /** A search that has enqueued the target holds a shortest walk to it along the parent links. */
  lemma FoundOutcome(g: Grid, s: Cell, t: Cell, order: seq<Cell>, lv: seq<nat>, par: seq<nat>, h: nat)
    requires Tree(g, s, order, lv, par, h) && order[|order| - 1] == t
    ensures Links(order, par)
    ensures var p := ChainPath(order, par, |order| - 1);
            WalkBetween(g, p, s, t) && Distinct(p) && IsDistance(g, s, t, |p| - 1)
  {
    TreeLinks(g, s, order, lv, par, h);
    ChainIsShortest(g, s, order, lv, par, h, |order| - 1);
  }

  /** A search that ran dry without enqueuing the target shows it unreachable. */
  lemma ExhaustedOutcome(g: Grid, s: Cell, t: Cell, order: seq<Cell>, lv: seq<nat>, par: seq<nat>)
    requires Tree(g, s, order, lv, par, |order|) && Closed(g, order, |order|, 0) && t !in order
    ensures !Reachable(g, s, t)
  {
    ExhaustedHoldsReachable(g, s, order, lv, par, t);
  }

  /** The facts about a search tree that following its parent links needs. */
  lemma TreeLinks(g: Grid, s: Cell, order: seq<Cell>, lv: seq<nat>, par: seq<nat>, h: nat)
    requires Tree(g, s, order, lv, par, h)
    ensures Links(order, par) && order[0] == s && Distinct(order) && AllOpen(g, order)
  {
  }

  /** Every cell but the first names an earlier cell as its parent. */
  ghost predicate Links(order: seq<Cell>, par: seq<nat>) {
    |par| == |order| && |order| > 0 && forall i :: 0 < i < |order| ==> par[i] < i
  }

  /** The cells on the parent links from the start to `order[k]`, start first. */
  ghost function ChainPath(order: seq<Cell>, par: seq<nat>, k: nat): (p: seq<Cell>)
    requires |par| == |order| && k < |order|
    requires forall i :: 0 < i < |order| ==> par[i] < i
    ensures |p| > 0 && p[|p| - 1] == order[k]
    decreases k
  {
    if k == 0 then [order[0]] else ChainPath(order, par, par[k]) + [order[k]]
  }

  /** Every cell of `p` is first reached from `s` after as many steps as its position. */
  ghost predicate Layered(g: Grid, s: Cell, p: seq<Cell>) {
    forall m :: 0 <= m < |p| ==> Exact(g, s, p[m], m)
  }

  /** A layered walk extended by a neighbour of the next layer is a layered walk. */
  lemma LayeredSnoc(g: Grid, s: Cell, q: seq<Cell>, x: Cell)
    requires IsWalk(g, q) && Layered(g, s, q)
    requires Adjacent(q[|q| - 1], x) && Exact(g, s, x, |q|)
    ensures IsWalk(g, q + [x]) && Layered(g, s, q + [x])
  {
    WithinOpen(g, s, |q|, x);
    WalkSnoc(g, q, x);
    var p := q + [x];
    forall m | 0 <= m < |p|
      ensures Exact(g, s, p[m], m)
    {
      if m < |q| {
        assert p[m] == q[m];
      }
    }
  }

  /**
   * Following parent links from an enqueued cell back to the start gives a walk
   * whose `m`-th cell is first reached after exactly `m` steps.
   */
  lemma {:induction false} ChainLayers(g: Grid, s: Cell, order: seq<Cell>, lv: seq<nat>, par: seq<nat>, h: nat, k: nat)
    requires Tree(g, s, order, lv, par, h) && k < |order|
    ensures var p := ChainPath(order, par, k);
            |p| == lv[k] + 1 && WalkBetween(g, p, s, order[k]) && Layered(g, s, p)
    decreases k
  {
    if k > 0 {
      var j := par[k];
      ChainLayers(g, s, order, lv, par, h, j);
      var q := ChainPath(order, par, j);
      assert Adjacent(order[j], order[k]) && lv[k] == lv[j] + 1 && Exact(g, s, order[k], lv[k]);
      LayeredSnoc(g, s, q, order[k]);
    } else {
      assert Exact(g, s, order[0], 0);
    }
  }

  /**
   * The parent chain of an enqueued cell is a shortest walk to it from the
   * start, it never repeats a cell, and its number of steps is the cell's layer.
   */
  lemma ChainIsShortest(g: Grid, s: Cell, order: seq<Cell>, lv: seq<nat>, par: seq<nat>, h: nat, k: nat)
    requires Tree(g, s, order, lv, par, h) && k < |order|
    ensures var p := ChainPath(order, par, k);
            && WalkBetween(g, p, s, order[k]) && Distinct(p)
            && |p| == lv[k] + 1 && IsDistance(g, s, order[k], lv[k])
  {
    var p := ChainPath(order, par, k);
    ChainLayers(g, s, order, lv, par, h, k);
    assert Layered(g, s, p);
    forall i, j | 0 <= i < j < |p|
      ensures p[i] != p[j]
    {
      ExactDistinct(g, s, p[i], i, p[j], j);
    }
    LayerIsDistance(g, s, order, lv, par, h, k, p);
  }
}
