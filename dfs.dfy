/**
 * What the randomised depth-first search looks for: a walk to the exit that
 * repeats no cell and avoids the cells already on the current path. Whatever
 * order the directions are tried in, such a walk exists exactly when the
 * search reports one, and from an empty path it exists exactly when the exit
 * is reachable at all.
 */
module PathSearch {
  import opened MazeGraph

  /** `p` walks from `s` to `t`, and `avoid` followed by `p` repeats no cell. */
  ghost predicate SimpleWalk(g: Grid, p: seq<Cell>, s: Cell, t: Cell, avoid: seq<Cell>) {
    WalkBetween(g, p, s, t) && Distinct(avoid + p)
  }

  /** Some walk from `s` to `t` repeats no cell and steps on no cell of `avoid`. */
  ghost predicate Escapes(g: Grid, avoid: seq<Cell>, s: Cell, t: Cell) {
    exists p :: SimpleWalk(g, p, s, t, avoid)
  }

  /** The search cannot continue into `y`: a wall, a cell already on the path, or a dead end. */
  ghost predicate DeadEnd(g: Grid, avoid: seq<Cell>, y: Cell, t: Cell) {
    !Open(g, y) || y in avoid || !Escapes(g, avoid, y, t)
  }

  /**
   * A walk found from the neighbour `Step(x, d)` while `x` is on the path,
   * with `x` in front, is a walk found from `x`.
   */
  lemma StepEscapes(g: Grid, avoid: seq<Cell>, x: Cell, d: int, q: seq<Cell>, t: Cell)
    requires 0 <= d < 4 && Open(g, x)
    requires SimpleWalk(g, q, Step(x, d), t, avoid + [x])
    ensures SimpleWalk(g, [x] + q, x, t, avoid)
  {
    WalkCons(g, x, q);
    assert avoid + ([x] + q) == avoid + [x] + q;
  }

  /**
   * A walk from `x` that is not already at the exit leaves `x` through some
   * direction the search would not find blocked.
   */
  lemma {:induction false} FirstStep(g: Grid, avoid: seq<Cell>, x: Cell, t: Cell, p: seq<Cell>)
    ensures SimpleWalk(g, p, x, t, avoid) && x != t ==>
              exists d :: 0 <= d < 4 && !DeadEnd(g, avoid + [x], Step(x, d), t)
  {
    if SimpleWalk(g, p, x, t, avoid) && x != t {
      assert |p| >= 2;
      var d := DirectionTo(x, p[1]);
      var q := p[1..];
      assert avoid + p == avoid + [x] + q;
      assert IsWalk(g, q) by {
        forall m | 0 <= m < |q| - 1
          ensures Adjacent(q[m], q[m + 1])
        {
          assert q[m] == p[m + 1] && q[m + 1] == p[m + 2];
        }
      }
      assert SimpleWalk(g, q, Step(x, d), t, avoid + [x]);
      assert p[1] !in avoid + [x] by {
        var a := avoid + p;
        assert a[|avoid| + 1] == p[1];
        forall k | 0 <= k < |avoid| + 1
          ensures a[k] != p[1]
        {
        }
        forall k | 0 <= k < |avoid + [x]|
          ensures (avoid + [x])[k] == a[k]
        {
        }
      }
      assert !DeadEnd(g, avoid + [x], Step(x, d), t);
    }
  }

  /**
   * If every direction out of `x` is blocked once `x` is on the path and `x`
   * is not the exit, no walk from `x` escapes.
   */
  lemma NoEscape(g: Grid, avoid: seq<Cell>, x: Cell, t: Cell)
    requires x != t
    requires forall d :: 0 <= d < 4 ==> DeadEnd(g, avoid + [x], Step(x, d), t)
    ensures !Escapes(g, avoid, x, t)
  {
    forall p
      ensures !SimpleWalk(g, p, x, t, avoid)
    {
      FirstStep(g, avoid, x, t, p);
    }
  }

  /** Cutting the loop between two visits of the same cell out of a walk leaves a walk. */
  lemma {:induction false} CutLoop(g: Grid, p: seq<Cell>, i: nat, j: nat)
    requires IsWalk(g, p) && i < j < |p| && p[i] == p[j]
    ensures var q := p[..i] + p[j..]; IsWalk(g, q) && q[0] == p[0] && q[|q| - 1] == p[|p| - 1] && |q| < |p|
  {
    var q := p[..i] + p[j..];
    forall m | 0 <= m < |q|
      ensures q[m] == if m < i then p[m] else p[m + j - i]
    {
    }
    forall m | 0 <= m < |q|
      ensures Open(g, q[m])
    {
    }
    forall m | 0 <= m < |q| - 1
      ensures Adjacent(q[m], q[m + 1])
    {
      if m + 1 < i {
      } else if m + 1 == i {
        assert q[m] == p[m] && q[m + 1] == p[j] == p[i];
      } else {
        assert q[m] == p[m + j - i] && q[m + 1] == p[m + j - i + 1];
      }
    }
  }

  /** Every walk can be shortened to one that repeats no cell. */
  lemma {:induction false} Shorten(g: Grid, p: seq<Cell>, s: Cell, t: Cell)
    requires WalkBetween(g, p, s, t)
    ensures Escapes(g, [], s, t)
    decreases |p|
  {
    if Distinct(p) {
      assert [] + p == p;
      assert SimpleWalk(g, p, s, t, []);
    } else {
      var i, j :| 0 <= i < j < |p| && p[i] == p[j];
      CutLoop(g, p, i, j);
      Shorten(g, p[..i] + p[j..], s, t);
    }
  }

  /** From an empty path, the search's goal is exactly reachability. */
  lemma EscapesIffReachable(g: Grid, s: Cell, t: Cell)
    ensures Escapes(g, [], s, t) <==> Reachable(g, s, t)
  {
    if Reachable(g, s, t) {
      var p :| WalkBetween(g, p, s, t);
      Shorten(g, p, s, t);
    }
  }
}
