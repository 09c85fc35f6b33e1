/**
 * Manual play on a grid: the WASD keys, a single move, and the whole game
 * driven by a sequence of keys.  `MazeGame.Maze.MovePlayer` and
 * `MazeGame.Maze.PlayManual` are proved to behave as `Move` and `Play`.
 */
module ManualPlay {
  import opened MazeGraph
  import opened Wrappers

  /** The direction a key asks for: `w`, `s`, `a`, `d` in either case are up, down, left, right. */
  function KeyDirection(ch: char): (d: Option<int>)
    ensures d.Some? ==> 0 <= d.value < 4
    ensures d.Some? <==> ch in "wWsSaAdD"
  {
    if ch == 'w' || ch == 'W' then Some(0)
    else if ch == 's' || ch == 'S' then Some(1)
    else if ch == 'a' || ch == 'A' then Some(2)
    else if ch == 'd' || ch == 'D' then Some(3)
    else None
  }

  /** Where the player at `x` stands after key `ch`: one step when the key names a direction and the target is open. */
  function Move(g: Grid, x: Cell, ch: char): (y: Cell)
    ensures Open(g, x) ==> Open(g, y)
    ensures y == x || Adjacent(x, y)
    ensures y != x <==> KeyDirection(ch).Some? && Open(g, Step(x, KeyDirection(ch).value))
  {
    match KeyDirection(ch)
    case None => x
    case Some(d) => if Open(g, Step(x, d)) then Step(x, d) else x
  }

  /** The position reached by applying every key of `keys` in turn. */
  function Moves(g: Grid, x: Cell, keys: seq<char>): Cell
    decreases |keys|
  {
    if keys == [] then x else Moves(g, Move(g, x, keys[0]), keys[1..])
  }

  datatype Outcome = ReachedExit | Quit | OutOfInput

  datatype PlayResult = PlayResult(pos: Cell, outcome: Outcome, consumed: nat)

  predicate IsQuitKey(ch: char) {
    ch == 'q' || ch == 'Q'
  }

  /**
   * The game from position `x`: it is won as soon as the player stands on `exit`,
   * a quit key ends it where the player stands, and any other key is a move.
   */
  function Play(g: Grid, x: Cell, exit: Cell, keys: seq<char>): (res: PlayResult)
    ensures res.consumed <= |keys|
    ensures res.outcome == ReachedExit <==> res.pos == exit
    ensures res.outcome == Quit ==> res.consumed > 0 && IsQuitKey(keys[res.consumed - 1])
    ensures res.outcome == OutOfInput ==> res.consumed == |keys|
    decreases |keys|
  {
    if x == exit then PlayResult(x, ReachedExit, 0)
    else if keys == [] then PlayResult(x, OutOfInput, 0)
    else if IsQuitKey(keys[0]) then PlayResult(x, Quit, 1)
    else
      var res := Play(g, Move(g, x, keys[0]), exit, keys[1..]);
      res.(consumed := res.consumed + 1)
  }

  /** A key that is not a quit key, away from the exit, moves the player and the game goes on. */
  lemma PlayStep(g: Grid, x: Cell, exit: Cell, keys: seq<char>)
    requires x != exit && keys != [] && !IsQuitKey(keys[0])
    ensures var res := Play(g, Move(g, x, keys[0]), exit, keys[1..]);
            Play(g, x, exit, keys) == res.(consumed := res.consumed + 1)
  {
  }

  /** No key before the last one consumed quits the game, and the game stops on the first quit key. */
  lemma {:induction false} PlayStopsAtFirstQuit(g: Grid, x: Cell, exit: Cell, keys: seq<char>)
    ensures var res := Play(g, x, exit, keys);
            forall k :: 0 <= k < res.consumed - 1 ==> !IsQuitKey(keys[k])
    decreases |keys|
  {
    if x != exit && keys != [] && !IsQuitKey(keys[0]) {
      PlayStopsAtFirstQuit(g, Move(g, x, keys[0]), exit, keys[1..]);
    }
  }

  /**
   * The final position is the keys before the stop applied as moves; a quit key
   * does not move the player.
   */
  lemma {:induction false} PlayFollowsMoves(g: Grid, x: Cell, exit: Cell, keys: seq<char>)
    ensures var res := Play(g, x, exit, keys);
            res.pos == if res.outcome == Quit then Moves(g, x, keys[..res.consumed - 1])
                       else Moves(g, x, keys[..res.consumed])
    decreases |keys|
  {
    if x != exit && keys != [] && !IsQuitKey(keys[0]) {
      var y := Move(g, x, keys[0]);
      var sub := Play(g, y, exit, keys[1..]);
      PlayFollowsMoves(g, y, exit, keys[1..]);
      var n := if sub.outcome == Quit then sub.consumed - 1 else sub.consumed;
      assert keys[..n + 1][0] == keys[0] && keys[..n + 1][1..] == keys[1..][..n];
    } else {
      assert keys[..0] == [];
    }
  }

  /** A player who starts on an open cell is on an open cell whenever the game ends. */
  lemma {:induction false} PlayStaysOpen(g: Grid, x: Cell, exit: Cell, keys: seq<char>)
    requires Open(g, x)
    ensures Open(g, Play(g, x, exit, keys).pos)
    decreases |keys|
  {
    if x != exit && keys != [] && !IsQuitKey(keys[0]) {
      PlayStaysOpen(g, Move(g, x, keys[0]), exit, keys[1..]);
    }
  }
}
