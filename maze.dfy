/**
 * The maze engine: the program's global state as one object, with the maze
 * loader, manual play, the breadth-first shortest path and the randomised
 * depth-first path search as its methods.
 */
module MazeGame {
  import opened Wrappers
  import opened MazeGraph
  import opened CircularQueue
  import opened MazeFile
  import opened ManualPlay
  import opened Shuffle
  import opened SearchTree
  import opened PathSearch

  /**
   * Why `show_some_solutions` stopped: the search found no path, the display
   * limit was reached, the player answered something other than `y`/`Y`, or
   * the answers ran out.
   */
  datatype Stop = NoMorePaths | LimitReached | Declined | OutOfAnswers

  /** The inner cells of `p` marked so far: those at positions `1` up to but excluding `k`. */
  ghost function Marks(p: seq<Cell>, k: int): set<Cell> {
    set m | 0 < m < k && m < |p| :: p[m]
  }

  lemma MarksGrow(p: seq<Cell>, k: int)
    requires 0 < k < |p|
    ensures Marks(p, k + 1) == Marks(p, k) + {p[k]}
  {
    assert p[k] in Marks(p, k + 1);
  }

  /** What `move_player` reports: a move, a key that names no direction, or a blocked target. */
  datatype MoveOutcome = Moved | UnknownKey | Blocked

  /** The first `rows` rows and `cols` columns of a character grid. */
  function GridOf(a: array2<char>, rows: int, cols: int): (g: Grid)
    requires 0 <= rows <= a.Length0 && 0 <= cols <= a.Length1
    reads a
    ensures Rectangular(g, rows, cols)
    ensures forall i, j :: 0 <= i < rows && 0 <= j < cols ==> g[i][j] == a[i, j]
  {
    seq(rows, i requires 0 <= i < rows reads a =>
      seq(cols, j requires 0 <= j < cols reads a => a[i, j]))
  }

  /** A product of a row count and a column count that fit the grid array stays below the queue capacity. */
  lemma AreaFits(rows: int, cols: int)
    requires 0 <= rows <= MAXR && 0 <= cols < MAXC
    ensures rows * cols <= MAXR * (MAXC - 1) < QSIZE - 1
  {
    assert rows * cols <= MAXR * cols;
  }

  /** The visited grid marks exactly the cells of `order`. */
  ghost predicate Visits(visited: array2<bool>, order: seq<Cell>)
    reads visited
  {
    && visited.Length0 == MAXR && visited.Length1 == MAXC
    && forall a, b {:trigger visited[a, b]} :: 0 <= a < MAXR && 0 <= b < MAXC ==> (visited[a, b] <==> Cell(a, b) in order)
  }

  /** The parent grids hold, at every enqueued cell but the first, the cell it was reached from. */
  ghost predicate Stored(parentR: array2<int>, parentC: array2<int>, order: seq<Cell>, par: seq<nat>)
    reads parentR, parentC
  {
    && parentR.Length0 == MAXR && parentR.Length1 == MAXC
    && parentC.Length0 == MAXR && parentC.Length1 == MAXC
    && |par| == |order|
    && forall i {:trigger par[i]} :: 0 < i < |order| ==>
         && 0 <= order[i].r < MAXR && 0 <= order[i].c < MAXC && par[i] < |order|
         && parentR[order[i].r, order[i].c] == order[par[i]].r
         && parentC[order[i].r, order[i].c] == order[par[i]].c
  }

  class Maze {
    /** The grid as loaded, row by row, each row a C string. */
    const maze: array2<char>
    var rows: int
    var cols: int
    /** Start, exit and player positions. */
    var sr: int
    var sc: int
    var er: int
    var ec: int
    var pr: int
    var pc: int
    /** The breadth-first search queue. */
    const queue: CellQueue
    /** The depth-first search's current path, as parallel coordinate arrays. */
    const pathR: array<int>
    const pathC: array<int>
    var pathLen: int
    /** The pseudo-random stream: the `k`-th call of `rand()` returns `rand(k)`. */
    const rand: nat -> nat
    /** Number of `rand()` calls made so far. */
    var draws: nat

    /** The grid array has its static size and the dimensions fit it. */
    ghost predicate Shape()
      reads this`rows, this`cols
    {
      maze.Length0 == MAXR && maze.Length1 == MAXC && 0 <= rows <= MAXR && 0 <= cols < MAXC
    }

    ghost predicate Valid()
      reads this`rows, this`cols
    {
      && Shape()
      && pathR.Length == QSIZE && pathC.Length == QSIZE && pathR != pathC
    }

    /** The path length fits the path buffer. */
    ghost predicate PathFits()
      reads this`pathLen
    {
      0 <= pathLen <= QSIZE
    }

    /** The depth-first search's current path: the first `pathLen` cells of the path buffer. */
    ghost function Path(): (p: seq<Cell>)
      requires Valid() && PathFits()
      reads this`rows, this`cols, this`pathLen, pathR, pathC
      ensures |p| == pathLen && forall i :: 0 <= i < pathLen ==> p[i] == Cell(pathR[i], pathC[i])
    {
      var n := pathLen;
      seq(n, i requires 0 <= i < n <= pathR.Length == pathC.Length reads pathR, pathC => Cell(pathR[i], pathC[i]))
    }

    /**
     * A grid is loaded: it is non-empty, each row ends with a NUL right after its
     * last column and holds none before it, and the start and exit cells hold
     * their markers.
     */
    ghost predicate Loaded()
      reads this`rows, this`cols, this`sr, this`sc, this`er, this`ec, maze
    {
      && Valid() && 0 < rows && 0 < cols
      && 0 <= sr < rows && 0 <= sc < cols && 0 <= er < rows && 0 <= ec < cols
      && maze[sr, sc] == 'S' && maze[er, ec] == 'E'
      && Terminated()
    }

    ghost predicate Terminated()
      requires Shape()
      reads this`rows, this`cols, maze
    {
      && (forall i :: 0 <= i < rows ==> maze[i, cols] == '\0')
      && (forall i, j :: 0 <= i < rows && 0 <= j < cols ==> maze[i, j] != '\0')
    }

    /** The grid the program works on: the loaded rows and columns of `maze`. */
    function Board(): (g: Grid)
      requires Shape()
      reads this`rows, this`cols, maze
      ensures Rectangular(g, rows, cols)
      ensures forall i, j :: 0 <= i < rows && 0 <= j < cols ==> g[i][j] == maze[i, j]
    {
      GridOf(maze, rows, cols)
    }

    constructor (rand: nat -> nat)
      ensures Valid() && queue.Valid() && rows == 0 && cols == 0 && pathLen == 0 && draws == 0 && this.rand == rand
    {
      maze := new char[MAXR, MAXC];
      queue := new CellQueue();
      pathR := new int[QSIZE];
      pathC := new int[QSIZE];
      this.rand := rand;
      rows, cols := 0, 0;
      pathLen, draws := 0, 0;
    }

    /**
     * Loads the maze from the file's text; `None` is a file that cannot be opened.
     * The report is the one `ExpectedStatus` gives, and a successful load holds
     * exactly the rows the loader reads, with the last `S` and the last `E` in
     * row-major order as start and exit.
     */
    method LoadMaze(file: Option<seq<char>>) returns (status: LoadStatus)
      requires Valid()
      modifies this`rows, this`cols, this`sr, this`sc, this`er, this`ec, maze
      ensures Valid()
      ensures status == ExpectedStatus(file)
      ensures file.None? ==> rows == old(rows) && cols == old(cols) && unchanged(maze)
      ensures status == CannotOpen || status == RaggedRows || status == EmptyMaze ==>
                sr == old(sr) && sc == old(sc) && er == old(er) && ec == old(ec)
      ensures status == LoadStatus.Loaded ==>
                && Loaded() && Board() == Window(file.value)
                && IsLast(Board(), 'S', Cell(sr, sc)) && IsLast(Board(), 'E', Cell(er, ec))
      ensures file.Some? ==> FailedLoad(Window(file.value), status)
      ensures rows == 0 ==> cols == old(cols)
      ensures file.Some? ==> Unwritten(old(Snapshot(maze)), rows, cols, if status == RaggedRows then |Window(file.value)[rows]| else -1)
    {
      if file.None? {
        return CannotOpen;
      }
      status := LoadText(file.value);
    }

    /**
     * What a failed load leaves behind, given the rows `w` the loader reads: on
     * ragged rows, the rows before the first ragged one and that row itself, each
     * terminated; on an empty maze, no rows; on a missing marker, the whole grid,
     * with each marker at its last occurrence or -1 when it does not occur.
     */
    ghost predicate FailedLoad(w: seq<seq<char>>, status: LoadStatus)
      reads this`rows, this`cols, this`sr, this`sc, this`er, this`ec, maze
    {
      match status
      case RaggedRows =>
        && Shape() && 0 < rows < |w| && rows < MAXR && HoldsRows(w[..rows], cols)
        && |w[rows]| != cols && |w[rows]| < MAXC
        && (forall b :: 0 <= b < |w[rows]| ==> maze[rows, b] == w[rows][b]) && maze[rows, |w[rows]|] == '\0'
      case EmptyMaze => rows == 0 && w == []
      case MissingMarker =>
        && Shape() && 0 < rows && Board() == w && Terminated()
        && (sr == -1 <==> !Occurs(w, 'S')) && (er == -1 <==> !Occurs(w, 'E'))
        && (sr != -1 ==> IsLast(w, 'S', Cell(sr, sc))) && (er != -1 ==> IsLast(w, 'E', Cell(er, ec)))
      case _ => true
    }

    /** The loader once the file is open: the rows of `text`, then the markers. */
    method LoadText(text: seq<char>) returns (status: LoadStatus)
      requires Valid()
      modifies this`rows, this`cols, this`sr, this`sc, this`er, this`ec, maze
      ensures Valid()
      ensures status == ExpectedStatus(Some(text))
      ensures status == LoadStatus.Loaded ==>
                && Loaded() && Board() == Window(text)
                && IsLast(Window(text), 'S', Cell(sr, sc)) && IsLast(Window(text), 'E', Cell(er, ec))
      ensures FailedLoad(Window(text), status)
      ensures status == RaggedRows || status == EmptyMaze ==> sr == old(sr) && sc == old(sc) && er == old(er) && ec == old(ec)
      ensures rows == 0 ==> cols == old(cols)
      ensures Unwritten(old(Snapshot(maze)), rows, cols, if status == RaggedRows then |Window(text)[rows]| else -1)
    {
      var uniform := ReadRows(text);
      ghost var w := Window(text);
      if !uniform {
        status := RaggedRows;
      } else if rows == 0 || cols == 0 {
        status := EmptyMaze;
      } else {
        status := CheckMarkers(w);
      }
    }

    /** The end of the loader, on a grid of rows: the marker scan and its report. */
    method CheckMarkers(ghost w: Grid) returns (status: LoadStatus)
      requires Valid() && 0 < rows && 0 < cols && Board() == w && Terminated()
      modifies this`sr, this`sc, this`er, this`ec
      ensures status == if Occurs(w, 'S') && Occurs(w, 'E') then LoadStatus.Loaded else MissingMarker
      ensures status == LoadStatus.Loaded ==>
                Loaded() && IsLast(w, 'S', Cell(sr, sc)) && IsLast(w, 'E', Cell(er, ec))
      ensures FailedLoad(w, status)
    {
      ScanMarkers(w);
      if sr == -1 || er == -1 {
        status := MissingMarker;
      } else {
        assert maze[sr, sc] == Board()[sr][sc] && maze[er, ec] == Board()[er][ec];
        status := LoadStatus.Loaded;
      }
    }

    /**
     * The reading loop of the loader: one `fgets` buffer per iteration, newline
     * stripped, empty rows skipped, each kept row copied into the grid; it fails
     * on the first row whose length differs from the first row's, and stops after
     * `MAXR` rows.
     */
    method ReadRows(text: seq<char>) returns (uniform: bool)
      requires Valid()
      modifies this`rows, this`cols, maze
      ensures Valid()
      ensures uniform <==> Uniform(Window(text))
      ensures uniform ==> rows == |Window(text)| && Board() == Window(text) && Terminated()
      ensures uniform && rows > 0 ==> cols > 0
      ensures !uniform ==> FailedLoad(Window(text), RaggedRows)
      ensures rows == 0 ==> cols == old(cols)
      ensures Unwritten(old(Snapshot(maze)), rows, cols, if uniform then -1 else |Window(text)[rows]|)
    {
      rows := 0;
      var pos := 0;
      ghost var done: seq<seq<char>> := [];
      ghost var before := old(Snapshot(maze));
      ReadStart(text);
      while pos < |text|
        invariant Valid() && ReadSoFar(text, pos, done)
        invariant rows == |Kept(done)| < MAXR && HoldsRows(Kept(done), cols)
        invariant rows == 0 ==> cols == old(cols)
        invariant Unwritten(before, rows, cols, -1)
        decreases |text| - pos
      {
        var n := ChunkEnd(text[pos..], 0);
        var chunk := text[pos..pos + n];
        ghost var done0, pos0 := done, pos;
        done := done + [chunk];
        pos := pos + n;
        ChunkAdvance(text, done0, pos0, n, chunk, pos, done);
        KeptSnoc(done0, chunk, done);
        var ok := KeepRow(chunk, Kept(done0), before);
        if !ok {
          RaggedLeft(text, pos, done, Kept(done0), Row(chunk));
          return false;
        }
        if rows >= MAXR {
          ReadStarts(text, pos, done);
          break;
        }
      }
      ReadStarts(text, pos, done);
      HoldsBoard(Window(text));
      assert rows > 0 ==> |Window(text)[0]| == cols;
      return true;
    }

    /** A row of another length, copied after the rows kept so far, is the ragged row the loader reports. */
    lemma RaggedLeft(text: seq<char>, pos: int, done: seq<seq<char>>, kept: seq<seq<char>>, row: seq<char>)
      requires Shape() && ReadSoFar(text, pos, done) && Kept(done) == kept + [row]
      requires kept != [] && rows == |kept| < MAXR && HoldsRows(kept, cols) && |row| != cols && |row| < MAXC
      requires forall b :: 0 <= b < |row| ==> maze[rows, b] == row[b]
      requires maze[rows, |row|] == '\0'
      ensures !Uniform(Window(text)) && FailedLoad(Window(text), RaggedRows) && Window(text)[rows] == row
    {
      RaggedWindow(text, pos, done, kept, row);
    }

    /**
     * The grid array still holds `before` wherever the loader has not written: in
     * the rows below row `r`, past column `c` in the rows above it, and past column
     * `last` in row `r` itself (all of row `r` when `last` is -1).
     */
    ghost predicate Unwritten(before: seq<seq<char>>, r: int, c: int, last: int)
      reads maze
    {
      && |before| == maze.Length0 && (forall a :: 0 <= a < maze.Length0 ==> |before[a]| == maze.Length1)
      && forall a, b :: 0 <= a < maze.Length0 && 0 <= b < maze.Length1 && (r < a || (a < r && c < b) || (a == r && last < b))
           ==> maze[a, b] == before[a][b]
    }

    /**
     * One buffer of the reading loop: its C string, less one trailing newline, is
     * skipped when empty and otherwise copied into the next row of the grid; the
     * first row fixes the column count, and a later row of another length fails.
     */
    method KeepRow(chunk: seq<char>, ghost kept: seq<seq<char>>, ghost before: seq<seq<char>>) returns (ok: bool)
      requires Shape() && rows == |kept| < MAXR && HoldsRows(kept, cols) && |chunk| < MAXC
      requires Unwritten(before, rows, cols, -1)
      modifies this`rows, this`cols, maze
      ensures Unwritten(before, rows, cols, if ok then -1 else |Row(chunk)|)
      ensures Shape()
      ensures ok <==> Row(chunk) == [] || kept == [] || |Row(chunk)| == old(cols)
      ensures ok && Row(chunk) == [] ==> rows == old(rows) && HoldsRows(kept, cols)
      ensures ok && Row(chunk) != [] ==> rows == old(rows) + 1 && HoldsRows(kept + [Row(chunk)], cols)
      ensures !ok ==> kept != [] && |kept[0]| == old(cols) && rows == old(rows) && cols == old(cols) && HoldsRows(kept, cols)
      ensures Row(chunk) == [] ==> rows == old(rows) && cols == old(cols) && unchanged(maze)
      ensures Row(chunk) != [] ==> && (forall b :: 0 <= b < |Row(chunk)| ==> maze[old(rows), b] == Row(chunk)[b])
                                   && maze[old(rows), |Row(chunk)|] == '\0'
      ensures forall a, b :: 0 <= a < MAXR && 0 <= b < MAXC && (a != old(rows) || b > |Row(chunk)|) ==> maze[a, b] == old(maze[a, b])
    {
      var len := StrLen(chunk);
      if len > 0 && chunk[len - 1] == '\n' {
        len := len - 1;
      }
      assert chunk[..len] == Row(chunk);
      if len == 0 {
        return true;
      }
      CopyRow(rows, chunk[..len], kept);
      if rows == 0 {
        cols := len;
      } else if len != cols {
        return false;
      }
      rows := rows + 1;
      return true;
    }

    /**
     * The first `|k|` rows of the grid array hold the rows `k`, each of `c`
     * characters and followed by a NUL.
     */
    ghost predicate HoldsRows(k: seq<seq<char>>, c: int)
      reads maze
    {
      && maze.Length0 == MAXR && maze.Length1 == MAXC && |k| <= MAXR && 0 <= c < MAXC
      && (forall i :: 0 <= i < |k| ==> |k[i]| == c && maze[i, c] == '\0')
      && (forall i, j :: 0 <= i < |k| && 0 <= j < c ==> maze[i, j] == k[i][j])
    }

    lemma HoldsBoard(k: seq<seq<char>>)
      requires Shape() && rows == |k| && HoldsRows(k, cols)
      requires forall i, j :: 0 <= i < |k| && 0 <= j < |k[i]| ==> k[i][j] != '\0'
      ensures Board() == k && Terminated()
    {
      SameGrid(Board(), k);
    }

    /**
     * Copies the C string `line` into row `|k|` of the grid, with its terminating
     * NUL, whatever the length of the rows above; every other cell is kept, so
     * rows `k` held above it, all of the length of `line`, are then followed by it.
     */
    method CopyRow(i: int, line: seq<char>, ghost k: seq<seq<char>>)
      requires Shape() && i == |k| < MAXR && |line| < MAXC
      modifies maze
      ensures Shape()
      ensures forall b :: 0 <= b < |line| ==> maze[i, b] == line[b]
      ensures maze[i, |line|] == '\0'
      ensures forall a, b :: 0 <= a < MAXR && 0 <= b < MAXC && (a != i || b > |line|) ==> maze[a, b] == old(maze[a, b])
      ensures old(HoldsRows(k, |line|)) ==> HoldsRows(k + [line], |line|)
    {
      for j := 0 to |line|
        invariant forall b :: 0 <= b < j ==> maze[i, b] == line[b]
        invariant forall a, b :: 0 <= a < MAXR && 0 <= b < MAXC && (a != i || b >= j) ==> maze[a, b] == old(maze[a, b])
      {
        maze[i, j] := line[j];
      }
      maze[i, |line|] := '\0';
    }

    /** The marker scan of the loader: the last `S` and the last `E` in row-major order, or -1. */
    method ScanMarkers(ghost w: Grid)
      requires Valid() && Board() == w
      modifies this`sr, this`sc, this`er, this`ec
      ensures sr == -1 <==> !Occurs(w, 'S')
      ensures er == -1 <==> !Occurs(w, 'E')
      ensures sr != -1 ==> IsLast(w, 'S', Cell(sr, sc))
      ensures er != -1 ==> IsLast(w, 'E', Cell(er, ec))
    {
      sr, sc, er, ec := -1, -1, -1, -1;
      for i := 0 to rows
        invariant Cell(sr, sc) == ScanTo(w, 'S', i, 0) && Cell(er, ec) == ScanTo(w, 'E', i, 0)
      {
        for j := 0 to cols
          invariant Cell(sr, sc) == ScanTo(w, 'S', i, j) && Cell(er, ec) == ScanTo(w, 'E', i, j)
        {
          if maze[i, j] == 'S' {
            sr, sc := i, j;
          }
          if maze[i, j] == 'E' {
            er, ec := i, j;
          }
        }
      }
      ScanToLast(w, 'S', rows, 0);
      ScanToLast(w, 'E', rows, 0);
      ScanDone(w, 'S', Cell(sr, sc));
      ScanDone(w, 'E', Cell(er, ec));
    }

    /**
     * The search of `bfs_shortest`: breadth-first from the start cell, in the
     * direction order up, down, left, right, stopping as soon as the exit is
     * enqueued.  It leaves the search tree in the parent grids; the exit was
     * enqueued exactly when it is reachable.
     */
    method BfsSearch() returns (found: bool, parentR: array2<int>, parentC: array2<int>,
                                ghost order: seq<Cell>, ghost par: seq<nat>)
      requires Loaded() && queue.Valid()
      modifies queue`front, queue`rear, queue`contents, queue.qr, queue.qc
      ensures Loaded() && queue.Valid() && fresh(parentR) && fresh(parentC)
      ensures Links(order, par) && order[0] == Cell(sr, sc) && Distinct(order) && |order| < QSIZE - 1
      ensures AllOpen(Board(), order) && Stored(parentR, parentC, order, par)
      ensures found ==> && order[|order| - 1] == Cell(er, ec)
                        && var p := ChainPath(order, par, |order| - 1);
                           && WalkBetween(Board(), p, Cell(sr, sc), Cell(er, ec)) && Distinct(p)
                           && IsDistance(Board(), Cell(sr, sc), Cell(er, ec), |p| - 1)
      ensures !found ==> !Reachable(Board(), Cell(sr, sc), Cell(er, ec))
    {
      ghost var G := Board();
      ghost var S := Cell(sr, sc);
      var visited;
      visited, parentR, parentC := StartSearch();
      TreeStart(G, S);
      found, order, par := Drain(visited, parentR, parentC, G);
    }

    /**
     * The set-up of `bfs_shortest`: a cleared visited grid, fresh parent grids, and
     * the queue holding the start cell alone, marked visited with no parent.
     */
    method StartSearch() returns (visited: array2<bool>, parentR: array2<int>, parentC: array2<int>)
      requires Loaded() && queue.Valid()
      modifies queue`front, queue`rear, queue`contents, queue.qr, queue.qc
      ensures fresh(visited) && fresh(parentR) && fresh(parentC) && Apart(visited, parentR, parentC)
      ensures queue.Valid() && queue.contents == [Cell(sr, sc)]
      ensures Visits(visited, [Cell(sr, sc)]) && Stored(parentR, parentC, [Cell(sr, sc)], [0])
      ensures parentR[sr, sc] == -1 && parentC[sr, sc] == -1
    {
      visited := new bool[MAXR, MAXC]((a, b) => false);
      parentR := new int[MAXR, MAXC];
      parentC := new int[MAXR, MAXC];
      queue.Init();
      queue.Push(sr, sc);
      visited[sr, sc] := true;
      parentR[sr, sc] := -1;
      parentC[sr, sc] := -1;
    }

    /**
     * The outer loop of `bfs_shortest`, from the queue holding the start cell alone
     * until it runs dry or the exit has been enqueued.
     */
    method Drain(visited: array2<bool>, parentR: array2<int>, parentC: array2<int>, ghost G: Grid)
      returns (found: bool, ghost order: seq<Cell>, ghost par: seq<nat>)
      requires Shape() && Board() == G && Apart(visited, parentR, parentC)
      requires queue.Valid() && queue.contents == [Cell(sr, sc)]
      requires Tree(G, Cell(sr, sc), [Cell(sr, sc)], [0], [0], 0) && Closed(G, [Cell(sr, sc)], 0, 0)
      requires Visits(visited, [Cell(sr, sc)]) && Stored(parentR, parentC, [Cell(sr, sc)], [0])
      requires Cell(er, ec) != Cell(sr, sc)
      modifies visited, parentR, parentC, queue`front, queue`rear, queue`contents, queue.qr, queue.qc
      ensures Board() == G && queue.Valid()
      ensures Links(order, par) && order[0] == Cell(sr, sc) && Distinct(order) && |order| < QSIZE - 1
      ensures AllOpen(G, order) && Stored(parentR, parentC, order, par)
      ensures found ==> && order[|order| - 1] == Cell(er, ec)
                        && var p := ChainPath(order, par, |order| - 1);
                           && WalkBetween(G, p, Cell(sr, sc), Cell(er, ec)) && Distinct(p)
                           && IsDistance(G, Cell(sr, sc), Cell(er, ec), |p| - 1)
      ensures !found ==> !Reachable(G, Cell(sr, sc), Cell(er, ec))
    {
      found := false;
      ghost var lv, h;
      order, lv, par, h := [Cell(sr, sc)], [0], [0], 0;
      while !queue.IsEmpty() && !found
        invariant Shape() && Board() == G
        invariant h <= |order| && queue.Valid() && queue.contents == order[h..]
        invariant Tree(G, Cell(sr, sc), order, lv, par, h) && |order| < QSIZE - 1
        invariant Visits(visited, order) && Stored(parentR, parentC, order, par)
        invariant !found ==> Closed(G, order, h, 0) && Cell(er, ec) !in order
        invariant found ==> order[|order| - 1] == Cell(er, ec)
        decreases QSIZE - h
      {
        found, order, lv, par, h := Round(visited, parentR, parentC, G, order, lv, par, h);
      }
      TreeLinks(G, Cell(sr, sc), order, lv, par, h);
      if found {
        FoundOutcome(G, Cell(sr, sc), Cell(er, ec), order, lv, par, h);
      } else {
        assert order[h..] == [];
        ExhaustedOutcome(G, Cell(sr, sc), Cell(er, ec), order, lv, par);
      }
    }

    /** One round of the outer loop of `bfs_shortest`: dequeue a cell and expand it. */
    method Round(visited: array2<bool>, parentR: array2<int>, parentC: array2<int>,
                 ghost G: Grid, ghost order: seq<Cell>, ghost lv: seq<nat>, ghost par: seq<nat>, ghost h: nat)
      returns (found: bool, ghost order': seq<Cell>, ghost lv': seq<nat>, ghost par': seq<nat>, ghost h': nat)
      requires Shape() && Board() == G && Apart(visited, parentR, parentC)
      requires h < |order| && queue.Valid() && queue.contents == order[h..]
      requires Tree(G, Cell(sr, sc), order, lv, par, h) && |order| < QSIZE - 1
      requires Visits(visited, order) && Stored(parentR, parentC, order, par)
      requires Closed(G, order, h, 0) && Cell(er, ec) !in order
      modifies visited, parentR, parentC, queue`front, queue`rear, queue`contents, queue.qr, queue.qc
      ensures h' == h + 1 && Shape() && Board() == G
      ensures h' <= |order'| && queue.Valid() && queue.contents == order'[h'..]
      ensures Tree(G, Cell(sr, sc), order', lv', par', h') && |order'| < QSIZE - 1
      ensures Visits(visited, order') && Stored(parentR, parentC, order', par')
      ensures !found ==> Closed(G, order', h', 0) && Cell(er, ec) !in order'
      ensures found ==> order'[|order'| - 1] == Cell(er, ec)
    {
      var cr, cc := queue.Pop();
      h' := h + 1;
      TreePop(G, Cell(sr, sc), order, lv, par, h);
      found, order', lv', par' := Expand(cr, cc, visited, parentR, parentC, G, order, lv, par, h');
    }

    /**
     * The inner loop of `bfs_shortest`: the four neighbours of the dequeued cell
     * `(cr, cc)` in turn; each open one not yet visited is marked, given its parent
     * and enqueued, and enqueuing the exit ends the search.
     */
    method Expand(cr: int, cc: int, visited: array2<bool>, parentR: array2<int>, parentC: array2<int>,
                  ghost G: Grid, ghost order: seq<Cell>, ghost lv: seq<nat>, ghost par: seq<nat>, ghost h: nat)
      returns (found: bool, ghost order': seq<Cell>, ghost lv': seq<nat>, ghost par': seq<nat>)
      requires Shape() && Board() == G && Apart(visited, parentR, parentC)
      requires 0 < h <= |order| && order[h - 1] == Cell(cr, cc) && SearchState(visited, parentR, parentC, G, order, lv, par, h)
      requires Closed(G, order, h - 1, 0) && Cell(er, ec) !in order
      modifies visited, parentR, parentC, queue`rear, queue`contents, queue.qr, queue.qc
      ensures Shape() && Board() == G && SearchState(visited, parentR, parentC, G, order', lv', par', h)
      ensures !found ==> Closed(G, order', h, 0) && Cell(er, ec) !in order'
      ensures found ==> order'[|order'| - 1] == Cell(er, ec)
    {
      found := false;
      order', lv', par' := order, lv, par;
      for d := 0 to 4
        invariant Shape() && Board() == G && h <= |order'| && order'[h - 1] == Cell(cr, cc)
        invariant SearchState(visited, parentR, parentC, G, order', lv', par', h)
        invariant Closed(G, order', h - 1, d) && Cell(er, ec) !in order' && !found
      {
        found, order', lv', par' := Visit(cr, cc, d, visited, parentR, parentC, G, order', lv', par', h);
        if found {
          return;
        }
      }
      ClosedNext(G, order', h - 1);
    }

    /**
     * One direction of the inner loop of `bfs_shortest`: the neighbour of the
     * current cell `(cr, cc)` in direction `d`, when it is open and not yet visited,
     * is marked, given its parent and enqueued; `found` says it is the exit.
     */
    method Visit(cr: int, cc: int, d: int, visited: array2<bool>, parentR: array2<int>, parentC: array2<int>,
                 ghost G: Grid, ghost order: seq<Cell>, ghost lv: seq<nat>, ghost par: seq<nat>, ghost h: nat)
      returns (found: bool, ghost order': seq<Cell>, ghost lv': seq<nat>, ghost par': seq<nat>)
      requires Shape() && Board() == G && parentR != parentC && 0 <= d < 4
      requires 0 < h <= |order| && order[h - 1] == Cell(cr, cc) && SearchState(visited, parentR, parentC, G, order, lv, par, h)
      requires Closed(G, order, h - 1, d) && Cell(er, ec) !in order
      modifies visited, parentR, parentC, queue`rear, queue`contents, queue.qr, queue.qc
      ensures h <= |order'| && order'[h - 1] == Cell(cr, cc) && SearchState(visited, parentR, parentC, G, order', lv', par', h)
      ensures Closed(G, order', h - 1, d + 1)
      ensures found ==> order'[|order'| - 1] == Cell(er, ec)
      ensures !found ==> Cell(er, ec) !in order'
    {
      var nr, nc := cr + DR[d], cc + DC[d];
      ghost var y := Step(order[h - 1], d);
      assert y == Cell(nr, nc);
      if !IsValid(nr, nc) || visited[nr, nc] {
        ClosedSkip(G, order, h - 1, d);
        return false, order, lv, par;
      }
      found, order', lv', par' := Admit(cr, cc, d, nr, nc, visited, parentR, parentC, G, order, lv, par, h);
    }

    /** The open, unvisited neighbour `(nr, nc)` of the current cell in direction `d` joins the search tree and the queue. */
    method Admit(cr: int, cc: int, ghost d: int, nr: int, nc: int, visited: array2<bool>, parentR: array2<int>, parentC: array2<int>,
                 ghost G: Grid, ghost order: seq<Cell>, ghost lv: seq<nat>, ghost par: seq<nat>, ghost h: nat)
      returns (found: bool, ghost order': seq<Cell>, ghost lv': seq<nat>, ghost par': seq<nat>)
      requires Shape() && Board() == G && parentR != parentC && 0 <= d < 4
      requires 0 < h <= |order| && order[h - 1] == Cell(cr, cc) && SearchState(visited, parentR, parentC, G, order, lv, par, h)
      requires Closed(G, order, h - 1, d) && Cell(er, ec) !in order
      requires Cell(nr, nc) == Step(order[h - 1], d) && Open(G, Cell(nr, nc)) && Cell(nr, nc) !in order
      modifies visited, parentR, parentC, queue`rear, queue`contents, queue.qr, queue.qc
      ensures order' == order + [Cell(nr, nc)]
      ensures h <= |order'| && order'[h - 1] == Cell(cr, cc) && SearchState(visited, parentR, parentC, G, order', lv', par', h)
      ensures Closed(G, order', h - 1, d + 1)
      ensures found ==> order'[|order'| - 1] == Cell(er, ec)
      ensures !found ==> Cell(er, ec) !in order'
    {
      found := nr == er && nc == ec;
      order', lv', par' := order + [Cell(nr, nc)], lv + [lv[h - 1] + 1], par + [h - 1];
      TreeGrow(G, Cell(sr, sc), order, lv, par, h, d, order', lv', par');
      Fits(G, order');
      Enqueue(queue, visited, parentR, parentC, nr, nc, cr, cc, order, par, h, h - 1);
    }

    /**
     * Marks the fresh cell `(nr, nc)` visited, records `(cr, cc)`, which is
     * `order[j]`, as its parent, and enqueues it.
     */
    static method Enqueue(q: CellQueue, visited: array2<bool>, parentR: array2<int>, parentC: array2<int>,
                          nr: int, nc: int, cr: int, cc: int,
                          ghost order: seq<Cell>, ghost par: seq<nat>, ghost h: nat, ghost j: nat)
      requires q.Valid() && h <= |order| && |order| < QSIZE - 1 && q.contents == order[h..]
      requires Visits(visited, order) && Stored(parentR, parentC, order, par) && parentR != parentC
      requires 0 <= nr < MAXR && 0 <= nc < MAXC && Cell(nr, nc) !in order && j < |order| && order[j] == Cell(cr, cc)
      modifies visited, parentR, parentC, q`rear, q`contents, q.qr, q.qc
      ensures q.Valid() && q.contents == (order + [Cell(nr, nc)])[h..]
      ensures Visits(visited, order + [Cell(nr, nc)]) && Stored(parentR, parentC, order + [Cell(nr, nc)], par + [j])
    {
      MarkVisited(visited, nr, nc, order);
      SetParent(parentR, parentC, nr, nc, cr, cc, order, par, j);
      q.Push(nr, nc);
      assert (order + [Cell(nr, nc)])[h..] == order[h..] + [Cell(nr, nc)];
    }

    /** `visited[nr][nc] = 1` for a cell not yet in `order`. */
    static method MarkVisited(visited: array2<bool>, nr: int, nc: int, ghost order: seq<Cell>)
      requires Visits(visited, order) && 0 <= nr < MAXR && 0 <= nc < MAXC
      modifies visited
      ensures Visits(visited, order + [Cell(nr, nc)])
    {
      visited[nr, nc] := true;
    }

    /** Records `(cr, cc)`, which is `order[j]`, as the parent of the cell `(nr, nc)` not yet in `order`. */
    static method SetParent(parentR: array2<int>, parentC: array2<int>, nr: int, nc: int, cr: int, cc: int,
                            ghost order: seq<Cell>, ghost par: seq<nat>, ghost j: nat)
      requires Stored(parentR, parentC, order, par) && parentR != parentC
      requires 0 <= nr < MAXR && 0 <= nc < MAXC && Cell(nr, nc) !in order && j < |order| && order[j] == Cell(cr, cc)
      modifies parentR, parentC
      ensures Stored(parentR, parentC, order + [Cell(nr, nc)], par + [j])
    {
      parentR[nr, nc] := cr;
      parentC[nr, nc] := cc;
      ghost var order', par' := order + [Cell(nr, nc)], par + [j];
      forall i | 0 < i < |order'|
        ensures && 0 <= order'[i].r < MAXR && 0 <= order'[i].c < MAXC && par'[i] < |order'|
                && parentR[order'[i].r, order'[i].c] == order'[par'[i]].r
                && parentC[order'[i].r, order'[i].c] == order'[par'[i]].c
      {
        if i < |order| {
          assert order'[i] == order[i] && par'[i] == par[i] && order'[par[i]] == order[par[i]];
          assert order[i] in order;
        }
      }
    }

    /** Distinct open cells of the loaded grid fit the queue with room to spare. */
    lemma Fits(G: Grid, order: seq<Cell>)
      requires Shape() && Rectangular(G, rows, cols) && Distinct(order)
      requires forall i :: 0 <= i < |order| ==> Open(G, order[i])
      ensures |order| < QSIZE - 1
    {
      DistinctCellsFit(order, rows, cols);
      AreaFits(rows, cols);
    }

    /** The queue holds the undequeued part of the search tree, which the grids record. */
    ghost predicate SearchState(visited: array2<bool>, parentR: array2<int>, parentC: array2<int>,
                                G: Grid, order: seq<Cell>, lv: seq<nat>, par: seq<nat>, h: nat)
      reads this`sr, this`sc, queue, queue.qr, queue.qc, visited, parentR, parentC
    {
      && h <= |order| && queue.Valid() && queue.contents == order[h..]
      && Tree(G, Cell(sr, sc), order, lv, par, h) && |order| < QSIZE - 1
      && Visits(visited, order) && Stored(parentR, parentC, order, par)
    }

    /** The search's own grids are separate arrays, none of them the maze. */
    ghost predicate Apart(visited: array2<bool>, parentR: array2<int>, parentC: array2<int>) {
      && parentR != parentC
      && maze as object != visited && maze as object != parentR && maze as object != parentC
    }

    /**
     * `bfs_shortest`: the breadth-first search from the start cell; when it
     * enqueues the exit, the parent links are walked back and the cells of that
     * path other than the markers are overwritten with `b`.  The exit is found
     * exactly when it is reachable; the reported length is then the shortest
     * distance, and a search that finds nothing leaves the grid as it was.
     */
    method BfsShortest() returns (found: bool, length: int, ghost path: seq<Cell>)
      requires Loaded() && queue.Valid()
      modifies maze, queue`front, queue`rear, queue`contents, queue.qr, queue.qc
      ensures Loaded() && queue.Valid()
      ensures found <==> Reachable(old(Board()), Cell(sr, sc), Cell(er, ec))
      ensures !found ==> unchanged(maze)
      ensures found ==> && WalkBetween(old(Board()), path, Cell(sr, sc), Cell(er, ec)) && Distinct(path)
                        && length == |path| - 1 && IsDistance(old(Board()), Cell(sr, sc), Cell(er, ec), length)
      ensures found ==> Board() == Paint(old(Board()), Unmarked(old(Board()), Interior(path)), 'b')
    {
      ghost var G := Board();
      ghost var S, E := Cell(sr, sc), Cell(er, ec);
      var parentR, parentC;
      ghost var order, par;
      found, parentR, parentC, order, par := BfsSearch();
      if !found {
        return false, 0, [];
      }
      length, path := MarkShortestPath(parentR, parentC, G, order, par);
    }

    /**
     * `mark_shortest_path`: from the exit, follows the parent grids back to the
     * start, writing `b` over every cell it leaves that holds neither `S` nor `E`
     * and counting the steps.  The cells passed are the parent chain of the exit.
     */
    method MarkShortestPath(parentR: array2<int>, parentC: array2<int>, ghost G: Grid,
                            ghost order: seq<Cell>, ghost par: seq<nat>)
      returns (length: int, ghost path: seq<Cell>)
      requires Loaded() && Board() == G
      requires Links(order, par) && order[0] == Cell(sr, sc) && Distinct(order) && AllOpen(G, order)
      requires Stored(parentR, parentC, order, par) && order[|order| - 1] == Cell(er, ec)
      requires Distinct(ChainPath(order, par, |order| - 1))
      modifies maze
      ensures Loaded()
      ensures path == ChainPath(order, par, |order| - 1) && length == |path| - 1
      ensures Painted(maze, old(Snapshot(maze)), Unmarked(G, Interior(path)), 'b')
      ensures Board() == Paint(G, Unmarked(G, Interior(path)), 'b')
    {
      ghost var before := old(Snapshot(maze));
      assert before[sr][sc] == 'S' && before[er][ec] == 'E';
      assert forall i :: 0 <= i < rows ==> before[i][cols] == '\0';
      assert forall i, j :: 0 <= i < rows && 0 <= j < cols ==> before[i][j] == G[i][j] != '\0';
      length, path := TraceBack(maze, parentR, parentC, sr, sc, er, ec, G, before, order, par);
      RestInterior(G, path);
      PaintedStillLoaded(before, Unmarked(G, Interior(path)), 'b');
      PaintedBoard(G, before, Unmarked(G, Interior(path)), 'b');
    }

    /** The loaded part of a painted grid array is the painted grid. */
    lemma PaintedBoard(G: Grid, before: seq<seq<char>>, cells: set<Cell>, ch: char)
      requires Shape() && Painted(maze, before, cells, ch) && Rectangular(G, rows, cols)
      requires forall i, j :: 0 <= i < rows && 0 <= j < cols ==> before[i][j] == G[i][j]
      ensures Board() == Paint(G, cells, ch)
    {
      SameGrid(Board(), Paint(G, cells, ch));
    }

    /** The loop of `mark_shortest_path`, on the grid array `m` holding `before`. */
    static method TraceBack(m: array2<char>, parentR: array2<int>, parentC: array2<int>, sr: int, sc: int, er: int, ec: int,
                            ghost G: Grid, ghost before: seq<seq<char>>, ghost order: seq<Cell>, ghost par: seq<nat>)
      returns (length: int, ghost path: seq<Cell>)
      requires m.Length0 == MAXR && m.Length1 == MAXC && |G| <= MAXR && forall i :: 0 <= i < |G| ==> |G[i]| <= MAXC
      requires Painted(m, before, {}, 'b')
      requires forall i, j :: 0 <= i < |G| && 0 <= j < |G[i]| ==> before[i][j] == G[i][j]
      requires Links(order, par) && order[0] == Cell(sr, sc) && Distinct(order) && AllOpen(G, order)
      requires Stored(parentR, parentC, order, par) && order[|order| - 1] == Cell(er, ec)
      requires Distinct(ChainPath(order, par, |order| - 1))
      modifies m
      ensures path == ChainPath(order, par, |order| - 1) && length == |path| - 1
      ensures Painted(m, before, Unmarked(G, Rest(path)), 'b')
    {
      ghost var last := |order| - 1;
      path := ChainPath(order, par, last);
      var cr, cc := er, ec;
      length := 0;
      ghost var k := last;
      ghost var tail: seq<Cell> := [];
      assert Unmarked(G, Cells(tail)) == {};
      while cr != sr || cc != sc
        invariant 0 <= k < |order| && Cell(cr, cc) == order[k]
        invariant path == ChainPath(order, par, k) + tail && length == |tail|
        invariant Painted(m, before, Unmarked(G, Cells(tail)), 'b')
        invariant Distinct(path)
        decreases k
      {
        ghost var x := order[k];
        StepBack(G, order, par, k, tail, path);
        assert m[cr, cc] == G[cr][cc] by {
          assert x !in Unmarked(G, Cells(tail));
        }
        var tempr := parentR[cr, cc];
        var tempc := parentC[cr, cc];
        UnmarkedCons(G, x, tail);
        if m[cr, cc] != 'S' && m[cr, cc] != 'E' {
          Overwrite(m, cr, cc, 'b', before, Unmarked(G, Cells(tail)));
        }
        cr, cc := tempr, tempc;
        length := length + 1;
        tail := [x] + tail;
        k := par[k];
      }
      assert order[k] == order[0];
      assert k == 0;
      assert ChainPath(order, par, 0) == [Cell(sr, sc)];
      RestIsTail(Cell(sr, sc), tail);
    }

    /** The whole grid array as rows of characters. */
    static ghost function Snapshot(m: array2<char>): (s: seq<seq<char>>)
      reads m
      ensures |s| == m.Length0 && forall a :: 0 <= a < m.Length0 ==> |s[a]| == m.Length1
    {
      seq(m.Length0, a requires 0 <= a < m.Length0 reads m =>
        seq(m.Length1, b requires 0 <= b < m.Length1 reads m => m[a, b]))
    }

    /** The grid array holds `ch` on the cells `cells` and the characters of `before` elsewhere. */
    static ghost predicate Painted(m: array2<char>, before: seq<seq<char>>, cells: set<Cell>, ch: char)
      reads m
    {
      && |before| == m.Length0 && (forall a :: 0 <= a < m.Length0 ==> |before[a]| == m.Length1)
      && forall a, b :: 0 <= a < m.Length0 && 0 <= b < m.Length1 ==>
           m[a, b] == if Cell(a, b) in cells then ch else before[a][b]
    }

    /** Writes `ch` into cell `(r, c)` of the grid array. */
    static method Overwrite(m: array2<char>, r: int, c: int, ch: char, ghost before: seq<seq<char>>, ghost cells: set<Cell>)
      requires Painted(m, before, cells, ch) && 0 <= r < m.Length0 && 0 <= c < m.Length1
      modifies m
      ensures Painted(m, before, cells + {Cell(r, c)}, ch)
    {
      m[r, c] := ch;
    }

    /** A cell added in front of a tail joins the unmarked cells exactly when it holds no marker. */
    static lemma UnmarkedCons(G: Grid, x: Cell, tail: seq<Cell>)
      requires InGrid(G, x)
      ensures Unmarked(G, Cells([x] + tail)) ==
                Unmarked(G, Cells(tail)) + (if G[x.r][x.c] != 'S' && G[x.r][x.c] != 'E' then {x} else {})
    {
      assert Cells([x] + tail) == Cells(tail) + {x};
    }

    /**
     * Painting a loaded grid, held in `before`, with a character other than NUL
     * over cells that lie inside it and hold no marker keeps it loaded.
     */
    lemma PaintedStillLoaded(before: seq<seq<char>>, cells: set<Cell>, ch: char)
      requires Valid() && 0 < rows && 0 < cols
      requires 0 <= sr < rows && 0 <= sc < cols && 0 <= er < rows && 0 <= ec < cols
      requires Painted(maze, before, cells, ch) && ch != '\0'
      requires before[sr][sc] == 'S' && before[er][ec] == 'E'
      requires forall i :: 0 <= i < rows ==> before[i][cols] == '\0'
      requires forall i, j :: 0 <= i < rows && 0 <= j < cols ==> before[i][j] != '\0'
      requires forall x :: x in cells ==> 0 <= x.r < rows && 0 <= x.c < cols && before[x.r][x.c] != 'S' && before[x.r][x.c] != 'E'
      ensures Loaded()
    {
      assert maze[sr, sc] == 'S' && maze[er, ec] == 'E';
      forall i | 0 <= i < rows
        ensures maze[i, cols] == '\0'
      {
        assert Cell(i, cols) !in cells;
      }
    }

    /**
     * One step back along the parent chain: a cell other than the start has a
     * parent, is open and is not among the cells already passed.
     */
    static lemma StepBack(G: Grid, order: seq<Cell>, par: seq<nat>, k: nat, tail: seq<Cell>, path: seq<Cell>)
      requires Links(order, par) && Distinct(order) && AllOpen(G, order) && k < |order| && order[k] != order[0]
      requires path == ChainPath(order, par, k) + tail && Distinct(path)
      ensures k != 0 && Open(G, order[k]) && order[k] !in tail
      ensures path == ChainPath(order, par, par[k]) + ([order[k]] + tail)
    {
      var head := ChainPath(order, par, par[k]);
      assert ChainPath(order, par, k) == head + [order[k]];
      Regroup(head, [order[k]], tail);
      NotInTail(path, head, order[k], tail);
    }

    /** Regrouping a concatenation, kept apart from `StepBack`, where it costs the solver much more. */
    static lemma Regroup(a: seq<Cell>, b: seq<Cell>, c: seq<Cell>)
      ensures (a + b) + c == a + (b + c)
    {
    }

    /** In a path without repeats, the cell joining a head to a tail is not in the tail. */
    static lemma NotInTail(path: seq<Cell>, head: seq<Cell>, x: Cell, tail: seq<Cell>)
      requires Distinct(path) && path == head + ([x] + tail)
      ensures x !in tail
    {
      forall m | 0 <= m < |tail|
        ensures tail[m] != x
      {
        assert path[|head|] == x && path[|head| + 1 + m] == tail[m];
      }
    }

    /** Whether `(r, c)` is inside the grid and not a wall. */
    function IsValid(r: int, c: int): (ok: bool)
      requires Shape()
      reads this`rows, this`cols, maze
      ensures ok <==> Open(Board(), Cell(r, c))
    {
      if r < 0 || r >= rows || c < 0 || c >= cols then false
      else maze[r, c] != '#'
    }

    /** One key in manual play: a WASD key moves the player one step onto an open cell. */
    method MovePlayer(ch: char) returns (res: MoveOutcome)
      requires Valid()
      modifies this`pr, this`pc
      ensures Cell(pr, pc) == Move(Board(), old(Cell(pr, pc)), ch)
      ensures res == UnknownKey <==> KeyDirection(ch).None?
      ensures res == Moved <==> Cell(pr, pc) != old(Cell(pr, pc))
    {
      var nr, nc := pr, pc;
      if ch == 'w' || ch == 'W' {
        nr := nr - 1;
      } else if ch == 's' || ch == 'S' {
        nr := nr + 1;
      } else if ch == 'a' || ch == 'A' {
        nc := nc - 1;
      } else if ch == 'd' || ch == 'D' {
        nc := nc + 1;
      } else {
        return UnknownKey;
      }
      if IsValid(nr, nc) {
        pr, pc := nr, nc;
        return Moved;
      } else {
        return Blocked;
      }
    }

    /**
     * Manual play from the start cell with the keys `keys` typed in turn; running
     * out of keys ends the game where the player stands.
     */
    method PlayManual(keys: seq<char>) returns (outcome: Outcome, consumed: nat)
      requires Valid()
      modifies this`pr, this`pc
      ensures var res := Play(Board(), Cell(sr, sc), Cell(er, ec), keys);
              outcome == res.outcome && consumed == res.consumed && Cell(pr, pc) == res.pos
    {
      ghost var G, E := Board(), Cell(er, ec);
      ghost var whole := Play(G, Cell(sr, sc), E, keys);
      pr, pc := sr, sc;
      var k := 0;
      while true
        invariant Valid() && Board() == G && 0 <= k <= |keys|
        invariant var rest := Play(G, Cell(pr, pc), E, keys[k..]);
                  whole == rest.(consumed := rest.consumed + k)
        decreases |keys| - k
      {
        if pr == er && pc == ec {
          return ReachedExit, k;
        }
        if k == |keys| {
          return OutOfInput, k;
        }
        var ch := keys[k];
        assert keys[k..][1..] == keys[k + 1..];
        k := k + 1;
        if ch == 'q' || ch == 'Q' {
          return Quit, k;
        }
        PlayStep(G, Cell(pr, pc), E, keys[k - 1..]);
        var moved := MovePlayer(ch);
      }
    }

    /**
     * `dfs_find_one_path`: appends `(r, c)` to the path and searches on from it,
     * trying the four directions in shuffled order and backtracking from dead
     * ends. A success leaves on the path, after the old path, a walk from
     * `(r, c)` to the exit that repeats no cell; a failure restores the path and
     * the visited grid, and then no such walk exists.
     */
    method DfsFindOnePath(r: int, c: int, visited: array2<bool>) returns (found: bool)
      requires Valid() && PathFits() && Visits(visited, Path()) && Distinct(Path()) && AllOpen(Board(), Path())
      requires Open(Board(), Cell(r, c)) && Cell(r, c) !in Path()
      modifies visited, pathR, pathC, this`pathLen, this`draws
      ensures Valid() && PathFits() && old(draws) <= draws
      ensures found ==> && old(pathLen) < pathLen && Path()[..old(pathLen)] == old(Path())
                        && SimpleWalk(Board(), Path()[old(pathLen)..], Cell(r, c), Cell(er, ec), old(Path()))
                        && Visits(visited, Path()[..pathLen - 1])
      ensures !found ==> && Path() == old(Path()) && Visits(visited, Path())
                         && !Escapes(Board(), old(Path()), Cell(r, c), Cell(er, ec))
      decreases rows * cols - pathLen, 0
    {
      ghost var P, x := Path(), Cell(r, c);
      OnPath(P, x);
      PushCell(r, c);
      if r == er && c == ec {
        assert Path()[|P|..] == [x] && Path()[..|P|] == P;
        return true;
      }
      MarkVisited(visited, r, c, P);
      found := Explore(r, c, visited, P);
      if !found {
        Unvisit(visited, r, c, P);
        PopCell(P, x);
      }
    }

    /**
     * The directions part of `dfs_find_one_path` at the path's last cell
     * `(r, c)`, already marked visited: the four directions are shuffled and
     * tried in turn until one leads to the exit.
     */
    method Explore(r: int, c: int, visited: array2<bool>, ghost P: seq<Cell>) returns (found: bool)
      requires Valid() && PathFits() && Path() == P + [Cell(r, c)] && Cell(r, c) != Cell(er, ec)
      requires Visits(visited, P + [Cell(r, c)]) && Distinct(P + [Cell(r, c)]) && AllOpen(Board(), P + [Cell(r, c)])
      requires pathLen <= rows * cols
      modifies visited, pathR, pathC, this`pathLen, this`draws
      ensures Valid() && PathFits() && old(draws) <= draws
      ensures found ==> && |P| < pathLen && Path()[..|P|] == P
                        && SimpleWalk(Board(), Path()[|P|..], Cell(r, c), Cell(er, ec), P)
                        && Visits(visited, Path()[..pathLen - 1])
      ensures !found ==> && Path() == P + [Cell(r, c)] && Visits(visited, P + [Cell(r, c)])
                         && !Escapes(Board(), P, Cell(r, c), Cell(er, ec))
      decreases rows * cols - pathLen, 2
    {
      ghost var x, G := Cell(r, c), Board();
      var dirs := ShuffledDirections();
      ghost var D := dirs[..];
      for i := 0 to 4
        invariant Valid() && PathFits() && Board() == G && Path() == P + [x] && Visits(visited, P + [x]) && dirs[..] == D
        invariant old(draws) <= draws
        invariant forall k :: 0 <= k < i ==> DeadEnd(G, P + [x], Step(x, D[k]), Cell(er, ec))
      {
        found := TryDirection(r, c, dirs[i], visited, P);
        if found {
          return;
        }
        DeadEndsGrow(G, P + [x], x, D, i, Cell(er, ec));
      }
      AllDeadEnds(P, x, D);
      return false;
    }

    /**
     * One pass of the direction loop of `dfs_find_one_path` at the path's last
     * cell `(r, c)`: the search goes on into the neighbour in direction `d`
     * when it is open and not visited.
     */
    method TryDirection(r: int, c: int, d: int, visited: array2<bool>, ghost P: seq<Cell>) returns (found: bool)
      requires Valid() && PathFits() && 0 <= d < 4 && Path() == P + [Cell(r, c)]
      requires Visits(visited, P + [Cell(r, c)]) && Distinct(P + [Cell(r, c)]) && AllOpen(Board(), P + [Cell(r, c)])
      requires pathLen <= rows * cols
      modifies visited, pathR, pathC, this`pathLen, this`draws
      ensures Valid() && PathFits() && old(draws) <= draws
      ensures found ==> && |P| < pathLen && Path()[..|P|] == P
                        && SimpleWalk(Board(), Path()[|P|..], Cell(r, c), Cell(er, ec), P)
                        && Visits(visited, Path()[..pathLen - 1])
      ensures !found ==> && Path() == P + [Cell(r, c)] && Visits(visited, P + [Cell(r, c)])
                         && DeadEnd(Board(), P + [Cell(r, c)], Step(Cell(r, c), d), Cell(er, ec))
      decreases rows * cols - pathLen, 1
    {
      var nr, nc := r + DR[d], c + DC[d];
      ghost var x, y := Cell(r, c), Cell(nr, nc);
      assert y == Step(x, d);
      found := false;
      if IsValid(nr, nc) && !visited[nr, nc] {
        found := DfsFindOnePath(nr, nc, visited);
        if found {
          Extend(P, x, d, Path());
        }
      }
    }

    /** A walk the search found from a neighbour of the path's last cell `x`, read back from `x`. */
    lemma Extend(P: seq<Cell>, x: Cell, d: int, path: seq<Cell>)
      requires Shape() && 0 <= d < 4 && AllOpen(Board(), P + [x])
      requires |P| + 1 < |path| && path[..|P| + 1] == P + [x]
      requires SimpleWalk(Board(), path[|P| + 1..], Step(x, d), Cell(er, ec), P + [x])
      ensures path[..|P|] == P && SimpleWalk(Board(), path[|P|..], x, Cell(er, ec), P)
    {
      var q := path[|P| + 1..];
      assert Open(Board(), (P + [x])[|P|]);
      StepEscapes(Board(), P, x, d, q, Cell(er, ec));
      assert path[|P|] == (P + [x])[|P|];
      assert path[|P|..] == [x] + q;
      assert path[..|P|] == (P + [x])[..|P|];
    }

    /** One more direction of `D` found to lead nowhere. */
    static lemma DeadEndsGrow(G: Grid, A: seq<Cell>, x: Cell, D: seq<int>, i: int, t: Cell)
      requires 0 <= i < |D| && forall k :: 0 <= k < |D| ==> 0 <= D[k] < 4
      requires forall k :: 0 <= k < i ==> DeadEnd(G, A, Step(x, D[k]), t)
      requires DeadEnd(G, A, Step(x, D[i]), t)
      ensures forall k :: 0 <= k < i + 1 ==> DeadEnd(G, A, Step(x, D[k]), t)
    {
    }

    /** Every direction out of `x` was tried, in the order `D`, and found to lead nowhere. */
    lemma AllDeadEnds(P: seq<Cell>, x: Cell, D: seq<int>)
      requires Shape() && x != Cell(er, ec)
      requires |D| == 4 && (forall d :: 0 <= d < 4 ==> d in D) && forall k :: 0 <= k < 4 ==> 0 <= D[k] < 4
      requires forall k :: 0 <= k < 4 ==> DeadEnd(Board(), P + [x], Step(x, D[k]), Cell(er, ec))
      ensures !Escapes(Board(), P, x, Cell(er, ec))
    {
      forall d | 0 <= d < 4
        ensures DeadEnd(Board(), P + [x], Step(x, d), Cell(er, ec))
      {
        assert d in D;
        var k :| 0 <= k < 4 && D[k] == d;
      }
      NoEscape(Board(), P, x, Cell(er, ec));
    }

    /** Appends `(r, c)` to the path buffer. */
    method PushCell(r: int, c: int)
      requires Valid() && PathFits() && pathLen < QSIZE
      modifies pathR, pathC, this`pathLen
      ensures PathFits() && Path() == old(Path()) + [Cell(r, c)]
    {
      pathR[pathLen] := r;
      pathC[pathLen] := c;
      pathLen := pathLen + 1;
      assert Path() == old(Path()) + [Cell(r, c)];
    }

    /** Drops the path's last cell `x`. */
    method PopCell(ghost P: seq<Cell>, ghost x: Cell)
      requires Valid() && PathFits() && Path() == P + [x]
      modifies this`pathLen
      ensures PathFits() && Path() == P
    {
      pathLen := pathLen - 1;
      assert Path() == P;
    }

    /** Clears the visited mark of the path's last cell `(r, c)`. */
    static method Unvisit(visited: array2<bool>, r: int, c: int, ghost P: seq<Cell>)
      requires Visits(visited, P + [Cell(r, c)]) && Cell(r, c) !in P && 0 <= r < MAXR && 0 <= c < MAXC
      modifies visited
      ensures Visits(visited, P)
    {
      visited[r, c] := false;
    }

    /**
     * The path with `x` appended still repeats no cell and crosses only open
     * cells, so it fits the grid and the path buffer.
     */
    lemma OnPath(P: seq<Cell>, x: Cell)
      requires Shape() && Distinct(P) && AllOpen(Board(), P) && Open(Board(), x) && x !in P
      ensures Distinct(P + [x]) && AllOpen(Board(), P + [x]) && |P| + 1 <= rows * cols < QSIZE - 1
    {
      var q := P + [x];
      assert forall i :: 0 <= i < |q| ==> Open(Board(), q[i]);
      DistinctCellsFit(q, rows, cols);
      AreaFits(rows, cols);
    }

    /**
     * The four directions in the order the search tries them: `{0, 1, 2, 3}`
     * shuffled by Fisher-Yates with the next three draws.
     */
    method ShuffledDirections() returns (dirs: array<int>)
      modifies this`draws
      ensures fresh(dirs) && dirs.Length == 4 && draws == old(draws) + 3
      ensures dirs[..] == FisherYates([0, 1, 2, 3], 3, rand, old(draws))
      ensures forall k :: 0 <= k < 4 ==> 0 <= dirs[k] < 4
      ensures forall d :: 0 <= d < 4 ==> d in dirs[..]
    {
      dirs := new int[4];
      dirs[0], dirs[1], dirs[2], dirs[3] := 0, 1, 2, 3;
      assert dirs[..] == [0, 1, 2, 3];
      var i := 3;
      while i > 0
        invariant 0 <= i <= 3 && draws == old(draws) + (3 - i)
        invariant FisherYates(dirs[..], i, rand, draws) == FisherYates([0, 1, 2, 3], 3, rand, old(draws))
      {
        var j := rand(draws) % (i + 1);
        draws := draws + 1;
        ghost var s := dirs[..];
        dirs[i], dirs[j] := dirs[j], dirs[i];
        assert dirs[..] == Swap(s, i, j);
        i := i - 1;
      }
      DirectionsCovered(rand, old(draws));
    }

    /** `strcpy(temp[i], maze[i])`: row `i` copied up to and including its terminating NUL. */
    method CopyString(temp: array2<char>, i: int)
      requires Loaded() && 0 <= i < rows && temp.Length0 == MAXR && temp.Length1 == MAXC && temp != maze
      modifies temp
      ensures forall b :: 0 <= b <= cols ==> temp[i, b] == maze[i, b]
      ensures forall a, b :: 0 <= a < MAXR && 0 <= b < MAXC && a != i ==> temp[a, b] == old(temp[a, b])
    {
      var j := 0;
      while maze[i, j] != '\0'
        invariant 0 <= j <= cols
        invariant forall b :: 0 <= b < j ==> temp[i, b] == maze[i, b]
        invariant forall a, b :: 0 <= a < MAXR && 0 <= b < MAXC && a != i ==> temp[a, b] == old(temp[a, b])
        decreases cols - j
      {
        temp[i, j] := maze[i, j];
        j := j + 1;
      }
      temp[i, j] := '\0';
    }

    /**
     * The grid `show_some_solutions` prints for a path: a copy of the maze with
     * the path's inner cells, all but its first and last, marked `^`.
     */
    method MarkedCopy() returns (temp: array2<char>, frame: Grid)
      requires Loaded() && PathFits() && AllOpen(Board(), Path())
      ensures fresh(temp) && temp.Length0 == MAXR && temp.Length1 == MAXC && frame == GridOf(temp, rows, cols)
      ensures frame == Paint(Board(), Interior(Path()), '^')
    {
      temp := CopyRows();
      MarkInterior(temp);
      frame := GridOf(temp, rows, cols);
      SameGrid(frame, Paint(Board(), Interior(Path()), '^'));
    }

    /** A fresh grid array whose first `rows` rows are `strcpy` copies of the maze's. */
    method CopyRows() returns (temp: array2<char>)
      requires Loaded()
      ensures fresh(temp) && temp.Length0 == MAXR && temp.Length1 == MAXC
      ensures forall a, b :: 0 <= a < rows && 0 <= b < cols ==> temp[a, b] == maze[a, b]
    {
      temp := new char[MAXR, MAXC];
      for i := 0 to rows
        invariant forall a, b :: 0 <= a < i && 0 <= b < cols ==> temp[a, b] == maze[a, b]
      {
        CopyString(temp, i);
      }
    }

    /** Writes `'^'` over every cell of the path but its first and last. */
    method MarkInterior(temp: array2<char>)
      requires Valid() && PathFits() && AllOpen(Board(), Path())
      requires temp.Length0 == MAXR && temp.Length1 == MAXC
      modifies temp
      ensures Painted(temp, old(Snapshot(temp)), Interior(Path()), '^')
    {
      ghost var before := Snapshot(temp);
      ghost var P := Path();
      var k := 1;
      while k < pathLen - 1
        invariant 1 <= k && (k <= pathLen - 1 || k == 1)
        invariant Painted(temp, before, Marks(P, k), '^')
      {
        MarksGrow(P, k);
        Overwrite(temp, pathR[k], pathC[k], '^', before, Marks(P, k));
        k := k + 1;
      }
      assert Marks(P, k) == Interior(P);
    }

    /**
     * The search of one round of `show_some_solutions`: the path buffer is
     * emptied and the search starts at `S` with every cell unvisited.
     */
    method SearchFromStart() returns (found: bool)
      requires Loaded()
      modifies pathR, pathC, this`pathLen, this`draws
      ensures PathFits()
      ensures found ==> SimpleWalk(Board(), Path(), Cell(sr, sc), Cell(er, ec), [])
      ensures found <==> Reachable(Board(), Cell(sr, sc), Cell(er, ec))
    {
      EscapesIffReachable(Board(), Cell(sr, sc), Cell(er, ec));
      var visited := new bool[MAXR, MAXC]((a, b) => false);
      pathLen := 0;
      assert Path() == [];
      found := DfsFindOnePath(sr, sc, visited);
      if found {
        assert Path()[0..] == Path();
      }
    }

    /**
     * One round of `show_some_solutions`: a search from the start and, on
     * success, a copy of the maze with the path found marked.
     */
    method FindAndMark() returns (found: bool, frame: Grid, ghost path: seq<Cell>)
      requires Loaded()
      modifies pathR, pathC, this`pathLen, this`draws
      ensures found ==> SimpleWalk(Board(), path, Cell(sr, sc), Cell(er, ec), [])
                        && frame == Paint(Board(), Interior(path), '^')
      ensures found <==> Reachable(Board(), Cell(sr, sc), Cell(er, ec))
    {
      frame, path := Board(), [];
      found := SearchFromStart();
      if found {
        var temp;
        temp, frame := MarkedCopy();
        path := Path();
      }
    }

    /**
     * `show_some_solutions`: runs the search from the start with a cleared
     * visited grid, shows the path it finds, and asks for another, until the
     * search fails, twenty paths were shown, or the answer is not `y`/`Y`.
     * `answers` are the player's replies in order; the frames are the grids
     * printed, each a copy of the maze with one found path marked.
     */
    method ShowSomeSolutions(answers: seq<char>) returns (stop: Stop, frames: seq<Grid>, ghost paths: seq<seq<Cell>>)
      requires Loaded()
      modifies pathR, pathC, this`pathLen, this`draws
      ensures Loaded() && Board() == old(Board())
      ensures |frames| == |paths| <= MAX_PATHS_TO_SHOW
      ensures forall k :: 0 <= k < |paths| ==>
                && SimpleWalk(Board(), paths[k], Cell(sr, sc), Cell(er, ec), [])
                && frames[k] == Paint(Board(), Interior(paths[k]), '^')
      ensures forall k :: 0 <= k < |frames| - 1 ==> k < |answers| && answers[k] in "yY"
      ensures stop == NoMorePaths <==> !Reachable(Board(), Cell(sr, sc), Cell(er, ec))
      ensures stop == NoMorePaths <==> frames == []
      ensures stop == LimitReached <==> |frames| == MAX_PATHS_TO_SHOW
      ensures stop == Declined ==> |frames| <= |answers| && answers[|frames| - 1] !in "yY"
      ensures stop == OutOfAnswers ==> |frames| == |answers| + 1
    {
      ghost var G, S, E := Board(), Cell(sr, sc), Cell(er, ec);
      var count := 0;
      frames, paths := [], [];
      while count < MAX_PATHS_TO_SHOW
        invariant count == |frames| == |paths| <= MAX_PATHS_TO_SHOW
        invariant forall k :: 0 <= k < count ==>
                    && SimpleWalk(G, paths[k], S, E, [])
                    && frames[k] == Paint(G, Interior(paths[k]), '^')
        invariant count <= |answers| && forall k :: 0 <= k < count ==> answers[k] in "yY"
        invariant count > 0 ==> Reachable(G, S, E)
      {
        var found, frame, path := FindAndMark();
        if !found {
          assert count == 0;
          return NoMorePaths, frames, paths;
        }
        count := count + 1;
        frames, paths := frames + [frame], paths + [path];
        if count >= MAX_PATHS_TO_SHOW {
          return LimitReached, frames, paths;
        }
        if count - 1 >= |answers| {
          return OutOfAnswers, frames, paths;
        }
        var answer := answers[count - 1];
        if answer != 'y' && answer != 'Y' {
          return Declined, frames, paths;
        }
      }
      stop := LimitReached;
    }
  }
}
