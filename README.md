# Maze game engine and two loop exercises, modelled in Dafny

The maze program loads a rectangular maze of characters from a text file.
In the file, `#` is a wall, `S` the start and `E` the exit. The program offers three modes:

- manual play with the `w`/`a`/`s`/`d` keys;
- a randomised depth-first search that shows up to 20 start-to-exit paths, one by one;
- a breadth-first search that marks a shortest path with `b`.

The program keeps all of its state in globals. This model gathers them into one object, `MazeGame.Maze`:

- the fixed `MAXR` x `MAXC` character grid, with `rows` and `cols`;
- the start, exit and player positions;
- the depth-first path buffer and its length;
- the stream of pseudo-random numbers.

The circular queue of the breadth-first search has its own globals, and is the class `CircularQueue.CellQueue`.
Every operation that updates these globals is a method on the class.
Each method is proved against a declarative specification:

- `MazeFile` says what the loader reads from a file's text. It covers how `fgets` cuts the text into chunks, which chunks become rows, and which report the loader gives.
- `ManualPlay` says what a sequence of keys does to the player.
- `MazeGraph` defines walks, reachability and breadth-first layers on a grid.
- `SearchTree` holds the invariant of the breadth-first search and the lemmas that turn it into "found iff reachable, and the traced path is shortest".
- `PathSearch` holds the facts the depth-first search rests on: simple walks that avoid the current path, dead ends, and the equivalence of "some simple walk exists" with reachability.
- `Shuffle` models the Fisher–Yates shuffle of the four directions.

There are two small exercises, each a loop over numbers read until a sentinel:

- `IncreasingRun` gives the length of the longest strictly increasing run of consecutive inputs, read until `-1`;
- `SecondLargest` gives the largest and second-largest distinct inputs, read until `0`.

Both read their input as a sequence of integers. `Sentinel.UpTo` is the part of that sequence before the sentinel.

## Model

| member | source | states |
|---|---|---|
| CircularQueue.CellQueue.constructor | Maze.c:60-62 | a new queue is empty, with `front == rear == 0` |
| CircularQueue.CellQueue.Init | Maze.c:94-96 | `queue_init` empties the queue: front and rear are 0 and the contents are `[]` |
| CircularQueue.CellQueue.IsEmpty | Maze.c:102-104 | `queue_empty` holds exactly when `front == rear`, and exactly when the queue's contents are empty |
| CircularQueue.CellQueue.Count | Maze.c:102-104 | the number of stored cells lies in `[0, QSIZE)` and is 0 exactly when `front == rear` |
| CircularQueue.CellQueue.Push | Maze.c:111-115 | `queue_push` stores the cell at `rear` and advances `rear` modulo `QSIZE`; the cell is appended to the contents when the queue has room; when it holds `QSIZE - 1` cells, the push wraps `rear` onto `front` and the queue reads as empty (there is no overflow check) |
| CircularQueue.CellQueue.Pop | Maze.c:122-126 | `queue_pop` returns the front cell and removes it, advancing `front` modulo `QSIZE`; popping an empty queue returns the stale slot at `front` and leaves `QSIZE - 1` phantom cells |
| MazeFile.Chunks | Maze.c:152 | the `while (fgets(...))` loop makes no more calls that return a buffer than the text has characters, and none at all exactly when the file is empty |
| MazeFile.ChunkEnd | Maze.c:152 | one `fgets(line, MAXC, f)` call reads at least one character and at most `MAXC - 1`, and stops after a newline or at the end of the text |
| MazeFile.ChunkEndFirstNewline | Maze.c:152 | a chunk holds no newline except possibly as its last character |
| MazeFile.ChunksRoundTrip | Maze.c:152 | the successive `fgets` chunks, put back together, are the whole file text |
| MazeFile.ChunksFit | Maze.c:151-152 | every chunk is non-empty, fits the `MAXC`-character buffer with its terminator, and has a newline only at its end |
| MazeFile.StrLen | Maze.c:153 | `strlen` is the index of the first `'\0'`, or the whole length when there is none |
| MazeFile.Row | Maze.c:153-158 | the row kept from a chunk is a prefix of the chunk and contains no `'\0'` |
| MazeFile.Kept | Maze.c:158 | the rows that blank chunks leave are all non-empty and free of `'\0'` |
| MazeFile.Window | Maze.c:173-174 | the loaded grid has at most `MAXR` rows, none of them empty |
| MazeFile.WindowRowsFit | Maze.c:151-160 | every loaded row has between 1 and `MAXC - 1` characters, so `strcpy` into a row of the grid fits |
| MazeFile.KeptFit | Maze.c:151-160 | dropping blank rows keeps every row within `MAXC - 1` characters |
| MazeFile.BlankLineIgnored | Maze.c:158 | an empty line between complete lines changes nothing that is loaded |
| MazeFile.ChunksAppend | Maze.c:152 | after a complete line, reading continues on the rest of the text as if the rest were a file of its own |
| MazeFile.KeptAppend | Maze.c:158 | blank chunks are dropped independently in two consecutive parts of the file |
| MazeFile.WindowCapped | Maze.c:173-174 | once `MAXR` rows have been kept, nothing that follows in the file changes the loaded rows |
| MazeFile.RowsAfterCapIgnored | Maze.c:173-174 | once `MAXR` rows have been kept, nothing that follows in the file changes the loader's report |
| MazeFile.ReadStarts | Maze.c:152-175 | the rows kept after part of the file has been read begin the loaded grid; `MAXR` kept rows, or the end of the file, are the whole grid |
| MazeFile.RaggedWindow | Maze.c:162-171 | a kept row whose length differs from the first row's makes the loaded grid non-rectangular |
| MazeFile.ExpectedStatus | Maze.c:143-199 | the reference for `load_maze`'s reports, checked in the code's order (unopenable file, ragged rows, empty maze, missing marker); it reports `CannotOpen` exactly when the file cannot be opened, and success exactly when the rows read are rectangular and non-empty and hold both an `S` and an `E` |
| MazeFile.UniqueStatus | Maze.c:137-138 | the report that the loader's documentation describes: it succeeds only where `ExpectedStatus` does, and otherwise gives the same report or the missing-marker one |
| MazeFile.UniqueMarkersLocated | Maze.c:137-138 | when `UniqueStatus` accepts a file, the last `S` and the last `E` that the scan finds are the only ones in the grid |
| MazeFile.DuplicateStartLoaded | Maze.c:185-192 | the file `SSE` is loaded as written, with the start at `(0, 1)`, although `S` occurs twice; `UniqueStatus` refuses it |
| MazeFile.ScanToLast | Maze.c:185-192 | the row-major scan holds the last cell with the character seen so far, or `(-1, -1)` when there is none |
| MazeFile.ScanDone | Maze.c:185-199 | at the end of the scan the marker is `-1` exactly when the character does not occur; otherwise the marker is its last occurrence |
| MazeGame.Maze.constructor | Maze.c:52-62 | the program's globals at start-up: `rows` and `cols` are 0, the path is empty, no `rand()` draw has been made, and the queue is valid |
| MazeGame.Maze.LoadMaze | Maze.c:141-202 | `load_maze` returns the report `ExpectedStatus` gives for the file: cannot open, ragged rows, empty maze, missing `S`/`E`, or loaded; when loaded, the grid is the file's window, every row is `'\0'`-terminated, and `S`/`E` are the last occurrences in row-major order; an unopenable file leaves the grid, `rows`, `cols` and the markers as they were, so a loaded maze stays loaded; a failed load leaves what `FailedLoad` describes (the rows before the ragged one and that row itself, or no rows, or the whole grid with the markers found), keeps the old markers on an unopenable file and on ragged or empty rows, keeps the old `cols` when no row was read, and leaves every cell it did not write unchanged |
| MazeGame.Maze.LoadText | Maze.c:150-201 | the same as `LoadMaze`, for a file that opens |
| MazeGame.Maze.CheckMarkers | Maze.c:185-201 | on a loaded grid, the scan reports success exactly when both `S` and `E` occur; on success the markers are their last occurrences, and on failure each marker is its last occurrence or `-1` when it does not occur |
| MazeGame.Maze.ReadRows | Maze.c:150-175 | the reading loop succeeds exactly when the window's rows all have one length; the grid then holds the window with terminated rows, and `cols > 0` whenever a row was read; on failure `rows` counts the rows before the first ragged one, which the grid holds, and the ragged row is copied, terminated, into row `rows`; `cols` is kept when no row was read; every cell past the copied strings is unchanged |
| MazeGame.Maze.KeepRow | Maze.c:153-173 | one chunk: a blank chunk is skipped and changes nothing; the first row sets `cols`; a later row of another length fails, with `rows` and `cols` kept; any other row is appended; in every non-blank case the row has been copied into row `rows` with its terminator, and no other cell has changed |
| MazeGame.Maze.RaggedLeft | Maze.c:160-171 | a row of another length, copied after the rows kept so far, is the first ragged row of the window, and the grid is left as `FailedLoad` describes for ragged rows |
| MazeGame.Maze.CopyRow | Maze.c:160 | `strcpy` puts the line, with its terminator, in row `i` whatever its length, and changes no other cell; so rows already loaded with the same length are followed by it |
| MazeGame.Maze.ScanMarkers | Maze.c:185-192 | the start marker is `-1` exactly when there is no `S`, and otherwise the last `S` in row-major order; the same holds for `E` |
| MazeGame.Maze.HoldsBoard | Maze.c:150-175 | the grid rows that hold the kept rows are the board, and every row is terminated |
| MazeGame.Maze.IsValid | Maze.c:275-279 | `is_valid` holds exactly when the cell is inside the loaded grid and is not `#` |
| ManualPlay.KeyDirection | Maze.c:288-292 | exactly the keys `w W s S a A d D` name a direction |
| ManualPlay.Move | Maze.c:285-318 | a move goes to the neighbour that the key names when that neighbour is valid, and otherwise stays put; a player on an open cell stays on one |
| MazeGame.Maze.MovePlayer | Maze.c:285-318 | `move_player` sets the player to `Move` of the board and the key; it reports an unknown key exactly for keys that name no direction, and a move exactly when the position changed |
| ManualPlay.Play | Maze.c:330-357 | the game ends at the exit exactly when the player stands on it; a quit ends it on a `q`/`Q` key; running out of keys consumes all of them |
| MazeGame.Maze.PlayManual | Maze.c:330-357 | `play_manual` starts the player on `S`, and its outcome, the keys it consumes and the final position are those of `Play` |
| ManualPlay.PlayStopsAtFirstQuit | Maze.c:348-353 | no key before the last consumed one is a quit key |
| ManualPlay.PlayFollowsMoves | Maze.c:334-356 | the final position is the result of the moves of the consumed keys, leaving out the quit key |
| ManualPlay.PlayStaysOpen | Maze.c:304-307 | the player never leaves the open cells |
| MazeGame.Maze.BfsShortest | Maze.c:400-445 | `bfs_shortest` finds the exit exactly when it is reachable from `S`; the reported length is then the breadth-first distance, along a repetition-free walk from `S` to `E` whose cells other than the markers are painted `b`; when there is no path the grid is left unchanged |
| MazeGame.Maze.BfsSearch | Maze.c:400-434 | the search's enqueue order starts at `S`, repeats no cell, holds only open cells, and its parent links are stored in the parent arrays; when found, the parent chain from `E` is a shortest walk from `S`; when not found, `E` is unreachable |
| MazeGame.Maze.StartSearch | Maze.c:401-410 | the queue holds just `S`, which is visited, with parent `(-1, -1)`, in fresh arrays |
| MazeGame.Maze.Drain | Maze.c:412-434 | the `while` loop keeps the breadth-first invariant (`SearchTree.Tree`) until it has enqueued `E` or emptied the queue, and then gives the `BfsSearch` outcome |
| MazeGame.Maze.Round | Maze.c:413-433 | one pop and its four neighbours keep the queue equal to the unexpanded part of the enqueue order, and keep the invariant |
| MazeGame.Maze.Expand | Maze.c:417-433 | the inner `for` loop either enqueues `E` or closes the popped cell, so that every open neighbour of it is enqueued |
| MazeGame.Maze.Visit | Maze.c:418-432 | one direction: a wall, a cell outside the grid or a visited cell is skipped; any other neighbour is admitted |
| MazeGame.Maze.Admit | Maze.c:424-432 | a fresh neighbour is marked visited, given the popped cell as parent, and appended to the enqueue order and the queue; finding `E` is reported |
| MazeGame.Maze.Enqueue | Maze.c:424-427 | a fresh neighbour is marked visited, gets its parent stored, and is pushed: the queue is the unexpanded part of the enqueue order grown by that cell |
| MazeGame.Maze.MarkVisited | Maze.c:424 | `visited[nr][nc] = 1` makes the visited grid mark exactly the cells of the order grown by that cell (used too for `visited[r][c] = 1` at Maze.c:470) |
| MazeGame.Maze.SetParent | Maze.c:425-426 | storing the popped cell as the parent keeps the parent grids equal to the parent links of the grown order |
| MazeGame.Maze.Overwrite | Maze.c:378-379 | writing one character into the grid adds that cell to the painted ones and changes no other cell (used too for the `^` painting at Maze.c:544) |
| MazeGame.Maze.MarkShortestPath | Maze.c:371-387 | `mark_shortest_path` follows the parent chain from `E` to `S`, paints its cells other than `S`/`E` with `b`, and counts the steps of that path |
| MazeGame.Maze.TraceBack | Maze.c:372-384 | the loop that walks the parent arrays back gives the parent chain and paints every unmarked cell on it after the start |
| SearchTree.TreeGrow | Maze.c:421-427 | enqueueing an unvisited open neighbour of the popped cell keeps the breadth-first invariant, and closes one more direction |
| SearchTree.ChainIsShortest | Maze.c:371-384 | the parent chain of any enqueued cell is a repetition-free walk from `S` whose length is that cell's breadth-first distance |
| SearchTree.FoundOutcome | Maze.c:429-443 | when the last enqueued cell is `E`, its parent chain is a shortest walk from `S` to `E` |
| SearchTree.ExhaustedHoldsReachable | Maze.c:412-434 | once the queue is empty and every dequeued cell is closed, the enqueued cells include every cell reachable from `S` |
| SearchTree.ExhaustedOutcome | Maze.c:436-441 | an exhausted search without `E` means that `E` is unreachable ("No path exists") |
| SearchTree.LayerIsDistance | Maze.c:412-433 | a walk of layer length to an enqueued cell is a shortest one |
| MazeGraph.LayerCovered | Maze.c:412-433 | cells listed with their exact layers, closed below layer `B`, include every cell within `D <= B` steps |
| MazeGraph.ExactIsLowerBound | Maze.c:412-433 | no walk reaches a cell in fewer steps than its breadth-first layer |
| MazeGraph.ClosedListHoldsReachable | Maze.c:412-434 | a layered list of cells that is closed under open neighbours holds every reachable cell |
| MazeGraph.DistinctCellsFit | Maze.c:44 | distinct cells of a `rows` x `cols` grid number at most `rows * cols`, so the queue of size `QSIZE` never wraps during the search |
| MazeGraph.Paint | Maze.c:378-379 | painting changes exactly the listed cells to the given character |
| MazeGraph.RestInterior | Maze.c:378 | when the path ends on `E`, skipping markers on every cell after the first is the same as skipping them on the interior cells |
| MazeGame.Maze.DfsFindOnePath | Maze.c:461-497 | `dfs_find_one_path` from an open cell off the path finds a walk exactly when a repetition-free walk to `E` avoiding the current path exists; the path buffer then holds the old path followed by that walk; otherwise the path and the visited marks are restored |
| MazeGame.Maze.Explore | Maze.c:470-496 | after the current cell is pushed, the search in the shuffled direction order either extends the path to `E`, or proves that no escape exists from the cell and pops it |
| MazeGame.Maze.TryDirection | Maze.c:483-491 | one direction either leads to a found walk, which the current cell then heads, or is a dead end: a wall, a cell already on the path, or a cell with no escape |
| MazeGame.Maze.ShuffledDirections | Maze.c:472-480 | the direction order is the Fisher–Yates shuffle of `0..3` under the next three `rand()` draws, and holds each direction once |
| MazeGame.Maze.PushCell | Maze.c:462-464 | the cell is appended to the path buffer |
| MazeGame.Maze.PopCell | Maze.c:495 | the last cell is removed from the path buffer |
| MazeGame.Maze.Unvisit | Maze.c:494 | clearing the mark of the popped cell restores the visited marks of the remaining path |
| MazeGame.Maze.AllDeadEnds | Maze.c:482-496 | four dead directions in any order that covers all of them mean no escape from the cell |
| Shuffle.FisherYatesPermutes | Maze.c:475-480 | the shuffle is a permutation of what it shuffles |
| Shuffle.DirectionsShuffled | Maze.c:472-480 | the shuffled directions are a permutation of `0..3` |
| Shuffle.DirectionsCovered | Maze.c:482-492 | the shuffled order tries each of the four directions |
| PathSearch.EscapesIffReachable | Maze.c:516-522 | a repetition-free walk from `S` to `E` exists exactly when `E` is reachable, so the search fails exactly when there is no path |
| PathSearch.NoEscape | Maze.c:482-496 | when every direction from a cell is a dead end, no repetition-free walk to the exit leaves that cell |
| PathSearch.FirstStep | Maze.c:482-492 | a repetition-free walk from a cell that is not the exit starts in some direction that is not a dead end |
| PathSearch.StepEscapes | Maze.c:488-489 | a walk found from a neighbour, with the cell in front, is a walk from the cell |
| PathSearch.Shorten | Maze.c:516-522 | any walk can be shortened to a repetition-free one |
| PathSearch.CutLoop | Maze.c:516-522 | removing the loop between two visits of one cell leaves a shorter walk with the same ends |
| MazeGame.Maze.SearchFromStart | Maze.c:517-520 | a search from `S` with an empty path and fresh visited marks succeeds exactly when `E` is reachable, and its path is a repetition-free walk from `S` to `E` |
| MazeGame.Maze.FindAndMark | Maze.c:517-545 | one round: the search succeeds exactly when `E` is reachable, and the shown frame is the grid with the found path's interior painted `^` |
| MazeGame.Maze.MarkedCopy | Maze.c:536-545 | the copy of the grid with the path's interior cells painted `^` |
| MazeGame.Maze.CopyRows | Maze.c:536-540 | the fresh grid holds the maze's cells |
| MazeGame.Maze.CopyString | Maze.c:539 | `strcpy` of one row copies it with its terminator and leaves the other rows |
| MazeGame.Maze.MarkInterior | Maze.c:543-545 | cells 1 to `path_len - 2` of the path, and only they, are painted `^` |
| MazeGame.Maze.ShowSomeSolutions | Maze.c:503-577 | every frame shown is a repetition-free walk from `S` to `E`, painted `^` on its interior; at most 20 frames are shown; the loop stops with no frame exactly when `E` is unreachable, and with 20 frames exactly at the limit; each further frame follows a `y`/`Y` answer, and a stop on the player's answer follows a different one; the grid is left unchanged |
| IncreasingRun.RunAtEnd | Homework-01/increasing_subsequence_len.c:13-25 | the run that ends at the last value is between 1 and the input's length long |
| IncreasingRun.MaxRun | Homework-01/increasing_subsequence_len.c:11-31 | the longest run is no longer than the input, and is 0 exactly for the empty input |
| IncreasingRun.RunAtEndIsLongest | Homework-01/increasing_subsequence_len.c:13-25 | `current_len` is the length of the longest strictly increasing run ending at the last value |
| IncreasingRun.MaxRunIsLongest | Homework-01/increasing_subsequence_len.c:11-34 | `MaxRun` is the length of some strictly increasing run of consecutive values, and no such run is longer |
| IncreasingRun.Extend | Homework-01/increasing_subsequence_len.c:13-27 | one more value extends the run when it is larger than the previous one and restarts it at 1 otherwise, and the maximum is updated accordingly |
| IncreasingRun.LongestIncreasingRun | Homework-01/increasing_subsequence_len.c:3-34 | the printed `max_len` is the length of the longest strictly increasing run of consecutive inputs before `-1`: some run has that length and none is longer; it is 0 when `-1` comes first |
| Sentinel.UpTo | Homework-01/increasing_subsequence_len.c:11 | the inputs read before the sentinel are a prefix of the input without the sentinel, followed in the input by the sentinel |
| Sentinel.SentinelAt | Class-Session-01/example-01.c:17-19 | an index before or at the end of that prefix holds the sentinel exactly at the end of the prefix |
| SecondLargest.Max | Class-Session-01/example-01.c:24-27 | the largest input is one of the inputs and none is larger |
| SecondLargest.SecondOf | Class-Session-01/example-01.c:24-32 | the second largest is an input strictly below the largest and at least every other such input; it is absent exactly when all inputs are equal |
| SecondLargest.Append | Class-Session-01/example-01.c:24-32 | a new value above the largest makes it the largest and the old largest the second; a value strictly between them becomes the second; any other value changes neither |
| SecondLargest.Track | Class-Session-01/example-01.c:24-32 | the `if`/`else if` update keeps `largest` and `second_largest` equal to the maximum and second largest of the inputs read so far |
| SecondLargest.RepeatedMaximumKeepsSecond | Class-Session-01/example-01.c:24-32 | entering the current maximum again changes neither the largest nor the second largest |
| SecondLargest.NoSecondIffAllEqual | Class-Session-01/example-01.c:39-44 | there is no second largest exactly when all inputs are equal |
| SecondLargest.Scan | Class-Session-01/example-01.c:13-33 | the loop counts the inputs before `0` and ends with their maximum and second largest (absent when there is none) |
| SecondLargest.SecondLargestReport | Class-Session-01/example-01.c:13-44 | the program reports the second largest exactly when at least two inputs were given and they are not all equal; the reported value is below the largest |

## Left out

- Console output is not modelled. This covers `set_color`, `print_maze`, the messages, `Sleep`/`sleep` and the screen clearing: they only display state.
- The menu and `main` of the maze program are not modelled. They only dispatch to the modes, and are not part of this model.
- `fopen`/`fgets` are replaced by the file's contents as an optional character sequence. `None` stands for a file that cannot be opened.
- The maze file name is not modelled.
- `srand`/`rand` are replaced by a fixed stream `rand: nat -> nat` and a counter `draws` of the calls made. The seed, taken from the clock, is not modelled.
- Keyboard input to manual play and to the "another path?" prompt is a sequence of characters. Both prompts read with `scanf(" %c")`, which skips whitespace, so the sequences stand for the non-blank characters `scanf` returns; a blank in them is treated like any other unknown key or declining answer. The C code would block or loop on end of input; the model instead ends the mode with `OutOfInput` or `OutOfAnswers`.
- The exercises read their numbers from a sequence. `LongestIncreasingRun`, `Scan` and `SecondLargestReport` require that the sentinel occurs, because without it the C loop never ends.
- SecondLargest.SecondLargestReport: the floating-point `sum`/`avg` and the `-INFINITY` starting values are not modelled. `None` stands for `-INFINITY`, and the average, a float division that is undefined for no input, is left out.
- `int` overflow in the exercises is not modelled: values are unbounded integers.
- MazeGame.Maze.PlayManual: it requires only that the grid fits its array, not a fully loaded maze. It is therefore stated for any grid.
- MazeGame.Maze.BfsShortest: it states that the painted walk is a shortest repetition-free walk from `S` to `E`, not which of the shortest walks it is; the program's walk is the one the up/down/left/right order of the search picks.
- MazeGame.Maze.DfsFindOnePath: it does not say which path is found, only that it is a repetition-free walk; which one depends on `rand`.
- MazeGame.Maze.ShowSomeSolutions: path entries beyond `path_len` in the path buffer are not described. Each frame is the returned grid rather than something printed.
- The menu's reload after each mode ignores the loader's report. `LoadMaze` states the state a failed load leaves, but the program's behaviour on it afterwards is not modelled.
- The Windows and POSIX variants of sleeping and of colours are not distinguished.

## Findings

| source | as written | input that shows it | evidently intended | confidence | as-written member | corrected member |
|---|---|---|---|---|---|---|
| Maze.c:137-138, Maze.c:185-192 | the documentation says the loader locates exactly one `S` and one `E`, but the scan accepts repeated markers and keeps the last of each | the one-row file `SSE` loads with the start at `(0, 1)` | a loaded maze has exactly one `S` and one `E` | not executed; the code and its documentation disagree, and the code's behaviour may be the one wanted | MazeFile.DuplicateStartLoaded | MazeFile.UniqueMarkersLocated |

`MazeGame.Maze.LoadMaze` keeps modelling the loader as written, since it is the program's behaviour; `MazeFile.UniqueStatus` is the documented report.
