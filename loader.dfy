/**
 * What the maze loader reads from the maze file, stated on the file's text:
 * how `fgets` with a buffer of `MAXC` characters cuts the text into chunks, which
 * chunks become grid rows, where reading stops, and which outcome the loader
 * reports.  The loader itself is `MazeGame.Maze.LoadMaze`, proved against
 * `ExpectedStatus` and `Window`.
 */
module MazeFile {
  import opened MazeGraph
  import opened Wrappers

  /** The loader's four failure reports and its success. */
  datatype LoadStatus = Loaded | CannotOpen | RaggedRows | EmptyMaze | MissingMarker

  /**
   * End (exclusive) of the chunk one `fgets(line, MAXC, f)` call reads when the
   * chunk has reached index `k`: it stops after a newline, at the end of the text,
   * or when `MAXC - 1` characters are in the buffer.
   */
  function ChunkEnd(text: seq<char>, k: nat): (n: nat)
    requires k < |text| && k < MAXC - 1
    ensures k < n <= |text| && n <= MAXC - 1
    ensures n == |text| || text[n - 1] == '\n' || n == MAXC - 1
    decreases |text| - k
  {
    if text[k] == '\n' || k + 1 == |text| || k + 1 == MAXC - 1 then k + 1
    else ChunkEnd(text, k + 1)
  }

  /** A chunk holds a newline only as its last character. */
  lemma {:induction false} ChunkEndFirstNewline(text: seq<char>, k: nat)
    requires k < |text| && k < MAXC - 1
    ensures forall m :: k <= m < ChunkEnd(text, k) - 1 ==> text[m] != '\n'
    decreases |text| - k
  {
    if !(text[k] == '\n' || k + 1 == |text| || k + 1 == MAXC - 1) {
      ChunkEndFirstNewline(text, k + 1);
    }
  }

  /** The successive buffers `fgets` fills while reading `text` to its end. */
  function Chunks(text: seq<char>): (cs: seq<seq<char>>)
    ensures |cs| <= |text|
    ensures cs == [] <==> text == []
    decreases |text|
  {
    if text == [] then []
    else
      var n := ChunkEnd(text, 0);
      [text[..n]] + Chunks(text[n..])
  }

  function Concat(ls: seq<seq<char>>): seq<char>
  {
    if ls == [] then [] else ls[0] + Concat(ls[1..])
  }

  /** Length of the C string held in `s`: the characters before the first NUL. */
  function StrLen(s: seq<char>): (n: nat)
    ensures n <= |s|
    ensures forall m :: 0 <= m < n ==> s[m] != '\0'
    ensures n < |s| ==> s[n] == '\0'
  {
    if s == [] || s[0] == '\0' then 0 else 1 + StrLen(s[1..])
  }

  /** The row a buffer holds once one trailing newline is cut off its C string. */
  function Row(chunk: seq<char>): (row: seq<char>)
    ensures |row| <= |chunk| && row == chunk[..|row|]
    ensures forall m :: 0 <= m < |row| ==> row[m] != '\0'
  {
    var n := StrLen(chunk);
    if n > 0 && chunk[n - 1] == '\n' then chunk[..n - 1] else chunk[..n]
  }

  /** The rows the loader keeps from a run of buffers: every non-empty row, in order. */
  function Kept(chunks: seq<seq<char>>): (k: seq<seq<char>>)
    ensures forall i :: 0 <= i < |k| ==> k[i] != []
    ensures forall i, j :: 0 <= i < |k| && 0 <= j < |k[i]| ==> k[i][j] != '\0'
  {
    if chunks == [] then []
    else if Row(chunks[0]) == [] then Kept(chunks[1..])
    else [Row(chunks[0])] + Kept(chunks[1..])
  }

  /** The rows the loader reads from `text` before it stops: at most `MAXR` kept rows. */
  function Window(text: seq<char>): (w: seq<seq<char>>)
    ensures |w| <= MAXR && forall i :: 0 <= i < |w| ==> w[i] != []
  {
    var k := Kept(Chunks(text));
    if |k| <= MAXR then k else k[..MAXR]
  }

  predicate Uniform(w: seq<seq<char>>) {
    forall i :: 0 <= i < |w| ==> |w[i]| == |w[0]|
  }

  ghost predicate Occurs(w: seq<seq<char>>, ch: char) {
    exists i, j :: 0 <= i < |w| && 0 <= j < |w[i]| && w[i][j] == ch
  }

  /** Row-major order on positions. */
  predicate LexLess(a: int, b: int, i: int, j: int) {
    a < i || (a == i && b < j)
  }

  /** `x` holds `ch` and no later cell in row-major order does. */
  ghost predicate IsLast(w: seq<seq<char>>, ch: char, x: Cell) {
    && InGrid(w, x) && w[x.r][x.c] == ch
    && forall a, b :: 0 <= a < |w| && 0 <= b < |w[a]| && w[a][b] == ch ==> !LexLess(x.r, x.c, a, b)
  }

  /**
   * The loader's report for a file: `None` is a file that cannot be opened.  Rows
   * of unequal length are reported first, then an empty grid, then a missing marker.
   */
  ghost function ExpectedStatus(file: Option<seq<char>>): (s: LoadStatus)
    ensures s == CannotOpen <==> file.None?
    ensures s == Loaded <==>
              && file.Some? && Uniform(Window(file.value)) && Window(file.value) != []
              && Occurs(Window(file.value), 'S') && Occurs(Window(file.value), 'E')
  {
    match file
    case None => CannotOpen
    case Some(text) =>
      var w := Window(text);
      if !Uniform(w) then RaggedRows
      else if w == [] then EmptyMaze
      else if !Occurs(w, 'S') || !Occurs(w, 'E') then MissingMarker
      else Loaded
  }

  /** `ch` occurs in the cell `x` of `w` and in no other cell. */
  ghost predicate OnlyAt(w: seq<seq<char>>, ch: char, x: Cell) {
    && InGrid(w, x) && w[x.r][x.c] == ch
    && forall a, b :: 0 <= a < |w| && 0 <= b < |w[a]| && w[a][b] == ch ==> Cell(a, b) == x
  }

  ghost predicate OccursOnce(w: seq<seq<char>>, ch: char) {
    exists x :: OnlyAt(w, ch, x)
  }

  /**
   * The report the loader's documentation describes, which locates exactly one
   * `S` and one `E`: a grid that `ExpectedStatus` accepts but in which a marker
   * occurs more than once is refused with the missing-marker report.
   */
  ghost function UniqueStatus(file: Option<seq<char>>): (s: LoadStatus)
    ensures s != Loaded ==> s == ExpectedStatus(file) || s == MissingMarker
    ensures s == Loaded ==> ExpectedStatus(file) == Loaded
  {
    var e := ExpectedStatus(file);
    if e == Loaded && (!OccursOnce(Window(file.value), 'S') || !OccursOnce(Window(file.value), 'E')) then MissingMarker
    else e
  }

  /**
   * Under `UniqueStatus`, a loaded grid holds one `S` and one `E`, so the last
   * occurrences the scan finds are the only ones.
   */
  lemma UniqueMarkersLocated(text: seq<char>, s: Cell, e: Cell)
    requires UniqueStatus(Some(text)) == Loaded
    requires IsLast(Window(text), 'S', s) && IsLast(Window(text), 'E', e)
    ensures OnlyAt(Window(text), 'S', s) && OnlyAt(Window(text), 'E', e)
  {
  }

  /**
   * As written, the loader accepts a maze with two `S` cells and starts on the
   * later one: the one-row file `SSE` is loaded with the start at column 1,
   * although `S` occurs twice; `UniqueStatus` refuses it.
   */
  lemma DuplicateStartLoaded()
    ensures ExpectedStatus(Some("SSE")) == Loaded
    ensures IsLast(Window("SSE"), 'S', Cell(0, 1)) && !OccursOnce(Window("SSE"), 'S')
    ensures UniqueStatus(Some("SSE")) == MissingMarker
  {
  }

  /** Reading the chunks back to back gives the whole text again. */
  lemma {:induction false} ChunksRoundTrip(text: seq<char>)
    ensures Concat(Chunks(text)) == text
    decreases |text|
  {
    if text != [] {
      var n := ChunkEnd(text, 0);
      ChunksRoundTrip(text[n..]);
      assert text == text[..n] + text[n..];
    }
  }

  /** Every chunk is non-empty, fits the buffer, and holds a newline only at its end. */
  lemma {:induction false} ChunksFit(text: seq<char>)
    ensures forall i :: 0 <= i < |Chunks(text)| ==>
              0 < |Chunks(text)[i]| <= MAXC - 1
              && forall m :: 0 <= m < |Chunks(text)[i]| - 1 ==> Chunks(text)[i][m] != '\n'
    decreases |text|
  {
    if text != [] {
      var n := ChunkEnd(text, 0);
      ChunkEndFirstNewline(text, 0);
      ChunksFit(text[n..]);
    }
  }

  /** A chunk that ends inside text ending in a newline ends at the same place in any extension. */
  lemma {:induction false} ChunkEndPrefix(a: seq<char>, t: seq<char>, k: nat)
    requires k < |a| && k < MAXC - 1 && a[|a| - 1] == '\n'
    ensures ChunkEnd(a + t, k) == ChunkEnd(a, k)
    decreases |a| - k
  {
    if !(a[k] == '\n' || k + 1 == |a| || k + 1 == MAXC - 1) {
      ChunkEndPrefix(a, t, k + 1);
    }
  }

  /** Text made of whole lines is chunked independently of what follows it. */
  lemma {:induction false} ChunksAppend(a: seq<char>, t: seq<char>)
    requires a == [] || a[|a| - 1] == '\n'
    ensures Chunks(a + t) == Chunks(a) + Chunks(t)
    decreases |a|
  {
    if a != [] {
      var n := ChunkEnd(a, 0);
      var at := a + t;
      var c, u := a[..n], a[n..];
      ChunkEndPrefix(a, t, 0);
      assert at[..n] == c && at[n..] == u + t;
      ChunkStep(at, 0, n);
      ChunkStep(a, 0, n);
      assert at[0..] == at && a[0..] == a && at[0..n] == c && a[0..n] == c && at[0 + n..] == u + t && a[0 + n..] == u;
      ChunksAppend(u, t);
      ConsAppend(c, Chunks(u), Chunks(t));
    } else {
      assert a + t == t;
    }
  }

  /** Regrouping a concatenation, kept apart from `ChunksAppend`, where it costs the solver much more. */
  lemma ConsAppend<T>(x: T, p: seq<T>, q: seq<T>)
    ensures [x] + (p + q) == ([x] + p) + q
  {
  }

  lemma {:induction false} KeptAppend(a: seq<seq<char>>, b: seq<seq<char>>)
    ensures Kept(a + b) == Kept(a) + Kept(b)
  {
    if a != [] {
      assert (a + b)[0] == a[0] && (a + b)[1..] == a[1..] + b;
      KeptAppend(a[1..], b);
    } else {
      assert a + b == b;
    }
  }

  /** Every row the loader reads is non-empty and at most `MAXC - 1` characters long. */
  lemma WindowRowsFit(text: seq<char>)
    ensures forall i :: 0 <= i < |Window(text)| ==> 0 < |Window(text)[i]| <= MAXC - 1
  {
    ChunksFit(text);
    KeptFit(Chunks(text));
  }

  lemma {:induction false} KeptFit(chunks: seq<seq<char>>)
    requires forall i :: 0 <= i < |chunks| ==> |chunks[i]| <= MAXC - 1
    ensures forall i :: 0 <= i < |Kept(chunks)| ==> |Kept(chunks)[i]| <= MAXC - 1
  {
    if chunks != [] {
      KeptFit(chunks[1..]);
    }
  }

  /** A blank line between whole lines of the file changes nothing the loader reads. */
  lemma BlankLineIgnored(a: seq<char>, t: seq<char>)
    requires a == [] || a[|a| - 1] == '\n'
    ensures Window(a + "\n" + t) == Window(a + t)
  {
    var nl: seq<char> := "\n";
    assert a + nl + t == a + (nl + t);
    ChunksAppend(a, nl + t);
    ChunksAppend(nl, t);
    assert ChunkEnd(nl, 0) == 1;
    assert nl[..1] == nl && nl[1..] == [];
    assert Chunks(nl) == [nl];
    assert Kept(Chunks(nl)) == [];
    KeptAppend(Chunks(nl), Chunks(t));
    assert Kept(Chunks(nl + t)) == Kept(Chunks(t));
    KeptAppend(Chunks(a), Chunks(nl + t));
    ChunksAppend(a, t);
    KeptAppend(Chunks(a), Chunks(t));
  }

  /** Once `MAXR` rows are kept, whatever follows in the file is never read. */
  lemma RowsAfterCapIgnored(a: seq<char>, t: seq<char>)
    requires a == [] || a[|a| - 1] == '\n'
    requires |Kept(Chunks(a))| >= MAXR
    ensures ExpectedStatus(Some(a + t)) == ExpectedStatus(Some(a))
  {
    WindowCapped(a, t);
  }

  /** Once `MAXR` rows are kept, whatever follows leaves the loaded rows unchanged. */
  lemma WindowCapped(a: seq<char>, t: seq<char>)
    requires a == [] || a[|a| - 1] == '\n'
    requires |Kept(Chunks(a))| >= MAXR
    ensures Window(a + t) == Window(a)
  {
    ChunksAppend(a, t);
    KeptAppend(Chunks(a), Chunks(t));
    var k := Kept(Chunks(a));
    assert (k + Kept(Chunks(t)))[..MAXR] == k[..MAXR];
  }

  /** The kept rows of one more chunk: its row is added unless it is empty. */
  lemma KeptSnoc(done: seq<seq<char>>, chunk: seq<char>, done': seq<seq<char>>)
    requires done' == done + [chunk]
    ensures Row(chunk) == [] ==> Kept(done') == Kept(done)
    ensures Row(chunk) != [] ==> Kept(done') == Kept(done) + [Row(chunk)]
  {
    KeptAppend(done, [chunk]);
    assert [chunk][1..] == [];
  }

  /**
   * After a row-major scan of the cells before `(i, j)`, `x` is the last cell seen
   * holding `ch`, or `(-1, -1)` when none did.
   */
  ghost predicate LastBefore(w: seq<seq<char>>, ch: char, x: Cell, i: int, j: int) {
    if x.r == -1 then
      && x.c == -1
      && forall a, b :: 0 <= a < |w| && 0 <= b < |w[a]| && LexLess(a, b, i, j) ==> w[a][b] != ch
    else
      && InGrid(w, x) && w[x.r][x.c] == ch && LexLess(x.r, x.c, i, j)
      && forall a, b :: 0 <= a < |w| && 0 <= b < |w[a]| && LexLess(a, b, i, j) && w[a][b] == ch ==> !LexLess(x.r, x.c, a, b)
  }

  /** Scanning cell `(i, j)`: a hit moves the marker there, a miss keeps it. */
  lemma ScanCell(w: seq<seq<char>>, ch: char, x: Cell, i: int, j: int)
    requires LastBefore(w, ch, x, i, j) && 0 <= i < |w| && 0 <= j < |w[i]|
    ensures LastBefore(w, ch, if w[i][j] == ch then Cell(i, j) else x, i, j + 1)
  {
  }

  /** A scan that has passed the last column of row `i` has scanned up to the next row. */
  lemma ScanRow(w: seq<seq<char>>, ch: char, x: Cell, i: int)
    requires 0 <= i < |w| && LastBefore(w, ch, x, i, |w[i]|)
    ensures LastBefore(w, ch, x, i + 1, 0)
  {
  }

  /** Whether `(i, j)` is a position a row-major scan of `w` can reach: a cell, a row's end, or the very end. */
  predicate ScanPos(w: seq<seq<char>>, i: int, j: int) {
    0 <= i <= |w| && 0 <= j && (i < |w| ==> j <= |w[i]|) && (i == |w| ==> j == 0)
  }

  /**
   * The marker the loader's scan holds after the cells before `(i, j)`: the last
   * one holding `ch`, or `(-1, -1)` while none has.
   */
  ghost function ScanTo(w: seq<seq<char>>, ch: char, i: int, j: int): Cell
    requires ScanPos(w, i, j)
    decreases i, j
  {
    if j > 0 then
      if w[i][j - 1] == ch then Cell(i, j - 1) else ScanTo(w, ch, i, j - 1)
    else if i > 0 then ScanTo(w, ch, i - 1, |w[i - 1]|)
    else Cell(-1, -1)
  }

  /** The scan's marker is the last `ch` before `(i, j)`, or `(-1, -1)` when there is none. */
  lemma {:induction false} ScanToLast(w: seq<seq<char>>, ch: char, i: int, j: int)
    requires ScanPos(w, i, j)
    ensures LastBefore(w, ch, ScanTo(w, ch, i, j), i, j)
    decreases i, j
  {
    if j > 0 {
      ScanToLast(w, ch, i, j - 1);
      ScanCell(w, ch, ScanTo(w, ch, i, j - 1), i, j - 1);
    } else if i > 0 {
      ScanToLast(w, ch, i - 1, |w[i - 1]|);
      ScanRow(w, ch, ScanTo(w, ch, i - 1, |w[i - 1]|), i - 1);
    }
  }

  /** A scan of the whole grid finds the last occurrence of `ch`, or reports that there is none. */
  lemma ScanDone(w: seq<seq<char>>, ch: char, x: Cell)
    requires LastBefore(w, ch, x, |w|, 0)
    ensures x.r == -1 <==> !Occurs(w, ch)
    ensures x.r != -1 ==> IsLast(w, ch, x)
  {
  }

  /** One more `fgets` call on the text left at `pos` reads the chunk ending at `pos + n`. */
  lemma ChunkStep(text: seq<char>, pos: nat, n: nat)
    requires pos < |text| && n == ChunkEnd(text[pos..], 0)
    ensures pos + n <= |text|
    ensures Chunks(text[pos..]) == [text[pos..pos + n]] + Chunks(text[pos + n..])
  {
    var t := text[pos..];
    assert t[..n] == text[pos..pos + n] && t[n..] == text[pos + n..];
  }

  /** The loader has read `text` up to `pos`, and `done` are the buffers it has filled. */
  ghost predicate ReadSoFar(text: seq<char>, pos: int, done: seq<seq<char>>) {
    0 <= pos <= |text| && Chunks(text) == done + Chunks(text[pos..])
  }

  lemma ReadStart(text: seq<char>)
    ensures ReadSoFar(text, 0, [])
  {
    assert text[0..] == text;
  }

  /**
   * One more `fgets` call on the text left at `pos` fills the buffer `chunk`
   * ending at `pos + n`; the reader is then at `pos'` with the buffers `done'`.
   */
  lemma ChunkAdvance(text: seq<char>, done: seq<seq<char>>, pos: nat, n: nat, chunk: seq<char>, pos': int, done': seq<seq<char>>)
    requires ReadSoFar(text, pos, done) && pos < |text| && n == ChunkEnd(text[pos..], 0)
    requires pos + n <= |text| && chunk == text[pos..pos + n]
    requires pos' == pos + n && done' == done + [chunk]
    ensures ReadSoFar(text, pos', done')
  {
    var t, rest := text[pos..], Chunks(text[pos'..]);
    assert t[..n] == chunk && t[n..] == text[pos'..];
    assert Chunks(t) == [chunk] + rest;
    assert done + ([chunk] + rest) == done' + rest;
  }

  /** The rows kept from the buffers read so far are the first rows of the window. */
  lemma ReadStarts(text: seq<char>, pos: int, done: seq<seq<char>>)
    requires ReadSoFar(text, pos, done)
    ensures forall i :: 0 <= i < |Kept(done)| && i < MAXR ==> i < |Window(text)| && Window(text)[i] == Kept(done)[i]
    ensures |Kept(done)| == MAXR ==> Window(text) == Kept(done)
    ensures pos == |text| && |Kept(done)| <= MAXR ==> Window(text) == Kept(done)
  {
    var rest := Chunks(text[pos..]);
    KeptAppend(done, rest);
    var k := Kept(done) + Kept(rest);
    forall i | 0 <= i < |Kept(done)| && i < MAXR
      ensures i < |Window(text)| && Window(text)[i] == Kept(done)[i]
    {
      assert k[i] == Kept(done)[i];
    }
    if pos == |text| {
      assert text[pos..] == [] && rest == [];
      assert done + rest == done;
    }
  }

  /** A kept row whose length differs from the first kept row's makes the rows the loader reads ragged. */
  lemma RaggedWindow(text: seq<char>, pos: int, done: seq<seq<char>>, kept: seq<seq<char>>, row: seq<char>)
    requires ReadSoFar(text, pos, done) && Kept(done) == kept + [row]
    requires kept != [] && |kept| < MAXR && |row| != |kept[0]|
    ensures !Uniform(Window(text))
    ensures |kept| < |Window(text)| && Window(text)[..|kept|] == kept && Window(text)[|kept|] == row
  {
    ReadStarts(text, pos, done);
    assert Kept(done)[|kept|] == row && Kept(done)[0] == kept[0];
    assert Window(text)[|kept|] == row && Window(text)[0] == kept[0];
    assert Window(text)[..|kept|] == kept;
  }
}
