/** `build_grid`, `print_grid` and `render_data` of test.py. The grid is a
    two-dimensional array of characters; Python's list indexing is modelled
    as it is: an index in `-len .. len - 1` is accepted, a negative one
    counting from the end, and any other index raises IndexError. */
module Grid {
  import opened Wrappers
  import opened PyText
  import opened Table

  /** `max(x for x, _, _ in char_data)` */
  function MaxX(es: seq<Entry>): (m: int)
    requires es != []
    ensures forall e :: e in es ==> e.x <= m
    ensures exists e :: e in es && e.x == m
  {
    if |es| == 1 then es[0].x
    else
      var t := MaxX(es[1..]);
      assert forall e :: e in es <==> e == es[0] || e in es[1..];
      if es[0].x >= t then es[0].x else t
  }

  /** `max(y for _, _, y in char_data)` */
  function MaxY(es: seq<Entry>): (m: int)
    requires es != []
    ensures forall e :: e in es ==> e.y <= m
    ensures exists e :: e in es && e.y == m
  {
    if |es| == 1 then es[0].y
    else
      var t := MaxY(es[1..]);
      assert forall e :: e in es <==> e == es[0] || e in es[1..];
      if es[0].y >= t then es[0].y else t
  }

  /** `len(range(m + 1))` */
  function Extent(m: int): nat
  {
    if m + 1 > 0 then m + 1 else 0
  }

  function Height(es: seq<Entry>): nat requires es != [] { Extent(MaxY(es)) }

  function Width(es: seq<Entry>): nat requires es != [] { Extent(MaxX(es)) }

  /** A Python list of length `len` accepts index `i`. */
  predicate Indexable(i: int, len: nat)
  {
    -(len as int) <= i < len
  }

  /** The position a Python index denotes. */
  function Slot(i: int, len: nat): (k: nat)
    requires Indexable(i, len)
    ensures k < len
    ensures 0 <= i ==> k == i
    ensures i < 0 ==> k == i + len
  {
    if i < 0 then i + len else i
  }

  /** Entry `e` writes cell (r, c) of a `rows` by `cols` grid. */
  predicate Writes(e: Entry, rows: nat, cols: nat, r: int, c: int)
  {
    Indexable(e.y, rows) && Indexable(e.x, cols) && Slot(e.y, rows) == r && Slot(e.x, cols) == c
  }

  /** Every entry's `grid[y][x]` can be assigned. */
  predicate AllIndexable(es: seq<Entry>, rows: nat, cols: nat)
  {
    forall e :: e in es ==> Indexable(e.y, rows) && Indexable(e.x, cols)
  }

  /** The character in cell (r, c) once `es` has been written in order. */
  function CellAt(es: seq<Entry>, rows: nat, cols: nat, r: int, c: int): char
  {
    if es == [] then ' '
    else if Writes(es[|es| - 1], rows, cols, r, c) then es[|es| - 1].ch
    else CellAt(es[..|es| - 1], rows, cols, r, c)
  }

  /** A cell no entry writes keeps its blank. */
  lemma {:induction false} UnwrittenIsBlank(es: seq<Entry>, rows: nat, cols: nat, r: int, c: int)
    requires forall k :: 0 <= k < |es| ==> !Writes(es[k], rows, cols, r, c)
    ensures CellAt(es, rows, cols, r, c) == ' '
  {
    if es != [] {
      var init := es[..|es| - 1];
      assert forall k :: 0 <= k < |init| ==> init[k] == es[k];
      UnwrittenIsBlank(init, rows, cols, r, c);
    }
  }

  /** A written cell holds the character of the last entry that writes it. */
  lemma {:induction false} LastWriteWins(es: seq<Entry>, rows: nat, cols: nat, r: int, c: int, k: nat)
    requires k < |es| && Writes(es[k], rows, cols, r, c)
    requires forall j :: k < j < |es| ==> !Writes(es[j], rows, cols, r, c)
    ensures CellAt(es, rows, cols, r, c) == es[k].ch
    decreases |es|
  {
    if k < |es| - 1 {
      var init := es[..|es| - 1];
      assert forall j :: k < j < |init| ==> init[j] == es[j];
      LastWriteWins(init, rows, cols, r, c, k);
    }
  }

  /** With non-negative coordinates every assignment is in range, and entry
      (x, c, y) writes cell (y, x). */
  lemma NonNegativeFits(es: seq<Entry>)
    requires es != []
    requires forall e :: e in es ==> 0 <= e.x && 0 <= e.y
    ensures AllIndexable(es, Height(es), Width(es))
    ensures forall e :: e in es ==> Writes(e, Height(es), Width(es), e.y, e.x)
  {
  }

  /** `build_grid`: a `max_y + 1` by `max_x + 1` grid of blanks, then each
      entry's character written at `grid[y][x]` in list order. `ok` is false
      when `build_grid` raises: ValueError from `max` on an empty list, or
      IndexError from an assignment out of range. */
  method BuildGrid(entries: seq<Entry>) returns (grid: array2<char>, ok: bool)
    ensures fresh(grid)
    ensures entries == [] ==> !ok
    ensures entries != [] ==> grid.Length0 == Height(entries) && grid.Length1 == Width(entries)
    ensures entries != [] ==> (ok <==> AllIndexable(entries, Height(entries), Width(entries)))
    ensures ok ==> forall r, c :: 0 <= r < grid.Length0 && 0 <= c < grid.Length1 ==>
      grid[r, c] == CellAt(entries, grid.Length0, grid.Length1, r, c)
  {
    if entries == [] {
      grid := new char[0, 0];
      ok := false;
      return;
    }
    var maxX := MaxX(entries);
    var maxY := MaxY(entries);
    var rows, cols := Extent(maxY), Extent(maxX);
    grid := new char[rows, cols]((r, c) => ' ');
    ok := true;
    for k := 0 to |entries|
      invariant AllIndexable(entries[..k], rows, cols)
      invariant forall r, c :: 0 <= r < rows && 0 <= c < cols ==>
        grid[r, c] == CellAt(entries[..k], rows, cols, r, c)
    {
      var e := entries[k];
      assert entries[..k + 1][..k] == entries[..k] && entries[..k + 1][k] == e;
      if !Indexable(e.y, rows) || !Indexable(e.x, cols) {
        ok := false;
        assert e in entries;
        return;
      }
      CellAtStep(entries, k, rows, cols);
      grid[Slot(e.y, rows), Slot(e.x, cols)] := e.ch;
    }
    assert entries[..|entries|] == entries;
  }

  lemma CellAtStep(es: seq<Entry>, k: nat, rows: nat, cols: nat)
    requires k < |es|
    ensures forall r, c :: (CellAt(es[..k + 1], rows, cols, r, c)
      == if Writes(es[k], rows, cols, r, c) then es[k].ch else CellAt(es[..k], rows, cols, r, c))
  {
    assert es[..k + 1][..k] == es[..k];
  }

  /** The grid as `build_grid` leaves it, row by row. */
  function Picture(es: seq<Entry>): (lines: seq<string>)
    requires es != []
    ensures |lines| == Height(es)
    ensures forall r :: 0 <= r < |lines| ==> |lines[r]| == Width(es)
  {
    seq(Height(es), r => seq(Width(es), c => CellAt(es, Height(es), Width(es), r, c)))
  }

  /** The rows of an array grid. */
  function Rows(grid: array2<char>): (lines: seq<string>)
    reads grid
    ensures |lines| == grid.Length0
    ensures forall r :: 0 <= r < |lines| ==> |lines[r]| == grid.Length1
    ensures forall r, c :: 0 <= r < grid.Length0 && 0 <= c < grid.Length1 ==> lines[r][c] == grid[r, c]
  {
    seq(grid.Length0, r requires 0 <= r < grid.Length0 reads grid => seq(grid.Length1, c requires 0 <= r < grid.Length0 && 0 <= c < grid.Length1 reads grid => grid[r, c]))
  }

  /** What `print_grid` writes: each row joined, then a newline. */
  function Render(lines: seq<string>): string
  {
    if lines == [] then "" else lines[0] + "\n" + Render(lines[1..])
  }

  /** Text split at its newlines, each line ending at one. */
  function SplitLines(s: string): seq<string>
    decreases |s|
  {
    if s == [] then []
    else
      var line := BeforeFirst(s, '\n');
      if |line| == |s| then [s] else [line] + SplitLines(s[|line| + 1..])
  }

  /** The printed text gives back the rows when no row holds a newline. */
  lemma {:induction false} RenderSplits(lines: seq<string>)
    requires forall r :: 0 <= r < |lines| ==> '\n' !in lines[r]
    ensures SplitLines(Render(lines)) == lines
  {
    if lines != [] {
      var rest := Render(lines[1..]);
      var s := Render(lines);
      assert s == lines[0] + ['\n'] + rest;
      BeforeFirstJoin(lines[0], '\n', rest);
      assert s[|lines[0]| + 1..] == rest;
      RenderSplits(lines[1..]);
    }
  }

  /** No cell of a grid built from parsed rows holds a newline. */
  lemma PictureHasNoNewline(rows: seq<seq<string>>)
    requires Parsed(rows) != []
    ensures forall r :: 0 <= r < |Picture(Parsed(rows))| ==> '\n' !in Picture(Parsed(rows))[r]
  {
    var es := Parsed(rows);
    forall e | e in es ensures e.ch != '\n' {
      ParsedMembers(rows, e);
      var i :| 0 <= i < |rows| && ParseRow(rows[i]) == Some(e);
      KeptCharIsVisible(rows[i]);
    }
    forall r, c | 0 <= r < Height(es) && 0 <= c < Width(es)
      ensures CellAt(es, Height(es), Width(es), r, c) != '\n'
    {
      CellIsBlankOrEntry(es, Height(es), Width(es), r, c);
    }
  }

  lemma {:induction false} CellIsBlankOrEntry(es: seq<Entry>, rows: nat, cols: nat, r: int, c: int)
    ensures CellAt(es, rows, cols, r, c) == ' ' || exists e :: e in es && e.ch == CellAt(es, rows, cols, r, c)
  {
    if es != [] && !Writes(es[|es| - 1], rows, cols, r, c) {
      var init := es[..|es| - 1];
      CellIsBlankOrEntry(init, rows, cols, r, c);
      assert forall e :: e in init ==> e in es;
    }
  }

  /** The text printed for a grid built from parsed rows splits back at its
      newlines into exactly the grid's rows. */
  lemma PrintedGridSplits(rows: seq<seq<string>>)
    requires Parsed(rows) != []
    ensures SplitLines(Render(Picture(Parsed(rows)))) == Picture(Parsed(rows))
  {
    PictureHasNoNewline(rows);
    RenderSplits(Picture(Parsed(rows)));
  }

  /** `[Error] No data parsed from the document.` */
  const NoDataMessage: string := "[Error] No data parsed from the document."

  datatype RenderOutcome = Printed(text: string) | IndexError

  /** `render_data` from the table rows on: a message when nothing was
      parsed, otherwise the grid is built and printed. */
  method RenderData(rows: seq<seq<string>>) returns (out: RenderOutcome)
    ensures Parsed(rows) == [] ==> out == Printed(NoDataMessage + "\n")
    ensures Parsed(rows) != [] ==>
      var es := Parsed(rows);
      out == if AllIndexable(es, Height(es), Width(es)) then Printed(Render(Picture(es))) else IndexError
  {
    var charData := ParseTable(rows);
    if charData == [] {
      out := Printed(NoDataMessage + "\n");
      return;
    }
    var grid, ok := BuildGrid(charData);
    if !ok {
      out := IndexError;
      return;
    }
    var lines := Rows(grid);
    RowsArePicture(grid, charData);
    out := Printed(Render(lines));
  }

  lemma RowsArePicture(grid: array2<char>, es: seq<Entry>)
    requires es != []
    requires grid.Length0 == Height(es) && grid.Length1 == Width(es)
    requires forall r, c :: 0 <= r < grid.Length0 && 0 <= c < grid.Length1 ==>
      grid[r, c] == CellAt(es, grid.Length0, grid.Length1, r, c)
    ensures Rows(grid) == Picture(es)
  {
    var a, b := Rows(grid), Picture(es);
    forall r | 0 <= r < |a| ensures a[r] == b[r] {
      assert forall c :: 0 <= c < |a[r]| ==> a[r][c] == b[r][c];
    }
  }
}
