/** The row filter of `parse_table_from_html` in test.py. The HTML parser
    is not modelled: each table row arrives as the list of the texts of its
    `td`/`th` cells, in document order. */
module Table {
  import opened Wrappers
  import opened PyText

  /** One kept row: the coordinates and the character drawn there. */
  datatype Entry = Entry(x: int, ch: char, y: int)

  /** The body of the row loop: `Some(entry)` when the row is appended, `None`
      when it is skipped (not three cells, a coordinate that is not an
      integer, or a middle cell that is blank). */
  function ParseRow(cells: seq<string>): Option<Entry>
  {
    if |cells| != 3 then None
    else
      var x := ParseInt(Strip(cells[0]));
      var text := Strip(cells[1]);
      var y := ParseInt(Strip(cells[2]));
      if x.None? || text == [] || y.None? then None
      else Some(Entry(x.value, text[0], y.value))
  }

  /** What an element contributes to a filtered list. */
  function Contribution<T, U>(f: T -> Option<U>, x: T): seq<U>
  {
    match f(x)
    case Some(u) => [u]
    case None => []
  }

  /** The values `f` yields on `xs`, in order, where it yields one. */
  function Collect<T, U>(f: T -> Option<U>, xs: seq<T>): (r: seq<U>)
    ensures |r| <= |xs|
  {
    if xs == [] then [] else Collect(f, xs[..|xs| - 1]) + Contribution(f, xs[|xs| - 1])
  }

  /** The output for a list of rows: the kept rows' entries, in row order. */
  function Parsed(rows: seq<seq<string>>): (r: seq<Entry>)
  {
    Collect(ParseRow, rows)
  }

  /** A row is kept exactly when it has three cells, each outer cell is an
      integer literal with only whitespace around it, and the middle cell
      holds a visible character; the entry holds those integers and the
      middle cell's first visible character. */
  lemma RowKept(cells: seq<string>, e: Entry)
    ensures ParseRow(cells) == Some(e) <==>
      && |cells| == 3
      && IntCell(cells[0], e.x)
      && FirstVisible(cells[1], e.ch)
      && IntCell(cells[2], e.y)
  {
    if |cells| == 3 {
      StrippedInt(cells[0], e.x);
      StrippedHead(cells[1], e.ch);
      StrippedInt(cells[2], e.y);
    }
  }

  /** The character kept is never whitespace. */
  lemma KeptCharIsVisible(cells: seq<string>)
    requires ParseRow(cells).Some?
    ensures !IsSpace(ParseRow(cells).value.ch)
  {
  }

  lemma {:induction false} CollectAppend<T, U>(f: T -> Option<U>, a: seq<T>, b: seq<T>)
    ensures Collect(f, a + b) == Collect(f, a) + Collect(f, b)
    decreases |b|
  {
    if b == [] {
      assert a + b == a;
    } else {
      var b' := b[..|b| - 1];
      CollectAppend(f, a, b');
      assert (a + b)[..|a + b| - 1] == a + b';
      assert (a + b)[|a + b| - 1] == b[|b| - 1];
    }
  }

  lemma {:induction false} CollectMembers<T, U>(f: T -> Option<U>, xs: seq<T>, u: U)
    ensures u in Collect(f, xs) <==> exists i :: 0 <= i < |xs| && f(xs[i]) == Some(u)
    decreases |xs|
  {
    if xs != [] {
      var init := xs[..|xs| - 1];
      CollectMembers(f, init, u);
      if u in Collect(f, init) {
        var i :| 0 <= i < |init| && f(init[i]) == Some(u);
        assert xs[i] == init[i];
      }
      if exists i :: 0 <= i < |xs| && f(xs[i]) == Some(u) {
        var i :| 0 <= i < |xs| && f(xs[i]) == Some(u);
        if i < |xs| - 1 {
          assert init[i] == xs[i];
        }
      }
    }
  }

  lemma CollectSkips<T, U>(f: T -> Option<U>, a: seq<T>, x: T, b: seq<T>)
    requires f(x).None?
    ensures Collect(f, a + [x] + b) == Collect(f, a + b)
  {
    var ax := a + [x];
    CollectAppend(f, ax, b);
    assert ax[..|ax| - 1] == a;
    assert Collect(f, ax) == Collect(f, a);
    CollectAppend(f, a, b);
  }

  /** Rows are handled one after another: the output for `a + b` is the
      output for `a` followed by the output for `b`. */
  lemma ParsedAppend(a: seq<seq<string>>, b: seq<seq<string>>)
    ensures Parsed(a + b) == Parsed(a) + Parsed(b)
  {
    CollectAppend(ParseRow, a, b);
  }

  /** A skipped row leaves no trace and does not stop the rows after it. */
  lemma SkippedRowVanishes(a: seq<seq<string>>, row: seq<string>, b: seq<seq<string>>)
    requires ParseRow(row).None?
    ensures Parsed(a + [row] + b) == Parsed(a + b)
  {
    CollectSkips(ParseRow, a, row, b);
  }

  /** An entry is in the output exactly when some row parses to it. */
  lemma ParsedMembers(rows: seq<seq<string>>, e: Entry)
    ensures e in Parsed(rows) <==> exists i :: 0 <= i < |rows| && ParseRow(rows[i]) == Some(e)
  {
    CollectMembers(ParseRow, rows, e);
  }

  lemma ParsedStep(rows: seq<seq<string>>, i: nat)
    requires i < |rows|
    ensures Parsed(rows[..i + 1]) == Parsed(rows[..i]) + Contribution(ParseRow, rows[i])
  {
    assert rows[..i + 1][..i] == rows[..i];
  }

  /** The `try` block for one row with three cells: the three conversions,
      any of which may raise. It yields an entry exactly when both outer
      cells are integer literals padded with whitespace and the middle cell
      holds a visible character. */
  method ParseCells(cols: seq<string>) returns (e: Option<Entry>)
    requires |cols| == 3
    ensures forall v: Entry :: e == Some(v) <==> IntCell(cols[0], v.x) && FirstVisible(cols[1], v.ch) && IntCell(cols[2], v.y)
    ensures e == ParseRow(cols)
  {
    var x := ParseInt(Strip(cols[0]));
    var text := Strip(cols[1]);
    var y := ParseInt(Strip(cols[2]));
    if x.None? || text == [] || y.None? {
      e := None;
    } else {
      e := Some(Entry(x.value, text[0], y.value));
    }
    forall v: Entry
      ensures e == Some(v) <==> IntCell(cols[0], v.x) && FirstVisible(cols[1], v.ch) && IntCell(cols[2], v.y)
    {
      RowKept(cols, v);
    }
  }

  /** `parse_table_from_html` from the rows on: the loop appends each kept
      row's entry and continues past every skipped one. */
  method ParseTable(rows: seq<seq<string>>) returns (data: seq<Entry>)
    ensures data == Parsed(rows)
    ensures |data| <= |rows|
  {
    data := [];
    for i := 0 to |rows|
      invariant data == Parsed(rows[..i])
    {
      ParsedStep(rows, i);
      var cols := rows[i];
      if |cols| != 3 {
        continue;
      }
      var e := ParseCells(cols);
      if e.None? {
        continue;
      }
      data := data + [e.value];
    }
    assert rows[..|rows|] == rows;
  }
}
