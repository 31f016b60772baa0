/** Grid views over one sheet: single cells, rows, columns, the whole array,
    and writes. The sheet is a sequence of rows of display strings; rows may
    be ragged, and every cell outside the stored rows reads as blank "". */
module Grid {
  import opened Results
  import opened Address
  import opened Workbook

  type Sheet = seq<seq<string>>

  /** The number of columns the sheet reports: its widest row. */
  function Width(g: Sheet): (w: nat)
    ensures forall i :: 0 <= i < |g| ==> |g[i]| <= w
    ensures w == 0 || exists i :: 0 <= i < |g| && |g[i]| == w
  {
    if |g| == 0 then 0
    else
      var rest := Width(g[1..]);
      assert forall i :: 1 <= i < |g| ==> g[i] == g[1..][i - 1];
      if |g[0]| >= rest then |g[0]| else rest
  }

  /** Every stored row has the reported width. */
  predicate Rectangular(g: Sheet) {
    forall i :: 0 <= i < |g| ==> |g[i]| == Width(g)
  }

  /** Whether a coordinate falls on a stored value. */
  predicate Stored(g: Sheet, a: Coord) {
    1 <= a.row <= |g| && 1 <= a.col <= |g[a.row - 1]|
  }

  /** The value at a coordinate; untouched or out-of-range cells are blank. */
  function CellAt(g: Sheet, a: Coord): string {
    if Stored(g, a) then g[a.row - 1][a.col - 1] else ""
  }

  /** Reads one cell, addressed by a reference or a (row, column) pair. */
  function Read(g: Sheet, args: seq<Arg>): (r: Result<string>)
    ensures r.Ok? <==> Resolve(args).Ok?
    ensures r.Ok? ==> r.value == CellAt(g, Resolve(args).value)
    ensures r.Err? ==> r.error == InvalidAddress
  {
    var a :- Resolve(args);
    Ok(CellAt(g, a))
  }

  /** Row `row`, from column 1 up to the sheet's width; a row outside the
      sheet reads as blanks. */
  function Row(g: Sheet, row: int): (vs: seq<string>)
    ensures |vs| == Width(g)
    ensures forall c :: 1 <= c <= |vs| ==> vs[c - 1] == CellAt(g, Coord(row, c))
  {
    seq(Width(g), j => CellAt(g, Coord(row, j + 1)))
  }

  /** Column `col`, one entry per row of the sheet, in row order. */
  function Column(g: Sheet, col: int): (vs: seq<string>)
    ensures |vs| == |g|
    ensures forall r :: 1 <= r <= |vs| ==> vs[r - 1] == CellAt(g, Coord(r, col))
  {
    seq(|g|, i => CellAt(g, Coord(i + 1, col)))
  }

  /** The column named by number or by a letter label of either case. */
  function ColumnOf(g: Sheet, arg: Arg): (r: Result<seq<string>>)
    ensures r.Ok? <==> ResolveColumn(arg).Ok?
    ensures r.Ok? ==> r.value == Column(g, ResolveColumn(arg).value)
    ensures r.Err? ==> r.error == InvalidAddress
  {
    var c :- ResolveColumn(arg);
    Ok(Column(g, c))
  }

  /** The whole sheet in row-major order, padded with blanks to a rectangle
      of `|g|` rows by `Width(g)` columns. */
  function Array(g: Sheet): (a: seq<seq<string>>)
    ensures |a| == |g|
    ensures forall i :: 0 <= i < |a| ==> a[i] == Row(g, i + 1)
  {
    seq(|g|, i => Row(g, i + 1))
  }

  /** The array holds exactly the stored values, blanks elsewhere. */
  lemma ArrayPadsRows(g: Sheet)
    ensures Rectangular(Array(g))
    ensures Width(Array(g)) == Width(g) || |g| == 0
    ensures forall i, j :: 0 <= i < |g| && 0 <= j < Width(g) ==>
      Array(g)[i][j] == (if j < |g[i]| then g[i][j] else "")
  {
    var a := Array(g);
    if |g| > 0 {
      var w := Width(a);
      assert |a[0]| == Width(g);
      assert w >= Width(g);
      if w > 0 {
        var i :| 0 <= i < |a| && |a[i]| == w;
      }
    }
    forall i, j | 0 <= i < |g| && 0 <= j < Width(g)
      ensures a[i][j] == (if j < |g[i]| then g[i][j] else "")
    {
      assert a[i][j] == CellAt(g, Coord(i + 1, j + 1));
    }
  }

  /** A rectangular sheet is its own array. */
  lemma RectangularArray(g: Sheet)
    requires Rectangular(g)
    ensures Array(g) == g
  {
    var a := Array(g);
    ArrayPadsRows(g);
    forall i | 0 <= i < |g| ensures a[i] == g[i] {
      assert |a[i]| == |g[i]|;
    }
  }

  /** `Row(r)` is row r of the array, and `Column(c)` collects the c-th entry
      of every row of the array, in row order. Both follow directly from the
      definition of `Array` as the sequence of rows. */
  lemma ViewsAgreeWithArray(g: Sheet, row: int, col: int)
    requires 1 <= row <= |g| && 1 <= col <= Width(g)
    ensures Row(g, row) == Array(g)[row - 1]
    ensures |Column(g, col)| == |Array(g)|
    ensures forall i :: 0 <= i < |g| ==> Column(g, col)[i] == Array(g)[i][col - 1]
  {
  }

  /** `g` extended with blank rows to at least `n` rows; every cell reads as
      before and the width is unchanged. */
  function PadRows(g: Sheet, n: int): (rows: Sheet)
    ensures |rows| == if n <= |g| then |g| else n
    ensures Width(rows) == Width(g)
    ensures forall b :: CellAt(rows, b) == CellAt(g, b)
  {
    if n <= |g| then g
    else
      var rows := g + seq(n - |g|, _ => []);
      PaddedWidth(g, rows);
      assert forall i :: 0 <= i < |g| ==> rows[i] == g[i];
      rows
  }

  /** `line` extended with blanks to at least `n` entries. */
  function PadLine(line: seq<string>, n: int): (wide: seq<string>)
    ensures |wide| == if n <= |line| then |line| else n
    ensures forall j :: 0 <= j < |line| ==> wide[j] == line[j]
    ensures forall j :: |line| <= j < |wide| ==> wide[j] == ""
  {
    if n <= |line| then line else line + seq(n - |line|, _ => "")
  }

  /** `g` with the value at `a` replaced by `v`, growing the sheet with blank
      rows and cells as needed to reach `a`. */
  function SetCell(g: Sheet, a: Coord, v: string): (h: Sheet)
    requires a.Valid()
    ensures |h| == if a.row <= |g| then |g| else a.row
    ensures Width(h) == if a.col <= Width(g) then Width(g) else a.col
    ensures CellAt(h, a) == v
    ensures forall b :: b != a ==> CellAt(h, b) == CellAt(g, b)
  {
    var rows := PadRows(g, a.row);
    var line := PadLine(rows[a.row - 1], a.col)[a.col - 1 := v];
    var h := rows[a.row - 1 := line];
    UpdatedWidth(rows, a.row - 1, line);
    UpdatedCells(rows, a, line);
    h
  }

  /** Replacing row `a.row` by a line that keeps every other entry of the old
      row and is blank beyond it changes no cell but `a`. */
  lemma UpdatedCells(rows: Sheet, a: Coord, line: seq<string>)
    requires 1 <= a.row <= |rows| && 1 <= a.col <= |line|
    requires |line| >= |rows[a.row - 1]|
    requires forall j :: 0 <= j < |rows[a.row - 1]| && j != a.col - 1 ==> line[j] == rows[a.row - 1][j]
    requires forall j :: |rows[a.row - 1]| <= j < |line| && j != a.col - 1 ==> line[j] == ""
    ensures CellAt(rows[a.row - 1 := line], a) == line[a.col - 1]
    ensures forall b :: b != a ==> CellAt(rows[a.row - 1 := line], b) == CellAt(rows, b)
  {
    var h := rows[a.row - 1 := line];
    forall b | b != a ensures CellAt(h, b) == CellAt(rows, b) {
      if b.row != a.row && 1 <= b.row <= |rows| {
        assert h[b.row - 1] == rows[b.row - 1];
      }
    }
  }

  /** Appending blank rows leaves the width unchanged. */
  lemma PaddedWidth(g: Sheet, rows: Sheet)
    requires |rows| >= |g| && rows[..|g|] == g
    requires forall i :: |g| <= i < |rows| ==> rows[i] == []
    ensures Width(rows) == Width(g)
  {
    assert forall i :: 0 <= i < |g| ==> rows[i] == g[i] by {
      forall i | 0 <= i < |g| ensures rows[i] == g[i] {
        assert rows[..|g|][i] == rows[i];
      }
    }
    if Width(g) > 0 {
      var i :| 0 <= i < |g| && |g[i]| == Width(g);
      assert |rows[i]| == Width(g);
    }
    WidthIsMaximum(rows, Width(g));
  }

  /** Replacing a row by one at least as long widens the sheet to that row's
      length at most. */
  lemma UpdatedWidth(rows: Sheet, k: int, line: seq<string>)
    requires 0 <= k < |rows| && |line| >= |rows[k]|
    ensures Width(rows[k := line]) == if |line| <= Width(rows) then Width(rows) else |line|
  {
    var h := rows[k := line];
    var w := if |line| <= Width(rows) then Width(rows) else |line|;
    assert forall i :: 0 <= i < |h| ==> |h[i]| <= w by {
      forall i | 0 <= i < |h| ensures |h[i]| <= w {
        if i != k {
          assert h[i] == rows[i];
        }
      }
    }
    assert w == 0 || exists i :: 0 <= i < |h| && |h[i]| == w by {
      if |line| > Width(rows) {
        assert |h[k]| == w;
      } else if w > 0 {
        var i :| 0 <= i < |rows| && |rows[i]| == w;
        if i == k {
          assert |h[k]| == w;
        } else {
          assert |h[i]| == w;
        }
      }
    }
    WidthIsMaximum(h, w);
  }

  /** The width is the one bound on row lengths that some row attains. */
  lemma WidthIsMaximum(g: Sheet, w: nat)
    requires forall i :: 0 <= i < |g| ==> |g[i]| <= w
    requires w == 0 || exists i :: 0 <= i < |g| && |g[i]| == w
    ensures Width(g) == w
  {
  }

  /** Writes one cell. Writing to a read-only format is refused; otherwise
      the target must resolve like a read target, and only that cell changes. */
  function Write(g: Sheet, f: Format, args: seq<Arg>, v: string): (r: Result<Sheet>)
    ensures ReadOnly(f) ==> r == Err(UnsupportedOperation)
    ensures !ReadOnly(f) ==> (r.Ok? <==> Resolve(args).Ok?)
    ensures !ReadOnly(f) && r.Err? ==> r.error == InvalidAddress
    ensures r.Ok? ==> Read(r.value, args) == Ok(v)
    ensures r.Ok? ==> forall b :: b != Resolve(args).value ==> CellAt(r.value, b) == CellAt(g, b)
    ensures r.Ok? ==>
      |r.value| == (if Resolve(args).value.row <= |g| then |g| else Resolve(args).value.row)
    ensures r.Ok? ==>
      Width(r.value) == (if Resolve(args).value.col <= Width(g) then Width(g) else Resolve(args).value.col)
  {
    if ReadOnly(f) then Err(UnsupportedOperation)
    else
      var a :- Resolve(args);
      Ok(SetCell(g, a, v))
  }

  /** Two writes to different valid targets on a writable format both
      succeed, and both values read back from the final sheet. */
  lemma DistinctWrites(g: Sheet, f: Format, first: seq<Arg>, second: seq<Arg>, v: string, w: string)
    requires !ReadOnly(f)
    requires Resolve(first).Ok? && Resolve(second).Ok?
    requires Resolve(first).value != Resolve(second).value
    ensures Write(g, f, first, v).Ok?
    ensures Write(Write(g, f, first, v).value, f, second, w).Ok?
    ensures Read(Write(Write(g, f, first, v).value, f, second, w).value, first) == Ok(v)
    ensures Read(Write(Write(g, f, first, v).value, f, second, w).value, second) == Ok(w)
  {
    var h1 := Write(g, f, first, v).value;
    var h2 := Write(h1, f, second, w).value;
    assert CellAt(h2, Resolve(first).value) == CellAt(h1, Resolve(first).value);
  }
}
