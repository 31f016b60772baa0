/** The sheet of the integration tests and the behaviour those tests fix,
    proved of the model: parse and extension vectors, reads, row, column,
    array, single and multiple searches, and write targets. */
module Fixture {
  import opened Results
  import Columns
  import Decimal
  import opened Address
  import opened Workbook
  import opened Grid
  import opened Search

  /** What each cell of the test sheet holds: eight cells of text, the rest
      blank. */
  function Content(a: Coord): string {
    if a == Coord(2, 2) then "testb2"
    else if a == Coord(2, 4) then "testd2"
    else if a == Coord(2, 10) then "testj2"
    else if a == Coord(2, 27) then "testaa2"
    else if a == Coord(4, 3) then "testc4"
    else if a == Coord(7, 2) then "testb7"
    else if a == Coord(7, 3) then "testc7"
    else if a == Coord(10, 2) then "testb10"
    else ""
  }

  /** The eight non-blank cells, in row-major order. */
  function Filled(): seq<Coord> {
    [Coord(2, 2), Coord(2, 4), Coord(2, 10), Coord(2, 27), Coord(4, 3), Coord(7, 2), Coord(7, 3), Coord(10, 2)]
  }

  /** The test sheet: ten rows of 27 columns (A..AA). */
  function Sheet1(): Sheet {
    seq(10, i => seq(27, j => Content(Coord(i + 1, j + 1))))
  }

  /** The 10 by 27 rectangle the test sheet spans. */
  predicate OnSheet1(a: Coord) {
    1 <= a.row <= 10 && 1 <= a.col <= 27
  }

  /** `g` presents the test sheet: ten full rows of 27 cells with the
      contents above. */
  ghost predicate IsSheet1(g: Sheet) {
    && |g| == 10
    && Width(g) == 27
    && Rectangular(g)
    && forall a :: OnSheet1(a) ==> CellAt(g, a) == Content(a)
  }

  lemma Sheet1Width(g: Sheet)
    requires g == Sheet1()
    ensures |g| == 10 && Width(g) == 27 && Rectangular(g)
  {
    assert forall i :: 0 <= i < |g| ==> |g[i]| == 27;
    assert |g[0]| == 27;
    var w := Width(g);
    assert w == 27;
    forall i | 0 <= i < |g| ensures |g[i]| == w {
      assert |g[i]| == 27;
    }
  }

  lemma Sheet1Cell(a: Coord)
    requires OnSheet1(a)
    ensures CellAt(Sheet1(), a) == Content(a)
  {
    var g := Sheet1();
    assert |g[a.row - 1]| == 27;
    assert g[a.row - 1][a.col - 1] == Content(Coord(a.row, a.col));
  }

  /** The literal test sheet is a sheet with the test contents. */
  lemma Sheet1IsSheet1()
    ensures IsSheet1(Sheet1())
  {
    var g := Sheet1();
    Sheet1Width(g);
    forall a | OnSheet1(a) ensures CellAt(g, a) == Content(a) {
      Sheet1Cell(a);
    }
  }

  /** The parse vectors of the unit tests. */
  lemma ParseAccepts()
    ensures ParseRef("A1") == Ok(Coord(1, 1))
    ensures ParseRef("B5") == Ok(Coord(5, 2))
    ensures ParseRef("AA1") == Ok(Coord(1, 27))
    ensures ParseRef("AC55") == Ok(Coord(55, 29))
  {
    ParseAcceptsOneLetter();
    ParseAcceptsTwoLetters();
  }

  lemma ParseAcceptsOneLetter()
    ensures ParseRef("A1") == Ok(Coord(1, 1))
    ensures ParseRef("B5") == Ok(Coord(5, 2))
  {
    assert IsRefSplit("A1", 1);
    assert IsRefSplit("B5", 1);
  }

  lemma ParseAcceptsTwoLetters()
    ensures ParseRef("AA1") == Ok(Coord(1, 27))
    ensures ParseRef("AC55") == Ok(Coord(55, 29))
  {
    ParseAA1();
    ParseAC55();
  }

  lemma ParseAA1()
    ensures ParseRef("AA1") == Ok(Coord(1, 27))
  {
    assert IsRefSplit("AA1", 2);
    assert "AA1"[..2] == "AA" && "AA1"[2..] == "1";
    assert Columns.Decode("AA") == 27;
  }

  lemma ParseAC55()
    ensures ParseRef("AC55") == Ok(Coord(55, 29))
  {
    assert IsRefSplit("AC55", 2);
    assert "AC55"[..2] == "AC" && "AC55"[2..] == "55";
    assert "55"[..1] == "5";
    assert Decimal.Parse("55") == 55;
    assert Columns.Decode("AC") == 29;
  }

  /** Digits before letters, no letters, no digits, a sign, or nothing at all
      are invalid addresses. */
  lemma ParseRejects()
    ensures ParseRef("50BB") == Err(InvalidAddress)
    ensures ParseRef("") == Err(InvalidAddress)
    ensures ParseRef("C-1") == Err(InvalidAddress)
    ensures ParseRef("11") == Err(InvalidAddress)
    ensures ParseRef("CB") == Err(InvalidAddress)
    ensures ParseRef("1C") == Err(InvalidAddress)
  {
  }

  lemma ExtensionRejects()
    ensures CheckExtension("test_name") == Err(UnsupportedFormat)
  {
  }

  lemma ExtensionAccepts()
    ensures CheckExtension("test_name.xls") == Ok(Xls)
    ensures CheckExtension("test_name.xlsx") == Ok(Xlsx)
    ensures CheckExtension("test_name.xlsm") == Ok(Xlsm)
  {
    AcceptsNamed("test_name.xls", Xls);
    AcceptsNamed("test_name.xlsx", Xlsx);
    AcceptsNamed("test_name.xlsm", Xlsm);
  }

  /** A name that is "test_name" followed by the extension of `f`. */
  lemma AcceptsNamed(name: string, f: Format)
    requires name == "test_name" + Extension(f)
    ensures CheckExtension(name) == Ok(f)
  {
    RecognisesExtension("test_name", f);
  }

  /** Reading by numeric pair; an untouched cell reads as blank. */
  lemma ReadByPair(g: Sheet)
    requires IsSheet1(g)
    ensures Read(g, [Number(1), Number(1)]) == Ok("")
    ensures Read(g, [Number(2), Number(2)]) == Ok("testb2")
    ensures Read(g, [Number(10), Number(2)]) == Ok("testb10")
  {
    assert OnSheet1(Coord(1, 1)) && OnSheet1(Coord(2, 2)) && OnSheet1(Coord(10, 2));
  }

  /** Reading by reference gives what reading by the equivalent pair gives. */
  lemma ReadByRef(g: Sheet)
    requires IsSheet1(g)
    ensures Read(g, [Address.Text("B2")]) == Read(g, [Number(2), Number(2)])
    ensures Read(g, [Address.Text("B10")]) == Read(g, [Number(10), Number(2)])
  {
    assert IsRefSplit("B2", 1);
    assert ParseRef("B2") == Ok(Coord(2, 2));
    assert IsRefSplit("B10", 1);
    assert ParseRef("B10") == Ok(Coord(10, 2));
  }

  /** On the test sheet, row `row` lists the contents of that row. */
  lemma RowContents(g: Sheet, row: int)
    requires IsSheet1(g) && 1 <= row <= 10
    ensures Row(g, row) == seq(27, j => Content(Coord(row, j + 1)))
  {
    var r := Row(g, row);
    forall j | 0 <= j < 27 ensures r[j] == Content(Coord(row, j + 1)) {
      assert OnSheet1(Coord(row, j + 1));
    }
  }

  /** On the test sheet, column `col` lists the contents of that column. */
  lemma ColumnContents(g: Sheet, col: int)
    requires IsSheet1(g) && 1 <= col <= 27
    ensures Column(g, col) == seq(10, i => Content(Coord(i + 1, col)))
  {
    var c := Column(g, col);
    forall i | 0 <= i < 10 ensures c[i] == Content(Coord(i + 1, col)) {
      assert OnSheet1(Coord(i + 1, col));
    }
  }

  /** Row 2 is the second row of the test sheet. */
  lemma RowVector(g: Sheet)
    requires IsSheet1(g)
    ensures Row(g, 2) == ["", "testb2", "", "testd2", "", "", "", "", "", "testj2", "", "", "", "", "", "", "", "", "", "", "", "", "", "", "", "", "testaa2"]
  {
    RowContents(g, 2);
    Row2Literal();
  }

  lemma Row2Literal()
    ensures seq(27, j => Content(Coord(2, j + 1))) == ["", "testb2", "", "testd2", "", "", "", "", "", "testj2", "", "", "", "", "", "", "", "", "", "", "", "", "", "", "", "", "testaa2"]
  {
  }

  /** Column 2 by number, by upper-case label and by lower-case label. */
  lemma ColumnVector(g: Sheet)
    requires IsSheet1(g)
    ensures ColumnOf(g, Number(2)) == Ok(["", "testb2", "", "", "", "", "testb7", "", "", "testb10"])
    ensures ColumnOf(g, Address.Text("B")) == ColumnOf(g, Number(2))
    ensures ColumnOf(g, Address.Text("b")) == ColumnOf(g, Number(2))
  {
    ColumnContents(g, 2);
    Column2Literal();
    ColumnLabelB();
  }

  /** The label "B", in either case, names column 2. */
  lemma ColumnLabelB()
    ensures ResolveColumn(Address.Text("B")) == Ok(2)
    ensures ResolveColumn(Address.Text("b")) == Ok(2)
  {
  }

  lemma Column2Literal()
    ensures seq(10, i => Content(Coord(i + 1, 2))) == ["", "testb2", "", "", "", "", "testb7", "", "", "testb10"]
  {
  }

  /** The array is the full sheet: ten rows, each 27 wide. */
  lemma ArrayVector(g: Sheet)
    requires IsSheet1(g)
    ensures Array(g) == g
    ensures |Array(g)| == 10
    ensures forall i :: 0 <= i < 10 ==> |Array(g)[i]| == 27
  {
    RectangularArray(g);
  }

  lemma FilledFacts()
    ensures forall a :: a in Filled() ==> OnSheet1(a)
    ensures StrictlyOrdered(Filled())
  {
  }

  /** The hit list of the test sheet is `expected` once the hits among its
      270 cells are known. */
  lemma Sheet1Hits(g: Sheet, target: string, contains: bool, expected: seq<Coord>)
    requires |g| == 10 && Width(g) == 27
    requires StrictlyOrdered(expected)
    requires forall a :: a in expected ==> OnSheet1(a)
    requires forall a :: OnSheet1(a) ==> (IsHit(g, target, contains, a) <==> a in expected)
    ensures AllHits(g, target, contains) == expected
  {
    assert forall a :: InGrid(g, a) && IsHit(g, target, contains, a) <==> a in expected;
    HitsDetermined(g, target, contains, expected);
  }

  /** The cells containing "test" are exactly the eight filled ones. */
  lemma ContainsTestHit(g: Sheet, a: Coord)
    requires IsSheet1(g) && OnSheet1(a)
    ensures IsHit(g, "test", true, a) <==> a in Filled()
  {
    var v := Content(a);
    if a in Filled() {
      assert v[0..4] == "test";
      assert OccursAt(v, "test", 0);
    } else {
      assert v == "";
    }
  }

  /** Only B2 holds exactly "testb2". */
  lemma ExactTestb2Hit(g: Sheet, a: Coord)
    requires IsSheet1(g) && OnSheet1(a)
    ensures IsHit(g, "testb2", false, a) <==> a == Coord(2, 2)
  {
    var v := Content(a);
    if a != Coord(2, 2) && a in Filled() {
      assert v[4..] in ["d2", "j2", "aa2", "c4", "b7", "c7", "b10"];
      assert v[4..] != "testb2"[4..];
    }
  }

  /** No cell holds "does_not_exist". */
  lemma ExactMissingHit(g: Sheet, a: Coord)
    requires IsSheet1(g) && OnSheet1(a)
    ensures !IsHit(g, "does_not_exist", false, a)
  {
    assert |Content(a)| <= 7;
  }

  /** Every search over the test sheet with many = true. */
  lemma SearchManyVectors(g: Sheet)
    requires IsSheet1(g)
    ensures AllHits(g, "testb2", false) == [Coord(2, 2)]
    ensures AllHits(g, "test", true) == Filled()
    ensures AllHits(g, "does_not_exist", false) == []
  {
    FilledFacts();
    forall a | OnSheet1(a)
      ensures IsHit(g, "testb2", false, a) <==> a in [Coord(2, 2)]
      ensures IsHit(g, "test", true, a) <==> a in Filled()
      ensures IsHit(g, "does_not_exist", false, a) <==> a in []
    {
      ExactTestb2Hit(g, a);
      ContainsTestHit(g, a);
      ExactMissingHit(g, a);
    }
    Sheet1Hits(g, "testb2", false, [Coord(2, 2)]);
    Sheet1Hits(g, "test", true, Filled());
    Sheet1Hits(g, "does_not_exist", false, []);
  }

  /** Single searches read off the hit lists: the first exact hit, the
      second containing hit (the second element of the full list), and not
      found. */
  lemma SearchOneVectors(g: Sheet)
    requires IsSheet1(g)
    ensures NthHit(g, "testb2", false, 1) == Some(Coord(2, 2))
    ensures NthHit(g, "test", true, 2) == Some(Coord(2, 4))
    ensures NthHit(g, "test", true, 2) == Some(AllHits(g, "test", true)[1])
    ensures NthHit(g, "does_not_exist", false, 1) == None
  {
    SearchManyVectors(g);
    NthFromHitLists(g);
  }

  /** `search('testb2')` with the default flags: an exact search for the
      first hit. */
  method DefaultSearch(g: Sheet) returns (found: Found)
    requires IsSheet1(g)
    ensures found == Single(Some(Coord(2, 2)))
  {
    SearchOneVectors(g);
    found := Search.Search(g, "testb2");
  }

  lemma NthFromHitLists(g: Sheet)
    requires AllHits(g, "testb2", false) == [Coord(2, 2)]
    requires AllHits(g, "test", true) == Filled()
    requires AllHits(g, "does_not_exist", false) == []
    ensures NthHit(g, "testb2", false, 1) == Some(Coord(2, 2))
    ensures NthHit(g, "test", true, 2) == Some(Coord(2, 4))
    ensures NthHit(g, "test", true, 2) == Some(AllHits(g, "test", true)[1])
    ensures NthHit(g, "does_not_exist", false, 1) == None
  {
  }

  /** The legacy format refuses writes; three numbers, or a reference with no
      digits, are invalid write targets. */
  lemma WriteRejects(g: Sheet)
    ensures Write(g, Xls, [Number(2), Number(2)], "test_write") == Err(UnsupportedOperation)
    ensures Write(g, Xlsx, [Number(1), Number(2), Number(3)], "test") == Err(InvalidAddress)
    ensures Write(g, Xlsx, [Address.Text("wrong")], "test") == Err(InvalidAddress)
  {
    assert ParseRef("wrong").Err?;
  }

  /** A write by pair and a write by reference ("C5" is row 5, column 3)
      read back at the numeric coordinate. */
  lemma WriteLands(g: Sheet)
    ensures Write(g, Xlsx, [Number(2), Number(2)], "test_write").Ok?
    ensures var h1 := Write(g, Xlsx, [Number(2), Number(2)], "test_write").value;
      var h2 := Write(h1, Xlsx, [Address.Text("C5")], "test_write");
      h2.Ok? &&
      Read(h2.value, [Number(2), Number(2)]) == Ok("test_write") &&
      Read(h2.value, [Number(5), Number(3)]) == Ok("test_write")
  {
    var pair: seq<Arg> := [Number(2), Number(2)];
    var ref: seq<Arg> := [Address.Text("C5")];
    C5Resolves();
    var h1 := Write(g, Xlsx, pair, "test_write").value;
    DistinctWrites(g, Xlsx, pair, ref, "test_write", "test_write");
    C5ReadsAsPair(Write(h1, Xlsx, ref, "test_write").value);
  }

  /** Reading "C5" is reading row 5, column 3, on any sheet. */
  lemma C5ReadsAsPair(h: Sheet)
    ensures Read(h, [Address.Text("C5")]) == Read(h, [Number(5), Number(3)])
  {
    C5Resolves();
  }

  lemma C5Resolves()
    ensures Resolve([Address.Text("C5")]) == Ok(Coord(5, 3))
  {
    assert IsRefSplit("C5", 1);
  }
}
