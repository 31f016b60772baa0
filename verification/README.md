# xlwrap ExcelManager — a Dafny model

xlwrap wraps three spreadsheet back-ends (`.xls`, `.xlsx`, `.xlsm`) behind one
`ExcelManager`. Its behaviour is pinned down by its test-suite,
`tests/tests.py`. This project models that behaviour on an immutable sheet,
`seq<seq<string>>`, and proves the properties the tests rely on. Every concrete
assertion in the suite that lies inside the model is restated as a lemma.

The model covers:

- **Cell addresses** (`Columns`, `Decimal`, `Address`).
  - An A1-style reference is a run of letters followed by a run of digits.
  - The letters are a bijective base-26 column number, either case: `A` = 1, `Z` = 26, `AA` = 27.
  - The digits are a row number of at least 1.
  - A target can also be a `(row, column)` pair of positive numbers.
  - Anything else is an `InvalidAddress` error, the source's `ValueError`.
- **File formats** (`Workbook`).
  - A workbook name must end in `.xls`, `.xlsx` or `.xlsm`. Otherwise the result is `UnsupportedFormat`.
  - `.xls` workbooks are read-only. Writing to one is `UnsupportedOperation`, the source's `TypeError`.
- **Grid views** (`Grid`).
  - `read` gives one cell. `row` and `column` give a row or a column; a column can be named by number or by letters of either case. `array` gives the whole sheet.
  - Rows are padded with blanks to the sheet's width, which is its widest row.
  - `write` replaces one cell and leaves every other cell unchanged.
- **Search** (`Search`).
  - The scan is row-major: row 1 first, and within a row, column 1 first.
  - A cell is a hit if it equals the target, or contains it when `contains` is set.
  - With `many`, the result is the list of every hit. Otherwise it is the `match`-th hit, or nothing.
- **The test fixture** (`Fixture`).
  - The 10 × 27 sheet `Sheet1` and the test vectors over it.

Decisions:

- Numeric `(row, column)` pairs must both be at least 1, the same rule as for references.
- References are case-insensitive, so `a1` is accepted.
- Leading zeros in the row digits are allowed, but a row of zero is rejected.
- The extension check is a case-sensitive suffix match.
- On `.xls`, the read-only refusal comes before the address check.
- A search for the `match`-th hit with `match` below 1 finds nothing, like one past the last hit.
- `row(r)` for a row outside the sheet, including r ≤ 0, is a row of blanks of the sheet's width. `column(c)` for a number c ≤ 0 is InvalidAddress, because a column number must name a column.
- `search` keeps the source's defaults: `contains` false, `match` 1, `many` false.

## Model

| member | source | states |
|---|---|---|
| Columns.DecodeEncode | tests/tests.py:17-21 | Decoding the letters of column n gives back n, for every n ≥ 1 |
| Columns.EncodeDecode | tests/tests.py:17-21 | Any non-empty run of letters names a column ≥ 1. Encoding that column gives the letters back, upper-cased, so each column has exactly one canonical label |
| Columns.DecodeIgnoresCase | tests/tests.py:202-205 | Lower-case and upper-case labels name the same column |
| Decimal.ParseShow | tests/tests.py:17-21 | Rendering a row number in decimal and parsing it back gives the same number |
| Decimal.ParseZero | tests/tests.py:23-37 | A digit string parses to 0 exactly when every digit is '0' |
| Address.ParseRef | tests/tests.py:17-37 | A reference is accepted iff it splits into letters, then digits, with a row of at least 1. The result is (row from the digits, column from the letters) and is a valid coordinate. Any other string is InvalidAddress |
| Address.SplitIsLetterRun | tests/tests.py:23-37 | A letters-then-digits split is unique: it falls exactly where the letter run ends |
| Address.RowZeroRejected | tests/tests.py:23-37 | A letters-then-digits reference is accepted exactly when some digit of its row is not '0'; an all-zero row is rejected |
| Address.ParseFormat | tests/tests.py:17-21 | Every valid coordinate, written as letters and digits, parses back to itself |
| Address.Resolve | tests/tests.py:145-151 | A cell target is either one reference or two positive numbers. Any other argument list, such as a lone number, three numbers or a string without digits, is InvalidAddress. An accepted target is always a valid coordinate |
| Address.RefAndPairAgree | tests/tests.py:116-121 | Addressing a cell by its reference and by its (row, column) pair resolves to the same coordinate |
| Address.ResolveColumn | tests/tests.py:202-205 | A column given by letters, in either case, or by a positive number is accepted. A number resolves to itself; a label resolves to the column whose canonical label is the upper-cased input |
| Workbook.CheckExtension | tests/tests.py:39-46 | A name is accepted iff it ends in one of the three supported extensions, and the format returned is the one it ends in. Otherwise UnsupportedFormat |
| Workbook.ExtensionsExclusive | tests/tests.py:39-46 | No name ends in two different supported extensions |
| Workbook.RecognisesExtension | tests/tests.py:43-46 | Any stem followed by a supported extension is accepted as exactly that format |
| Grid.Width | tests/tests.py:51-62 | The sheet's width is at least every row's length and equals the length of some row |
| Grid.Read | tests/tests.py:116-121 | A read succeeds iff its target resolves. The value is the stored one, or blank outside the stored cells |
| Grid.Row | tests/tests.py:193-194 | A row has one entry per column of the sheet's width; entry c is the cell in column c |
| Grid.Column | tests/tests.py:202-205 | A column has one entry per row of the sheet, in row order; entry r is the cell in row r |
| Grid.ColumnOf | tests/tests.py:202-205 | A column request succeeds iff its label or number resolves, and it gives that column |
| Grid.Array | tests/tests.py:217-218 | The array has one entry per row, and entry i is row i+1 |
| Grid.ArrayPadsRows | tests/tests.py:217-218 | The array is rectangular, with the sheet's width. It holds every stored value in place, and blanks where rows were short |
| Grid.RectangularArray | tests/tests.py:217-218 | A rectangular sheet's array is the sheet itself |
| Grid.ViewsAgreeWithArray | tests/tests.py:193-218 | Row r is entry r-1 of the array, and column c is the c-th entry of every array row, in row order |
| Grid.SetCell | tests/tests.py:153-160 | After a write, the target reads as the written value and every other cell reads as before. The row count and the width grow just enough to reach the target, and otherwise stay the same |
| Grid.Write | tests/tests.py:137-160 | Writing to a read-only format is refused with UnsupportedOperation. Otherwise the write succeeds iff the target resolves. Reading the target back gives the value, and no other cell changes. The row count and the width grow just enough to reach the target |
| Grid.DistinctWrites | tests/tests.py:153-160 | On a writable format, two writes to different valid targets both succeed, and both written values read back from the final sheet |
| Search.Contains | tests/tests.py:226-229 | The containment test holds iff the target occurs at some position of the cell's text |
| Search.AllHitsSpec | tests/tests.py:241-244 | The hit list holds exactly the cells of the sheet that match, each once, in strict row-major order |
| Search.OrderedUnique | tests/tests.py:241-244 | Two strictly ordered lists with the same members are equal |
| Search.HitsDetermined | tests/tests.py:241-244 | Any strictly ordered list of exactly the matching cells is the hit list |
| Search.NthHit | tests/tests.py:226-229 | The n-th hit exists iff 1 ≤ n ≤ the number of hits. It matches, lies on the sheet, and has exactly n-1 hits before it in row-major order |
| Search.ScanRow | tests/tests.py:226-244 | Scanning one row gives exactly that row's hits, left to right |
| Search.SearchAll | tests/tests.py:241-244 | The scan returns exactly the matching cells of the sheet, in strict row-major order |
| Search.Search | tests/tests.py:226-244 | With `many`, the result is the full ordered hit list. Without it, the result is the `match`-th hit, or nothing when `match` is below 1 or exceeds the number of hits |
| Fixture.Sheet1IsSheet1 | tests/tests.py:51-62 | The fixture sheet has 10 rows and 27 columns, and holds its eight texts at their listed cells |
| Fixture.ParseAccepts | tests/tests.py:17-21 | A1, B5, AA1 and AC55 resolve to (1,1), (5,2), (1,27) and (55,29) |
| Fixture.ParseRejects | tests/tests.py:23-37 | '50BB', '', 'C-1', '11', 'CB' and '1C' are InvalidAddress |
| Fixture.ExtensionRejects | tests/tests.py:39-41 | 'test_name' is UnsupportedFormat |
| Fixture.ExtensionAccepts | tests/tests.py:43-46 | 'test_name.xls', '.xlsx' and '.xlsm' are accepted, each as its own format |
| Fixture.ReadByPair | tests/tests.py:116-121 | On the fixture, (1,1) reads blank, (2,2) reads testb2 and (10,2) reads testb10 |
| Fixture.ReadByRef | tests/tests.py:116-121 | On the fixture, reading B2 and B10 gives what reading (2,2) and (10,2) gives |
| Fixture.RowVector | tests/tests.py:193-194 | On the fixture, row 2 is the listed 27-entry row |
| Fixture.ColumnVector | tests/tests.py:202-205 | On the fixture, column 2, 'B' and 'b' all give the listed 10-entry column |
| Fixture.ArrayVector | tests/tests.py:217-218 | The fixture's array is the listed 10 × 27 sheet |
| Fixture.SearchManyVectors | tests/tests.py:241-244 | On the fixture: searching all for 'testb2' gives [(2,2)]; for cells containing 'test', the eight listed coordinates in order; for 'does_not_exist', nothing |
| Fixture.SearchOneVectors | tests/tests.py:226-229 | On the fixture: the first 'testb2' is at (2,2); the second cell containing 'test' is at (2,4); 'does_not_exist' is not found |
| Fixture.DefaultSearch | tests/tests.py:226-227 | `search('testb2')` with the default flags finds (2,2) |
| Fixture.WriteRejects | tests/tests.py:137-151 | Writing to an .xls workbook is UnsupportedOperation; three numbers, or 'wrong', are InvalidAddress |
| Fixture.WriteLands | tests/tests.py:153-160 | Writing 'test_write' at (2,2) and then at 'C5' on the same sheet succeeds, and afterwards both (2,2) and (5,3) read 'test_write' |

## Left out

- Opening a workbook, and the FileNotFoundError for a missing file: file I/O. The sheet is a parameter.
- Saving, the save/reopen round trip, and the refusal to save `.xls`: file I/O. A write's effect is stated on the returned sheet.
- The three back-end libraries and their cell objects (`cell(...)`): foreign code. Only cell values are modelled. `.xls` read-only status is the boolean `ReadOnly`.
- `change_sheet` by name or index, and sheet names: the model holds a single sheet.
- The `info()` read and write counters and their string rendering: bookkeeping outside the address, grid and search core.
- Rejecting a callable value in `write`: values are plain strings in the model, so a callable cannot be passed.
- Address.Resolve: does not model which of TypeError or ValueError wins when an argument has the wrong type. Argument lists are typed, and every rejected target is InvalidAddress.
- Only ASCII letters and digits form references; Python's Unicode-aware `isalpha` and `isdigit` are not modelled, since column labels and row numbers are ASCII in practice.
- Row and column sizes have no upper bound. The back-ends' sheet-size limits are not modelled.
