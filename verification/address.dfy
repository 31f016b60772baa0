/** Address resolution: turning a cell reference such as "AC55", or an
    explicit (row, column) pair, into a 1-based cell coordinate. */
module Address {
  import opened Results
  import opened Columns
  import opened Decimal

  /** A 1-based (row, column) coordinate; row 1, column 1 is the top-left cell. */
  datatype Coord = Coord(row: int, col: int) {
    predicate Valid() {
      row >= 1 && col >= 1
    }
  }

  /** One positional argument of a read or write call: a reference string or
      an integer. */
  datatype Arg = Text(s: string) | Number(n: int)

  /** Length of the maximal run of letters at the front of `s`. */
  function LetterRun(s: string): (k: nat)
    ensures k <= |s|
    ensures AllLetters(s[..k])
    ensures k < |s| ==> !IsLetter(s[k])
  {
    if |s| == 0 || !IsLetter(s[0]) then 0
    else
      var k := 1 + LetterRun(s[1..]);
      assert s[..k] == [s[0]] + s[1..][..k - 1];
      k
  }

  /** `s` is one or more letters followed by one or more digits, split at `k`. */
  predicate IsRefSplit(s: string, k: int) {
    1 <= k < |s| && AllLetters(s[..k]) && AllDigits(s[k..])
  }

  /** The only place a well-formed reference can be split is after its
      leading run of letters. */
  lemma SplitIsLetterRun(s: string, k: int)
    requires IsRefSplit(s, k)
    ensures LetterRun(s) == k
  {
    var j := LetterRun(s);
    assert forall i :: 0 <= i < j ==> IsLetter(s[i]) by {
      forall i | 0 <= i < j ensures IsLetter(s[i]) {
        assert s[..j][i] == s[i];
      }
    }
    assert forall i :: 0 <= i < k ==> IsLetter(s[i]) by {
      forall i | 0 <= i < k ensures IsLetter(s[i]) {
        assert s[..k][i] == s[i];
      }
    }
    assert IsDigit(s[k]) by {
      assert s[k..][0] == s[k];
    }
  }

  /** Parses a cell reference: a leading run of letters (the column, in
      bijective base 26, either case) and then a run of digits (the row,
      which must be at least 1). Anything else is an invalid address. */
  function ParseRef(s: string): (r: Result<Coord>)
    ensures r.Ok? <==> exists k :: IsRefSplit(s, k) && Parse(s[k..]) >= 1
    ensures r.Ok? ==> r.value.Valid()
    ensures forall k :: IsRefSplit(s, k) && Parse(s[k..]) >= 1 ==>
      r == Ok(Coord(Parse(s[k..]), Decode(s[..k])))
    ensures r.Err? ==> r.error == InvalidAddress
  {
    var k := LetterRun(s);
    if k == 0 || k == |s| || !AllDigits(s[k..]) then
      assert forall j :: IsRefSplit(s, j) ==> j == k by {
        forall j | IsRefSplit(s, j) {
          SplitIsLetterRun(s, j);
        }
      }
      Err(InvalidAddress)
    else if Parse(s[k..]) < 1 then
      assert forall j :: IsRefSplit(s, j) ==> j == k by {
        forall j | IsRefSplit(s, j) {
          SplitIsLetterRun(s, j);
        }
      }
      Err(InvalidAddress)
    else
      EncodeDecode(s[..k]);
      assert IsRefSplit(s, k);
      assert forall j :: IsRefSplit(s, j) ==> j == k by {
        forall j | IsRefSplit(s, j) {
          SplitIsLetterRun(s, j);
        }
      }
      Ok(Coord(Parse(s[k..]), Decode(s[..k])))
  }

  /** A well-split reference is accepted exactly when some digit of its row
      is not '0': an all-zero row names row 0, which does not exist. */
  lemma {:induction false} RowZeroRejected(s: string, k: int)
    requires IsRefSplit(s, k)
    ensures ParseRef(s).Ok? <==> exists i :: k <= i < |s| && s[i] != '0'
  {
    var d := s[k..];
    ParseZero(d);
    assert forall i :: 0 <= i < |d| ==> d[i] == s[k + i];
    assert (forall i :: 0 <= i < |d| ==> d[i] == '0') <==>
      (forall i :: k <= i < |s| ==> s[i] == '0') by {
      forall i | k <= i < |s| ensures s[i] == d[i - k] { }
    }
    forall j | IsRefSplit(s, j) ensures j == k {
      SplitIsLetterRun(s, j);
      SplitIsLetterRun(s, k);
    }
  }

  /** The canonical reference of a coordinate: upper-case column label,
      then the row without leading zeros. */
  function FormatRef(a: Coord): (s: string)
    requires a.Valid()
  {
    Encode(a.col) + Show(a.row)
  }

  /** Normalises the argument forms a caller may pass: one reference string,
      or two positive integers (row, column). Any other shape, including the
      three-number form (row, column, stray value), is an invalid address. */
  function Resolve(args: seq<Arg>): (r: Result<Coord>)
    ensures r.Ok? ==> r.value.Valid()
    ensures r.Err? ==> r.error == InvalidAddress
    ensures r.Ok? ==> |args| == 1 || |args| == 2
    ensures r.Ok? && |args| == 1 ==> args[0].Text?
    ensures |args| == 1 && args[0].Text? ==> r == ParseRef(args[0].s)
    ensures |args| == 2 && args[0].Number? && args[1].Number? ==>
      (r.Ok? <==> Coord(args[0].n, args[1].n).Valid())
    ensures r.Ok? && |args| == 2 ==> args == [Number(r.value.row), Number(r.value.col)]
  {
    if |args| == 1 && args[0].Text? then ParseRef(args[0].s)
    else if |args| == 2 && args[0].Number? && args[1].Number? then
      var a := Coord(args[0].n, args[1].n);
      if a.Valid() then Ok(a) else Err(InvalidAddress)
    else Err(InvalidAddress)
  }

  /** Resolves a column given by number or by label (either case). */
  function ResolveColumn(arg: Arg): (r: Result<int>)
    ensures r.Ok? ==> r.value >= 1
    ensures r.Err? ==> r.error == InvalidAddress
    ensures arg.Text? ==> (r.Ok? <==> |arg.s| >= 1 && AllLetters(arg.s))
    ensures arg.Text? && r.Ok? ==> r.value == Decode(arg.s) && Encode(r.value) == Upper(arg.s)
    ensures arg.Number? ==> (r.Ok? <==> arg.n >= 1)
    ensures arg.Number? && r.Ok? ==> r.value == arg.n
  {
    match arg
    case Number(n) => if n >= 1 then Ok(n) else Err(InvalidAddress)
    case Text(s) =>
      if |s| >= 1 && AllLetters(s) then EncodeDecode(s); Ok(Decode(s)) else Err(InvalidAddress)
  }

  /** Formatting a coordinate and parsing the reference gives the coordinate. */
  lemma {:induction false} ParseFormat(a: Coord)
    requires a.Valid()
    ensures ParseRef(FormatRef(a)) == Ok(a)
  {
    var l := Encode(a.col);
    var d := Show(a.row);
    var s := l + d;
    DecodeEncode(a.col);
    ParseShow(a.row);
    assert s[..|l|] == l && s[|l|..] == d;
    assert AllLetters(l);
    assert IsRefSplit(s, |l|);
  }

  /** Reading by reference and reading by the equivalent numeric pair name
      the same cell. */
  lemma RefAndPairAgree(a: Coord)
    requires a.Valid()
    ensures Resolve([Text(FormatRef(a))]) == Resolve([Number(a.row), Number(a.col)]) == Ok(a)
  {
    ParseFormat(a);
  }
}
