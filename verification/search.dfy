/** Search: scanning the sheet in row-major order (row 1 first; within a row,
    column 1 first) for cells equal to, or containing, a target string. */
module Search {
  import opened Results
  import opened Address
  import opened Grid

  /** `t` occurs in `v` starting at position `i`. */
  predicate OccursAt(v: string, t: string, i: int) {
    0 <= i && i + |t| <= |v| && v[i..i + |t|] == t
  }

  /** Substring test, as the membership test on strings. */
  function Contains(v: string, t: string): (b: bool)
    ensures b <==> exists i :: OccursAt(v, t, i)
    decreases |v|
  {
    if |t| > |v| then false
    else if v[..|t|] == t then
      assert OccursAt(v, t, 0);
      true
    else
      var rest := Contains(v[1..], t);
      assert forall i :: OccursAt(v[1..], t, i) <==> OccursAt(v, t, i + 1) by {
        forall i ensures OccursAt(v[1..], t, i) <==> OccursAt(v, t, i + 1) {
          if 0 <= i && i + |t| <= |v| - 1 {
            assert v[1..][i..i + |t|] == v[i + 1..i + 1 + |t|];
          }
        }
      }
      assert !OccursAt(v, t, 0);
      assert forall i :: OccursAt(v, t, i) ==> i == 0 || OccursAt(v[1..], t, i - 1);
      rest
  }

  /** The match predicate: exact equality, or containment when `contains`. */
  predicate Matches(target: string, contains: bool, v: string) {
    if contains then Contains(v, target) else v == target
  }

  predicate IsHit(g: Sheet, target: string, contains: bool, a: Coord) {
    Matches(target, contains, CellAt(g, a))
  }

  /** The cells a scan visits: every row of the sheet, every column up to
      the sheet's width. */
  predicate InGrid(g: Sheet, a: Coord) {
    1 <= a.row <= |g| && 1 <= a.col <= Width(g)
  }

  /** Row-major order on coordinates. */
  predicate Before(a: Coord, b: Coord) {
    a.row < b.row || (a.row == b.row && a.col < b.col)
  }

  predicate StrictlyOrdered(s: seq<Coord>) {
    forall i, j :: 0 <= i < j < |s| ==> Before(s[i], s[j])
  }

  /** Reference definition: the hits among columns 1..`col` of row `row`,
      left to right. */
  function RowHits(g: Sheet, target: string, contains: bool, row: int, col: int): seq<Coord>
    decreases col
  {
    if col <= 0 then []
    else if IsHit(g, target, contains, Coord(row, col)) then
      RowHits(g, target, contains, row, col - 1) + [Coord(row, col)]
    else RowHits(g, target, contains, row, col - 1)
  }

  /** Reference definition: the hits among rows 1..`row`, in row-major order. */
  function RowsHits(g: Sheet, target: string, contains: bool, row: int): seq<Coord>
    decreases row
  {
    if row <= 0 then []
    else RowsHits(g, target, contains, row - 1) + RowHits(g, target, contains, row, Width(g))
  }

  function AllHits(g: Sheet, target: string, contains: bool): seq<Coord> {
    RowsHits(g, target, contains, |g|)
  }

  /** Appending a list whose elements all come after those of an ordered
      list keeps it ordered. */
  lemma ConcatOrdered(p: seq<Coord>, q: seq<Coord>)
    requires StrictlyOrdered(p) && StrictlyOrdered(q)
    requires forall x, y :: x in p && y in q ==> Before(x, y)
    ensures StrictlyOrdered(p + q)
  {
    var s := p + q;
    forall i, j | 0 <= i < j < |s| ensures Before(s[i], s[j]) {
      if j < |p| {
        assert s[i] == p[i] && s[j] == p[j];
      } else if i >= |p| {
        assert s[i] == q[i - |p|] && s[j] == q[j - |p|];
      } else {
        assert s[i] == p[i] && p[i] in p;
        assert s[j] == q[j - |p|] && q[j - |p|] in q;
      }
    }
  }

  lemma {:induction false} RowHitsMembers(g: Sheet, target: string, contains: bool, row: int, col: int)
    ensures forall a :: a in RowHits(g, target, contains, row, col) <==>
      a.row == row && 1 <= a.col <= col && IsHit(g, target, contains, a)
    decreases col
  {
    if col > 0 {
      RowHitsMembers(g, target, contains, row, col - 1);
    }
  }

  lemma {:induction false} RowHitsOrdered(g: Sheet, target: string, contains: bool, row: int, col: int)
    ensures StrictlyOrdered(RowHits(g, target, contains, row, col))
    decreases col
  {
    if col > 0 {
      RowHitsOrdered(g, target, contains, row, col - 1);
      RowHitsMembers(g, target, contains, row, col - 1);
      var x := Coord(row, col);
      if IsHit(g, target, contains, x) {
        ConcatOrdered(RowHits(g, target, contains, row, col - 1), [x]);
      }
    }
  }

  lemma {:induction false} RowsHitsMembers(g: Sheet, target: string, contains: bool, row: int)
    ensures forall a :: a in RowsHits(g, target, contains, row) <==>
      1 <= a.row <= row && 1 <= a.col <= Width(g) && IsHit(g, target, contains, a)
    decreases row
  {
    if row > 0 {
      RowsHitsMembers(g, target, contains, row - 1);
      RowHitsMembers(g, target, contains, row, Width(g));
    }
  }

  lemma {:induction false} RowsHitsOrdered(g: Sheet, target: string, contains: bool, row: int)
    ensures StrictlyOrdered(RowsHits(g, target, contains, row))
    decreases row
  {
    if row > 0 {
      RowsHitsOrdered(g, target, contains, row - 1);
      RowsHitsMembers(g, target, contains, row - 1);
      RowHitsOrdered(g, target, contains, row, Width(g));
      RowHitsMembers(g, target, contains, row, Width(g));
      ConcatOrdered(RowsHits(g, target, contains, row - 1), RowHits(g, target, contains, row, Width(g)));
    }
  }

  /** The reference hit list holds exactly the matching cells of the sheet,
      each once, in strict row-major order. */
  lemma AllHitsSpec(g: Sheet, target: string, contains: bool)
    ensures forall a :: a in AllHits(g, target, contains) <==>
      InGrid(g, a) && IsHit(g, target, contains, a)
    ensures StrictlyOrdered(AllHits(g, target, contains))
  {
    RowsHitsMembers(g, target, contains, |g|);
    RowsHitsOrdered(g, target, contains, |g|);
  }

  /** The first element of a strictly ordered sequence comes before every
      other element. */
  lemma FirstIsLeast(s: seq<Coord>, a: Coord)
    requires StrictlyOrdered(s) && a in s
    ensures a == s[0] || Before(s[0], a)
  {
    var i :| 0 <= i < |s| && s[i] == a;
    if i > 0 {
      assert Before(s[0], s[i]);
    }
  }

  /** Two strictly ordered sequences with the same elements are equal: the
      hit list is determined by the set of hits. */
  lemma {:induction false} OrderedUnique(s: seq<Coord>, t: seq<Coord>)
    requires StrictlyOrdered(s) && StrictlyOrdered(t)
    requires forall a :: a in s <==> a in t
    ensures s == t
    decreases |s|
  {
    DistinctCard(s);
    DistinctCard(t);
    assert (set x | x in s) == (set x | x in t);
    if |s| > 0 {
      FirstIsLeast(t, s[0]);
      FirstIsLeast(s, t[0]);
      forall a ensures a in s[1..] <==> a in t[1..] {
        if a in s[1..] {
          var i :| 1 <= i < |s| && s[i] == a;
          assert Before(s[0], a);
          assert a in s;
          assert a in t;
          var j :| 0 <= j < |t| && t[j] == a;
          assert t[1..][j - 1] == a;
        }
        if a in t[1..] {
          var j :| 1 <= j < |t| && t[j] == a;
          assert Before(t[0], a);
          assert a in t;
          assert a in s;
          var i :| 0 <= i < |s| && s[i] == a;
          assert s[1..][i - 1] == a;
        }
      }
      OrderedUnique(s[1..], t[1..]);
      assert s == [s[0]] + s[1..] && t == [t[0]] + t[1..];
    }
  }

  /** Any strictly ordered list of exactly the sheet's hits is the hit list. */
  lemma HitsDetermined(g: Sheet, target: string, contains: bool, expected: seq<Coord>)
    requires StrictlyOrdered(expected)
    requires forall a :: InGrid(g, a) && IsHit(g, target, contains, a) <==> a in expected
    ensures AllHits(g, target, contains) == expected
  {
    AllHitsSpec(g, target, contains);
    OrderedUnique(AllHits(g, target, contains), expected);
  }

  /** The hits of the whole sheet that come before `a` in row-major order. */
  ghost function Earlier(g: Sheet, target: string, contains: bool, a: Coord): set<Coord> {
    set b | b in AllHits(g, target, contains) && Before(b, a)
  }

  lemma {:induction false} DistinctCard(s: seq<Coord>)
    requires StrictlyOrdered(s)
    ensures |(set x | x in s)| == |s|
  {
    if |s| > 0 {
      var p := s[..|s| - 1];
      DistinctCard(p);
      assert (set x | x in s) == (set x | x in p) + {s[|s| - 1]};
      assert s[|s| - 1] !in p;
    }
  }

  /** In a strictly ordered sequence, exactly `i` elements come before `s[i]`. */
  lemma OrderedRank(s: seq<Coord>, i: int)
    requires StrictlyOrdered(s) && 0 <= i < |s|
    ensures (set b | b in s && Before(b, s[i])) == (set x | x in s[..i])
    ensures |(set x | x in s[..i])| == i
  {
    var p := s[..i];
    forall b | b in s && Before(b, s[i]) ensures b in p {
      var k :| 0 <= k < |s| && s[k] == b;
      assert k < i;
      assert p[k] == b;
    }
    DistinctCard(p);
  }

  /** The `n`-th hit (1-based) in row-major order, or none when the sheet has
      fewer than `n` hits. */
  function NthHit(g: Sheet, target: string, contains: bool, n: int): (r: Option<Coord>)
    ensures r.Some? <==> 1 <= n <= |AllHits(g, target, contains)|
    ensures r.Some? ==> InGrid(g, r.value) && IsHit(g, target, contains, r.value)
    ensures r.Some? ==> |Earlier(g, target, contains, r.value)| == n - 1
  {
    var hs := AllHits(g, target, contains);
    if 1 <= n <= |hs| then
      HitRank(g, target, contains, n - 1);
      Some(hs[n - 1])
    else None
  }

  /** The hit at position `i` of the hit list is a hit of the sheet with
      exactly `i` hits before it. */
  lemma HitRank(g: Sheet, target: string, contains: bool, i: int)
    requires 0 <= i < |AllHits(g, target, contains)|
    ensures InGrid(g, AllHits(g, target, contains)[i])
    ensures IsHit(g, target, contains, AllHits(g, target, contains)[i])
    ensures |Earlier(g, target, contains, AllHits(g, target, contains)[i])| == i
  {
    var hs := AllHits(g, target, contains);
    AllHitsSpec(g, target, contains);
    assert hs[i] in hs;
    OrderedRank(hs, i);
  }

  /** Scans one row left to right, collecting its hits. */
  method ScanRow(g: Sheet, target: string, contains: bool, row: int) returns (line: seq<Coord>)
    ensures line == RowHits(g, target, contains, row, Width(g))
  {
    var w := Width(g);
    line := [];
    var col := 1;
    while col <= w
      invariant 1 <= col <= w + 1
      invariant line == RowHits(g, target, contains, row, col - 1)
    {
      if IsHit(g, target, contains, Coord(row, col)) {
        line := line + [Coord(row, col)];
      }
      col := col + 1;
    }
  }

  /** The scan: visits every cell row by row and collects the hits. */
  method SearchAll(g: Sheet, target: string, contains: bool) returns (hits: seq<Coord>)
    ensures hits == AllHits(g, target, contains)
    ensures forall a :: a in hits <==> InGrid(g, a) && IsHit(g, target, contains, a)
    ensures StrictlyOrdered(hits)
  {
    hits := [];
    var row := 1;
    while row <= |g|
      invariant 1 <= row <= |g| + 1
      invariant hits == RowsHits(g, target, contains, row - 1)
    {
      var line := ScanRow(g, target, contains, row);
      hits := hits + line;
      row := row + 1;
    }
    AllHitsSpec(g, target, contains);
  }

  /** The outcome of a search: one coordinate (or none), or all of them. */
  datatype Found = Single(at: Option<Coord>) | All(hits: seq<Coord>)

  /** Searches the sheet. With `many`, every hit in row-major order (`nth`
      is ignored); otherwise the `nth` hit, 1-based, or none when there
      are fewer hits or `nth` is below 1. Running out of hits is not an
      error. By default a search is exact, for the first hit. */
  method Search(g: Sheet, target: string, contains: bool := false, nth: int := 1, many: bool := false)
    returns (found: Found)
    ensures many ==> found == All(AllHits(g, target, contains))
    ensures many ==> forall a :: a in found.hits <==> InGrid(g, a) && IsHit(g, target, contains, a)
    ensures many ==> StrictlyOrdered(found.hits)
    ensures !many ==> found == Single(NthHit(g, target, contains, nth))
    ensures !many ==> (found.at.Some? <==> 1 <= nth <= |AllHits(g, target, contains)|)
    ensures !many && found.at.Some? ==>
      InGrid(g, found.at.value) && IsHit(g, target, contains, found.at.value)
    ensures !many && found.at.Some? ==> |Earlier(g, target, contains, found.at.value)| == nth - 1
  {
    var hits := SearchAll(g, target, contains);
    if many {
      found := All(hits);
    } else if 1 <= nth <= |hits| {
      found := Single(Some(hits[nth - 1]));
      assert Single(NthHit(g, target, contains, nth)) == found;
    } else {
      found := Single(None);
    }
  }
}
