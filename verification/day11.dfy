/** Day 11: galaxies ('#') in an image whose rows and columns without a
    galaxy are wider than they look; the distances between every pair of
    galaxies, summed. */
module Day11 {
  import opened Common

  /** A position (row, column), in the order numpy's `nonzero` gives them. */
  type Cell = (int, int)

  /** numpy builds a two-dimensional array only from lines of one length. */
  predicate Rectangular(lines: seq<string>)
  {
    |lines| > 0 && forall r :: 0 <= r < |lines| ==> |lines[r]| == |lines[0]|
  }

  predicate IsGalaxy(lines: seq<string>, p: Cell)
  {
    0 <= p.0 < |lines| && 0 <= p.1 < |lines[p.0]| && lines[p.0][p.1] == '#'
  }

  predicate RowEmpty(lines: seq<string>, r: int)
    requires |lines| > 0
  {
    forall c :: 0 <= c < |lines[0]| ==> !IsGalaxy(lines, (r, c))
  }

  predicate ColumnEmpty(lines: seq<string>, c: int)
  {
    forall r :: 0 <= r < |lines| ==> !IsGalaxy(lines, (r, c))
  }

  // ---------------------------------------------------------------------
  // Empty rows and columns

  /** `empty_rows`: the rows below `k` holding no galaxy, in order. */
  function EmptyRows(lines: seq<string>, k: nat): seq<int>
    requires |lines| > 0 && k <= |lines|
  {
    if k == 0 then []
    else EmptyRows(lines, k - 1) + (if RowEmpty(lines, k - 1) then [k - 1] else [])
  }

  /** `empty_cols`: the columns below `k` holding no galaxy, in order. */
  function EmptyColumns(lines: seq<string>, k: nat): seq<int>
  {
    if k == 0 then []
    else EmptyColumns(lines, k - 1) + (if ColumnEmpty(lines, k - 1) then [k - 1] else [])
  }

  /** Strictly increasing: in order and without repeats. */
  predicate Increasing(s: seq<int>)
  {
    forall i, j :: 0 <= i < j < |s| ==> s[i] < s[j]
  }

  lemma IncreasingAppend(s: seq<int>, x: int)
    requires Increasing(s) && forall y :: y in s ==> y < x
    ensures Increasing(s + [x]) && Increasing(s + [])
  {
    assert s + [] == s;
    forall i, j | 0 <= i < j < |s + [x]|
      ensures (s + [x])[i] < (s + [x])[j]
    {
      assert (s + [x])[i] == s[i];
      if j == |s| {
        assert s[i] in s;
      }
    }
  }

  /** The empty rows are exactly the rows without a galaxy, each once, in
      order. */
  lemma {:induction false} EmptyRowsExact(lines: seq<string>, k: nat)
    requires |lines| > 0 && k <= |lines|
    ensures forall x :: x in EmptyRows(lines, k) <==> 0 <= x < k && RowEmpty(lines, x)
    ensures Increasing(EmptyRows(lines, k))
  {
    if k > 0 {
      EmptyRowsExact(lines, k - 1);
      IncreasingAppend(EmptyRows(lines, k - 1), k - 1);
    }
  }

  /** The empty columns are exactly the columns without a galaxy, each once,
      in order. */
  lemma {:induction false} EmptyColumnsExact(lines: seq<string>, k: nat)
    ensures forall x :: x in EmptyColumns(lines, k) <==> 0 <= x < k && ColumnEmpty(lines, x)
    ensures Increasing(EmptyColumns(lines, k))
  {
    if k > 0 {
      EmptyColumnsExact(lines, k - 1);
      IncreasingAppend(EmptyColumns(lines, k - 1), k - 1);
    }
  }

  // ---------------------------------------------------------------------
  // The galaxies

  /** Row-major order: the order of `nonzero`, and of `combinations`. */
  predicate Before(p: Cell, q: Cell)
  {
    p.0 < q.0 || (p.0 == q.0 && p.1 < q.1)
  }

  predicate Ordered(s: seq<Cell>)
  {
    forall i, j :: 0 <= i < j < |s| ==> Before(s[i], s[j])
  }

  /** The galaxies of row `r` left of column `c`. */
  function RowGalaxies(lines: seq<string>, r: nat, c: nat): seq<Cell>
    requires r < |lines| && c <= |lines[r]|
  {
    if c == 0 then []
    else RowGalaxies(lines, r, c - 1) + (if lines[r][c - 1] == '#' then [(r, c - 1)] else [])
  }

  /** `galaxies`: the galaxies of the first `k` rows, row by row. */
  function Galaxies(lines: seq<string>, k: nat): seq<Cell>
    requires k <= |lines|
  {
    if k == 0 then [] else Galaxies(lines, k - 1) + RowGalaxies(lines, k - 1, |lines[k - 1]|)
  }

  lemma {:induction false} RowGalaxiesExact(lines: seq<string>, r: nat, c: nat)
    requires r < |lines| && c <= |lines[r]|
    ensures forall p :: p in RowGalaxies(lines, r, c) <==> p.0 == r && p.1 < c && IsGalaxy(lines, p)
    ensures Ordered(RowGalaxies(lines, r, c))
  {
    if c > 0 {
      RowGalaxiesExact(lines, r, c - 1);
    }
  }

  lemma OrderedAppend(a: seq<Cell>, b: seq<Cell>)
    requires Ordered(a) && Ordered(b)
    requires forall x, y :: x in a && y in b ==> Before(x, y)
    ensures Ordered(a + b)
  {
    forall i, j | 0 <= i < j < |a + b|
      ensures Before((a + b)[i], (a + b)[j])
    {
      if j < |a| {
        assert (a + b)[i] == a[i] && (a + b)[j] == a[j];
      } else if i < |a| {
        assert (a + b)[i] == a[i] && (a + b)[j] == b[j - |a|];
      } else {
        assert (a + b)[i] == b[i - |a|] && (a + b)[j] == b[j - |a|];
      }
    }
  }

  /** Every galaxy appears exactly once, in row-major order. */
  lemma {:induction false} GalaxiesExact(lines: seq<string>, k: nat)
    requires k <= |lines|
    ensures forall p :: p in Galaxies(lines, k) <==> p.0 < k && IsGalaxy(lines, p)
    ensures Ordered(Galaxies(lines, k))
  {
    if k > 0 {
      GalaxiesExact(lines, k - 1);
      RowGalaxiesExact(lines, k - 1, |lines[k - 1]|);
      OrderedAppend(Galaxies(lines, k - 1), RowGalaxies(lines, k - 1, |lines[k - 1]|));
    }
  }

  // ---------------------------------------------------------------------
  // Distance

  /** How many of `es` lie strictly between `a` and `b`, in either order. */
  function CountBetween(es: seq<int>, a: int, b: int): nat
  {
    if |es| == 0 then 0
    else (if a < es[0] < b || b < es[0] < a then 1 else 0) + CountBetween(es[1..], a, b)
  }

  /** `taxicab` of `part_2`: the plain distance, plus `factor - 1` for each
      empty row and each empty column crossed. */
  function Distance(p: Cell, q: Cell, rows: seq<int>, columns: seq<int>, factor: int): (d: int)
    ensures factor >= 1 ==> d >= Abs(p.0 - q.0) + Abs(p.1 - q.1)
  {
    var crossed := CountBetween(rows, p.0, q.0) + CountBetween(columns, p.1, q.1);
    assert factor >= 1 ==> crossed * (factor - 1) >= 0;
    Abs(p.0 - q.0) + Abs(p.1 - q.1)
      + CountBetween(rows, p.0, q.0) * (factor - 1) + CountBetween(columns, p.1, q.1) * (factor - 1)
  }

  /** `taxicab` of `part_1`: each empty row or column crossed counts once
      more. */
  function Part1Distance(p: Cell, q: Cell, rows: seq<int>, columns: seq<int>): int
  {
    Abs(p.0 - q.0) + Abs(p.1 - q.1) + CountBetween(rows, p.0, q.0) + CountBetween(columns, p.1, q.1)
  }

  lemma {:induction false} CountBetweenSymmetric(es: seq<int>, a: int, b: int)
    ensures CountBetween(es, a, b) == CountBetween(es, b, a)
  {
    if |es| > 0 {
      CountBetweenSymmetric(es[1..], a, b);
    }
  }

  /** The distance does not depend on the order of the pair. */
  lemma DistanceSymmetric(p: Cell, q: Cell, rows: seq<int>, columns: seq<int>, factor: int)
    ensures Distance(p, q, rows, columns, factor) == Distance(q, p, rows, columns, factor)
  {
    CountBetweenSymmetric(rows, p.0, q.0);
    CountBetweenSymmetric(columns, p.1, q.1);
  }

  /** How many of `es` lie below `x`. */
  function CountBelow(es: seq<int>, x: int): nat
  {
    if |es| == 0 then 0 else (if es[0] < x then 1 else 0) + CountBelow(es[1..], x)
  }

  /** Where coordinate `x` lands once every empty line below it is
      `factor` wide. */
  function Expand(es: seq<int>, x: int, factor: int): int
  {
    x + (factor - 1) * CountBelow(es, x)
  }

  /** Below `b` lie those below `a`, `a` itself, and those between. */
  lemma {:induction false} CountBelowSplit(es: seq<int>, a: int, b: int)
    requires a < b && a !in es
    ensures CountBelow(es, b) == CountBelow(es, a) + CountBetween(es, a, b)
  {
    if |es| > 0 {
      assert es[0] != a;
      CountBelowSplit(es[1..], a, b);
    }
  }

  /** Along one axis: the expanded gap is the plain gap plus `factor - 1`
      for each empty line crossed, for coordinates not on an empty line. */
  lemma ExpandedGap(es: seq<int>, a: int, b: int, factor: int)
    requires a !in es && b !in es && factor >= 1
    ensures Abs(Expand(es, a, factor) - Expand(es, b, factor)) == Abs(a - b) + CountBetween(es, a, b) * (factor - 1)
  {
    if a < b {
      CountBelowSplit(es, a, b);
      GapArithmetic(a, b, CountBelow(es, a), CountBetween(es, a, b), factor);
    } else if b < a {
      CountBelowSplit(es, b, a);
      CountBetweenSymmetric(es, a, b);
      GapArithmetic(b, a, CountBelow(es, b), CountBetween(es, b, a), factor);
    } else {
      CountBetweenNone(es, a);
    }
  }

  lemma GapArithmetic(a: int, b: int, below: int, n: int, factor: int)
    requires a < b && n >= 0 && factor >= 1
    ensures Abs((b + (factor - 1) * (below + n)) - (a + (factor - 1) * below)) == (b - a) + n * (factor - 1)
  {
    assert (factor - 1) * (below + n) == (factor - 1) * below + n * (factor - 1);
    if factor > 1 {
      MulSign(n, factor - 1);
    }
  }

  lemma {:induction false} CountBetweenNone(es: seq<int>, a: int)
    ensures CountBetween(es, a, a) == 0
  {
    if |es| > 0 {
      CountBetweenNone(es[1..], a);
    }
  }

  /** The distance between two galaxies is their plain taxicab distance in
      the expanded image. */
  lemma ExpandedManhattan(lines: seq<string>, p: Cell, q: Cell, factor: int)
    requires Rectangular(lines) && IsGalaxy(lines, p) && IsGalaxy(lines, q) && factor >= 1
    ensures
      var rows, columns := EmptyRows(lines, |lines|), EmptyColumns(lines, |lines[0]|);
      Distance(p, q, rows, columns, factor)
      == Abs(Expand(rows, p.0, factor) - Expand(rows, q.0, factor))
         + Abs(Expand(columns, p.1, factor) - Expand(columns, q.1, factor))
  {
    var rows, columns := EmptyRows(lines, |lines|), EmptyColumns(lines, |lines[0]|);
    EmptyRowsExact(lines, |lines|);
    EmptyColumnsExact(lines, |lines[0]|);
    assert !RowEmpty(lines, p.0) && !RowEmpty(lines, q.0) by {
      assert IsGalaxy(lines, (p.0, p.1)) && IsGalaxy(lines, (q.0, q.1));
    }
    assert !ColumnEmpty(lines, p.1) && !ColumnEmpty(lines, q.1) by {
      assert IsGalaxy(lines, (p.0, p.1)) && IsGalaxy(lines, (q.0, q.1));
    }
    ExpandedGap(rows, p.0, q.0, factor);
    ExpandedGap(columns, p.1, q.1, factor);
    var dr, dc := CountBetween(rows, p.0, q.0) * (factor - 1), CountBetween(columns, p.1, q.1) * (factor - 1);
    assert Distance(p, q, rows, columns, factor) == (Abs(p.0 - q.0) + dr) + (Abs(p.1 - q.1) + dc);
  }

  // ---------------------------------------------------------------------
  // Pairs

  /** The pairs whose first index is `i`: `(i, i + 1)` up to `(i, n - 1)`. */
  function PairRow(i: nat, n: nat): (r: seq<Cell>)
    requires i < n
    ensures |r| == n - 1 - i
  {
    seq(n - 1 - i, k requires 0 <= k < n - 1 - i => (i, i + 1 + k))
  }

  lemma PairRowExact(i: nat, n: nat)
    requires i < n
    ensures forall x: Cell :: x in PairRow(i, n) <==> x.0 == i && i < x.1 < n
    ensures Ordered(PairRow(i, n))
  {
    var row := PairRow(i, n);
    forall x: Cell | x.0 == i && i < x.1 < n
      ensures x in row
    {
      assert row[x.1 - i - 1] == x;
    }
  }

  /** `combinations(range(n), 2)` from first index `i` on, in its order. */
  function PairsFrom(i: nat, n: nat): (r: seq<Cell>)
    requires i <= n
    ensures forall k :: 0 <= k < |r| ==> i <= r[k].0 < r[k].1 < n
    decreases n - i
  {
    if i == n then [] else PairRow(i, n) + PairsFrom(i + 1, n)
  }

  function Pairs(n: nat): (r: seq<Cell>)
    ensures forall k :: 0 <= k < |r| ==> 0 <= r[k].0 < r[k].1 < n
  {
    PairsFrom(0, n)
  }

  /** Every unordered pair of indices appears, each exactly once. */
  lemma {:induction false} PairsFromExact(i: nat, n: nat)
    requires i <= n
    ensures forall x: Cell :: x in PairsFrom(i, n) <==> i <= x.0 < x.1 < n
    ensures Ordered(PairsFrom(i, n))
    decreases n - i
  {
    if i < n {
      PairsFromExact(i + 1, n);
      PairRowExact(i, n);
      OrderedAppend(PairRow(i, n), PairsFrom(i + 1, n));
    }
  }

  /** `combinations` yields n(n-1)/2 pairs. */
  lemma {:induction false} PairsFromCount(i: nat, n: nat)
    requires i <= n
    ensures 2 * |PairsFrom(i, n)| == (n - i) * (n - i - 1)
    decreases n - i
  {
    if i < n {
      PairsFromCount(i + 1, n);
      assert (n - i) * (n - i - 1) == (n - i - 1) * (n - i - 2) + 2 * (n - 1 - i);
    }
  }

  /** `taxicab` of `part_2` for each pair of the galaxies `gs`, in the
      order of `combinations`. */
  function Distances(gs: seq<Cell>, rows: seq<int>, columns: seq<int>, factor: int): seq<int>
  {
    var pairs := Pairs(|gs|);
    seq(|pairs|, k requires 0 <= k < |pairs| => Distance(gs[pairs[k].0], gs[pairs[k].1], rows, columns, factor))
  }

  /** `taxicab` of `part_1` for each pair of the galaxies `gs`. */
  function Part1Distances(gs: seq<Cell>, rows: seq<int>, columns: seq<int>): seq<int>
  {
    var pairs := Pairs(|gs|);
    seq(|pairs|, k requires 0 <= k < |pairs| => Part1Distance(gs[pairs[k].0], gs[pairs[k].1], rows, columns))
  }

  // ---------------------------------------------------------------------
  // The puzzle

  /** `part_1` is `part_2` with every empty line doubled. */
  function Part1(lines: seq<string>): (r: int)
    requires Rectangular(lines)
    ensures r == Part2(lines, 2)
  {
    var rows, columns := EmptyRows(lines, |lines|), EmptyColumns(lines, |lines[0]|);
    var gs := Galaxies(lines, |lines|);
    assert Part1Distances(gs, rows, columns) == Distances(gs, rows, columns, 2);
    Sum(Part1Distances(gs, rows, columns))
  }

  /** `part_2`: with a factor of at least 1 the total is not negative, and
      with fewer than two galaxies there is no pair and it is 0. */
  function Part2(lines: seq<string>, factor: int): (r: int)
    requires Rectangular(lines)
    ensures factor >= 1 ==> r >= 0
    ensures |Galaxies(lines, |lines|)| < 2 ==> r == 0
  {
    var ds := Distances(Galaxies(lines, |lines|), EmptyRows(lines, |lines|), EmptyColumns(lines, |lines[0]|), factor);
    if |Galaxies(lines, |lines|)| < 2 then
      assert Pairs(0) == [] && Pairs(1) == [] by {
        assert PairsFrom(1, 1) == [] && PairRow(0, 1) == [];
      }
      Sum(ds)
    else
      assert factor >= 1 ==> forall k :: 0 <= k < |ds| ==> ds[k] >= 0;
      if factor >= 1 then SumNonNegative(ds); Sum(ds) else Sum(ds)
  }

  /** With a factor of at least 1, no pair sum is below the sum of the plain
      distances. */
  lemma {:induction false} SumAtLeast(a: seq<int>, b: seq<int>)
    requires |a| == |b| && forall k :: 0 <= k < |a| ==> a[k] >= b[k]
    ensures Sum(a) >= Sum(b)
  {
    if |a| > 0 {
      SumAtLeast(a[1..], b[1..]);
    }
  }

  /** The answer for a factor of at least 1 is at least the sum of the
      unexpanded distances. */
  lemma Part2AtLeastPlain(lines: seq<string>, factor: int)
    requires Rectangular(lines) && factor >= 1
    ensures Part2(lines, factor) >= Part2(lines, 1)
  {
    var rows, columns := EmptyRows(lines, |lines|), EmptyColumns(lines, |lines[0]|);
    var gs := Galaxies(lines, |lines|);
    SumAtLeast(Distances(gs, rows, columns, factor), Distances(gs, rows, columns, 1));
  }

  /** A small image: one galaxy in each of two opposite corners, an empty
      row and an empty column between them. */
  function Corners(): seq<string>
  {
    ["#..", "...", "..#"]
  }

  lemma CornersGalaxies()
    ensures Rectangular(Corners())
    ensures Galaxies(Corners(), |Corners()|) == [(0, 0), (2, 2)]
  {
    var lines := Corners();
    assert RowGalaxies(lines, 0, 3) == [(0, 0)];
    assert RowGalaxies(lines, 1, 3) == [];
    assert RowGalaxies(lines, 2, 3) == [(2, 2)];
  }

  lemma CornersEmptyLines()
    ensures EmptyRows(Corners(), |Corners()|) == [1] && EmptyColumns(Corners(), |Corners()[0]|) == [1]
  {
    var lines := Corners();
    assert IsGalaxy(lines, (0, 0)) && IsGalaxy(lines, (2, 2));
    assert RowEmpty(lines, 1) && ColumnEmpty(lines, 1);
  }

  /** Two galaxies make one pair. */
  lemma DistancesOfTwo(p: Cell, q: Cell, rows: seq<int>, columns: seq<int>, factor: int)
    ensures Distances([p, q], rows, columns, factor) == [Distance(p, q, rows, columns, factor)]
  {
    assert Pairs(2) == [(0, 1)] by {
      assert PairRow(0, 2) == [(0, 1)] && PairRow(1, 2) == [];
    }
  }

  lemma CornersPairs(factor: int)
    ensures Part2(Corners(), factor) == Distance((0, 0), (2, 2), [1], [1], factor)
  {
    CornersGalaxies();
    CornersEmptyLines();
    DistancesOfTwo((0, 0), (2, 2), [1], [1], factor);
    var d := Distance((0, 0), (2, 2), [1], [1], factor);
    assert Sum([d]) == d;
  }

  /** The corners are 4 apart before expansion and cross one empty row and
      one empty column. */
  lemma CornersDistance(factor: int)
    ensures Distance((0, 0), (2, 2), [1], [1], factor) == 4 + 2 * (factor - 1)
  {
    assert CountBetween([1], 0, 2) == 1;
  }

  lemma CornersExample(factor: int)
    ensures Part2(Corners(), factor) == 4 + 2 * (factor - 1)
  {
    CornersPairs(factor);
    CornersDistance(factor);
  }
}
