/** Day 13: lines of reflection in patterns of ash ('.') and rocks ('#').
    A horizontal line lies between two rows, a vertical one between two
    columns; part 2 looks for the line that is off by exactly one cell. */
module Day13 {
  import opened Common

  /** A pattern, one string per row. */
  type Pattern = seq<string>

  /** numpy builds a two-dimensional array only from rows of one length. */
  predicate Rectangular(p: Pattern)
  {
    forall i :: 0 <= i < |p| ==> |p[i]| == |p[0]|
  }

  function Width(p: Pattern): nat
  {
    if |p| == 0 then 0 else |p[0]|
  }

  /** `pattern.T`: row `c` of the result is column `c` of `p`. */
  function Transpose(p: Pattern): (t: Pattern)
    requires Rectangular(p)
    ensures |t| == Width(p) && Rectangular(t)
    ensures forall c :: 0 <= c < |t| ==> |t[c]| == |p|
    ensures forall c, i :: 0 <= c < |t| && 0 <= i < |p| ==> t[c][i] == p[i][c]
  {
    seq(Width(p), c requires 0 <= c < Width(p) => seq(|p|, i requires 0 <= i < |p| => p[i][c]))
  }

  /** Transposing twice gives the pattern back. */
  lemma TransposeTwice(p: Pattern)
    requires Rectangular(p) && |p| > 0 && |p[0]| > 0
    ensures Transpose(Transpose(p)) == p
  {
    var t := Transpose(Transpose(p));
    assert |t| == |p|;
    forall i | 0 <= i < |p|
      ensures t[i] == p[i]
    {
      assert |t[i]| == |p[i]|;
    }
  }

  // ---------------------------------------------------------------------
  // Comparing halves

  /** How many positions of two equally long rows differ. */
  function RowDiff(a: string, b: string): nat
    requires |a| == |b|
  {
    if |a| == 0 then 0 else (if a[0] != b[0] then 1 else 0) + RowDiff(a[1..], b[1..])
  }

  /** `(lhs != rhs).sum()`: how many cells of two blocks of rows differ. */
  function Diff(a: Pattern, b: Pattern): nat
    requires |a| == |b| && forall k :: 0 <= k < |a| ==> |a[k]| == |b[k]|
  {
    if |a| == 0 then 0 else RowDiff(a[0], b[0]) + Diff(a[1..], b[1..])
  }

  lemma {:induction false} RowDiffZero(a: string, b: string)
    requires |a| == |b|
    ensures RowDiff(a, b) == 0 <==> a == b
  {
    if |a| > 0 {
      RowDiffZero(a[1..], b[1..]);
      if a[0] == b[0] && a[1..] == b[1..] {
        assert a == [a[0]] + a[1..] && b == [b[0]] + b[1..];
      }
    }
  }

  /** No cell differs exactly when the blocks are equal. */
  lemma {:induction false} DiffZero(a: Pattern, b: Pattern)
    requires |a| == |b| && forall k :: 0 <= k < |a| ==> |a[k]| == |b[k]|
    ensures Diff(a, b) == 0 <==> a == b
  {
    if |a| > 0 {
      DiffZero(a[1..], b[1..]);
      RowDiffZero(a[0], b[0]);
      if a[0] == b[0] && a[1..] == b[1..] {
        assert a == [a[0]] + a[1..] && b == [b[0]] + b[1..];
      }
    }
  }

  /** The number of rows mirrored across the line at `test`: as far as
      the nearer edge. */
  function Span(size: nat, test: nat): nat
    requires test <= size
  {
    if test <= size - test then test else size - test
  }

  /** The rows left of (above) the line at `test`, as sliced: the `Span`
      rows ending at the line. */
  function Lhs(p: Pattern, test: nat): (r: Pattern)
    requires 0 < test < |p|
    ensures |r| == Span(|p|, test)
    ensures forall k :: 0 <= k < |r| ==> r[k] == p[test - |r| + k]
  {
    if 2 * test <= |p| then p[..test] else p[2 * test - |p|..test]
  }

  /** The rows right of (below) the line at `test`, as sliced: the `Span`
      rows starting at the line. */
  function Rhs(p: Pattern, test: nat): (r: Pattern)
    requires 0 < test < |p|
    ensures |r| == Span(|p|, test)
    ensures forall k :: 0 <= k < |r| ==> r[k] == p[test + k]
  {
    if 2 * test <= |p| then p[test..2 * test] else p[test..]
  }

  /** The number of cells that differ between the rows above the line at
      `test` and the rows below it, read in reverse. */
  function Mismatch(p: Pattern, test: nat): nat
    requires Rectangular(p) && 0 < test < |p|
  {
    var l, r := Lhs(p, test), Reverse(Rhs(p, test));
    assert forall k :: 0 <= k < |l| ==> |l[k]| == |p[0]| == |r[k]|;
    Diff(l, r)
  }

  /** Row `test - 1 - j` and row `test + j` both exist and are equal. */
  predicate RowsMirror(p: Pattern, test: int, j: int)
  {
    0 <= j && 0 <= test - 1 - j && test + j < |p| && p[test - 1 - j] == p[test + j]
  }

  /** A perfect mirror: every row at distance `j` above the line equals the
      row at distance `j` below it, as far as the nearer edge. */
  lemma MirrorPairs(p: Pattern, test: nat)
    requires Rectangular(p) && 0 < test < |p|
    ensures Mismatch(p, test) == 0 <==> forall j :: 0 <= j < Span(|p|, test) ==> RowsMirror(p, test, j)
  {
    var l, r := Lhs(p, test), Reverse(Rhs(p, test));
    assert forall k :: 0 <= k < |l| ==> |l[k]| == |p[0]| == |r[k]|;
    DiffZero(l, r);
    if l == r {
      PairsFromHalves(p, test);
    }
    if forall j :: 0 <= j < Span(|p|, test) ==> RowsMirror(p, test, j) {
      HalvesFromPairs(p, test);
    }
  }

  lemma PairsFromHalves(p: Pattern, test: nat)
    requires 0 < test < |p| && Lhs(p, test) == Reverse(Rhs(p, test))
    ensures forall j :: 0 <= j < Span(|p|, test) ==> RowsMirror(p, test, j)
  {
    var l, r, n := Lhs(p, test), Reverse(Rhs(p, test)), Span(|p|, test);
    forall j | 0 <= j < n
      ensures RowsMirror(p, test, j)
    {
      assert l[n - 1 - j] == r[n - 1 - j];
    }
  }

  lemma HalvesFromPairs(p: Pattern, test: nat)
    requires 0 < test < |p| && forall j :: 0 <= j < Span(|p|, test) ==> RowsMirror(p, test, j)
    ensures Lhs(p, test) == Reverse(Rhs(p, test))
  {
    var l, r, n := Lhs(p, test), Reverse(Rhs(p, test)), Span(|p|, test);
    forall k | 0 <= k < n
      ensures l[k] == r[k]
    {
      assert RowsMirror(p, test, n - 1 - k);
    }
  }

  // ---------------------------------------------------------------------
  // Finding the line

  /** `Mismatch` for every line, top to bottom: entry `k` is the line
      below row `k`. */
  function Mismatches(p: Pattern): (ms: seq<nat>)
    requires Rectangular(p)
    ensures |ms| == if |p| == 0 then 0 else |p| - 1
    ensures forall k :: 0 <= k < |ms| ==> ms[k] == Mismatch(p, k + 1)
  {
    if |p| == 0 then []
    else seq(|p| - 1, k requires 0 <= k < |p| - 1 => Mismatch(p, k + 1))
  }

  /** The first index from `k` on holding `d`, or `|ms|` when there is none. */
  function First(ms: seq<nat>, d: nat, k: nat): (r: nat)
    requires k <= |ms|
    ensures k <= r <= |ms| && (r < |ms| ==> ms[r] == d)
    ensures forall i :: k <= i < r ==> ms[i] != d
    decreases |ms| - k
  {
    if k == |ms| then k
    else if ms[k] == d then k
    else First(ms, d, k + 1)
  }

  /** `find_reflection`: the first line, counted in rows above it, whose
      halves differ in exactly `d` cells; 0 when there is none. */
  function FindReflection(p: Pattern, d: nat): (r: nat)
    requires Rectangular(p)
    ensures r == 0 || (0 < r < |p| && Mismatch(p, r) == d)
    ensures forall t :: 0 < t < |p| && (r == 0 || t < r) ==> Mismatch(p, t) != d
  {
    var ms := Mismatches(p);
    var i := First(ms, d, 0);
    Unmatched(p, d, ms, i);
    if i == |ms| then 0 else i + 1
  }

  lemma Unmatched(p: Pattern, d: nat, ms: seq<nat>, i: nat)
    requires Rectangular(p) && ms == Mismatches(p)
    requires i <= |ms| && forall k :: 0 <= k < i ==> ms[k] != d
    ensures forall t :: 0 < t < |p| && t <= i ==> Mismatch(p, t) != d
  {
    forall t | 0 < t < |p| && t <= i
      ensures Mismatch(p, t) != d
    {
      assert ms[t - 1] == Mismatch(p, t);
    }
  }

  /** No horizontal line of the pattern has exactly `d` differences, and no
      vertical one either. */
  predicate NoLine(p: Pattern, d: nat)
    requires Rectangular(p)
  {
    (forall t :: 0 < t < |p| ==> Mismatch(p, t) != d)
    && (forall t :: 0 < t < Width(p) ==> Mismatch(Transpose(p), t) != d)
  }

  /** `count_reflections`: 100 per row above the horizontal line plus the
      columns left of the vertical one. It is 0 exactly when neither
      direction has a line, and on a pattern less than 100 columns wide it
      gives back both lines: the rows in the hundreds, the columns below. */
  function CountReflections(p: Pattern, d: nat): (r: nat)
    requires Rectangular(p)
    ensures r == 0 <==> NoLine(p, d)
    ensures Width(p) <= 100 ==> r / 100 == FindReflection(p, d) && r % 100 == FindReflection(Transpose(p), d)
  {
    var rows, columns := FindReflection(p, d), FindReflection(Transpose(p), d);
    if Width(p) <= 100 then
      DivModUnique(100 * rows + columns, 100, rows, columns);
      100 * rows + columns
    else
      100 * rows + columns
  }

  /** Cell `test - 1 - j` and cell `test + j` of row `i` both exist and
      are equal. */
  predicate CellsMirror(p: Pattern, i: int, test: int, j: int)
  {
    0 <= i < |p| && 0 <= j && 0 <= test - 1 - j && test + j < |p[i]| && p[i][test - 1 - j] == p[i][test + j]
  }

  /** A vertical line is a perfect mirror of the columns exactly when every
      row reads the same in both directions away from it. */
  lemma ColumnMirror(p: Pattern, test: nat)
    requires Rectangular(p) && 0 < test < Width(p)
    ensures Mismatch(Transpose(p), test) == 0 <==>
      forall i, j :: 0 <= i < |p| && 0 <= j < Span(Width(p), test) ==> CellsMirror(p, i, test, j)
  {
    MirrorPairs(Transpose(p), test);
    if forall j :: 0 <= j < Span(Width(p), test) ==> RowsMirror(Transpose(p), test, j) {
      CellsFromColumns(p, test);
    }
    if forall i, j :: 0 <= i < |p| && 0 <= j < Span(Width(p), test) ==> CellsMirror(p, i, test, j) {
      ColumnsFromCells(p, test);
    }
  }

  lemma CellsFromColumns(p: Pattern, test: nat)
    requires Rectangular(p) && 0 < test < Width(p)
    requires forall j :: 0 <= j < Span(Width(p), test) ==> RowsMirror(Transpose(p), test, j)
    ensures forall i, j :: 0 <= i < |p| && 0 <= j < Span(Width(p), test) ==> CellsMirror(p, i, test, j)
  {
    var t := Transpose(p);
    forall i, j | 0 <= i < |p| && 0 <= j < Span(Width(p), test)
      ensures CellsMirror(p, i, test, j)
    {
      assert RowsMirror(t, test, j);
      assert t[test - 1 - j][i] == t[test + j][i];
    }
  }

  lemma ColumnsFromCells(p: Pattern, test: nat)
    requires Rectangular(p) && 0 < test < Width(p)
    requires forall i, j :: 0 <= i < |p| && 0 <= j < Span(Width(p), test) ==> CellsMirror(p, i, test, j)
    ensures forall j :: 0 <= j < Span(Width(p), test) ==> RowsMirror(Transpose(p), test, j)
  {
    var t := Transpose(p);
    forall j | 0 <= j < Span(Width(p), test)
      ensures RowsMirror(t, test, j)
    {
      var a, b := t[test - 1 - j], t[test + j];
      forall i | 0 <= i < |p|
        ensures a[i] == b[i]
      {
        assert CellsMirror(p, i, test, j);
      }
    }
  }

  // ---------------------------------------------------------------------
  // The puzzle

  predicate AllRectangular(patterns: seq<Pattern>)
  {
    forall i :: 0 <= i < |patterns| ==> Rectangular(patterns[i])
  }

  /** `part_1` (d = 0) and `part_2` (d = 1): the counts of every pattern,
      summed; 0 exactly when no pattern has a line in either direction. */
  function Summarize(patterns: seq<Pattern>, d: nat): (r: nat)
    requires AllRectangular(patterns)
    ensures r == 0 <==> forall i :: 0 <= i < |patterns| ==> NoLine(patterns[i], d)
  {
    if |patterns| == 0 then 0
    else
      var rest := Summarize(patterns[1..], d);
      assert (forall i :: 0 <= i < |patterns| ==> NoLine(patterns[i], d)) <==>
        NoLine(patterns[0], d) && forall i :: 0 <= i < |patterns| - 1 ==> NoLine(patterns[1..][i], d);
      CountReflections(patterns[0], d) + rest
  }

  /** `part_1`: 0 exactly when no pattern has a perfect mirror line. */
  function Part1(patterns: seq<Pattern>): (r: nat)
    requires AllRectangular(patterns)
    ensures r == 0 <==> forall i :: 0 <= i < |patterns| ==> NoLine(patterns[i], 0)
  {
    Summarize(patterns, 0)
  }

  /** `part_2`: 0 exactly when no pattern has a line off by one smudge. */
  function Part2(patterns: seq<Pattern>): (r: nat)
    requires AllRectangular(patterns)
    ensures r == 0 <==> forall i :: 0 <= i < |patterns| ==> NoLine(patterns[i], 1)
  {
    Summarize(patterns, 1)
  }

  /** A pattern of two rows has one candidate line, between them. */
  lemma TwoRows(p: Pattern, d: nat)
    requires Rectangular(p) && |p| == 2
    ensures FindReflection(p, d) == if RowDiff(p[0], p[1]) == d then 1 else 0
  {
    assert Lhs(p, 1) == [p[0]] && Rhs(p, 1) == [p[1]];
    assert Reverse([p[1]]) == [p[1]];
    assert Diff([p[0]], [p[1]]) == RowDiff(p[0], p[1]) + Diff([], []);
  }

  lemma TwoByTwo(p: Pattern)
    requires Rectangular(p) && |p| == 2 && |p[0]| == 2
    ensures Transpose(p) == [[p[0][0], p[1][0]], [p[0][1], p[1][1]]]
  {
    var t := Transpose(p);
    assert t[0] == [p[0][0], p[1][0]];
    assert t[1] == [p[0][1], p[1][1]];
  }

  lemma RowDiffTwo(a: string, b: string)
    requires |a| == |b| == 2
    ensures RowDiff(a, b) == (if a[0] != b[0] then 1 else 0) + (if a[1] != b[1] then 1 else 0)
  {
    assert RowDiff(a[1..], b[1..]) == (if a[1] != b[1] then 1 else 0) + RowDiff(a[2..], b[2..]);
  }

  /** Two equal rows mirror each other across the line between them; two
      rows one cell apart are the smudged mirror of part 2, here in both
      directions. */
  lemma SmallExamples()
    ensures CountReflections(["#.", "#."], 0) == 100
    ensures CountReflections(["#.", ".."], 1) == 101
  {
    var p, q := ["#.", "#."], ["#.", ".."];
    TwoByTwo(p);
    TwoByTwo(q);
    RowDiffTwo(p[0], p[1]);
    RowDiffTwo(q[0], q[1]);
    RowDiffTwo("##", "..");
    RowDiffTwo("#.", "..");
    TwoRows(p, 0);
    TwoRows(q, 1);
    TwoRows(Transpose(p), 0);
    TwoRows(Transpose(q), 1);
  }
}
