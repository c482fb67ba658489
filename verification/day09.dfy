/** Day 9: extrapolating a sequence forwards and backwards by repeatedly
    taking differences until a row is all zero. */
module Day09 {
  import opened Common

  /** `[b - a for a, b in pairwise(vals)]`. */
  function Diff(s: seq<int>): (d: seq<int>)
    ensures |d| == if |s| == 0 then 0 else |s| - 1
    ensures forall i :: 0 <= i < |d| ==> s[i] + d[i] == s[i + 1]
  {
    if |s| == 0 then [] else seq(|s| - 1, i requires 0 <= i < |s| - 1 => s[i + 1] - s[i])
  }

  /** `not any(vals)`: every entry is zero (vacuously for an empty row). */
  predicate AllZero(s: seq<int>)
  {
    forall i :: 0 <= i < |s| ==> s[i] == 0
  }

  /** The rows the loop visits: the input, then its differences, stopping at
      the first all-zero row. A row that is empty when its last (or first)
      element is taken is the `IndexError` of the Python code: `None`. */
  function Rows(s: seq<int>): (r: Option<seq<seq<int>>>)
    decreases |s|
    ensures r.Some? ==> |r.value| > 0 && r.value[0] == s
    ensures r.Some? ==> forall k :: 0 <= k < |r.value| ==> |r.value[k]| > 0
  {
    if |s| == 0 then None
    else if AllZero(s) then Some([s])
    else
      match Rows(Diff(s))
      case None => None
      case Some(rows) => Some([s] + rows)
  }

  /** Past a row that is not all zero, the rows go on with its difference row. */
  lemma RowsCons(s: seq<int>)
    requires |s| > 0 && !AllZero(s)
    ensures Rows(s).Some? <==> Rows(Diff(s)).Some?
    ensures Rows(s).Some? ==> Rows(s).value == [s] + Rows(Diff(s)).value
  {
  }

  /** Each row is the difference row of the one before and one shorter; the
      last row is all zero and no earlier row is. */
  lemma {:induction false} RowsShape(s: seq<int>)
    requires Rows(s).Some?
    ensures var rows := Rows(s).value;
      && (forall k :: 0 <= k < |rows| ==> |rows[k]| == |s| - k)
      && (forall k :: 0 < k < |rows| ==> rows[k] == Diff(rows[k - 1]))
      && AllZero(rows[|rows| - 1])
      && (forall k :: 0 <= k < |rows| - 1 ==> !AllZero(rows[k]))
    decreases |s|
  {
    if !AllZero(s) {
      RowsCons(s);
      RowsShape(Diff(s));
      var rows := Rows(Diff(s)).value;
      assert forall k :: 0 < k < |rows| + 1 ==> ([s] + rows)[k] == rows[k - 1];
    }
  }

  function Lasts(rows: seq<seq<int>>): (r: seq<int>)
    requires forall k :: 0 <= k < |rows| ==> |rows[k]| > 0
    ensures |r| == |rows|
  {
    seq(|rows|, k requires 0 <= k < |rows| => rows[k][|rows[k]| - 1])
  }

  function Firsts(rows: seq<seq<int>>): (r: seq<int>)
    requires forall k :: 0 <= k < |rows| ==> |rows[k]| > 0
    ensures |r| == |rows|
  {
    seq(|rows|, k requires 0 <= k < |rows| => rows[k][0])
  }

  /** `reduce(lambda extra, prev: prev - extra, reversed(firsts))`:
      f0 - (f1 - (f2 - ...)). */
  function Alternate(f: seq<int>): int
    requires |f| > 0
  {
    if |f| == 1 then f[0] else f[0] - Alternate(f[1..])
  }

  /** `part_1` for one line: the sum of the last elements of every row. */
  function Next(s: seq<int>): Option<int>
  {
    match Rows(s)
    case None => None
    case Some(rows) => Some(Sum(Lasts(rows)))
  }

  /** `part_2` for one line: the alternating fold over the first elements. */
  function Prev(s: seq<int>): Option<int>
  {
    match Rows(s)
    case None => None
    case Some(rows) => Some(Alternate(Firsts(rows)))
  }

  function Last(s: seq<int>): int
    requires |s| > 0
  {
    s[|s| - 1]
  }

  lemma SumCons(x: int, t: seq<int>)
    ensures Sum([x] + t) == x + Sum(t)
  {
    assert ([x] + t)[1..] == t;
  }

  lemma LastsCons(s: seq<int>, rows: seq<seq<int>>)
    requires |s| > 0 && forall k :: 0 <= k < |rows| ==> |rows[k]| > 0
    ensures Lasts([s] + rows) == [Last(s)] + Lasts(rows)
  {
  }

  lemma FirstsCons(s: seq<int>, rows: seq<seq<int>>)
    requires |s| > 0 && forall k :: 0 <= k < |rows| ==> |rows[k]| > 0
    ensures Firsts([s] + rows) == [s[0]] + Firsts(rows)
  {
  }

  /** Next, one row at a time: the last element plus the extrapolation of the
      differences (nothing once the row is all zero). */
  lemma NextStep(s: seq<int>)
    ensures Next(s).Some? <==> |s| > 0 && (AllZero(s) || Next(Diff(s)).Some?)
    ensures Next(s).Some? && AllZero(s) ==> Next(s).value == Last(s)
    ensures Next(s).Some? && !AllZero(s) ==> Next(s).value == Last(s) + Next(Diff(s)).value
  {
    if |s| > 0 && AllZero(s) {
      assert Rows(s) == Some([s]);
      assert Lasts([s]) == [Last(s)];
      assert Sum([Last(s)]) == Last(s) + Sum([]);
    } else if |s| > 0 {
      RowsCons(s);
      if Rows(Diff(s)).Some? {
        var rows := Rows(Diff(s)).value;
        LastsCons(s, rows);
        SumCons(Last(s), Lasts(rows));
      }
    }
  }

  lemma PrevStep(s: seq<int>)
    ensures Prev(s).Some? <==> Next(s).Some?
    ensures Prev(s).Some? && AllZero(s) ==> Prev(s).value == s[0]
    ensures Prev(s).Some? && !AllZero(s) ==> Prev(s).value == s[0] - Prev(Diff(s)).value
  {
    if |s| > 0 && !AllZero(s) {
      RowsCons(s);
      if Rows(Diff(s)).Some? {
        FirstsCons(s, Rows(Diff(s)).value);
      }
    }
  }

  /** Appending v to a row appends v's difference to the last element. */
  lemma DiffSnoc(s: seq<int>, v: int)
    requires |s| > 0
    ensures Diff(s + [v]) == Diff(s) + [v - Last(s)]
  {
  }

  /** Prepending v to a row prepends the first element's difference to v. */
  lemma DiffCons(v: int, s: seq<int>)
    requires |s| > 0
    ensures Diff([v] + s) == [s[0] - v] + Diff(s)
  {
    var a, b := Diff([v] + s), [s[0] - v] + Diff(s);
    forall i | 0 <= i < |a| ensures a[i] == b[i] {
      if i > 0 {
        assert ([v] + s)[i] == s[i - 1] && ([v] + s)[i + 1] == s[i];
      }
    }
  }

  /** An all-zero row stays all zero when a zero is added at either end. */
  lemma ZeroEnds(s: seq<int>)
    requires AllZero(s)
    ensures AllZero(s + [0]) && AllZero([0] + s)
  {
  }

  /** The extrapolated value continues the difference table: appending it to
      the row appends the differences' own extrapolation to the difference
      row, and an all-zero row is continued by zero. */
  lemma NextContinuesDifferences(s: seq<int>)
    requires Next(s).Some?
    ensures AllZero(s) ==> Next(s).value == 0 && AllZero(s + [Next(s).value])
    ensures !AllZero(s) ==> Diff(s + [Next(s).value]) == Diff(s) + [Next(Diff(s)).value]
  {
    NextStep(s);
    var v := Next(s).value;
    if AllZero(s) {
      assert v == 0;
      ZeroEnds(s);
    } else {
      DiffSnoc(s, v);
    }
  }

  lemma PrevContinuesDifferences(s: seq<int>)
    requires Prev(s).Some?
    ensures AllZero(s) ==> Prev(s).value == 0 && AllZero([Prev(s).value] + s)
    ensures !AllZero(s) ==> Diff([Prev(s).value] + s) == [Prev(Diff(s)).value] + Diff(s)
  {
    PrevStep(s);
    NextStep(s);
    var v := Prev(s).value;
    if AllZero(s) {
      assert v == 0;
      ZeroEnds(s);
    } else {
      PrevStep(Diff(s));
      NextStep(Diff(s));
      DiffCons(v, s);
    }
  }

  function Negate(s: seq<int>): (r: seq<int>)
    ensures |r| == |s| && forall i :: 0 <= i < |s| ==> r[i] == -s[i]
  {
    seq(|s|, i requires 0 <= i < |s| => -s[i])
  }

  /** Negating a row negates its last element and its differences, and keeps
      it all zero or not. */
  lemma NegateFacts(s: seq<int>)
    ensures AllZero(Negate(s)) <==> AllZero(s)
    ensures |s| > 0 ==> Last(Negate(s)) == -Last(s)
    ensures Diff(Negate(s)) == Negate(Diff(s))
  {
  }

  /** Extrapolation is linear: negating the row negates the result. */
  lemma {:induction false} NextNegate(s: seq<int>)
    ensures Next(Negate(s)).Some? <==> Next(s).Some?
    ensures Next(s).Some? ==> Next(Negate(s)).value == -Next(s).value
    decreases |s|
  {
    NegateFacts(s);
    NextStep(s);
    NextStep(Negate(s));
    if |s| > 0 && !AllZero(s) {
      NextNegate(Diff(s));
    }
  }

  lemma DiffReverse(s: seq<int>)
    ensures Diff(Reverse(s)) == Negate(Reverse(Diff(s)))
  {
    var l, r := Diff(Reverse(s)), Negate(Reverse(Diff(s)));
    assert |l| == |r|;
    forall i | 0 <= i < |l|
      ensures l[i] == r[i]
    {
      var n := |s|;
      assert l[i] == s[n - 2 - i] - s[n - 1 - i];
      assert Reverse(Diff(s))[i] == Diff(s)[n - 2 - i];
    }
  }

  lemma AllZeroReverse(s: seq<int>)
    ensures AllZero(Reverse(s)) <==> AllZero(s)
  {
    if AllZero(Reverse(s)) {
      forall i | 0 <= i < |s|
        ensures s[i] == 0
      {
        assert Reverse(s)[|s| - 1 - i] == s[i];
      }
    }
  }

  /** Extrapolating backwards is extrapolating the reversed row forwards. */
  lemma {:induction false} PrevIsNextReversed(s: seq<int>)
    ensures Prev(s) == Next(Reverse(s))
    decreases |s|
  {
    var r := Reverse(s);
    PrevStep(s);
    NextStep(s);
    NextStep(r);
    AllZeroReverse(s);
    if |s| > 0 && !AllZero(s) {
      var d := Diff(s);
      DiffReverse(s);
      PrevIsNextReversed(d);
      PrevStep(d);
      NextNegate(Reverse(d));
      assert Last(r) == s[0];
      assert Prev(s).Some? <==> Next(r).Some?;
      if Prev(s).Some? {
        assert Prev(s).value == Next(r).value;
      }
    } else if |s| > 0 {
      assert Last(r) == s[0];
      assert Prev(s).Some? && Next(r).Some?;
      assert Prev(s).value == Next(r).value;
    } else {
      assert Prev(s).None?;
      assert Next(r).None?;
    }
  }

  /** A single non-zero value has no difference row to extrapolate from. */
  lemma LoneValueFails(v: int)
    requires v != 0
    ensures Next([v]).None? && Prev([v]).None?
  {
    assert [v][0] != 0;
    assert Diff([v]) == [];
  }

  /** A constant row of length at least two extrapolates to the same constant
      in both directions. */
  lemma ConstantRow(s: seq<int>)
    requires |s| >= 2 && forall i :: 0 <= i < |s| ==> s[i] == s[0]
    ensures Next(s) == Some(s[0]) && Prev(s) == Some(s[0])
  {
    NextStep(s);
    PrevStep(s);
    var d := Diff(s);
    assert AllZero(d);
    NextStep(d);
    PrevStep(d);
  }

  /** The answer of a part: the sum over lines, or `None` when a line fails. */
  function SumAll(lines: seq<seq<int>>, f: seq<int> -> Option<int>): (r: Option<int>)
    ensures r.Some? <==> forall k :: 0 <= k < |lines| ==> f(lines[k]).Some?
  {
    if |lines| == 0 then Some(0)
    else
      match (f(lines[0]), SumAll(lines[1..], f))
      case (Some(a), Some(b)) => Some(a + b)
      case _ =>
        assert forall k :: 0 < k < |lines| ==> lines[1..][k - 1] == lines[k];
        None
  }

  /** `part_1`: defined exactly when every line extrapolates forwards. */
  function Part1(lines: seq<seq<int>>): (r: Option<int>)
    ensures r.Some? <==> forall k :: 0 <= k < |lines| ==> Next(lines[k]).Some?
  {
    SumAll(lines, Next)
  }

  /** Each line read backwards. */
  function Reversed(lines: seq<seq<int>>): (r: seq<seq<int>>)
    ensures |r| == |lines| && forall k :: 0 <= k < |lines| ==> r[k] == Reverse(lines[k])
  {
    seq(|lines|, k requires 0 <= k < |lines| => Reverse(lines[k]))
  }

  /** Sums of line by line equal values are equal. */
  lemma {:induction false} SumAllPointwise(a: seq<seq<int>>, b: seq<seq<int>>, f: seq<int> -> Option<int>, g: seq<int> -> Option<int>)
    requires |a| == |b| && forall k :: 0 <= k < |a| ==> f(a[k]) == g(b[k])
    ensures SumAll(a, f) == SumAll(b, g)
    decreases |a|
  {
    if |a| > 0 {
      assert forall k :: 0 <= k < |a| - 1 ==> a[1..][k] == a[k + 1] && b[1..][k] == b[k + 1];
      SumAllPointwise(a[1..], b[1..], f, g);
    }
  }

  /** Summing backward extrapolations is summing forward ones of the
      reversed lines. */
  lemma SumAllReversed(lines: seq<seq<int>>)
    ensures SumAll(lines, Prev) == SumAll(Reversed(lines), Next)
  {
    var rev := Reversed(lines);
    forall k | 0 <= k < |lines| ensures Prev(lines[k]) == Next(rev[k]) {
      PrevIsNextReversed(lines[k]);
    }
    SumAllPointwise(lines, rev, Prev, Next);
  }

  /** `part_2`: part 1 on every line read backwards. */
  function Part2(lines: seq<seq<int>>): (r: Option<int>)
    ensures r == Part1(Reversed(lines))
  {
    SumAllReversed(lines);
    SumAll(lines, Prev)
  }

  /** Extrapolating both ways through the known difference row `d` of `s`. */
  lemma ExtendBy(s: seq<int>, d: seq<int>, next: int, prev: int)
    requires |s| > 0 && !AllZero(s) && Diff(s) == d && Next(d) == Some(next) && Prev(d) == Some(prev)
    ensures Next(s) == Some(Last(s) + next) && Prev(s) == Some(s[0] - prev)
  {
    ExtendNext(s, d, next);
    ExtendPrev(s, d, prev);
  }

  lemma ExtendPrev(s: seq<int>, d: seq<int>, prev: int)
    requires |s| > 0 && !AllZero(s) && Diff(s) == d && Prev(d) == Some(prev)
    ensures Prev(s) == Some(s[0] - prev)
  {
    PrevStep(s);
  }

  lemma ExtendNext(s: seq<int>, d: seq<int>, next: int)
    requires |s| > 0 && !AllZero(s) && Diff(s) == d && Next(d) == Some(next)
    ensures Next(s) == Some(Last(s) + next)
  {
    NextStep(s);
  }

  lemma ExampleRow1()
    ensures Next([0, 3, 6, 9, 12, 15]) == Some(18) && Prev([0, 3, 6, 9, 12, 15]) == Some(-3)
  {
    var s, d := [0, 3, 6, 9, 12, 15], [3, 3, 3, 3, 3];
    ConstantRow(d);
    assert Diff(s) == d;
    assert s[1] != 0;
    ExtendBy(s, d, 3, 3);
  }

  lemma ExampleRow2Differences()
    ensures Next([2, 3, 4, 5, 6]) == Some(7) && Prev([2, 3, 4, 5, 6]) == Some(1)
  {
    var d1, d2 := [2, 3, 4, 5, 6], [1, 1, 1, 1];
    ConstantRow(d2);
    assert Diff(d1) == d2 && d1[0] != 0;
    ExtendBy(d1, d2, 1, 1);
  }

  lemma ExampleRow2()
    ensures Next([1, 3, 6, 10, 15, 21]) == Some(28) && Prev([1, 3, 6, 10, 15, 21]) == Some(0)
  {
    var s, d1 := [1, 3, 6, 10, 15, 21], [2, 3, 4, 5, 6];
    ExampleRow2Differences();
    assert Diff(s) == d1 && s[0] != 0;
    ExtendBy(s, d1, 7, 1);
  }

  lemma ExampleRow3SecondDifferences()
    ensures Next([0, 2, 4, 6]) == Some(8) && Prev([0, 2, 4, 6]) == Some(-2)
  {
    var d2, d3 := [0, 2, 4, 6], [2, 2, 2];
    ConstantRow(d3);
    assert Diff(d2) == d3 && d2[1] != 0;
    ExtendBy(d2, d3, 2, 2);
  }

  lemma ExampleRow3Differences()
    ensures Next([3, 3, 5, 9, 15]) == Some(23) && Prev([3, 3, 5, 9, 15]) == Some(5)
  {
    var d1, d2 := [3, 3, 5, 9, 15], [0, 2, 4, 6];
    ExampleRow3SecondDifferences();
    assert Diff(d1) == d2 && d1[0] != 0;
    ExtendBy(d1, d2, 8, -2);
  }

  lemma ExampleRow3()
    ensures Next([10, 13, 16, 21, 30, 45]) == Some(68) && Prev([10, 13, 16, 21, 30, 45]) == Some(5)
  {
    var s, d1 := [10, 13, 16, 21, 30, 45], [3, 3, 5, 9, 15];
    ExampleRow3Differences();
    assert Diff(s) == d1 && s[0] != 0;
    ExtendBy(s, d1, 23, 5);
  }

  /** The example of the puzzle: 114 forwards and 2 backwards. */
  lemma Example()
    ensures Part1([[0, 3, 6, 9, 12, 15], [1, 3, 6, 10, 15, 21], [10, 13, 16, 21, 30, 45]]) == Some(114)
    ensures Part2([[0, 3, 6, 9, 12, 15], [1, 3, 6, 10, 15, 21], [10, 13, 16, 21, 30, 45]]) == Some(2)
  {
    ExampleRow1();
    ExampleRow2();
    ExampleRow3();
    var lines: seq<seq<int>> := [[0, 3, 6, 9, 12, 15], [1, 3, 6, 10, 15, 21], [10, 13, 16, 21, 30, 45]];
    assert |lines[1..][1..][1..]| == 0;
  }
}
