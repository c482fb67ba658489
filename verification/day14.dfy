/** Day 14: rolling rocks. 'O' is a round rock, '#' a cube rock that never
    moves, '.' empty ground. Tilting north rolls every round rock in a column
    up until it meets a cube rock, another round rock or the edge. */
module Day14 {
  import opened Common

  // ---------------------------------------------------------------------------
  // One column, read from north to south

  /** Length of the leading run of cells that are not '#'. */
  function SegLen(s: string): (n: nat)
    ensures n <= |s|
    ensures forall i :: 0 <= i < n ==> s[i] != '#'
    ensures n < |s| ==> s[n] == '#'
  {
    if |s| == 0 || s[0] == '#' then 0 else 1 + SegLen(s[1..])
  }

  /** The round rocks of a segment. */
  function Rocks(seg: string): (r: string)
    ensures |r| == Count(seg, 'O')
    ensures forall i :: 0 <= i < |r| ==> r[i] == 'O'
  {
    if |seg| == 0 then ""
    else if seg[0] == 'O' then "O" + Rocks(seg[1..])
    else Rocks(seg[1..])
  }

  /** The other cells of a segment, in their order. */
  function Others(seg: string): (r: string)
    ensures |r| == |seg| - Count(seg, 'O')
    ensures forall i :: 0 <= i < |r| ==> r[i] != 'O' && r[i] in seg
  {
    if |seg| == 0 then ""
    else if seg[0] == 'O' then Others(seg[1..])
    else
      var rest := Others(seg[1..]);
      assert forall c :: c in seg[1..] ==> c in seg;
      [seg[0]] + rest
  }

  /** Every round rock comes before every other cell. */
  predicate RocksFirst(r: string)
  {
    forall i, j :: 0 <= i < j < |r| && r[i] != 'O' ==> r[j] != 'O'
  }

  predicate NoWall(s: string)
  {
    forall i :: 0 <= i < |s| ==> s[i] != '#'
  }

  /** Same length, and cube rocks in exactly the same cells. */
  predicate SameWalls(r: string, s: string)
  {
    |r| == |s| && forall i :: 0 <= i < |s| ==> (r[i] == '#' <==> s[i] == '#')
  }

  lemma SameWallsAppend(a: string, b: string, c: string, d: string)
    requires SameWalls(a, c) && SameWalls(b, d)
    ensures SameWalls(a + b, c + d)
  {
    forall i | 0 <= i < |c + d| ensures ((a + b)[i] == '#' <==> (c + d)[i] == '#') {
      if i < |a| {
        assert (a + b)[i] == a[i] && (c + d)[i] == c[i];
      } else {
        assert (a + b)[i] == b[i - |a|] && (c + d)[i] == d[i - |a|];
      }
    }
  }

  /** A segment between cube rocks after tilting: its round rocks first
      (mit.partition keeps the other cells in order). */
  function SettleSegment(seg: string): (r: string)
    ensures |r| == |seg|
    ensures Count(r, 'O') == Count(seg, 'O')
    ensures NoWall(seg) ==> NoWall(r)
    ensures RocksFirst(r)
  {
    var rocks := Rocks(seg);
    var others := Others(seg);
    CountAllSame(rocks, 'O');
    CountNone(others, 'O');
    CountAppend(rocks, others, 'O');
    rocks + others
  }

  lemma {:induction false} CountAllSame(s: string, c: char)
    requires forall i :: 0 <= i < |s| ==> s[i] == c
    ensures Count(s, c) == |s|
  {
    if |s| > 0 {
      CountAllSame(s[1..], c);
    }
  }

  lemma {:induction false} CountNone(s: string, c: char)
    requires forall i :: 0 <= i < |s| ==> s[i] != c
    ensures Count(s, c) == 0
  {
    if |s| > 0 {
      CountNone(s[1..], c);
    }
  }

  /** tilt on one column: cube rocks stay; in each maximal run without one,
      the round rocks move to the north end. */
  function TiltLine(s: string): (r: string)
    ensures SameWalls(r, s)
    decreases |s|
  {
    if |s| == 0 then ""
    else if s[0] == '#' then
      var rest := TiltLine(s[1..]);
      SameWallsAppend("#", rest, [s[0]], s[1..]);
      assert [s[0]] + s[1..] == s;
      "#" + rest
    else
      var n := SegLen(s);
      var rest := TiltLine(s[n..]);
      var a := SettleSegment(s[..n]);
      assert NoWall(s[..n]);
      SameWallsAppend(a, rest, s[..n], s[n..]);
      assert s[..n] + s[n..] == s;
      a + rest
  }

  /** No free cell (neither rock kind) lies directly north of a round rock:
      round rocks are stacked against a cube rock or the north edge. */
  predicate Settled(s: string)
  {
    forall i :: 0 <= i < |s| - 1 && s[i] != '#' && s[i] != 'O' ==> s[i + 1] != 'O'
  }

  lemma {:induction false} TiltLineSettles(s: string)
    ensures Settled(TiltLine(s))
    decreases |s|
  {
    var r := TiltLine(s);
    if |s| == 0 {
    } else if s[0] == '#' {
      var t := TiltLine(s[1..]);
      TiltLineSettles(s[1..]);
      TiltLineWall(s);
      forall i | 0 <= i < |r| - 1 && r[i] != '#' && r[i] != 'O' ensures r[i + 1] != 'O' {
        assert r[i] == t[i - 1] && r[i + 1] == t[i];
      }
    } else {
      var n := SegLen(s);
      var a := SettleSegment(s[..n]);
      var t := TiltLine(s[n..]);
      TiltLineSettles(s[n..]);
      TiltLineSegment(s, n);
      forall i | 0 <= i < |r| - 1 && r[i] != '#' && r[i] != 'O' ensures r[i + 1] != 'O' {
        if i + 1 < n {
          assert r[i] == a[i] && r[i + 1] == a[i + 1];
        } else if i + 1 == n {
          assert s[n..][0] == '#';
          assert r[i + 1] == t[0];
        } else {
          assert r[i] == t[i - n] && r[i + 1] == t[i + 1 - n];
        }
      }
    }
  }

  /** The local condition means what it says globally: between a free cell
      and a round rock further south there is always a cube rock. */
  lemma {:induction false} SettledMeansStacked(s: string, i: nat, j: nat)
    requires Settled(s) && i < j < |s| && s[i] != 'O' && s[j] == 'O'
    ensures exists k :: i <= k < j && s[k] == '#'
    decreases j - i
  {
    if s[i] != '#' {
      assert s[i + 1] != 'O';
      SettledMeansStacked(s, i + 1, j);
    }
  }

  lemma SettledSlice(s: string, a: nat, b: nat)
    requires Settled(s) && a <= b <= |s|
    ensures Settled(s[a..b])
  {
    var t := s[a..b];
    forall i | 0 <= i < |t| - 1 && t[i] != '#' && t[i] != 'O' ensures t[i + 1] != 'O' {
      assert t[i] == s[a + i] && t[i + 1] == s[a + i + 1];
    }
  }

  lemma {:induction false} NoRocks(seg: string)
    requires forall i :: 0 <= i < |seg| ==> seg[i] != 'O'
    ensures Rocks(seg) == "" && Others(seg) == seg
  {
    if |seg| > 0 {
      NoRocks(seg[1..]);
      assert seg == [seg[0]] + seg[1..];
    }
  }

  /** In a settled run without cube rocks that starts with a free cell, no
      cell holds a round rock. */
  lemma {:induction false} FreeAfterFree(seg: string, j: nat)
    requires forall i :: 0 <= i < |seg| ==> seg[i] != '#'
    requires Settled(seg) && |seg| > 0 && seg[0] != 'O' && j < |seg|
    ensures seg[j] != 'O'
  {
    if j > 0 {
      FreeAfterFree(seg, j - 1);
    }
  }

  /** A segment led by a round rock settles to itself when its tail does. */
  lemma RockHeadFixed(seg: string)
    requires |seg| > 0 && seg[0] == 'O'
    requires SettleSegment(seg[1..]) == seg[1..]
    ensures SettleSegment(seg) == seg
  {
    var t := seg[1..];
    assert Rocks(seg) == ['O'] + Rocks(t);
    assert Others(seg) == Others(t);
    ConsAppend('O', Rocks(t), Others(t));
    HeadTail(seg);
  }

  /** A settled segment led by a free cell holds no round rock at all. */
  lemma FreeHeadFixed(seg: string)
    requires forall i :: 0 <= i < |seg| ==> seg[i] != '#'
    requires Settled(seg) && |seg| > 0 && seg[0] != 'O'
    ensures SettleSegment(seg) == seg
  {
    forall j | 0 <= j < |seg| ensures seg[j] != 'O' {
      FreeAfterFree(seg, j);
    }
    NoRocks(seg);
    assert SettleSegment(seg) == Rocks(seg) + Others(seg);
  }

  lemma {:induction false} SettledSegmentFixed(seg: string)
    requires forall i :: 0 <= i < |seg| ==> seg[i] != '#'
    requires Settled(seg)
    ensures SettleSegment(seg) == seg
  {
    if |seg| > 0 {
      if seg[0] == 'O' {
        SettledSlice(seg, 1, |seg|);
        SettledSegmentFixed(seg[1..]);
        RockHeadFixed(seg);
      } else {
        FreeHeadFixed(seg);
      }
    }
  }

  /** TiltLine past a leading cube rock. */
  lemma TiltLineWall(s: string)
    requires |s| > 0 && s[0] == '#'
    ensures TiltLine(s) == "#" + TiltLine(s[1..])
    ensures s == "#" + s[1..]
  {
    assert s == [s[0]] + s[1..];
  }

  /** TiltLine past a leading segment without cube rocks. */
  lemma TiltLineSegment(s: string, n: nat)
    requires |s| > 0 && s[0] != '#' && n == SegLen(s)
    ensures TiltLine(s) == SettleSegment(s[..n]) + TiltLine(s[n..])
  {
  }

  /** A settled column is left unchanged by a tilt. */
  lemma {:induction false} SettledIsFixed(s: string)
    requires Settled(s)
    ensures TiltLine(s) == s
    decreases |s|
  {
    if |s| > 0 {
      if s[0] == '#' {
        TiltLineWall(s);
        SettledSlice(s, 1, |s|);
        SettledIsFixed(s[1..]);
      } else {
        var n := SegLen(s);
        TiltLineSegment(s, n);
        SliceJoin(s, n);
        SettledSlice(s, 0, n);
        SettledSlice(s, n, |s|);
        SettledSegmentFixed(s[..n]);
        SettledIsFixed(s[n..]);
      }
    }
  }

  /** Tilting twice is tilting once. */
  lemma TiltLineIdempotent(s: string)
    ensures TiltLine(TiltLine(s)) == TiltLine(s)
  {
    TiltLineSettles(s);
    SettledIsFixed(TiltLine(s));
  }

  /** The number of round rocks in the first i cells of a column. */
  function RocksAbove(s: string, i: nat): nat
    requires i <= |s|
  {
    if i == 0 then 0 else RocksAbove(s, i - 1) + (if s[i - 1] == 'O' then 1 else 0)
  }

  lemma {:induction false} RocksAboveAgree(x: string, y: string, i: nat)
    requires i <= |x| && i <= |y| && forall k :: 0 <= k < i ==> x[k] == y[k]
    ensures RocksAbove(x, i) == RocksAbove(y, i)
  {
    if i > 0 {
      RocksAboveAgree(x, y, i - 1);
    }
  }

  lemma {:induction false} RocksAboveAppend(a: string, b: string, k: nat)
    requires k <= |b|
    ensures RocksAbove(a + b, |a| + k) == RocksAbove(a, |a|) + RocksAbove(b, k)
  {
    if k == 0 {
      RocksAboveAgree(a + b, a, |a|);
    } else {
      RocksAboveAppend(a, b, k - 1);
      assert (a + b)[|a| + k - 1] == b[k - 1];
    }
  }

  lemma {:induction false} RocksAboveAll(s: string)
    ensures RocksAbove(s, |s|) == Count(s, 'O')
  {
    if |s| > 0 {
      var init := s[..|s| - 1];
      RocksAboveAll(init);
      RocksAboveAgree(s, init, |s| - 1);
      assert s == init + [s[|s| - 1]];
      CountAppend(init, [s[|s| - 1]], 'O');
    }
  }

  /** RocksAbove across the seam of a concatenation. */
  lemma RocksAboveConcat(a: string, b: string, n: nat, i: nat)
    requires n == |a| <= i <= |a| + |b|
    ensures RocksAbove(a + b, i) == Count(a, 'O') + RocksAbove(b, i - n)
  {
    RocksAboveAppend(a, b, i - n);
    RocksAboveAll(a);
  }

  /** The counting step past a leading cube rock. */
  lemma WallCounts(s: string, i: nat)
    requires 0 < i <= |s| && s[0] == '#'
    requires RocksAbove(TiltLine(s[1..]), i - 1) == RocksAbove(s[1..], i - 1)
    ensures RocksAbove(TiltLine(s), i) == RocksAbove(s, i)
  {
    var t := TiltLine(s[1..]);
    assert Count("#", 'O') == 0;
    assert RocksAbove(TiltLine(s), i) == RocksAbove(t, i - 1) by {
      TiltLineWall(s);
      RocksAboveConcat("#", t, 1, i);
    }
    assert RocksAbove(s, i) == RocksAbove(s[1..], i - 1) by {
      TiltLineWall(s);
      RocksAboveConcat("#", s[1..], 1, i);
    }
  }

  /** The counting step past a leading segment: settling keeps its rocks. */
  lemma SegmentCounts(s: string, n: nat, i: nat)
    requires |s| > 0 && s[0] != '#' && n == SegLen(s) && n <= i <= |s|
    requires RocksAbove(TiltLine(s[n..]), i - n) == RocksAbove(s[n..], i - n)
    ensures RocksAbove(TiltLine(s), i) == RocksAbove(s, i)
  {
    var a, t := SettleSegment(s[..n]), TiltLine(s[n..]);
    var rocks := Count(s[..n], 'O');
    assert RocksAbove(TiltLine(s), i) == rocks + RocksAbove(t, i - n) by {
      TiltLineSegment(s, n);
      RocksAboveConcat(a, t, n, i);
    }
    assert RocksAbove(s, i) == rocks + RocksAbove(s[n..], i - n) by {
      SliceJoin(s, n);
      RocksAboveConcat(s[..n], s[n..], n, i);
    }
  }

  /** Up to every cube rock (and to the end), the tilted column holds as many
      round rocks as the original: rocks never cross a cube rock. */
  lemma {:induction false} TiltLineKeepsSegmentCounts(s: string, i: nat)
    requires i <= |s| && (i == |s| || s[i] == '#')
    ensures RocksAbove(TiltLine(s), i) == RocksAbove(s, i)
    decreases |s|
  {
    if i == 0 {
    } else if s[0] == '#' {
      assert i - 1 == |s[1..]| || s[1..][i - 1] == '#';
      TiltLineKeepsSegmentCounts(s[1..], i - 1);
      WallCounts(s, i);
    } else {
      var n := SegLen(s);
      assert i >= n;
      assert i - n == |s[n..]| || s[n..][i - n] == '#';
      TiltLineKeepsSegmentCounts(s[n..], i - n);
      SegmentCounts(s, n, i);
    }
  }

  lemma TiltLineKeepsRocks(s: string)
    ensures Count(TiltLine(s), 'O') == Count(s, 'O')
  {
    TiltLineKeepsSegmentCounts(s, |s|);
    RocksAboveAll(s);
    RocksAboveAll(TiltLine(s));
  }

  /** The first segment of "O.O#" is its first three cells. */
  lemma SegLenExample()
    ensures SegLen("O.O#") == 3
  {
    assert SegLen("O#") == 1 by { assert "O#"[1..] == "#"; }
    assert SegLen(".O#") == 2 by { assert ".O#"[1..] == "O#"; }
    assert "O.O#"[1..] == ".O#";
  }

  /** The segment "O.O" settles with both rocks first. */
  lemma SettleExample()
    ensures SettleSegment("O.O") == "OO."
  {
    assert Rocks("O") == "O" && Others("O") == "" by { assert "O"[1..] == ""; }
    assert Rocks(".O") == "O" && Others(".O") == "." by { assert ".O"[1..] == "O"; }
    assert Rocks("O.O") == "OO" && Others("O.O") == "." by { assert "O.O"[1..] == ".O"; }
  }

  lemma TiltLineExample()
    ensures TiltLine("O.O#") == "OO.#"
  {
    var s := "O.O#";
    SegLenExample();
    TiltLineSegment(s, 3);
    assert s[..3] == "O.O" && s[3..] == "#";
    SettleExample();
    TiltLineWall("#");
    assert "#"[1..] == "";
  }

  // ---------------------------------------------------------------------------
  // The platform: rows from north to south

  type Grid = seq<string>

  function Width(g: Grid): nat
  {
    if |g| == 0 then 0 else |g[0]|
  }

  predicate Rectangular(g: Grid)
  {
    forall i :: 0 <= i < |g| ==> |g[i]| == Width(g)
  }

  /** The length of the shortest row: zip(*g) stops as soon as one row runs
      out, so this is how many columns it yields. */
  function MinWidth(g: Grid): (w: nat)
    ensures forall i :: 0 <= i < |g| ==> w <= |g[i]|
    ensures |g| > 0 ==> exists i :: 0 <= i < |g| && w == |g[i]|
    ensures |g| == 0 ==> w == 0
    ensures Rectangular(g) ==> w == Width(g)
  {
    if |g| == 0 then 0
    else
      var rest := MinWidth(g[1..]);
      assert forall i :: 1 <= i < |g| ==> g[i] == g[1..][i - 1];
      if |g| == 1 || |g[0]| <= rest then |g[0]| else rest
  }

  /** Cell j of every row, north to south. */
  function Column(g: Grid, j: nat): (c: string)
    requires forall i :: 0 <= i < |g| ==> j < |g[i]|
    ensures |c| == |g| && forall i :: 0 <= i < |g| ==> c[i] == g[i][j]
  {
    seq(|g|, i requires 0 <= i < |g| => g[i][j])
  }

  /** zip(*g): its columns as strings, one for each cell of the shortest
      row; the cells of longer rows beyond it are dropped. */
  function Columns(g: Grid): (t: Grid)
    ensures |t| == MinWidth(g) && Rectangular(t)
    ensures Width(t) == if MinWidth(g) == 0 then 0 else |g|
    ensures forall j :: 0 <= j < |t| ==> t[j] == Column(g, j)
  {
    seq(MinWidth(g), j requires 0 <= j < MinWidth(g) => Column(g, j))
  }

  function TiltedColumns(g: Grid): (t: Grid)
    ensures |t| == MinWidth(g) && Rectangular(t)
    ensures Width(t) == if MinWidth(g) == 0 then 0 else |g|
    ensures forall j :: 0 <= j < |t| ==> t[j] == TiltLine(Column(g, j))
  {
    seq(MinWidth(g), j requires 0 <= j < MinWidth(g) => TiltLine(Column(g, j)))
  }

  /** tilt: every column tilted north; the result is rectangular, as wide as
      the shortest row. A platform without columns comes back empty, as
      zip(*()) has nothing to yield. */
  function Tilt(g: Grid): (r: Grid)
    ensures Rectangular(r)
    ensures MinWidth(g) == 0 ==> r == []
    ensures MinWidth(g) > 0 ==> |r| == |g| && Width(r) == MinWidth(g)
    ensures forall i, j :: 0 <= i < |g| && 0 <= j < MinWidth(g) ==> r[i][j] == TiltLine(Column(g, j))[i]
  {
    Columns(TiltedColumns(g))
  }

  /** The rows cut to the length of the shortest: what zip(*g) reads. */
  function Truncate(g: Grid): (r: Grid)
    ensures |r| == |g| && Rectangular(r) && MinWidth(r) == MinWidth(g)
    ensures forall i, j :: 0 <= i < |g| && 0 <= j < MinWidth(g) ==> r[i][j] == g[i][j]
  {
    var w := MinWidth(g);
    var r := seq(|g|, i requires 0 <= i < |g| => g[i][..w]);
    assert |g| > 0 ==> Width(r) == w;
    r
  }

  /** A truncated platform is the platform itself when it is rectangular. */
  lemma TruncateRectangular(g: Grid)
    requires Rectangular(g)
    ensures Truncate(g) == g
  {
    forall i | 0 <= i < |g| ensures Truncate(g)[i] == g[i] {
      assert g[i][..MinWidth(g)] == g[i];
    }
  }

  lemma ColumnsTruncate(g: Grid)
    ensures Columns(Truncate(g)) == Columns(g)
    ensures TiltedColumns(Truncate(g)) == TiltedColumns(g)
  {
    var t := Truncate(g);
    forall j | 0 <= j < MinWidth(g) ensures Column(t, j) == Column(g, j) {
    }
  }

  /** zip(*g) reads a ragged platform only up to its shortest row, so the
      column view, the tilt, the turn and the spin cycle of a platform are
      those of its rows cut to that length. */
  lemma ZipReadsShortest(g: Grid)
    ensures Columns(g) == Columns(Truncate(g))
    ensures Tilt(g) == Tilt(Truncate(g))
    ensures Rotate(g) == Rotate(Truncate(g))
    ensures Spin(g) == Spin(Truncate(g))
  {
    TiltTruncate(g);
    RotateTruncate(g);
    assert Quarter(g) == Quarter(Truncate(g));
  }

  lemma TiltTruncate(g: Grid)
    ensures Columns(g) == Columns(Truncate(g))
    ensures Tilt(g) == Tilt(Truncate(g))
  {
    ColumnsTruncate(g);
  }

  lemma RotateTruncate(g: Grid)
    ensures Rotate(g) == Rotate(Truncate(g))
  {
    var t := Truncate(g);
    forall j | 0 <= j < MinWidth(g) ensures Column(t, j) == Column(g, j) {
    }
  }

  lemma TiltLineDotRock()
    ensures TiltLine(".O") == "O."
  {
    assert SegLen(".O") == 2 by {
      assert ".O"[1..] == "O" && "O"[1..] == "";
    }
    TiltLineSegment(".O", 2);
    assert ".O"[..2] == ".O" && ".O"[2..] == "";
    assert SettleSegment(".O") == "O." by {
      assert Rocks("O") == "O" && Others("O") == "" by { assert "O"[1..] == ""; }
      assert ".O"[1..] == "O";
    }
  }

  lemma RaggedColumns()
    ensures TiltedColumns([".O#", "O"]) == ["O."]
  {
    var g := [".O#", "O"];
    assert MinWidth(g) == 1 by {
      assert g[1..] == ["O"];
    }
    assert Column(g, 0) == ".O";
    TiltLineDotRock();
  }

  lemma OneRowColumns()
    ensures Columns(["O."]) == ["O", "."]
  {
    var cols := ["O."];
    assert MinWidth(cols) == 2;
    assert Column(cols, 0) == "O" && Column(cols, 1) == ".";
  }

  /** A ragged platform: the second row has one cell, so only the first
      column is read; its rock rolls north and the rest of the first row is
      gone. */
  lemma RaggedTiltExample()
    ensures Tilt([".O#", "O"]) == ["O", "."]
  {
    RaggedColumns();
    OneRowColumns();
  }

  lemma TiltColumn(g: Grid, j: nat)
    requires j < MinWidth(g)
    ensures Column(Tilt(g), j) == TiltLine(Column(g, j))
  {
  }

  /** After a tilt no round rock can roll further north in any column. */
  lemma TiltSettlesColumns(g: Grid, j: nat)
    requires j < MinWidth(g)
    ensures Settled(Column(Tilt(g), j))
  {
    TiltColumn(g, j);
    TiltLineSettles(Column(g, j));
  }

  /** Within a column, up to each cube rock, the tilt keeps the number of
      round rocks. */
  lemma TiltKeepsColumnSegments(g: Grid, j: nat, i: nat)
    requires j < MinWidth(g)
    requires i <= |g| && (i == |g| || g[i][j] == '#')
    ensures RocksAbove(Column(Tilt(g), j), i) == RocksAbove(Column(g, j), i)
  {
    TiltColumn(g, j);
    TiltLineKeepsSegmentCounts(Column(g, j), i);
  }

  lemma TiltIdempotent(g: Grid)
    ensures Tilt(Tilt(g)) == Tilt(g)
  {
    var t := Tilt(g);
    if MinWidth(g) > 0 {
      forall j | 0 <= j < Width(t) ensures TiltLine(Column(t, j)) == Column(t, j) {
        TiltSettlesColumns(g, j);
        SettledIsFixed(Column(t, j));
      }
      TiltFixed(t);
    }
  }

  /** A rectangular platform whose every column is already tilted is its own tilt. */
  lemma TiltFixed(t: Grid)
    requires Rectangular(t) && Width(t) > 0
    requires forall j :: 0 <= j < Width(t) ==> TiltLine(Column(t, j)) == Column(t, j)
    ensures Tilt(t) == t
  {
    var tt := Tilt(t);
    forall i | 0 <= i < |t| ensures tt[i] == t[i] {
      forall j | 0 <= j < Width(t) ensures tt[i][j] == t[i][j] {
        assert tt[i][j] == TiltLine(Column(t, j))[i];
      }
    }
  }

  /** tuple(r[::-1] for r in zip(*g)): a quarter turn clockwise. */
  function Rotate(g: Grid): (r: Grid)
    ensures Rectangular(r) && |r| == MinWidth(g)
    ensures MinWidth(g) > 0 ==> Width(r) == |g|
    ensures forall j, k :: 0 <= j < MinWidth(g) && 0 <= k < |g| ==> r[j][k] == g[|g| - 1 - k][j]
  {
    seq(MinWidth(g), j requires 0 <= j < MinWidth(g) => Reverse(Column(g, j)))
  }

  /** r is g turned upside down and mirrored: a half turn. */
  predicate HalfTurn(r: Grid, g: Grid)
  {
    Rectangular(r) && Rectangular(g) && |r| == |g| && Width(r) == Width(g)
    && forall a, b :: 0 <= a < |g| && 0 <= b < Width(g) ==> r[a][b] == g[|g| - 1 - a][Width(g) - 1 - b]
  }

  lemma RotateTwice(g: Grid)
    requires Rectangular(g) && Width(g) > 0
    ensures HalfTurn(Rotate(Rotate(g)), g)
  {
  }

  lemma HalfTurnTwiceCell(r4: Grid, r2: Grid, g: Grid, a: nat, b: nat)
    requires HalfTurn(r4, r2) && HalfTurn(r2, g)
    requires a < |g| && b < Width(g)
    ensures r4[a][b] == g[a][b]
  {
    var h, w := |g|, Width(g);
    assert r4[a][b] == r2[h - 1 - a][w - 1 - b];
  }

  lemma HalfTurnTwice(r4: Grid, r2: Grid, g: Grid)
    requires HalfTurn(r4, r2) && HalfTurn(r2, g)
    ensures r4 == g
  {
    forall a | 0 <= a < |g| ensures r4[a] == g[a] {
      assert |r4[a]| == |g[a]| == Width(g);
      forall b | 0 <= b < Width(g) ensures r4[a][b] == g[a][b] {
        HalfTurnTwiceCell(r4, r2, g, a, b);
      }
    }
  }

  /** Four quarter turns give back the platform. */
  lemma RotateFour(g: Grid)
    requires Rectangular(g) && Width(g) > 0
    ensures Rotate(Rotate(Rotate(Rotate(g)))) == g
  {
    RotateTwice(g);
    var r2 := Rotate(Rotate(g));
    RotateTwice(r2);
    HalfTurnTwice(Rotate(Rotate(r2)), r2, g);
  }

  /** One quarter of a spin cycle: tilt north, then turn clockwise. */
  function Quarter(g: Grid): (r: Grid)
    ensures Rectangular(r)
  {
    Rotate(Tilt(g))
  }

  /** spincycle: tilt north, then three times turn and tilt, then a last turn,
      so the platform is tilted north, west, south and east in turn. */
  function Spin(g: Grid): (r: Grid)
    ensures Rectangular(r)
    ensures Rectangular(g) && Width(g) > 0 ==> SameShapeWalls(r, g)
    ensures Rectangular(g) ==> RockCount(r) == RockCount(g)
  {
    SpinKeepsWalls(g);
    SpinKeepsRocks(g);
    Quarter(Quarter(Quarter(Quarter(g))))
  }

  /** Same shape, and cube rocks in exactly the same cells. */
  predicate SameShapeWalls(a: Grid, b: Grid)
  {
    Rectangular(a) && Rectangular(b) && |a| == |b| && Width(a) == Width(b)
    && forall i, j :: 0 <= i < |a| && 0 <= j < Width(a) ==> (a[i][j] == '#' <==> b[i][j] == '#')
  }

  lemma TiltShape(g: Grid)
    requires Rectangular(g) && Width(g) > 0
    ensures SameShapeWalls(Tilt(g), g)
  {
    forall i, j | 0 <= i < |g| && 0 <= j < Width(g) ensures (Tilt(g)[i][j] == '#' <==> g[i][j] == '#') {
      assert Column(g, j)[i] == g[i][j];
    }
  }

  lemma RotateShape(a: Grid, b: Grid)
    requires SameShapeWalls(a, b)
    ensures SameShapeWalls(Rotate(a), Rotate(b))
  {
  }

  lemma SameShapeTrans(a: Grid, b: Grid, c: Grid)
    requires SameShapeWalls(a, b) && SameShapeWalls(b, c)
    ensures SameShapeWalls(a, c)
  {
  }

  lemma QuarterShape(a: Grid, b: Grid)
    requires SameShapeWalls(a, b) && Width(a) > 0
    ensures SameShapeWalls(Quarter(a), Rotate(b)) && Width(Quarter(a)) > 0
  {
    TiltShape(a);
    SameShapeTrans(Tilt(a), a, b);
    RotateShape(Tilt(a), b);
  }

  lemma SameShapeRefl(a: Grid)
    requires Rectangular(a)
    ensures SameShapeWalls(a, a)
  {
  }

  /** A spin cycle keeps the platform's shape and every cube rock in place. */
  lemma SpinKeepsWalls(g: Grid)
    ensures Rectangular(g) && Width(g) > 0 ==> SameShapeWalls(Quarter(Quarter(Quarter(Quarter(g)))), g)
  {
    if Rectangular(g) && Width(g) > 0 {
      SameShapeRefl(g);
      var q1 := Quarter(g);
      QuarterShape(g, g);
      var q2 := Quarter(q1);
      QuarterShape(q1, Rotate(g));
      var q3 := Quarter(q2);
      QuarterShape(q2, Rotate(Rotate(g)));
      QuarterShape(q3, Rotate(Rotate(Rotate(g))));
      RotateFour(g);
    }
  }

  // ---------------------------------------------------------------------------
  // Counting rocks and the load on the north beams

  /** The weight of a round rock in row i of a platform of h rows: its
      distance from the south edge for the load, 1 for counting. */
  function Weight(i: nat, h: nat, load: bool): int
  {
    if load then h - i else 1
  }

  /** The weights of the round rocks among the first n cells of a column. */
  function ColumnMass(col: string, n: nat, h: nat, load: bool): int
    requires n <= |col|
  {
    if n == 0 then 0
    else ColumnMass(col, n - 1, h, load) + (if col[n - 1] == 'O' then Weight(n - 1, h, load) else 0)
  }

  /** Column by column: the sum over the first m columns. */
  function ColMass(g: Grid, m: nat, h: nat, load: bool): int
    requires Rectangular(g) && m <= Width(g)
  {
    if m == 0 then 0 else ColMass(g, m - 1, h, load) + ColumnMass(Column(g, m - 1), |g|, h, load)
  }

  /** Row by row: over the first n rows, the row's weight times its round
      rocks among the first m cells. */
  function RowMass(g: Grid, n: nat, m: nat, h: nat, load: bool): int
    requires Rectangular(g) && n <= |g| && m <= Width(g)
  {
    if n == 0 then 0 else RowMass(g, n - 1, m, h, load) + Weight(n - 1, h, load) * RocksAbove(g[n - 1], m)
  }

  lemma {:induction false} RowMassNoColumns(g: Grid, n: nat, h: nat, load: bool)
    requires Rectangular(g) && n <= |g|
    ensures RowMass(g, n, 0, h, load) == 0
  {
    if n > 0 {
      RowMassNoColumns(g, n - 1, h, load);
    }
  }

  lemma {:induction false} RowMassStep(g: Grid, n: nat, m: nat, h: nat, load: bool)
    requires Rectangular(g) && n <= |g| && 0 < m <= Width(g)
    ensures RowMass(g, n, m, h, load) == RowMass(g, n, m - 1, h, load) + ColumnMass(Column(g, m - 1), n, h, load)
  {
    if n > 0 {
      RowMassStep(g, n - 1, m, h, load);
      var w := Weight(n - 1, h, load);
      var x := RocksAbove(g[n - 1], m - 1);
      var bit := if g[n - 1][m - 1] == 'O' then 1 else 0;
      assert RocksAbove(g[n - 1], m) == x + bit;
      assert w * (x + bit) == w * x + (if bit == 1 then w else 0);
      assert Column(g, m - 1)[n - 1] == g[n - 1][m - 1];
    }
  }

  /** Summing column by column equals summing row by row. */
  lemma {:induction false} Exchange(g: Grid, m: nat, h: nat, load: bool)
    requires Rectangular(g) && m <= Width(g)
    ensures ColMass(g, m, h, load) == RowMass(g, |g|, m, h, load)
  {
    if m == 0 {
      RowMassNoColumns(g, |g|, h, load);
    } else {
      Exchange(g, m - 1, h, load);
      RowMassStep(g, |g|, m, h, load);
    }
  }

  lemma {:induction false} ColumnMassCounts(col: string, n: nat, h: nat)
    requires n <= |col|
    ensures ColumnMass(col, n, h, false) == RocksAbove(col, n)
  {
    if n > 0 {
      ColumnMassCounts(col, n - 1, h);
    }
  }

  /** total_load: for every round rock, the number of rows minus its row
      index, summed column by column. */
  function TotalLoad(g: Grid): int
    requires Rectangular(g)
  {
    ColMass(g, Width(g), |g|, true)
  }

  /** The load row by row: each row's rocks weigh its distance from the
      south edge. */
  function RowLoad(g: Grid, n: nat): int
    requires n <= |g|
  {
    if n == 0 then 0 else RowLoad(g, n - 1) + (|g| - (n - 1)) * Count(g[n - 1], 'O')
  }

  lemma {:induction false} RowMassIsRowLoad(g: Grid, n: nat)
    requires Rectangular(g) && n <= |g|
    ensures RowMass(g, n, Width(g), |g|, true) == RowLoad(g, n)
  {
    if n > 0 {
      RowMassIsRowLoad(g, n - 1);
      RocksAboveAll(g[n - 1]);
    }
  }

  lemma LoadByRows(g: Grid)
    requires Rectangular(g)
    ensures TotalLoad(g) == RowLoad(g, |g|)
  {
    Exchange(g, Width(g), |g|, true);
    RowMassIsRowLoad(g, |g|);
  }

  /** The number of round rocks in the first n rows. */
  function RowCount(g: Grid, n: nat): nat
    requires n <= |g|
  {
    if n == 0 then 0 else RowCount(g, n - 1) + Count(g[n - 1], 'O')
  }

  function RockCount(g: Grid): nat
  {
    RowCount(g, |g|)
  }

  lemma {:induction false} RowMassIsRowCount(g: Grid, n: nat, h: nat)
    requires Rectangular(g) && n <= |g|
    ensures RowMass(g, n, Width(g), h, false) == RowCount(g, n)
  {
    if n > 0 {
      RowMassIsRowCount(g, n - 1, h);
      RocksAboveAll(g[n - 1]);
    }
  }

  /** Rows that hold as many round rocks as the columns of x hold, in total,
      as many as x. */
  lemma {:induction false} RowsMatchColumns(rows: Grid, x: Grid, m: nat)
    requires Rectangular(x) && m <= |rows| && m <= Width(x)
    requires forall j :: 0 <= j < m ==> Count(rows[j], 'O') == Count(Column(x, j), 'O')
    ensures RowCount(rows, m) == ColMass(x, m, 0, false)
  {
    if m > 0 {
      RowsMatchColumns(rows, x, m - 1);
      ColumnMassCounts(Column(x, m - 1), |x|, 0);
      RocksAboveAll(Column(x, m - 1));
    }
  }

  lemma ColumnsHoldAllRocks(x: Grid)
    requires Rectangular(x)
    ensures ColMass(x, Width(x), 0, false) == RockCount(x)
  {
    Exchange(x, Width(x), 0, false);
    RowMassIsRowCount(x, |x|, 0);
  }

  lemma {:induction false} CountReverse(s: string, c: char)
    ensures Count(Reverse(s), c) == Count(s, c)
  {
    if |s| > 0 {
      CountReverse(s[1..], c);
      assert Reverse(s) == Reverse(s[1..]) + [s[0]];
      CountAppend(Reverse(s[1..]), [s[0]], c);
    }
  }

  lemma RotateKeepsRocks(g: Grid)
    requires Rectangular(g)
    ensures RockCount(Rotate(g)) == RockCount(g)
  {
    var r := Rotate(g);
    forall j | 0 <= j < Width(g) ensures Count(r[j], 'O') == Count(Column(g, j), 'O') {
      assert r[j] == Reverse(Column(g, j));
      CountReverse(Column(g, j), 'O');
    }
    RowsMatchColumns(r, g, Width(g));
    ColumnsHoldAllRocks(g);
  }

  lemma TiltKeepsRocks(g: Grid)
    requires Rectangular(g)
    ensures RockCount(Tilt(g)) == RockCount(g)
  {
    var cols := TiltedColumns(g);
    var t := Tilt(g);
    ColumnsHoldAllRocks(g);
    if Width(g) == 0 {
      assert t == [];
    } else {
      forall i | 0 <= i < |g| ensures Count(t[i], 'O') == Count(Column(cols, i), 'O') {
        assert t[i] == Column(cols, i);
      }
      RowsMatchColumns(t, cols, |g|);
      ColumnsHoldAllRocks(cols);
      forall j | 0 <= j < Width(g) ensures Count(cols[j], 'O') == Count(Column(g, j), 'O') {
        TiltLineKeepsRocks(Column(g, j));
      }
      RowsMatchColumns(cols, g, Width(g));
    }
  }

  lemma QuarterKeepsRocks(g: Grid)
    requires Rectangular(g)
    ensures RockCount(Quarter(g)) == RockCount(g)
  {
    TiltKeepsRocks(g);
    RotateKeepsRocks(Tilt(g));
  }

  /** A spin cycle keeps the number of round rocks. */
  lemma SpinKeepsRocks(g: Grid)
    ensures Rectangular(g) ==> RockCount(Quarter(Quarter(Quarter(Quarter(g))))) == RockCount(g)
  {
    if Rectangular(g) {
      var q1 := Quarter(g);
      var q2 := Quarter(q1);
      var q3 := Quarter(q2);
      QuarterKeepsRocks(g);
      QuarterKeepsRocks(q1);
      QuarterKeepsRocks(q2);
      QuarterKeepsRocks(q3);
    }
  }


  /** n spin cycles in a row. On a rectangular platform the shape, the cube
      rocks and the number of round rocks never change; a ragged one is cut
      to its shortest row by the first cycle and is rectangular from then on. */
  function Spins(g: Grid, n: nat): (r: Grid)
    ensures n > 0 ==> Rectangular(r)
    ensures Rectangular(g) && Width(g) > 0 ==> SameShapeWalls(r, g)
    ensures Rectangular(g) ==> RockCount(r) == RockCount(g)
  {
    if n == 0 then
      if Rectangular(g) then
        SameShapeRefl(g);
        g
      else g
    else
      var p := Spins(g, n - 1);
      if Rectangular(g) && Width(g) > 0 then
        SameShapeTrans(Spin(p), p, g);
        Spin(p)
      else
        Spin(p)
  }

  /** Spinning a ragged platform is spinning its rows cut to the shortest. */
  lemma {:induction false} SpinsTruncate(g: Grid, n: nat)
    requires n > 0
    ensures Spins(g, n) == Spins(Truncate(g), n)
    decreases n
  {
    if n == 1 {
      ZipReadsShortest(g);
    } else {
      SpinsTruncate(g, n - 1);
    }
  }

  /** Every round rock weighs at least 1 and at most the number of rows. */
  lemma {:induction false} RowLoadBounds(g: Grid, n: nat)
    requires n <= |g|
    ensures RowCount(g, n) <= RowLoad(g, n) <= |g| * RowCount(g, n)
  {
    if n > 0 {
      RowLoadBounds(g, n - 1);
      var c, w := Count(g[n - 1], 'O'), |g| - (n - 1);
      MulLe(1, w, c);
      MulLe(w, |g|, c);
      MulAdd(|g|, RowCount(g, n - 1), c);
    }
  }

  lemma MulLe(a: int, b: int, c: nat)
    requires a <= b
    ensures a * c <= b * c
  {
  }

  lemma MulAdd(a: int, b: int, c: int)
    ensures a * (b + c) == a * b + a * c
  {
  }

  /** A platform with the rocks of `g`, and its rows when `g` has columns,
      has a load between the number of rocks and that times the rows of `g`. */
  lemma LoadWithin(g: Grid, t: Grid)
    requires Rectangular(g) && Rectangular(t) && RockCount(t) == RockCount(g)
    requires Width(g) > 0 ==> |t| == |g|
    ensures RockCount(g) <= TotalLoad(t) <= |g| * RockCount(g)
  {
    LoadBounds(t);
    if Width(g) == 0 {
      NoColumnsNoRocks(g, |g|);
    }
  }

  /** The load of a platform lies between its number of round rocks and that
      number times its number of rows. */
  lemma LoadBounds(t: Grid)
    ensures Rectangular(t) ==> RockCount(t) <= TotalLoad(t) <= |t| * RockCount(t)
  {
    if Rectangular(t) {
      LoadByRows(t);
      RowLoadBounds(t, |t|);
    }
  }

  /** A platform whose rows are all empty holds no rocks. */
  lemma {:induction false} NoColumnsNoRocks(g: Grid, n: nat)
    requires Rectangular(g) && Width(g) == 0 && n <= |g|
    ensures RowCount(g, n) == 0
  {
    if n > 0 {
      NoColumnsNoRocks(g, n - 1);
      assert g[n - 1] == "";
    }
  }

  /** After any number of spin cycles the rocks are those of the platform. */
  lemma SpunLoadBounds(g: Grid, n: nat)
    ensures Rectangular(g) ==> RockCount(g) <= TotalLoad(Spins(g, n)) <= |g| * RockCount(g)
  {
    if Rectangular(g) {
      var t := Spins(g, n);
      if Width(g) > 0 {
        assert SameShapeWalls(t, g);
      }
      LoadWithin(g, t);
    }
  }

  /** part_1: the load after one tilt north; a tilt moves rocks but neither
      adds nor removes any, so it is bounded by the platform's rocks. */
  function Part1(g: Grid): (r: int)
    ensures Rectangular(g) ==> RockCount(g) <= r <= |g| * RockCount(g)
  {
    var t := Tilt(g);
    if Rectangular(g) then
      TiltKeepsRocks(g);
      LoadWithin(g, t);
      TotalLoad(t)
    else
      TotalLoad(t)
  }

  /** The number of spin cycles part_2 runs before measuring. */
  function SpinCount(): nat
  {
    1000
  }

  /** part_2: the load after 1000 spin cycles, bounded in the same way since
      the cycles keep the shape and the number of rocks. */
  function Part2(g: Grid): (r: int)
    ensures Rectangular(g) ==> RockCount(g) <= r <= |g| * RockCount(g)
  {
    SpunLoadBounds(g, SpinCount());
    TotalLoad(Spins(g, SpinCount()))
  }
}
