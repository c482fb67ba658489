/** Day 10: the pipe maze. Cells link when their pipes face each other; the
    loop through the start is half as far across as it is long, and the cells
    it encloses are found by a left-to-right scan that flips at every loop
    cell opening north. */
module Day10 {
  import opened Common

  datatype Openings = Openings(north: bool, south: bool, east: bool, west: bool)

  /** The tile table: which sides of its cell each symbol opens onto. An
      unknown symbol is a missing key. */
  function Tile(c: char): Option<Openings>
  {
    match c
    case '|' => Some(Openings(true, true, false, false))
    case '-' => Some(Openings(false, false, true, true))
    case 'L' => Some(Openings(true, false, true, false))
    case 'J' => Some(Openings(true, false, false, true))
    case '7' => Some(Openings(false, true, false, true))
    case 'F' => Some(Openings(false, true, true, false))
    case '.' => Some(Openings(false, false, false, false))
    case 'S' => Some(Openings(true, true, true, true))
    case _ => None
  }

  function OpeningCount(o: Openings): nat
  {
    (if o.north then 1 else 0) + (if o.south then 1 else 0)
    + (if o.east then 1 else 0) + (if o.west then 1 else 0)
  }

  /** Eight symbols are known; every pipe opens onto exactly two sides, the
      start onto all four and ground onto none. */
  lemma TileTable(c: char)
    ensures Tile(c).Some? <==> c in "|-LJ7F.S"
    ensures c in "|-LJ7F" ==> OpeningCount(Tile(c).value) == 2
    ensures c == 'S' ==> Tile(c) == Some(Openings(true, true, true, true))
    ensures c == '.' ==> Tile(c) == Some(Openings(false, false, false, false))
  {
  }

  type Point = (int, int)

  /** The graph `parse_map` builds: a node with its openings for every cell,
      the size, and the start cell. */
  datatype PipeMap = PipeMap(rows: nat, columns: nat, open: map<Point, Openings>, start: Point)

  predicate InRange(rows: nat, columns: nat, p: Point)
  {
    0 <= p.0 < columns && 0 <= p.1 < rows
  }

  /** Every cell of the rectangle is a node and nothing else is. */
  ghost predicate WellShaped(m: PipeMap)
  {
    forall p :: p in m.open <==> InRange(m.rows, m.columns, p)
  }

  /** The lines are long enough and every symbol read is in the table. */
  predicate Readable(lines: seq<string>, rows: nat, columns: nat)
  {
    |lines| == rows
    && (forall y :: 0 <= y < rows ==> |lines[y]| >= columns)
    && (forall y, x :: 0 <= y < rows && 0 <= x < columns ==> Tile(lines[y][x]).Some?)
  }

  /** The nodes and their openings, read off the lines. */
  function Nodes(lines: seq<string>, rows: nat, columns: nat): (r: map<Point, Openings>)
    requires Readable(lines, rows, columns)
    ensures forall p :: p in r <==> InRange(rows, columns, p)
    ensures forall p :: p in r ==> InRange(rows, columns, p) && Some(r[p]) == Tile(lines[p.1][p.0])
  {
    map x, y | 0 <= x < columns && 0 <= y < rows :: (x, y) := Tile(lines[y][x]).value
  }

  /** The cells in the order `product(range(columns), range(rows))` visits
      them: column by column. */
  function CellAt(rows: nat, k: nat): Point
    requires rows > 0
  {
    (k / rows, k % rows)
  }

  /** Cell `n` of the scan is on the map and holds 'S'. */
  predicate StartAt(lines: seq<string>, rows: nat, n: nat)
    requires rows > 0
  {
    var p := CellAt(rows, n);
    p.1 < |lines| && p.0 < |lines[p.1]| && lines[p.1][p.0] == 'S'
  }

  /** The last cell holding 'S' among the first `k` cells of the scan. */
  function LastStart(lines: seq<string>, rows: nat, k: nat): (r: Option<nat>)
    requires rows > 0
    ensures r.Some? ==> r.value < k && StartAt(lines, rows, r.value)
    ensures r.Some? ==> forall n :: r.value < n < k ==> !StartAt(lines, rows, n)
    ensures r.None? ==> forall n :: 0 <= n < k ==> !StartAt(lines, rows, n)
  {
    if k == 0 then None
    else if StartAt(lines, rows, k - 1) then Some(k - 1)
    else LastStart(lines, rows, k - 1)
  }

  lemma CellAtInRange(rows: nat, columns: nat, n: nat)
    requires rows > 0 && n < rows * columns
    ensures InRange(rows, columns, CellAt(rows, n))
  {
  }

  lemma CellAtIndex(rows: nat, x: nat, y: nat)
    requires y < rows
    ensures CellAt(rows, x * rows + y) == (x, y)
    ensures forall columns: nat :: x < columns ==> x * rows + y < rows * columns
  {
    forall columns: nat | x < columns
      ensures x * rows + y < rows * columns
    {
      MulSign(columns - x, rows);
      SubtractMultiples(columns, x, rows);
    }
    DivModUnique(x * rows + y, rows, x, y);
  }

  /** `parse_map`: the size comes from the line count and the first line;
      a short line, an unknown symbol or a map without 'S' is an error, and
      with several the last one scanned is the start. */
  function ParseMap(lines: seq<string>): (r: Option<PipeMap>)
    ensures r.Some? ==>
      (|lines| > 0 && r.value.rows == |lines| && r.value.columns == |lines[0]|
       && Readable(lines, r.value.rows, r.value.columns)
       && r.value.open == Nodes(lines, r.value.rows, r.value.columns))
    ensures r.Some? ==> WellShaped(r.value) && r.value.start in r.value.open
    ensures r.Some? ==> lines[r.value.start.1][r.value.start.0] == 'S'
  {
    if |lines| == 0 || !Readable(lines, |lines|, |lines[0]|) then None
    else
      var rows, columns := |lines|, |lines[0]|;
      match LastStart(lines, rows, rows * columns)
      case None => None
      case Some(k) =>
        CellAtInRange(rows, columns, k);
        Some(PipeMap(rows, columns, Nodes(lines, rows, columns), CellAt(rows, k)))
  }

  /** The backward search finds a start exactly when the map has one. */
  lemma LastStartFindsAny(lines: seq<string>, rows: nat, columns: nat)
    requires rows > 0 && Readable(lines, rows, columns)
    ensures LastStart(lines, rows, rows * columns).None? <==>
      forall y, x :: 0 <= y < rows && 0 <= x < columns ==> lines[y][x] != 'S'
  {
    if LastStart(lines, rows, rows * columns).None? {
      forall y, x | 0 <= y < rows && 0 <= x < columns
        ensures lines[y][x] != 'S'
      {
        CellAtIndex(rows, x, y);
        var n := x * rows + y;
        assert n < rows * columns;
        assert !StartAt(lines, rows, n);
      }
    } else {
      var k := LastStart(lines, rows, rows * columns).value;
      CellAtInRange(rows, columns, k);
      var (x, y) := CellAt(rows, k);
      assert lines[y][x] == 'S';
    }
  }

  /** Parsing fails exactly on an empty map, a short line, an unknown symbol
      or a map without a start. */
  lemma ParseMapFails(lines: seq<string>)
    ensures ParseMap(lines).None? <==>
      (|lines| == 0 || !Readable(lines, |lines|, |lines[0]|)
       || forall y, x :: 0 <= y < |lines| && 0 <= x < |lines[0]| ==> lines[y][x] != 'S')
  {
    if |lines| > 0 && Readable(lines, |lines|, |lines[0]|) {
      LastStartFindsAny(lines, |lines|, |lines[0]|);
    }
  }

  // ---------------------------------------------------------------------
  // Links

  /** The opening of `o`, the openings of cell `p`, on the side facing `q`;
      false unless `q` is a neighbour of `p`. */
  function Facing(o: Openings, p: Point, q: Point): bool
  {
    if q == (p.0, p.1 - 1) then o.north
    else if q == (p.0, p.1 + 1) then o.south
    else if q == (p.0 + 1, p.1) then o.east
    else if q == (p.0 - 1, p.1) then o.west
    else false
  }

  /** `p` and `q` are nodes and each opens toward the other. */
  predicate Linked(m: PipeMap, p: Point, q: Point)
  {
    p in m.open && q in m.open && Facing(m.open[p], p, q) && Facing(m.open[q], q, p)
  }

  /** Links are undirected, join neighbours one step apart, and a vertical
      link needs a south opening above and a north opening below. */
  lemma LinkFacts(m: PipeMap, p: Point, q: Point)
    ensures Linked(m, p, q) <==> Linked(m, q, p)
    ensures Linked(m, p, q) ==> Abs(p.0 - q.0) + Abs(p.1 - q.1) == 1
    ensures q == (p.0, p.1 - 1) ==>
      (Linked(m, p, q) <==> p in m.open && q in m.open && m.open[p].north && m.open[q].south)
    ensures q == (p.0 + 1, p.1) ==>
      (Linked(m, p, q) <==> p in m.open && q in m.open && m.open[p].east && m.open[q].west)
  {
  }

  /** So the colour `(x + y) % 2` of a chessboard changes along every link. */
  lemma LinkedFlipsColour(m: PipeMap, p: Point, q: Point)
    requires Linked(m, p, q)
    ensures (p.0 + p.1) % 2 != (q.0 + q.1) % 2
  {
    LinkFacts(m, p, q);
  }

  /** A cycle of the graph: distinct cells, each linked to the next and the
      last back to the first. */
  predicate IsCycle(m: PipeMap, cyc: seq<Point>)
  {
    |cyc| >= 3
    && (forall i, j :: 0 <= i < j < |cyc| ==> cyc[i] != cyc[j])
    && (forall i :: 0 <= i < |cyc| - 1 ==> Linked(m, cyc[i], cyc[i + 1]))
    && Linked(m, cyc[|cyc| - 1], cyc[0])
  }

  lemma {:induction false} ColourAlternates(m: PipeMap, cyc: seq<Point>, i: nat)
    requires IsCycle(m, cyc) && i < |cyc|
    ensures (cyc[i].0 + cyc[i].1) % 2 == (cyc[0].0 + cyc[0].1 + i) % 2
  {
    if i > 0 {
      ColourAlternates(m, cyc, i - 1);
      LinkedFlipsColour(m, cyc[i - 1], cyc[i]);
    }
  }

  /** The grid is bipartite, so every loop has an even number of cells and
      the halving in `part_1` is exact. */
  lemma CycleEven(m: PipeMap, cyc: seq<Point>)
    requires IsCycle(m, cyc)
    ensures |cyc| % 2 == 0
  {
    var n := |cyc| - 1;
    ColourAlternates(m, cyc, n);
    LinkedFlipsColour(m, cyc[n], cyc[0]);
  }

  function Cells(cyc: seq<Point>): set<Point>
  {
    set i | 0 <= i < |cyc| :: cyc[i]
  }

  lemma {:induction false} DistinctCells(cyc: seq<Point>)
    requires forall i, j :: 0 <= i < j < |cyc| ==> cyc[i] != cyc[j]
    ensures |Cells(cyc)| == |cyc|
  {
    if |cyc| > 0 {
      var n := |cyc| - 1;
      var front := cyc[..n];
      DistinctCells(front);
      assert Cells(cyc) == Cells(front) + {cyc[n]};
      assert cyc[n] !in Cells(front);
    }
  }

  /** Half the loop, exactly: a loop on the grid has an even number of
      cells, so going both ways round the two walkers meet after half of
      them. */
  lemma HalfLoop(m: PipeMap, cyc: seq<Point>)
    requires IsCycle(m, cyc)
    ensures 2 * (|Cells(cyc)| / 2) == |cyc|
  {
    DistinctCells(cyc);
    CycleEven(m, cyc);
  }

  lemma HalfEveryLoop(loop: set<Point>)
    ensures forall m, cyc :: IsCycle(m, cyc) && Cells(cyc) == loop ==> 2 * (|loop| / 2) == |cyc|
  {
    forall m, cyc | IsCycle(m, cyc) && Cells(cyc) == loop ensures 2 * (|loop| / 2) == |cyc| {
      HalfLoop(m, cyc);
    }
  }

  /** `len(loop) // 2`: the farthest point along the loop from the start;
      for the cells of any loop on the map, twice the answer is the loop's
      length. */
  function Part1(loop: set<Point>): (r: nat)
    ensures forall m, cyc :: IsCycle(m, cyc) && Cells(cyc) == loop ==> 2 * r == |cyc|
  {
    HalfEveryLoop(loop);
    |loop| / 2
  }

  // ---------------------------------------------------------------------
  // The start tile, once the loop is known

  /** The openings of 'S' after the fix-up: a side stays open only if the
      neighbour there is on the loop and opens back toward the start. */
  function StartOpenings(m: PipeMap, loop: set<Point>): Openings
  {
    var (x, y) := m.start;
    var (n, s, e, w) := ((x, y - 1), (x, y + 1), (x + 1, y), (x - 1, y));
    Openings(
      n in loop && n in m.open && m.open[n].south,
      s in loop && s in m.open && m.open[s].north,
      e in loop && e in m.open && m.open[e].west,
      w in loop && w in m.open && m.open[w].east)
  }

  /** The graph with the start's openings fixed up. */
  function FixStart(m: PipeMap, loop: set<Point>): (r: PipeMap)
    ensures r.rows == m.rows && r.columns == m.columns && r.start == m.start
    ensures r.open.Keys == m.open.Keys
    ensures forall p :: p in m.open && p != m.start ==> r.open[p] == m.open[p]
  {
    if m.start in m.open then m.(open := m.open[m.start := StartOpenings(m, loop)]) else m
  }

  /** After the fix-up the start opens toward a cell exactly when that cell
      is on the loop and was linked to it. */
  lemma StartFixUp(m: PipeMap, loop: set<Point>, q: Point)
    requires m.start in m.open && m.open[m.start] == Openings(true, true, true, true)
    ensures m.start in FixStart(m, loop).open
    ensures Facing(FixStart(m, loop).open[m.start], m.start, q) <==> q in loop && Linked(m, m.start, q)
  {
  }

  /** The positions before and after `i` around a cycle of length `n`. */
  function Prev(i: nat, n: nat): nat
    requires i < n
  {
    if i == 0 then n - 1 else i - 1
  }

  function Next(i: nat, n: nat): nat
    requires i < n
  {
    if i == n - 1 then 0 else i + 1
  }

  /** The two neighbours of a cell along a cycle are linked to it. */
  lemma CycleNeighbours(m: PipeMap, cyc: seq<Point>, i: nat)
    requires IsCycle(m, cyc) && i < |cyc|
    ensures Linked(m, cyc[i], cyc[Next(i, |cyc|)])
    ensures Linked(m, cyc[i], cyc[Prev(i, |cyc|)])
  {
    var n := |cyc|;
    var j := Prev(i, n);
    if i > 0 {
      assert Linked(m, cyc[i - 1], cyc[i]);
    }
    LinkFacts(m, cyc[j], cyc[i]);
  }

  /** So the fix-up keeps the start open toward both of its neighbours on
      the loop. */
  lemma StartKeepsLoop(m: PipeMap, cyc: seq<Point>, i: nat)
    requires IsCycle(m, cyc) && i < |cyc| && cyc[i] == m.start
    requires m.start in m.open && m.open[m.start] == Openings(true, true, true, true)
    ensures m.start in FixStart(m, Cells(cyc)).open
    ensures Facing(FixStart(m, Cells(cyc)).open[m.start], m.start, cyc[Next(i, |cyc|)])
    ensures Facing(FixStart(m, Cells(cyc)).open[m.start], m.start, cyc[Prev(i, |cyc|)])
  {
    CycleNeighbours(m, cyc, i);
    var next, prev := cyc[Next(i, |cyc|)], cyc[Prev(i, |cyc|)];
    assert next in Cells(cyc) && prev in Cells(cyc);
    StartFixUp(m, Cells(cyc), next);
    StartFixUp(m, Cells(cyc), prev);
  }

  // ---------------------------------------------------------------------
  // The scan

  /** Loop cells opening north in row `y` left of column `x`: the walls
      crossed on the way to `(x, y)`. */
  function Crossings(m: PipeMap, loop: set<Point>, y: int, x: nat): nat
  {
    if x == 0 then 0
    else
      var p := (x - 1, y);
      Crossings(m, loop, y, x - 1) + (if p in loop && p in m.open && m.open[p].north then 1 else 0)
  }

  /** A cell is enclosed when it is a node off the loop with an odd number
      of walls to its left. */
  predicate Enclosed(m: PipeMap, loop: set<Point>, p: Point)
  {
    p in m.open && p !in loop && 0 <= p.0 && Crossings(m, loop, p.1, p.0) % 2 == 1
  }

  /** The enclosed cells of row `y` left of column `x`. */
  function EnclosedInRow(m: PipeMap, loop: set<Point>, y: int, x: nat): set<Point>
  {
    if x == 0 then {}
    else
      var p := (x - 1, y);
      EnclosedInRow(m, loop, y, x - 1) + (if Enclosed(m, loop, p) then {p} else {})
  }

  /** The enclosed cells of the rows above row `y`. */
  function EnclosedAbove(m: PipeMap, loop: set<Point>, y: nat): set<Point>
  {
    if y == 0 then {} else EnclosedAbove(m, loop, y - 1) + EnclosedInRow(m, loop, y - 1, m.columns)
  }

  lemma {:induction false} EnclosedInRowMembers(m: PipeMap, loop: set<Point>, y: int, x: nat, p: Point)
    ensures p in EnclosedInRow(m, loop, y, x) <==> p.1 == y && 0 <= p.0 < x && Enclosed(m, loop, p)
  {
    if x > 0 {
      EnclosedInRowMembers(m, loop, y, x - 1, p);
    }
  }

  lemma {:induction false} EnclosedAboveMembers(m: PipeMap, loop: set<Point>, y: nat, p: Point)
    ensures p in EnclosedAbove(m, loop, y) <==> 0 <= p.1 < y && 0 <= p.0 < m.columns && Enclosed(m, loop, p)
  {
    if y > 0 {
      EnclosedAboveMembers(m, loop, y - 1, p);
      EnclosedInRowMembers(m, loop, y - 1, m.columns, p);
    }
  }

  /** One step of the scan along row `y`. */
  lemma RowStep(m: PipeMap, loop: set<Point>, y: int, x: nat)
    requires (x, y) in m.open
    ensures Crossings(m, loop, y, x + 1)
      == Crossings(m, loop, y, x) + (if (x, y) in loop && m.open[(x, y)].north then 1 else 0)
    ensures EnclosedInRow(m, loop, y, x + 1) == EnclosedInRow(m, loop, y, x)
      + (if (x, y) !in loop && Crossings(m, loop, y, x) % 2 == 1 then {(x, y)} else {})
  {
  }

  /** `part_2`: with the start fixed up, scan each row left to right,
      collecting the cells passed while inside the loop. */
  method Part2(m: PipeMap, loop: set<Point>) returns (count: nat, insidePoints: set<Point>)
    requires WellShaped(m)
    ensures forall p :: p in insidePoints <==> Enclosed(FixStart(m, loop), loop, p)
    ensures count == |insidePoints|
  {
    var f := FixStart(m, loop);
    assert WellShaped(f);
    insidePoints := {};
    var y := 0;
    while y < m.rows
      invariant 0 <= y <= m.rows
      invariant insidePoints == EnclosedAbove(f, loop, y)
    {
      insidePoints := ScanRow(f, loop, y, insidePoints);
      y := y + 1;
    }
    forall p
      ensures p in insidePoints <==> Enclosed(f, loop, p)
    {
      EnclosedAboveMembers(f, loop, m.rows, p);
    }
    count := |insidePoints|;
  }

  /** The scan of row `y`: `inside` flips at loop cells opening north, and
      the other cells passed while inside are added. */
  method ScanRow(f: PipeMap, loop: set<Point>, y: nat, before: set<Point>) returns (after: set<Point>)
    requires WellShaped(f) && y < f.rows
    ensures after == before + EnclosedInRow(f, loop, y, f.columns)
  {
    after := before;
    var inside := false;
    var x := 0;
    while x < f.columns
      invariant 0 <= x <= f.columns
      invariant inside <==> Crossings(f, loop, y, x) % 2 == 1
      invariant after == before + EnclosedInRow(f, loop, y, x)
    {
      var here := (x, y);
      assert here in f.open by {
        assert InRange(f.rows, f.columns, here);
      }
      RowStep(f, loop, y, x);
      if here in loop {
        if f.open[here].north {
          inside := !inside;
        }
      } else if inside {
        after := after + {here};
      }
      x := x + 1;
    }
  }

  /** The flag flips exactly at loop cells opening north. */
  lemma CrossingStep(m: PipeMap, loop: set<Point>, y: int, x: nat)
    ensures Crossings(m, loop, y, x + 1) % 2 != Crossings(m, loop, y, x) % 2
        <==> (x, y) in loop && (x, y) in m.open && m.open[(x, y)].north
  {
  }

  /** Nothing in the first column is enclosed, and no loop cell is. */
  lemma EdgeNotEnclosed(m: PipeMap, loop: set<Point>, p: Point)
    ensures p.0 == 0 || p in loop ==> !Enclosed(m, loop, p)
  {
  }

  // ---------------------------------------------------------------------
  // The first example: a square loop around one cell

  lemma ExampleParse()
    ensures ParseMap(["-S", "F7"]) == Some(PipeMap(2, 2, Nodes(["-S", "F7"], 2, 2), (1, 0)))
  {
    assert Readable(["-S", "F7"], 2, 2);
    assert LastStart(["-S", "F7"], 2, 4) == Some(2);
  }

  function Square(): seq<string>
  {
    [".....", ".S-7.", ".|.|.", ".L-J.", "....."]
  }

  function SquareMap(): PipeMap
    requires Readable(Square(), 5, 5)
  {
    PipeMap(5, 5, Nodes(Square(), 5, 5), (1, 1))
  }

  function SquareLoop(): seq<Point>
  {
    [(1, 1), (2, 1), (3, 1), (3, 2), (3, 3), (2, 3), (1, 3), (1, 2)]
  }

  lemma SquareReadable()
    ensures Readable(Square(), 5, 5)
  {
  }

  /** The openings of the loop cells of the square. */
  predicate SquareOpen(m: PipeMap)
  {
    var o := m.open;
    (1, 1) in o && o[(1, 1)] == Openings(true, true, true, true)
    && (2, 1) in o && o[(2, 1)] == Openings(false, false, true, true)
    && (3, 1) in o && o[(3, 1)] == Openings(false, true, false, true)
    && (3, 2) in o && o[(3, 2)] == Openings(true, true, false, false)
    && (3, 3) in o && o[(3, 3)] == Openings(true, false, false, true)
    && (2, 3) in o && o[(2, 3)] == Openings(false, false, true, true)
    && (1, 3) in o && o[(1, 3)] == Openings(true, false, true, false)
    && (1, 2) in o && o[(1, 2)] == Openings(true, true, false, false)
  }

  lemma SquareOpens()
    ensures Readable(Square(), 5, 5) && SquareOpen(SquareMap())
  {
    SquareReadable();
    var lines := Square();
    var o := SquareMap().open;
    assert lines[1][1] == 'S' && lines[1][2] == '-' && lines[1][3] == '7';
    assert lines[2][1] == '|' && lines[2][3] == '|';
    assert lines[3][1] == 'L' && lines[3][2] == '-' && lines[3][3] == 'J';
    assert InRange(5, 5, (1, 1)) && InRange(5, 5, (2, 1)) && InRange(5, 5, (3, 1));
    assert InRange(5, 5, (1, 2)) && InRange(5, 5, (3, 2));
    assert InRange(5, 5, (1, 3)) && InRange(5, 5, (2, 3)) && InRange(5, 5, (3, 3));
    assert Some(o[(1, 1)]) == Tile('S') && Some(o[(2, 1)]) == Tile('-') && Some(o[(3, 1)]) == Tile('7');
    assert Some(o[(1, 2)]) == Tile('|') && Some(o[(3, 2)]) == Tile('|');
    assert Some(o[(1, 3)]) == Tile('L') && Some(o[(2, 3)]) == Tile('-') && Some(o[(3, 3)]) == Tile('J');
  }

  lemma SquareDistinct()
    ensures forall i, j :: 0 <= i < j < |SquareLoop()| ==> SquareLoop()[i] != SquareLoop()[j]
  {
    var c := SquareLoop();
    forall i, j | 0 <= i < j < |c|
      ensures c[i] != c[j]
    {
      assert c[i].0 + 5 * c[i].1 != c[j].0 + 5 * c[j].1 by {
        var key := [6, 7, 8, 13, 18, 17, 16, 11];
        assert forall k :: 0 <= k < 8 ==> c[k].0 + 5 * c[k].1 == key[k];
      }
    }
  }

  lemma SquareCycle(m: PipeMap)
    requires SquareOpen(m)
    ensures IsCycle(m, SquareLoop())
  {
    assert Linked(m, (1, 1), (2, 1)) && Linked(m, (2, 1), (3, 1)) && Linked(m, (3, 1), (3, 2));
    assert Linked(m, (3, 2), (3, 3)) && Linked(m, (3, 3), (2, 3)) && Linked(m, (2, 3), (1, 3));
    assert Linked(m, (1, 3), (1, 2)) && Linked(m, (1, 2), (1, 1));
    SquareDistinct();
    var c := SquareLoop();
    forall i | 0 <= i < |c| - 1
      ensures Linked(m, c[i], c[i + 1])
    {
      if i == 0 { assert c[0] == (1, 1) && c[1] == (2, 1); }
      else if i == 1 { assert c[1] == (2, 1) && c[2] == (3, 1); }
      else if i == 2 { assert c[2] == (3, 1) && c[3] == (3, 2); }
      else if i == 3 { assert c[3] == (3, 2) && c[4] == (3, 3); }
      else if i == 4 { assert c[4] == (3, 3) && c[5] == (2, 3); }
      else if i == 5 { assert c[5] == (2, 3) && c[6] == (1, 3); }
      else { assert c[6] == (1, 3) && c[7] == (1, 2); }
    }
  }

  /** The loop has eight cells, so the farthest is four steps away. */
  lemma ExampleSquareLoop()
    ensures Readable(Square(), 5, 5) && IsCycle(SquareMap(), SquareLoop())
    ensures Part1(Cells(SquareLoop())) == 4
  {
    SquareOpens();
    SquareCycle(SquareMap());
    HalfLoop(SquareMap(), SquareLoop());
  }

  /** A row with no loop cells left of `x` has no walls there. */
  lemma {:induction false} NoWalls(m: PipeMap, loop: set<Point>, y: int, x: nat)
    requires forall x' :: 0 <= x' < x ==> (x', y) !in loop
    ensures Crossings(m, loop, y, x) == 0
  {
    if x > 0 {
      NoWalls(m, loop, y, x - 1);
    }
  }

  function SquareLoopCells(): set<Point>
  {
    {(1, 1), (2, 1), (3, 1), (3, 2), (3, 3), (2, 3), (1, 3), (1, 2)}
  }

  /** The north openings of the loop cells once the start is an 'F'. */
  predicate SquareNorths(f: PipeMap)
  {
    var o := f.open;
    (1, 1) in o && !o[(1, 1)].north && (2, 1) in o && !o[(2, 1)].north
    && (3, 1) in o && !o[(3, 1)].north && (3, 2) in o && o[(3, 2)].north
    && (3, 3) in o && o[(3, 3)].north && (2, 3) in o && !o[(2, 3)].north
    && (1, 3) in o && o[(1, 3)].north && (1, 2) in o && o[(1, 2)].north
  }

  /** Only the west and east sides of the square count as walls. */
  lemma SquareWalls(f: PipeMap)
    requires SquareNorths(f)
    ensures var loop := SquareLoopCells();
      Crossings(f, loop, 1, 1) == 0 && Crossings(f, loop, 1, 2) == 0
      && Crossings(f, loop, 1, 3) == 0 && Crossings(f, loop, 1, 4) == 0
      && Crossings(f, loop, 2, 1) == 0 && Crossings(f, loop, 2, 2) == 1
      && Crossings(f, loop, 2, 3) == 1 && Crossings(f, loop, 2, 4) == 2
      && Crossings(f, loop, 3, 1) == 0 && Crossings(f, loop, 3, 2) == 1
      && Crossings(f, loop, 3, 3) == 1 && Crossings(f, loop, 3, 4) == 2
  {
    var loop := SquareLoopCells();
    assert (0, 1) !in loop && (0, 2) !in loop && (0, 3) !in loop;
    assert Crossings(f, loop, 1, 1) == 0;
    assert Crossings(f, loop, 1, 2) == 0;
    assert Crossings(f, loop, 1, 3) == 0;
    assert Crossings(f, loop, 1, 4) == 0;
    assert Crossings(f, loop, 2, 1) == 0;
    assert Crossings(f, loop, 2, 2) == 1;
    assert Crossings(f, loop, 2, 3) == 1;
    assert Crossings(f, loop, 2, 4) == 2;
    assert Crossings(f, loop, 3, 1) == 0;
    assert Crossings(f, loop, 3, 2) == 1;
    assert Crossings(f, loop, 3, 3) == 1;
    assert Crossings(f, loop, 3, 4) == 2;
  }

  /** With the start fixed up as an 'F', only the middle cell has an odd
      number of walls to its left. */
  lemma SquareEnclosed(m: PipeMap)
    requires SquareOpen(m) && m.start == (1, 1)
    requires forall p :: p in m.open <==> InRange(5, 5, p)
    ensures FixStart(m, SquareLoopCells()).open[(1, 1)] == Openings(false, true, true, false)
    ensures forall p :: Enclosed(FixStart(m, SquareLoopCells()), SquareLoopCells(), p) <==> p == (2, 2)
  {
    var loop := SquareLoopCells();
    var f := FixStart(m, loop);
    assert f.open[(1, 1)] == Openings(false, true, true, false);
    assert f.open[(1, 2)] == m.open[(1, 2)] && f.open[(3, 2)] == m.open[(3, 2)];
    assert f.open[(1, 3)] == m.open[(1, 3)] && f.open[(3, 3)] == m.open[(3, 3)];
    assert f.open[(2, 1)] == m.open[(2, 1)] && f.open[(3, 1)] == m.open[(3, 1)];
    assert f.open[(2, 3)] == m.open[(2, 3)];
    SquareWalls(f);
    forall p | p != (2, 2)
      ensures !Enclosed(f, loop, p)
    {
      var (x, y) := p;
      if InRange(5, 5, p) {
        if y == 0 || y == 4 {
          NoWalls(f, loop, y, x);
        } else if y == 1 {
          assert Crossings(f, loop, y, x) == 0;
        } else if x == 2 {
          assert p in loop;
        }
      } else {
        assert p !in m.open;
      }
    }
    assert Enclosed(f, loop, (2, 2));
  }

  /** `part_2` on the square counts one enclosed cell. */
  method ExampleSquarePart2() returns (count: nat)
    ensures count == 1
  {
    SquareOpens();
    var m := SquareMap();
    SquareEnclosed(m);
    var points;
    count, points := Part2(m, SquareLoopCells());
    assert points == {(2, 2)};
  }
}
