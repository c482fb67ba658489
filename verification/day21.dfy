/** Day 21: the cells an elf can stand on after exactly `n` steps through a
    garden, on the map itself and on the map repeated without end. */
module Day21 {
  import opened Common

  type Point = (int, int)

  function Add(p: Point, d: Point): Point
  {
    (p.0 + d.0, p.1 + d.1)
  }

  /** `directions = 1j, -1j, 1, -1`. */
  function Dirs(): seq<Point>
  {
    [(0, 1), (0, -1), (1, 0), (-1, 0)]
  }

  /** One orthogonal step apart. */
  predicate Adjacent(p: Point, q: Point)
  {
    Abs(q.0 - p.0) + Abs(q.1 - p.1) == 1
  }

  lemma DirsAdjacent(p: Point, q: Point)
    ensures Adjacent(p, q) <==> exists d :: d in Dirs() && q == Add(p, d)
  {
    if Adjacent(p, q) {
      var d := (q.0 - p.0, q.1 - p.1);
      assert d in Dirs() && q == Add(p, d);
    }
  }

  // ---------------------------------------------------------------------
  // Reading the map

  /** The cells of `line` (row `y`) left of column `x` that are not rocks,
      left to right. */
  function OpenRow(line: string, y: int, x: nat): seq<Point>
    requires x <= |line|
  {
    if x == 0 then [] else OpenRow(line, y, x - 1) + (if line[x - 1] != '#' then [(x - 1, y)] else [])
  }

  /** The cells of the first `k` lines that are not rocks, row by row. */
  function OpenList(lines: seq<string>, k: nat): seq<Point>
    requires k <= |lines|
  {
    if k == 0 then [] else OpenList(lines, k - 1) + OpenRow(lines[k - 1], k - 1, |lines[k - 1]|)
  }

  lemma {:induction false} OpenRowMembers(line: string, y: int, x: nat, p: Point)
    requires x <= |line|
    ensures p in OpenRow(line, y, x) <==> p.1 == y && 0 <= p.0 < x && line[p.0] != '#'
  {
    if x > 0 {
      OpenRowMembers(line, y, x - 1, p);
    }
  }

  lemma {:induction false} OpenListMembers(lines: seq<string>, k: nat, p: Point)
    requires k <= |lines|
    ensures p in OpenList(lines, k) <==> 0 <= p.1 < k && 0 <= p.0 < |lines[p.1]| && lines[p.1][p.0] != '#'
  {
    if k > 0 {
      OpenListMembers(lines, k - 1, p);
      OpenRowMembers(lines[k - 1], k - 1, |lines[k - 1]|, p);
    }
  }

  /** `data`: every cell that is not a rock ('S' included). */
  function Garden(lines: seq<string>): (data: set<Point>)
    ensures forall p :: p in data <==> 0 <= p.1 < |lines| && 0 <= p.0 < |lines[p.1]| && lines[p.1][p.0] != '#'
  {
    var cells := OpenList(lines, |lines|);
    OpenListAll(lines);
    set p | p in cells
  }

  lemma OpenListAll(lines: seq<string>)
    ensures forall p :: (p in OpenList(lines, |lines|)
                         <==> 0 <= p.1 < |lines| && 0 <= p.0 < |lines[p.1]| && lines[p.1][p.0] != '#')
  {
    forall p
      ensures p in OpenList(lines, |lines|) <==> 0 <= p.1 < |lines| && 0 <= p.0 < |lines[p.1]| && lines[p.1][p.0] != '#'
    {
      OpenListMembers(lines, |lines|, p);
    }
  }

  function Xs(cells: seq<Point>): seq<int>
  {
    seq(|cells|, i requires 0 <= i < |cells| => cells[i].0)
  }

  function Ys(cells: seq<Point>): seq<int>
  {
    seq(|cells|, i requires 0 <= i < |cells| => cells[i].1)
  }

  /** One past the largest column and row holding an open cell: `w` and `h`
      of `part_2`. The maximum of an empty set is Python's `ValueError`:
      `None`. */
  function Extent(lines: seq<string>): (r: Option<(nat, nat)>)
    ensures r.None? <==> |Garden(lines)| == 0
    ensures r.Some? ==> forall p :: p in Garden(lines) ==> p.0 < r.value.0 && p.1 < r.value.1
    ensures r.Some? ==> exists p :: p in Garden(lines) && p.0 == r.value.0 - 1
    ensures r.Some? ==> exists p :: p in Garden(lines) && p.1 == r.value.1 - 1
  {
    var cells := OpenList(lines, |lines|);
    var data := Garden(lines);
    if |cells| == 0 then
      assert data == {};
      None
    else
      var mx, my := Max(Xs(cells)), Max(Ys(cells));
      assert cells[0] in data;
      forall p | p in data
        ensures p.0 <= mx && p.1 <= my
      {
        var i :| 0 <= i < |cells| && cells[i] == p;
        assert Xs(cells)[i] == p.0 && Ys(cells)[i] == p.1;
      }
      var i :| 0 <= i < |cells| && Xs(cells)[i] == mx;
      var j :| 0 <= j < |cells| && Ys(cells)[j] == my;
      assert cells[i] in data && cells[j] in data;
      Some((mx + 1, my + 1))
  }

  /** "S is always in the dead center": half the extent, rounded down. */
  function Start(w: nat, h: nat): Point
  {
    (w / 2, h / 2)
  }

  // ---------------------------------------------------------------------
  // Stepping

  /** The garden the elf walks: the map itself, or (for `part_2`) the map
      repeated in every direction, looked up modulo its extent. */
  datatype Plot = Bounded(data: set<Point>) | Wrapped(data: set<Point>, w: nat, h: nat)

  predicate Open(g: Plot, p: Point)
  {
    match g
    case Bounded(data) => p in data
    case Wrapped(data, w, h) => w > 0 && h > 0 && (p.0 % w, p.1 % h) in data
  }

  /** One step: every open orthogonal neighbour of a cell in `dest`. */
  function Step(g: Plot, dest: set<Point>): set<Point>
  {
    set z, d | z in dest && d in Dirs() && Open(g, Add(z, d)) :: Add(z, d)
  }

  /** The new set is exactly the open cells next to some cell of the old. */
  lemma StepMembers(g: Plot, dest: set<Point>, q: Point)
    ensures q in Step(g, dest) <==> Open(g, q) && exists z :: z in dest && Adjacent(z, q)
  {
    if Open(g, q) && exists z :: z in dest && Adjacent(z, q) {
      var z :| z in dest && Adjacent(z, q);
      DirsAdjacent(z, q);
      var d :| d in Dirs() && q == Add(z, d);
      assert q in Step(g, dest);
    }
    if q in Step(g, dest) {
      var z, d :| z in dest && d in Dirs() && Open(g, Add(z, d)) && q == Add(z, d);
      DirsAdjacent(z, q);
    }
  }

  /** `destinations` after `n` passes of the loop. */
  function Iterate(g: Plot, dest: set<Point>, n: nat): set<Point>
  {
    if n == 0 then dest else Step(g, Iterate(g, dest, n - 1))
  }

  /** How many cells are reached in exactly `n` steps. */
  function Reached(g: Plot, s: Point, n: nat): nat
  {
    |Iterate(g, {s}, n)|
  }

  /** A walk: each cell after the first is open and next to the one before. */
  ghost predicate IsWalk(g: Plot, path: seq<Point>)
  {
    |path| > 0 && forall i :: 0 < i < |path| ==> Adjacent(path[i - 1], path[i]) && Open(g, path[i])
  }

  /** Every cell reached after `n` steps ends a walk of `n` steps from the
      start. */
  lemma {:induction false} ReachedByWalk(g: Plot, s: Point, n: nat, q: Point) returns (path: seq<Point>)
    requires q in Iterate(g, {s}, n)
    ensures IsWalk(g, path) && |path| == n + 1 && path[0] == s && path[n] == q
  {
    if n == 0 {
      path := [s];
    } else {
      var prev := Iterate(g, {s}, n - 1);
      StepMembers(g, prev, q);
      var z :| z in prev && Adjacent(z, q);
      var front := ReachedByWalk(g, s, n - 1, z);
      path := front + [q];
      forall i | 0 < i < |path|
        ensures Adjacent(path[i - 1], path[i]) && Open(g, path[i])
      {
        if i < n {
          assert path[i - 1] == front[i - 1] && path[i] == front[i];
        }
      }
    }
  }

  /** The end of every walk of `n` steps from the start is reached after
      `n` steps. */
  lemma {:induction false} WalkReaches(g: Plot, s: Point, path: seq<Point>)
    requires IsWalk(g, path) && path[0] == s
    ensures path[|path| - 1] in Iterate(g, {s}, |path| - 1)
    decreases |path|
  {
    if |path| > 1 {
      var front := path[..|path| - 1];
      WalkFront(g, path);
      WalkReaches(g, s, front);
      StepMembers(g, Iterate(g, {s}, |path| - 2), path[|path| - 1]);
    }
  }

  lemma WalkFront(g: Plot, path: seq<Point>)
    requires IsWalk(g, path) && |path| > 1
    ensures IsWalk(g, path[..|path| - 1])
  {
    var front := path[..|path| - 1];
    forall i | 0 < i < |front|
      ensures Adjacent(front[i - 1], front[i]) && Open(g, front[i])
    {
      assert front[i - 1] == path[i - 1] && front[i] == path[i];
    }
  }

  /** A walk of `k` steps ends `k` or fewer steps from where it began, at a
      distance with the parity of `k`. */
  lemma {:induction false} WalkParity(g: Plot, path: seq<Point>)
    requires IsWalk(g, path)
    ensures Dist(path[0], path[|path| - 1]) <= |path| - 1
    ensures Dist(path[0], path[|path| - 1]) % 2 == (|path| - 1) % 2
    decreases |path|
  {
    if |path| > 1 {
      var front := path[..|path| - 1];
      WalkFront(g, path);
      WalkParity(g, front);
      var s, z, q := path[0], path[|path| - 2], path[|path| - 1];
      assert front[0] == s && front[|front| - 1] == z;
      assert Adjacent(z, q);
      AdjacentDist(s, z, q);
      ParityFlips(Dist(s, q), Dist(s, z), |front| - 1);
    }
  }

  /** A cell reached after `n` steps is `n` steps or fewer from the start
      and has the parity of `n`. */
  lemma ReachedParity(g: Plot, s: Point, n: nat, q: Point)
    requires q in Iterate(g, {s}, n)
    ensures Dist(s, q) <= n && Dist(s, q) % 2 == n % 2
  {
    var path := ReachedByWalk(g, s, n, q);
    WalkParity(g, path);
  }

  lemma ParityFlips(a: nat, b: nat, m: nat)
    requires a == b + 1 || a + 1 == b
    requires b % 2 == m % 2
    ensures a % 2 == (m + 1) % 2
  {
    if a == b + 1 {
      DivMod(b, 2);
    } else {
      DivMod(a, 2);
    }
  }

  /** Taxicab distance. */
  function Dist(p: Point, q: Point): nat
  {
    Abs(q.0 - p.0) + Abs(q.1 - p.1)
  }

  /** One step changes the distance from a fixed cell by exactly one. */
  lemma AdjacentDist(s: Point, z: Point, q: Point)
    requires Adjacent(z, q)
    ensures Dist(s, q) == Dist(s, z) + 1 || Dist(s, q) + 1 == Dist(s, z)
  {
  }

  /** On the map itself, every cell reached after at least one step is open. */
  lemma ReachedIsOpen(data: set<Point>, s: Point, n: nat)
    requires n > 0
    ensures Iterate(Bounded(data), {s}, n) <= data
  {
    forall q | q in Iterate(Bounded(data), {s}, n)
      ensures q in data
    {
      StepMembers(Bounded(data), Iterate(Bounded(data), {s}, n - 1), q);
    }
  }

  // ---------------------------------------------------------------------
  // Part 1

  /** `part_1`: how many cells can be reached in exactly `steps` steps. */
  function Part1(lines: seq<string>, steps: nat): Option<nat>
  {
    var e := Extent(lines);
    if e.None? then None
    else Some(|Iterate(Bounded(Garden(lines)), {Start(e.value.0, e.value.1)}, steps)|)
  }

  /** `part_1` fails exactly on a map without open cells, and after at least
      one step counts at most the open cells of the map. */
  lemma Part1Bounded(lines: seq<string>, steps: nat)
    ensures Part1(lines, steps).None? <==> |Garden(lines)| == 0
    ensures steps > 0 && Part1(lines, steps).Some? ==> Part1(lines, steps).value <= |Garden(lines)|
  {
    var e := Extent(lines);
    if e.Some? && steps > 0 {
      var data := Garden(lines);
      ReachedIsOpen(data, Start(e.value.0, e.value.1), steps);
      SubsetSize(Iterate(Bounded(data), {Start(e.value.0, e.value.1)}, steps), data);
    }
  }

  /** On a map whose last row and column hold an open cell the start is the
      centre cell. */
  lemma StartIsCentre(lines: seq<string>, width: nat, x: nat, y: nat)
    requires |lines| > 0 && forall k :: 0 <= k < |lines| ==> |lines[k]| == width
    requires x < width && lines[|lines| - 1][x] != '#'
    requires y < |lines| && width > 0 && lines[y][width - 1] != '#'
    ensures Extent(lines) == Some((width, |lines|))
  {
    var data := Garden(lines);
    assert (x, |lines| - 1) in data && (width - 1, y) in data;
    var e := Extent(lines);
    var p :| p in data && p.0 == e.value.0 - 1;
    var q :| q in data && q.1 == e.value.1 - 1;
    assert p.0 < width && q.1 < |lines|;
    assert e.value.0 == width;
    assert e.value.1 == |lines|;
  }

  // ---------------------------------------------------------------------
  // Part 2

  /** `a0 + a1*n + (n*(n-1)//2)*(a2-a1)` with `a0`, `a1`, `a2` the first
      sample and the first two differences. */
  function Interpolate(y0: int, y1: int, y2: int, n: nat): int
  {
    y0 + (y1 - y0) * n + (n * (n - 1) / 2) * ((y2 - y1) - (y1 - y0))
  }

  /** The polynomial passes through the three samples. */
  lemma InterpolateFits(y0: int, y1: int, y2: int)
    ensures Interpolate(y0, y1, y2, 0) == y0
    ensures Interpolate(y0, y1, y2, 1) == y1
    ensures Interpolate(y0, y1, y2, 2) == y2
  {
  }

  lemma {:induction false} ConsecutiveEven(n: nat)
    ensures (n * (n - 1)) % 2 == 0 && 2 * (n * (n - 1) / 2) == n * (n - 1)
  {
    if n > 0 {
      ConsecutiveEven(n - 1);
      assert n * (n - 1) == (n - 1) * (n - 2) + 2 * (n - 1);
      DivModUnique(n * (n - 1), 2, (n - 1) * (n - 2) / 2 + (n - 1), 0);
    }
  }

  /** The floor division is exact and the second difference of the values
      is constant: the interpolant is quadratic in `n`. */
  lemma InterpolateQuadratic(y0: int, y1: int, y2: int, n: nat)
    ensures Interpolate(y0, y1, y2, n + 2) - 2 * Interpolate(y0, y1, y2, n + 1) + Interpolate(y0, y1, y2, n)
      == (y2 - y1) - (y1 - y0)
  {
    ConsecutiveEven(n);
    ConsecutiveEven(n + 1);
    ConsecutiveEven(n + 2);
    var c := (y2 - y1) - (y1 - y0);
    var t0, t1, t2 := n * (n - 1) / 2, (n + 1) * n / 2, (n + 2) * (n + 1) / 2;
    assert 2 * t2 - 2 * 2 * t1 + 2 * t0 == 2 by {
      assert (n + 2) * (n + 1) - 2 * ((n + 1) * n) + n * (n - 1) == 2;
    }
    assert t2 - 2 * t1 + t0 == 1;
    assert t2 * c - 2 * (t1 * c) + t0 * c == (t2 - 2 * t1 + t0) * c;
  }

  /** The three sample points `steps % w`, one grid width on and two. */
  function SamplePoints(steps: nat, w: nat): (x: seq<nat>)
    requires w > 0
    ensures |x| == 3 && x[0] < w && forall i, j :: 0 <= i < j < |x| ==> x[i] < x[j]
  {
    [steps % w, steps % w + w, steps % w + 2 * w]
  }

  /** `part_2`'s sampling loop as written, for at most `fuel` passes: the
      counter starts at 1 and the set is stepped before each test, so a
      sample point of 0 is never met. */
  function SampleAsWritten(g: Plot, dest: set<Point>, xs: seq<nat>, ys: seq<nat>, xn: nat, fuel: nat)
    : (r: Option<seq<nat>>)
    ensures r.Some? ==> |r.value| == |xs|
    decreases fuel
  {
    if fuel == 0 then None
    else
      var next := Step(g, dest);
      var ys' := if xn in xs then ys + [|next|] else ys;
      if |ys'| == |xs| then Some(ys') else SampleAsWritten(g, next, xs, ys', xn + 1, fuel - 1)
  }

  /** Stepping first and then n times is stepping n + 1 times. */
  lemma {:induction false} IterateShift(g: Plot, dest: set<Point>, n: nat)
    ensures Iterate(g, Step(g, dest), n) == Iterate(g, dest, n + 1)
  {
    if n > 0 {
      IterateShift(g, dest, n - 1);
    }
  }

  /** The loop as written only appends to the samples it has taken. */
  lemma {:induction false} SampleAsWrittenKeeps(g: Plot, dest: set<Point>, xs: seq<nat>, ys: seq<nat>, xn: nat, fuel: nat)
    requires |ys| < |xs|
    requires SampleAsWritten(g, dest, xs, ys, xn, fuel).Some?
    ensures SampleAsWritten(g, dest, xs, ys, xn, fuel).value[..|ys|] == ys
    decreases fuel
  {
    var next := Step(g, dest);
    var ys' := if xn in xs then ys + [|next|] else ys;
    if |ys'| < |xs| {
      SampleAsWrittenKeeps(g, next, xs, ys', xn + 1, fuel - 1);
      assert ys'[..|ys|] == ys;
    }
  }

  /** Counts after the sample points from `k` on, `dest` being the set
      after `xn - 1` steps. */
  ghost predicate CountsFrom(g: Plot, dest: set<Point>, xs: seq<nat>, xn: nat, k: nat, r: seq<nat>)
    requires |r| == |xs|
  {
    forall i :: k <= i < |xs| ==> xn <= xs[i] + 1 && r[i] == |Iterate(g, dest, xs[i] - xn + 1)|
  }

  /** Counts taken one step later are the same counts. */
  lemma CountsShift(g: Plot, dest: set<Point>, xs: seq<nat>, xn: nat, k: nat, r: seq<nat>)
    requires |r| == |xs| && 1 <= xn
    requires forall i :: k <= i < |xs| ==> xn <= xs[i]
    requires CountsFrom(g, Step(g, dest), xs, xn + 1, k, r)
    ensures CountsFrom(g, dest, xs, xn, k, r)
  {
    forall i | k <= i < |xs|
      ensures r[i] == |Iterate(g, dest, xs[i] - xn + 1)|
    {
      IterateShift(g, dest, xs[i] - xn);
    }
  }

  /** A counter strictly between two consecutive sample points is none. */
  lemma NotASamplePoint(xs: seq<nat>, k: nat, xn: nat)
    requires forall i, j :: 0 <= i < j < |xs| ==> xs[i] < xs[j]
    requires k < |xs| && xn < xs[k] && (k > 0 ==> xs[k - 1] < xn)
    ensures xn !in xs
  {
    forall i | 0 <= i < |xs| ensures xs[i] != xn {
      if i < k {
        assert xs[i] <= xs[k - 1];
      }
    }
  }

  /** At a sample point the count after it is appended and the later
      samples are those of the next pass. */
  lemma SampleTaken(g: Plot, dest: set<Point>, xs: seq<nat>, ys: seq<nat>, xn: nat, fuel: nat)
    requires 1 <= xn && |ys| + 1 < |xs| && xn == xs[|ys|] && fuel > 0
    requires SampleAsWritten(g, dest, xs, ys, xn, fuel).Some?
    requires forall i :: |ys| < i < |xs| ==> xn < xs[i]
    requires var r' := SampleAsWritten(g, Step(g, dest), xs, ys + [|Step(g, dest)|], xn + 1, fuel - 1);
      r'.Some? && r'.value[..|ys| + 1] == ys + [|Step(g, dest)|] &&
      CountsFrom(g, Step(g, dest), xs, xn + 1, |ys| + 1, r'.value)
    ensures CountsFrom(g, dest, xs, xn, |ys|, SampleAsWritten(g, dest, xs, ys, xn, fuel).value)
  {
    var next := Step(g, dest);
    var k := |ys|;
    var r := SampleAsWritten(g, dest, xs, ys, xn, fuel).value;
    assert r == SampleAsWritten(g, next, xs, ys + [|next|], xn + 1, fuel - 1).value;
    assert r[k] == (ys + [|next|])[k];
    assert Iterate(g, dest, 1) == next;
    CountsShift(g, dest, xs, xn, k + 1, r);
  }

  /** Between sample points the later samples are those of the next pass. */
  lemma SampleSkipped(g: Plot, dest: set<Point>, xs: seq<nat>, ys: seq<nat>, xn: nat, fuel: nat)
    requires 1 <= xn && |ys| < |xs| && xn !in xs && fuel > 0
    requires SampleAsWritten(g, dest, xs, ys, xn, fuel).Some?
    requires forall i :: |ys| <= i < |xs| ==> xn < xs[i]
    requires var r' := SampleAsWritten(g, Step(g, dest), xs, ys, xn + 1, fuel - 1);
      r'.Some? && CountsFrom(g, Step(g, dest), xs, xn + 1, |ys|, r'.value)
    ensures CountsFrom(g, dest, xs, xn, |ys|, SampleAsWritten(g, dest, xs, ys, xn, fuel).value)
  {
    var r := SampleAsWritten(g, dest, xs, ys, xn, fuel).value;
    assert r == SampleAsWritten(g, Step(g, dest), xs, ys, xn + 1, fuel - 1).value;
    CountsShift(g, dest, xs, xn, |ys|, r);
  }

  /** While the next sample point has not been passed, every later sample
      the loop as written takes is the count after that sample point. */
  lemma {:induction false} SampleAsWrittenCounts(g: Plot, dest: set<Point>, xs: seq<nat>, ys: seq<nat>, xn: nat, fuel: nat)
    requires forall i, j :: 0 <= i < j < |xs| ==> xs[i] < xs[j]
    requires 1 <= xn && |ys| < |xs| && xn <= xs[|ys|] && (|ys| > 0 ==> xs[|ys| - 1] < xn)
    requires SampleAsWritten(g, dest, xs, ys, xn, fuel).Some?
    ensures CountsFrom(g, dest, xs, xn, |ys|, SampleAsWritten(g, dest, xs, ys, xn, fuel).value)
    decreases fuel
  {
    var next := Step(g, dest);
    var k := |ys|;
    if xn == xs[k] {
      var ys' := ys + [|next|];
      if |ys'| < |xs| {
        SampleAsWrittenCounts(g, next, xs, ys', xn + 1, fuel - 1);
        SampleAsWrittenKeeps(g, next, xs, ys', xn + 1, fuel - 1);
        SampleTaken(g, dest, xs, ys, xn, fuel);
      } else {
        assert Iterate(g, dest, 1) == next;
      }
    } else {
      NotASamplePoint(xs, k, xn);
      SampleAsWrittenCounts(g, next, xs, ys, xn + 1, fuel - 1);
      SampleSkipped(g, dest, xs, ys, xn, fuel);
    }
  }

  /** When `steps` is a multiple of the width only the samples at `w` and
      `2 * w` are ever taken, so the loop runs for ever. */
  lemma {:induction false} SamplingStalls(g: Plot, dest: set<Point>, w: nat, ys: seq<nat>, xn: nat, fuel: nat)
    requires w > 0 && xn >= 1
    requires |ys| == (if xn <= w then 0 else if xn <= 2 * w then 1 else 2)
    ensures SampleAsWritten(g, dest, [0, w, 2 * w], ys, xn, fuel).None?
    decreases fuel
  {
    if fuel > 0 {
      var next := Step(g, dest);
      var ys' := if xn in [0, w, 2 * w] then ys + [|next|] else ys;
      SamplingStalls(g, next, w, ys', xn + 1, fuel - 1);
    }
  }

  /** `part_2` as written: None when the map is not square, when it is
      empty, or when the sampling loop has not finished within `fuel`. */
  function Part2AsWritten(lines: seq<string>, steps: nat, fuel: nat): Option<int>
  {
    var e := Extent(lines);
    if e.None? then None
    else
      var w, h := e.value.0, e.value.1;
      if w != h || w == 0 then None
      else
        var g := Wrapped(Garden(lines), w, h);
        match SampleAsWritten(g, {Start(w, h)}, SamplePoints(steps, w), [], 1, fuel)
        case None => None
        case Some(ys) => Some(Interpolate(ys[0], ys[1], ys[2], Periods(steps, w)))
  }

  /** With `steps` a multiple of the map's width, `part_2` as written never
      returns, whatever the fuel: here on a 1 by 1 map, 1 step. */
  lemma AsWrittenNeverReturns(fuel: nat)
    ensures Part2AsWritten(["S"], 1, fuel).None?
  {
    var lines := ["S"];
    assert (0, 0) in Garden(lines);
    var e := Extent(lines);
    var p :| p in Garden(lines) && p.0 == e.value.0 - 1;
    var q :| q in Garden(lines) && q.1 == e.value.1 - 1;
    assert e.value.0 == 1 && e.value.1 == 1;
    SamplingStalls(Wrapped(Garden(lines), 1, 1), {(0, 0)}, 1, [], 1, fuel);
  }

  /** Whenever the loop as written finishes from the start cell, `steps` is
      not a multiple of the width and the samples are the counts after the
      three sample points. */
  lemma AsWrittenSamples(g: Plot, s: Point, steps: nat, w: nat, fuel: nat)
    requires w > 0
    requires SampleAsWritten(g, {s}, SamplePoints(steps, w), [], 1, fuel).Some?
    ensures steps % w != 0
    ensures var x := SamplePoints(steps, w);
      SampleAsWritten(g, {s}, x, [], 1, fuel).value == [Reached(g, s, x[0]), Reached(g, s, x[1]), Reached(g, s, x[2])]
  {
    var xs := SamplePoints(steps, w);
    if steps % w == 0 {
      SamplingStalls(g, {s}, w, [], 1, fuel);
      assert false;
    }
    SampleAsWrittenCounts(g, {s}, xs, [], 1, fuel);
    var ys := SampleAsWritten(g, {s}, xs, [], 1, fuel).value;
    assert CountsFrom(g, {s}, xs, 1, 0, ys);
    assert ys[0] == Reached(g, s, xs[0]) && ys[1] == Reached(g, s, xs[1]) && ys[2] == Reached(g, s, xs[2]);
  }

  /** Whenever `part_2` as written returns, `steps` is not a multiple of the
      width and the answer is the corrected one. */
  lemma AsWrittenAnswersCorrectly(lines: seq<string>, steps: nat, fuel: nat)
    requires Part2AsWritten(lines, steps, fuel).Some?
    ensures Extent(lines).Some? && Extent(lines).value.0 == Extent(lines).value.1 > 0
    ensures steps % Extent(lines).value.0 != 0
    ensures var w := Extent(lines).value.0;
      Part2AsWritten(lines, steps, fuel).value == Extrapolate(Wrapped(Garden(lines), w, w), Start(w, w), steps, w)
  {
    var w := Extent(lines).value.0;
    AsWrittenSamples(Wrapped(Garden(lines), w, w), Start(w, w), steps, w, fuel);
  }

  /** The sampling loop with the counter started at 0, testing before each
      step: it takes the count after each sample point, in order. */
  method Samples(g: Plot, s: Point, xs: seq<nat>) returns (ys: seq<nat>)
    requires |xs| > 0 && forall i, j :: 0 <= i < j < |xs| ==> xs[i] < xs[j]
    ensures |ys| == |xs|
    ensures forall i :: 0 <= i < |xs| ==> ys[i] == Reached(g, s, xs[i])
  {
    var dest := {s};
    ys := [];
    var xn := 0;
    while |ys| < |xs|
      invariant |ys| <= |xs| && dest == Iterate(g, {s}, xn)
      invariant forall i :: 0 <= i < |ys| ==> ys[i] == Reached(g, s, xs[i])
      invariant |ys| < |xs| ==> xn <= xs[|ys|]
      invariant xn <= xs[|xs| - 1]
      decreases |xs| - |ys|, xs[|xs| - 1] - xn
    {
      if xn == xs[|ys|] {
        ys := ys + [|dest|];
      }
      if |ys| < |xs| {
        dest := Step(g, dest);
        xn := xn + 1;
      }
    }
  }

  /** `n = steps // w`: whole map widths in `steps`. */
  function Periods(steps: nat, w: nat): nat
    requires w > 0
  {
    steps / w
  }

  /** The interpolant through the counts reached after each sample point,
      evaluated at `steps // w`. */
  function Extrapolate(g: Plot, s: Point, steps: nat, w: nat): int
    requires w > 0
  {
    var x := SamplePoints(steps, w);
    Interpolate(Reached(g, s, x[0]), Reached(g, s, x[1]), Reached(g, s, x[2]), Periods(steps, w))
  }

  /** `part_2` with the sampling loop counting from 0: None exactly when the
      map has no open cell or is not square; otherwise the interpolant
      through the counts after `steps % w`, `steps % w + w` and
      `steps % w + 2 * w` steps on the repeated map, at `steps // w`. */
  method Part2(lines: seq<string>, steps: nat) returns (r: Option<int>)
    ensures r.None? <==> (Extent(lines).None? || Extent(lines).value.0 != Extent(lines).value.1)
    ensures r.Some? ==> Extent(lines).Some? && Extent(lines).value.0 > 0
    ensures r.Some? ==>
      var w := Extent(lines).value.0;
      r.value == Extrapolate(Wrapped(Garden(lines), w, w), Start(w, w), steps, w)
  {
    var e := Extent(lines);
    if e.None? || e.value.0 != e.value.1 {
      return None;
    }
    var w := e.value.0;
    var p :| p in Garden(lines) && p.0 == w - 1;
    var g, s, x := Wrapped(Garden(lines), w, w), Start(w, w), SamplePoints(steps, w);
    var ys := Samples(g, s, x);
    r := Some(Interpolate(ys[0], ys[1], ys[2], Periods(steps, w)));
  }
}
