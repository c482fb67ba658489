/** Day 17: the crucible's heat loss. A node is a grid cell together with the
    heading of the move that reached it; an edge is a straight run that turns
    first and then goes `lo` to `hi` cells; the answer is the cheapest walk
    from the top-left corner to the bottom-right corner. */
module Day17 {
  import opened Common

  datatype Direction = North | South | East | West

  /** `Direction.value` with the imaginary axis pointing down the rows. */
  function Vec(d: Direction): (int, int)
  {
    match d
    case North => (0, -1)
    case South => (0, 1)
    case East => (1, 0)
    case West => (-1, 0)
  }

  /** `Direction.__neg__`. */
  function Neg(d: Direction): (r: Direction)
    ensures Vec(r).0 == -Vec(d).0 && Vec(r).1 == -Vec(d).1
  {
    match d
    case North => South
    case South => North
    case East => West
    case West => East
  }

  /** `Direction.perpendicular`. */
  function Perpendicular(d: Direction): (Direction, Direction)
  {
    if d == North || d == South then (East, West) else (North, South)
  }

  predicate IsPerpendicular(s: Direction, d: Direction)
  {
    d == Perpendicular(s).0 || d == Perpendicular(s).1
  }

  /** Negation is an involution; the two perpendiculars are opposite each
      other and at right angles to the direction; being perpendicular is
      symmetric. */
  lemma DirectionFacts(s: Direction, d: Direction)
    ensures Neg(Neg(s)) == s && Neg(s) != s
    ensures Perpendicular(s).1 == Neg(Perpendicular(s).0)
    ensures IsPerpendicular(s, d) <==> Vec(s).0 * Vec(d).0 + Vec(s).1 * Vec(d).1 == 0
    ensures IsPerpendicular(s, d) <==> IsPerpendicular(d, s)
  {
  }

  type Point = (int, int)
  type Node = (Point, Direction)

  /** Heat-loss digits by row; cell (x, y) is column x of row y. */
  type Grid = seq<seq<nat>>

  predicate InGrid(g: Grid, p: Point)
  {
    0 <= p.1 < |g| && 0 <= p.0 < |g[p.1]|
  }

  function Cost(g: Grid, p: Point): nat
    requires InGrid(g, p)
  {
    g[p.1][p.0]
  }

  /** `point + amount*direction.value`. */
  function Advance(p: Point, d: Direction, j: int): Point
  {
    (p.0 + j * Vec(d).0, p.1 + j * Vec(d).1)
  }

  /** The cells entered by a run of `j` steps are all on the grid: the loop
      over amounts stops at the first cell off the grid. */
  predicate RunInGrid(g: Grid, p: Point, d: Direction, j: nat)
  {
    forall i :: 1 <= i <= j ==> InGrid(g, Advance(p, d, i))
  }

  /** `cumulative_loss`: the cost of the cells entered, not of the start. */
  function RunCost(g: Grid, p: Point, d: Direction, j: nat): nat
    requires RunInGrid(g, p, d, j)
  {
    if j == 0 then 0 else RunCost(g, p, d, j - 1) + Cost(g, Advance(p, d, j))
  }

  /** The weight of the edge u -> v, if the graph has one: v's heading is
      perpendicular to u's, v lies `lo` to `hi` cells ahead along it, and
      the whole run is on the grid. Part 1 uses 1..3, part 2 uses 4..10. */
  function EdgeWeight(g: Grid, lo: nat, hi: nat, u: Node, v: Node): (r: Option<nat>)
    ensures r.Some? ==> IsPerpendicular(u.1, v.1) && InGrid(g, u.0) && InGrid(g, v.0)
  {
    var (p, s) := u;
    var (q, d) := v;
    var j := (q.0 - p.0) * Vec(d).0 + (q.1 - p.1) * Vec(d).1;
    if InGrid(g, p) && IsPerpendicular(s, d) && 1 <= j && lo <= j <= hi
       && q == Advance(p, d, j) && RunInGrid(g, p, d, j)
    then Some(RunCost(g, p, d, j))
    else None
  }

  lemma AdvanceLength(p: Point, d: Direction, j: int)
    ensures var q := Advance(p, d, j); (q.0 - p.0) * Vec(d).0 + (q.1 - p.1) * Vec(d).1 == j
  {
  }

  /** Exactly the runs the loops add: from every cell and heading, for each
      perpendicular heading, each length in `lo..hi` whose cells are all on
      the grid, weighted by the cells entered. */
  lemma EdgesAreRuns(g: Grid, lo: nat, hi: nat, u: Node, d: Direction, j: nat)
    ensures EdgeWeight(g, lo, hi, u, (Advance(u.0, d, j), d)).Some?
        <==> InGrid(g, u.0) && IsPerpendicular(u.1, d) && 1 <= j && lo <= j <= hi && RunInGrid(g, u.0, d, j)
    ensures EdgeWeight(g, lo, hi, u, (Advance(u.0, d, j), d)).Some? ==>
      EdgeWeight(g, lo, hi, u, (Advance(u.0, d, j), d)).value == RunCost(g, u.0, d, j)
  {
    AdvanceLength(u.0, d, j);
  }

  /** Every edge is a run of `lo` to `hi` cells along the new heading. */
  lemma EdgeIsRun(g: Grid, lo: nat, hi: nat, u: Node, v: Node) returns (j: nat)
    requires EdgeWeight(g, lo, hi, u, v).Some?
    ensures 1 <= j && lo <= j <= hi && v.0 == Advance(u.0, v.1, j) && RunInGrid(g, u.0, v.1, j)
    ensures EdgeWeight(g, lo, hi, u, v).value == RunCost(g, u.0, v.1, j)
  {
    var (p, s) := u;
    var (q, d) := v;
    j := (q.0 - p.0) * Vec(d).0 + (q.1 - p.1) * Vec(d).1;
  }

  // ---------------------------------------------------------------------
  // Walks and their cost

  ghost predicate IsWalk(g: Grid, lo: nat, hi: nat, w: seq<Node>)
  {
    |w| >= 1 && forall i :: 0 <= i < |w| - 1 ==> EdgeWeight(g, lo, hi, w[i], w[i + 1]).Some?
  }

  lemma WalkPrefix(g: Grid, lo: nat, hi: nat, w: seq<Node>, n: nat)
    requires IsWalk(g, lo, hi, w) && 1 <= n <= |w|
    ensures IsWalk(g, lo, hi, w[..n])
  {
    forall i | 0 <= i < n - 1
      ensures EdgeWeight(g, lo, hi, w[..n][i], w[..n][i + 1]).Some?
    {
      assert w[..n][i] == w[i] && w[..n][i + 1] == w[i + 1];
    }
  }

  /** The weight of an edge; a walk only ever uses edges that exist. */
  function Weight(g: Grid, lo: nat, hi: nat, u: Node, v: Node): nat
  {
    match EdgeWeight(g, lo, hi, u, v)
    case Some(x) => x
    case None => 0
  }

  /** The heat lost along a walk: the sum of its edges' weights. */
  ghost function WalkCost(g: Grid, lo: nat, hi: nat, w: seq<Node>): nat
  {
    if |w| <= 1 then 0
    else WalkCost(g, lo, hi, w[..|w| - 1]) + Weight(g, lo, hi, w[|w| - 2], w[|w| - 1])
  }

  lemma WalkExtend(g: Grid, lo: nat, hi: nat, w: seq<Node>, v: Node)
    requires IsWalk(g, lo, hi, w) && EdgeWeight(g, lo, hi, w[|w| - 1], v).Some?
    ensures IsWalk(g, lo, hi, w + [v])
    ensures WalkCost(g, lo, hi, w + [v]) == WalkCost(g, lo, hi, w) + EdgeWeight(g, lo, hi, w[|w| - 1], v).value
  {
    var x := w + [v];
    forall i | 0 <= i < |x| - 1
      ensures EdgeWeight(g, lo, hi, x[i], x[i + 1]).Some?
    {
      if i < |w| - 1 {
        assert x[i] == w[i] && x[i + 1] == w[i + 1];
      }
    }
    WalkCostSnoc(g, lo, hi, w, v);
  }

  lemma WalkCostSnoc(g: Grid, lo: nat, hi: nat, w: seq<Node>, v: Node)
    requires |w| >= 1
    ensures WalkCost(g, lo, hi, w + [v]) == WalkCost(g, lo, hi, w) + Weight(g, lo, hi, w[|w| - 1], v)
  {
    var x := w + [v];
    assert x[..|x| - 1] == w;
    assert x[|x| - 2] == w[|w| - 1] && x[|x| - 1] == v;
  }

  // ---------------------------------------------------------------------
  // Least cost with a bounded number of edges

  function MinOpt(a: Option<nat>, b: Option<nat>): (r: Option<nat>)
    ensures r.Some? <==> a.Some? || b.Some?
    ensures r.Some? ==> (r == a || r == b)
    ensures a.Some? ==> r.Some? && r.value <= a.value
    ensures b.Some? ==> r.Some? && r.value <= b.value
  {
    match (a, b)
    case (None, _) => b
    case (_, None) => a
    case (Some(x), Some(y)) => if x <= y then a else b
  }

  /** The cell `j` steps behind `p`. */
  function Retreat(p: Point, d: Direction, j: int): (r: Point)
    ensures Advance(r, d, j) == p
  {
    Advance(p, d, -j)
  }

  /** The starts of the runs of `lo..hi` cells that end in `v` and set out
      from a node heading `s`. */
  function Back(v: Node, s: Direction, lo: nat, hi: int): (r: seq<Node>)
    ensures forall j :: lo <= j <= hi ==> (Retreat(v.0, v.1, j), s) in r
    decreases hi - lo
  {
    if hi < lo then []
    else
      var r := Back(v, s, lo, hi - 1);
      r + [(Retreat(v.0, v.1, hi), s)]
  }

  /** Every node that may have an edge into `v`. */
  function Candidates(lo: nat, hi: nat, v: Node): seq<Node>
  {
    var (a, b) := Perpendicular(v.1);
    Back(v, a, lo, hi) + Back(v, b, lo, hi)
  }

  lemma CandidatesComplete(g: Grid, lo: nat, hi: nat, u: Node, v: Node)
    requires EdgeWeight(g, lo, hi, u, v).Some?
    ensures u in Candidates(lo, hi, v)
  {
    var j := EdgeIsRun(g, lo, hi, u, v);
    assert u.0 == Retreat(v.0, v.1, j);
    DirectionFacts(u.1, v.1);
    var (a, b) := Perpendicular(v.1);
    assert u.1 == a || u.1 == b;
  }

  /** The cheapest way to reach `src` with at most `k` edges, ending in `v`. */
  function Dist(g: Grid, lo: nat, hi: nat, src: Node, k: nat, v: Node): Option<nat>
    decreases k, 1, 0
  {
    if k == 0 then (if v == src then Some(0) else None)
    else MinOpt(Dist(g, lo, hi, src, k - 1, v), BestVia(g, lo, hi, src, k - 1, Candidates(lo, hi, v), v))
  }

  /** The cheapest way through one of `cands` followed by the edge to `v`. */
  function BestVia(g: Grid, lo: nat, hi: nat, src: Node, k: nat, cands: seq<Node>, v: Node): Option<nat>
    decreases k + 1, 0, |cands|
  {
    if |cands| == 0 then None
    else
      var u := cands[|cands| - 1];
      var here :=
        match (Dist(g, lo, hi, src, k, u), EdgeWeight(g, lo, hi, u, v))
        case (Some(a), Some(w)) => Some(a + w)
        case _ => None;
      MinOpt(BestVia(g, lo, hi, src, k, cands[..|cands| - 1], v), here)
  }

  lemma {:induction false} BestViaBound(g: Grid, lo: nat, hi: nat, src: Node, k: nat, cands: seq<Node>, u: Node, v: Node)
    requires u in cands
    requires Dist(g, lo, hi, src, k, u).Some? && EdgeWeight(g, lo, hi, u, v).Some?
    ensures BestVia(g, lo, hi, src, k, cands, v).Some?
    ensures BestVia(g, lo, hi, src, k, cands, v).value
         <= Dist(g, lo, hi, src, k, u).value + EdgeWeight(g, lo, hi, u, v).value
    decreases |cands|
  {
    var n := |cands| - 1;
    if cands[n] != u {
      assert u in cands[..n];
      BestViaBound(g, lo, hi, src, k, cands[..n], u, v);
    }
  }

  lemma {:induction false} BestViaWitness(g: Grid, lo: nat, hi: nat, src: Node, k: nat, cands: seq<Node>, v: Node)
    returns (u: Node)
    requires BestVia(g, lo, hi, src, k, cands, v).Some?
    ensures Dist(g, lo, hi, src, k, u).Some? && EdgeWeight(g, lo, hi, u, v).Some?
    ensures BestVia(g, lo, hi, src, k, cands, v).value
         == Dist(g, lo, hi, src, k, u).value + EdgeWeight(g, lo, hi, u, v).value
    decreases |cands|
  {
    var n := |cands| - 1;
    var rest := BestVia(g, lo, hi, src, k, cands[..n], v);
    if BestVia(g, lo, hi, src, k, cands, v) == rest {
      u := BestViaWitness(g, lo, hi, src, k, cands[..n], v);
    } else {
      u := cands[n];
    }
  }

  /** More edges allowed never cost more. */
  lemma {:induction false} DistMonotone(g: Grid, lo: nat, hi: nat, src: Node, k: nat, m: nat, v: Node)
    requires k <= m && Dist(g, lo, hi, src, k, v).Some?
    ensures Dist(g, lo, hi, src, m, v).Some? && Dist(g, lo, hi, src, m, v).value <= Dist(g, lo, hi, src, k, v).value
    decreases m - k
  {
    if k < m {
      DistMonotone(g, lo, hi, src, k, m - 1, v);
    }
  }

  /** A walk followed by one more edge, with its ends, length and cost. */
  lemma Snoc(g: Grid, lo: nat, hi: nat, w0: seq<Node>, v: Node) returns (w: seq<Node>)
    requires IsWalk(g, lo, hi, w0) && EdgeWeight(g, lo, hi, w0[|w0| - 1], v).Some?
    ensures IsWalk(g, lo, hi, w) && w[0] == w0[0] && w[|w| - 1] == v && |w| == |w0| + 1
    ensures WalkCost(g, lo, hi, w) == WalkCost(g, lo, hi, w0) + EdgeWeight(g, lo, hi, w0[|w0| - 1], v).value
  {
    WalkExtend(g, lo, hi, w0, v);
    w := w0 + [v];
  }

  /** Every cost found is the cost of a walk from `src` to `v` with at most
      `k` edges. */
  lemma {:induction false} DistSound(g: Grid, lo: nat, hi: nat, src: Node, k: nat, v: Node) returns (w: seq<Node>)
    requires Dist(g, lo, hi, src, k, v).Some?
    ensures IsWalk(g, lo, hi, w) && w[0] == src && w[|w| - 1] == v && |w| <= k + 1
    ensures WalkCost(g, lo, hi, w) == Dist(g, lo, hi, src, k, v).value
  {
    if k == 0 {
      w := [src];
    } else {
      var prev := Dist(g, lo, hi, src, k - 1, v);
      var via := BestVia(g, lo, hi, src, k - 1, Candidates(lo, hi, v), v);
      assert Dist(g, lo, hi, src, k, v) == MinOpt(prev, via);
      if Dist(g, lo, hi, src, k, v) == prev {
        w := DistSound(g, lo, hi, src, k - 1, v);
      } else {
        assert via == Dist(g, lo, hi, src, k, v);
        var u := BestViaWitness(g, lo, hi, src, k - 1, Candidates(lo, hi, v), v);
        var w0 := DistSound(g, lo, hi, src, k - 1, u);
        w := Snoc(g, lo, hi, w0, v);
      }
    }
  }

  /** ... and no walk from `src` to `v` with at most `k` edges is cheaper. */
  lemma {:induction false} DistOptimal(g: Grid, lo: nat, hi: nat, src: Node, k: nat, w: seq<Node>)
    requires IsWalk(g, lo, hi, w) && w[0] == src && |w| <= k + 1
    ensures Dist(g, lo, hi, src, k, w[|w| - 1]).Some?
    ensures Dist(g, lo, hi, src, k, w[|w| - 1]).value <= WalkCost(g, lo, hi, w)
  {
    var n := |w| - 1;
    var v := w[n];
    if n == 0 {
      DistMonotone(g, lo, hi, src, 0, k, v);
    } else {
      var front := w[..n];
      WalkPrefix(g, lo, hi, w, n);
      var u := w[n - 1];
      assert front[|front| - 1] == u;
      assert front + [v] == w;
      WalkExtend(g, lo, hi, front, v);
      DistOptimal(g, lo, hi, src, k - 1, front);
      CandidatesComplete(g, lo, hi, u, v);
      var via := BestVia(g, lo, hi, src, k - 1, Candidates(lo, hi, v), v);
      BestViaBound(g, lo, hi, src, k - 1, Candidates(lo, hi, v), u, v);
      assert Dist(g, lo, hi, src, k, v) == MinOpt(Dist(g, lo, hi, src, k - 1, v), via);
      assert via.value <= WalkCost(g, lo, hi, front) + EdgeWeight(g, lo, hi, u, v).value;
    }
  }

  /** Every node of the graph: a cell of the grid with a heading. */
  ghost function AllNodes(g: Grid): set<Node>
  {
    set y, x, d: Direction | 0 <= y < |g| && 0 <= x < |g[y]| :: ((x, y), d)
  }

  /** The most edges a walk without repeated nodes can have. */
  ghost function Bound(g: Grid): nat
  {
    if |AllNodes(g)| == 0 then 0 else |AllNodes(g)| - 1
  }

  // ---------------------------------------------------------------------
  // Cutting cycles: short walks suffice

  /** A walk splits at any of its nodes into two walks whose costs add up. */
  lemma {:induction false} WalkSplit(g: Grid, lo: nat, hi: nat, w: seq<Node>, i: nat)
    requires i < |w|
    ensures WalkCost(g, lo, hi, w) == WalkCost(g, lo, hi, w[..i + 1]) + WalkCost(g, lo, hi, w[i..])
    decreases |w|
  {
    var n := |w| - 1;
    if i < n {
      var front := w[..n];
      var tail := w[i..];
      var last := Weight(g, lo, hi, w[n - 1], w[n]);
      assert WalkCost(g, lo, hi, w) == WalkCost(g, lo, hi, front) + last;
      WalkSplit(g, lo, hi, front, i);
      assert front[..i + 1] == w[..i + 1];
      assert tail[..|tail| - 1] == front[i..] by {
        assert forall k :: 0 <= k < n - i ==> tail[..|tail| - 1][k] == w[i + k] == front[i..][k];
      }
      assert tail[|tail| - 2] == w[n - 1] && tail[|tail| - 1] == w[n];
      assert WalkCost(g, lo, hi, tail) == WalkCost(g, lo, hi, front[i..]) + last;
    } else {
      assert w[..i + 1] == w;
    }
  }

  lemma WalkSuffix(g: Grid, lo: nat, hi: nat, w: seq<Node>, i: nat)
    requires IsWalk(g, lo, hi, w) && i < |w|
    ensures IsWalk(g, lo, hi, w[i..])
  {
    forall k | 0 <= k < |w| - i - 1
      ensures EdgeWeight(g, lo, hi, w[i..][k], w[i..][k + 1]).Some?
    {
      assert w[i..][k] == w[i + k] && w[i..][k + 1] == w[i + k + 1];
    }
  }

  /** Two walks meeting at a node join into one whose cost is the sum. */
  lemma WalkJoin(g: Grid, lo: nat, hi: nat, a: seq<Node>, b: seq<Node>)
    requires IsWalk(g, lo, hi, a) && IsWalk(g, lo, hi, b) && a[|a| - 1] == b[0]
    ensures IsWalk(g, lo, hi, a + b[1..])
    ensures WalkCost(g, lo, hi, a + b[1..]) == WalkCost(g, lo, hi, a) + WalkCost(g, lo, hi, b)
  {
    var x := a + b[1..];
    var n := |a| - 1;
    forall k | 0 <= k < |x| - 1
      ensures EdgeWeight(g, lo, hi, x[k], x[k + 1]).Some?
    {
      if k < n {
        assert x[k] == a[k] && x[k + 1] == a[k + 1];
      } else {
        assert x[k] == b[k - n] && x[k + 1] == b[k - n + 1];
      }
    }
    WalkSplit(g, lo, hi, x, n);
    assert x[..n + 1] == a;
    assert x[n..] == b;
  }

  /** Every node of a walk with at least one edge lies on the grid. */
  lemma WalkOnGrid(g: Grid, lo: nat, hi: nat, w: seq<Node>)
    requires IsWalk(g, lo, hi, w) && |w| >= 2
    ensures forall i :: 0 <= i < |w| ==> w[i] in AllNodes(g)
  {
    forall i | 0 <= i < |w|
      ensures w[i] in AllNodes(g)
    {
      var e := if i < |w| - 1 then EdgeWeight(g, lo, hi, w[i], w[i + 1]) else EdgeWeight(g, lo, hi, w[i - 1], w[i]);
      assert InGrid(g, w[i].0);
      var ((x, y), d) := w[i];
      assert ((x, y), d) in AllNodes(g);
    }
  }

  /** Pigeonhole: more positions than nodes means a node repeats. */
  lemma {:induction false} Repeat(w: seq<Node>, nodes: set<Node>) returns (i: nat, j: nat)
    requires forall k :: 0 <= k < |w| ==> w[k] in nodes
    requires |w| > |nodes|
    ensures i < j < |w| && w[i] == w[j]
    decreases |w|
  {
    var n := |w| - 1;
    var x := w[n];
    if k :| 0 <= k < n && w[k] == x {
      i, j := k, n;
    } else {
      i, j := Repeat(w[..n], nodes - {x});
    }
  }

  /** Dropping the stretch between two visits of the same node leaves a
      shorter walk with the same ends that costs no more. */
  lemma CutCycle(g: Grid, lo: nat, hi: nat, w: seq<Node>, i: nat, j: nat) returns (cut: seq<Node>)
    requires IsWalk(g, lo, hi, w) && i < j < |w| && w[i] == w[j]
    ensures IsWalk(g, lo, hi, cut) && |cut| < |w|
    ensures cut[0] == w[0] && cut[|cut| - 1] == w[|w| - 1]
    ensures WalkCost(g, lo, hi, cut) <= WalkCost(g, lo, hi, w)
  {
    var head, tail := w[..i + 1], w[i..];
    WalkPrefix(g, lo, hi, w, i + 1);
    WalkSuffix(g, lo, hi, w, j);
    WalkSplit(g, lo, hi, w, i);
    WalkSplit(g, lo, hi, tail, j - i);
    assert tail[j - i..] == w[j..];
    WalkJoin(g, lo, hi, head, w[j..]);
    cut := head + w[j..][1..];
    assert cut[0] == head[0] == w[0];
  }

  /** A walk longer than the graph has nodes can be made shorter and no more
      expensive, keeping its ends: so walks of at most |nodes| - 1 edges
      reach everything, as cheaply as any walk does. */
  lemma {:induction false} ShortWalksSuffice(g: Grid, lo: nat, hi: nat, w: seq<Node>) returns (s: seq<Node>)
    requires IsWalk(g, lo, hi, w)
    ensures IsWalk(g, lo, hi, s) && s[0] == w[0] && s[|s| - 1] == w[|w| - 1]
    ensures |s| == 1 || |s| <= |AllNodes(g)|
    ensures WalkCost(g, lo, hi, s) <= WalkCost(g, lo, hi, w)
    decreases |w|
  {
    if |w| == 1 || |w| <= |AllNodes(g)| {
      s := w;
    } else {
      WalkOnGrid(g, lo, hi, w);
      var i, j := Repeat(w, AllNodes(g));
      var cut := CutCycle(g, lo, hi, w, i, j);
      s := ShortWalksSuffice(g, lo, hi, cut);
    }
  }

  /** With |nodes| - 1 edges allowed, `Dist` is the least cost of any walk. */
  lemma DistIsLeast(g: Grid, lo: nat, hi: nat, w: seq<Node>)
    requires IsWalk(g, lo, hi, w)
    ensures Dist(g, lo, hi, w[0], Bound(g), w[|w| - 1]).Some?
    ensures Dist(g, lo, hi, w[0], Bound(g), w[|w| - 1]).value <= WalkCost(g, lo, hi, w)
  {
    var s := ShortWalksSuffice(g, lo, hi, w);
    DistOptimal(g, lo, hi, w[0], Bound(g), s);
  }

  // ---------------------------------------------------------------------
  // The query

  function MaxWidth(g: Grid): nat
  {
    if |g| == 0 then 0 else
      var rest := MaxWidth(g[1..]);
      if |g[0]| >= rest then |g[0]| else rest
  }


  /** The start: the top-left cell, as if arrived heading south or east. */
  function Sources(): seq<Node>
  {
    [((0, 0), South), ((0, 0), East)]
  }

  /** The goal: the bottom-right cell, arrived at heading south or east. */
  function Targets(g: Grid): seq<Node>
  {
    var corner := (MaxWidth(g) - 1, |g| - 1);
    [(corner, South), (corner, East)]
  }

  ghost predicate Reachable(g: Grid, lo: nat, hi: nat, s: Node, t: Node)
  {
    exists w :: IsWalk(g, lo, hi, w) && w[0] == s && w[|w| - 1] == t
  }

  /** The least of the costs, if every one of them is defined. */
  function LeastOfAll(ds: seq<Option<nat>>): (r: Option<nat>)
    ensures r.Some? <==> |ds| > 0 && forall i :: 0 <= i < |ds| ==> ds[i].Some?
    ensures r.Some? ==> forall i :: 0 <= i < |ds| ==> r.value <= ds[i].value
    ensures r.Some? ==> exists i :: 0 <= i < |ds| && ds[i] == r
  {
    if |ds| == 0 then None
    else if |ds| == 1 then ds[0]
    else
      var rest := LeastOfAll(ds[1..]);
      if ds[0].None? || rest.None? then None
      else MinOpt(ds[0], rest)
  }

  /** `product(sources, targets)`. */
  function Pairs(g: Grid): (r: seq<(Node, Node)>)
    ensures forall s, t :: s in Sources() && t in Targets(g) ==> (s, t) in r
    ensures forall n :: 0 <= n < |r| ==> r[n].0 in Sources() && r[n].1 in Targets(g)
  {
    var (s0, s1) := (Sources()[0], Sources()[1]);
    var (t0, t1) := (Targets(g)[0], Targets(g)[1]);
    [(s0, t0), (s0, t1), (s1, t0), (s1, t1)]
  }

  /** The cheapest walk for every source and target pair. */
  ghost function PairCosts(g: Grid, lo: nat, hi: nat): (r: seq<Option<nat>>)
    ensures |r| == |Pairs(g)|
    ensures forall n :: 0 <= n < |r| ==> r[n] == Dist(g, lo, hi, Pairs(g)[n].0, Bound(g), Pairs(g)[n].1)
  {
    var ps := Pairs(g);
    seq(|ps|, n requires 0 <= n < |ps| => Dist(g, lo, hi, ps[n].0, Bound(g), ps[n].1))
  }

  /** `min(dijkstra_path_length(g, s, t) for s, t in product(sources,
      targets))`; a pair without a path is the exception networkx raises. */
  ghost function Answer(g: Grid, lo: nat, hi: nat): (r: Option<nat>)
    ensures r.Some? <==> AllReachable(g, lo, hi)
  {
    CostsDefined(g, lo, hi);
    LeastOfAll(PairCosts(g, lo, hi))
  }

  lemma DistIffReachable(g: Grid, lo: nat, hi: nat, s: Node, t: Node)
    ensures Dist(g, lo, hi, s, Bound(g), t).Some? <==> Reachable(g, lo, hi, s, t)
  {
    if Dist(g, lo, hi, s, Bound(g), t).Some? {
      var w := DistSound(g, lo, hi, s, Bound(g), t);
    }
    if Reachable(g, lo, hi, s, t) {
      var w :| IsWalk(g, lo, hi, w) && w[0] == s && w[|w| - 1] == t;
      DistIsLeast(g, lo, hi, w);
    }
  }

  lemma PairsReachable(g: Grid, lo: nat, hi: nat)
    ensures forall n :: 0 <= n < |Pairs(g)| ==>
      (PairCosts(g, lo, hi)[n].Some? <==> Reachable(g, lo, hi, Pairs(g)[n].0, Pairs(g)[n].1))
  {
    forall n | 0 <= n < |Pairs(g)|
      ensures PairCosts(g, lo, hi)[n].Some? <==> Reachable(g, lo, hi, Pairs(g)[n].0, Pairs(g)[n].1)
    {
      DistIffReachable(g, lo, hi, Pairs(g)[n].0, Pairs(g)[n].1);
    }
  }

  ghost predicate AllReachable(g: Grid, lo: nat, hi: nat)
  {
    forall s, t :: s in Sources() && t in Targets(g) ==> Reachable(g, lo, hi, s, t)
  }

  lemma ReachableGivesCosts(g: Grid, lo: nat, hi: nat)
    requires AllReachable(g, lo, hi)
    ensures LeastOfAll(PairCosts(g, lo, hi)).Some?
  {
    var ds := PairCosts(g, lo, hi);
    var ps := Pairs(g);
    PairsReachable(g, lo, hi);
    forall n | 0 <= n < |ps|
      ensures ds[n].Some?
    {
      assert Reachable(g, lo, hi, ps[n].0, ps[n].1);
    }
  }

  lemma CostsGiveReachable(g: Grid, lo: nat, hi: nat)
    requires LeastOfAll(PairCosts(g, lo, hi)).Some?
    ensures AllReachable(g, lo, hi)
  {
    var ds := PairCosts(g, lo, hi);
    var ps := Pairs(g);
    PairsReachable(g, lo, hi);
    forall s, t | s in Sources() && t in Targets(g)
      ensures Reachable(g, lo, hi, s, t)
    {
      var n :| 0 <= n < |ps| && ps[n] == (s, t);
    }
  }

  /** The least pair cost is defined exactly when every target is reachable
      from every source. */
  lemma CostsDefined(g: Grid, lo: nat, hi: nat)
    ensures LeastOfAll(PairCosts(g, lo, hi)).Some? <==> AllReachable(g, lo, hi)
  {
    if LeastOfAll(PairCosts(g, lo, hi)).Some? {
      CostsGiveReachable(g, lo, hi);
    }
    if AllReachable(g, lo, hi) {
      ReachableGivesCosts(g, lo, hi);
    }
  }

  /** The answer is the heat lost on some walk from a source to a target ... */
  lemma AnswerAttained(g: Grid, lo: nat, hi: nat) returns (w: seq<Node>)
    requires Answer(g, lo, hi).Some?
    ensures IsWalk(g, lo, hi, w) && w[0] in Sources() && w[|w| - 1] in Targets(g)
    ensures WalkCost(g, lo, hi, w) == Answer(g, lo, hi).value
  {
    var ds := PairCosts(g, lo, hi);
    var ps := Pairs(g);
    var n :| 0 <= n < |ds| && ds[n] == Answer(g, lo, hi);
    w := DistSound(g, lo, hi, ps[n].0, Bound(g), ps[n].1);
  }

  /** ... and no walk from a source to a target loses less. */
  lemma AnswerIsLeast(g: Grid, lo: nat, hi: nat, w: seq<Node>)
    requires Answer(g, lo, hi).Some?
    requires IsWalk(g, lo, hi, w) && w[0] in Sources() && w[|w| - 1] in Targets(g)
    ensures Answer(g, lo, hi).value <= WalkCost(g, lo, hi, w)
  {
    var ds := PairCosts(g, lo, hi);
    var ps := Pairs(g);
    var n :| 0 <= n < |ps| && ps[n] == (w[0], w[|w| - 1]);
    assert ds[n] == Dist(g, lo, hi, w[0], Bound(g), w[|w| - 1]);
    DistIsLeast(g, lo, hi, w);
  }

  /** The answer, as one statement: defined exactly when every target is
      reachable from every source, then the heat lost on some walk from a
      source to a target, and no such walk loses less. */
  ghost predicate LeastHeat(g: Grid, lo: nat, hi: nat, r: Option<nat>)
  {
    (r.Some? <==> AllReachable(g, lo, hi))
    && (r.Some? ==> exists w :: IsWalk(g, lo, hi, w) && w[0] in Sources() && w[|w| - 1] in Targets(g)
                                && WalkCost(g, lo, hi, w) == r.value)
    && (r.Some? ==> forall w :: IsWalk(g, lo, hi, w) && w[0] in Sources() && w[|w| - 1] in Targets(g)
                                ==> r.value <= WalkCost(g, lo, hi, w))
  }

  lemma AnswerIsLeastHeat(g: Grid, lo: nat, hi: nat)
    ensures LeastHeat(g, lo, hi, Answer(g, lo, hi))
  {
    if Answer(g, lo, hi).Some? {
      var w := AnswerAttained(g, lo, hi);
      forall w' | IsWalk(g, lo, hi, w') && w'[0] in Sources() && w'[|w'| - 1] in Targets(g)
        ensures Answer(g, lo, hi).value <= WalkCost(g, lo, hi, w')
      {
        AnswerIsLeast(g, lo, hi, w');
      }
    }
  }

  /** part_1: the least heat lost with straight runs of 1 to 3 cells. */
  ghost function Part1(g: Grid): (r: Option<nat>)
    ensures LeastHeat(g, 1, 3, r)
  {
    AnswerIsLeastHeat(g, 1, 3);
    Answer(g, 1, 3)
  }

  /** part_2: the least heat lost with straight runs of 4 to 10 cells. */
  ghost function Part2(g: Grid): (r: Option<nat>)
    ensures LeastHeat(g, 4, 10, r)
  {
    AnswerIsLeastHeat(g, 4, 10);
    Answer(g, 4, 10)
  }

  /** Along the first row of the example, three cells east of the corner
      lose 4 + 1 + 3; part 2 needs at least four cells, which lose 12. */
  lemma ExampleRun()
    ensures var g: Grid := [[2, 4, 1, 3, 4, 3, 2, 3, 1, 1, 3, 2, 3]];
      EdgeWeight(g, 1, 3, ((0, 0), South), ((3, 0), East)) == Some(8)
      && EdgeWeight(g, 4, 10, ((0, 0), South), ((3, 0), East)) == None
      && EdgeWeight(g, 4, 10, ((0, 0), South), ((4, 0), East)) == Some(12)
      && EdgeWeight(g, 1, 3, ((0, 0), East), ((3, 0), East)) == None
  {
    var g: Grid := [[2, 4, 1, 3, 4, 3, 2, 3, 1, 1, 3, 2, 3]];
    assert RunCost(g, (0, 0), East, 3) == 8;
    assert RunCost(g, (0, 0), East, 4) == 12;
  }
}
