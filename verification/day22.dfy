/** Day 22: sand bricks fall straight down until they rest on the ground or on
    earlier bricks; the support graph then says which brick can be removed
    safely and how many others fall when one is removed. */
module Day22 {
  import opened Common

  type Cell = (int, int)
  type Point = (int, int, int)

  /** A brick: the height of its lowest cube, its vertical extent and the
      columns it occupies (the Python class keeps the columns as a frozenset of
      complex numbers; here each column appears once in `cells`). */
  datatype Brick = Brick(zLow: int, zHeight: nat, cells: seq<Cell>)

  predicate ValidBrick(b: Brick)
  {
    b.zHeight >= 1 && |b.cells| > 0
  }

  predicate Distinct<T(==)>(s: seq<T>)
  {
    forall i, j :: 0 <= i < j < |s| ==> s[i] != s[j]
  }

  function Lower(a: int, b: int): int { if a <= b then a else b }
  function Upper(a: int, b: int): int { if a <= b then b else a }

  /** The cell (x, y) lies in the box spanned by the two endpoints. */
  predicate Between(p: Cell, s: Point, e: Point)
  {
    Lower(s.0, e.0) <= p.0 <= Upper(s.0, e.0) && Lower(s.1, e.1) <= p.1 <= Upper(s.1, e.1)
  }

  /** The number of axes on which the two endpoints differ. */
  function Varying(s: Point, e: Point): nat
  {
    (if s.0 != e.0 then 1 else 0) + (if s.1 != e.1 then 1 else 0) + (if s.2 != e.2 then 1 else 0)
  }

  /** The cells (lo, y) .. (hi, y), each once. */
  function AlongX(lo: int, hi: int, y: int): (r: seq<Cell>)
    requires lo <= hi
    ensures |r| > 0 && Distinct(r)
    ensures forall p :: p in r <==> lo <= p.0 <= hi && p.1 == y
  {
    var r := seq(hi - lo + 1, k => (lo + k, y));
    assert forall p: Cell :: lo <= p.0 <= hi && p.1 == y ==> r[p.0 - lo] == p;
    r
  }

  /** The cells (x, lo) .. (x, hi), each once. */
  function AlongY(x: int, lo: int, hi: int): (r: seq<Cell>)
    requires lo <= hi
    ensures |r| > 0 && Distinct(r)
    ensures forall p :: p in r <==> p.0 == x && lo <= p.1 <= hi
  {
    var r := seq(hi - lo + 1, k => (x, lo + k));
    assert forall p: Cell :: p.0 == x && lo <= p.1 <= hi ==> r[p.1 - lo] == p;
    r
  }

  /** `Brick.__init__`: a brick is a straight line of cubes. Endpoints that
      differ on more than one axis are outside the accepted input. */
  function MakeBrick(s: Point, e: Point): (r: Option<Brick>)
    ensures r.Some? <==> Varying(s, e) <= 1
    ensures r.Some? ==> ValidBrick(r.value) && Distinct(r.value.cells)
    ensures r.Some? ==> forall p :: p in r.value.cells <==> Between(p, s, e)
    ensures r.Some? ==> r.value.zLow == Lower(s.2, e.2)
                        && r.value.zLow + r.value.zHeight - 1 == Upper(s.2, e.2)
  {
    var sameX, sameY, sameZ := s.0 == e.0, s.1 == e.1, s.2 == e.2;
    if !sameX && sameY && sameZ then
      Some(Brick(s.2, 1, AlongX(Lower(s.0, e.0), Upper(s.0, e.0), s.1)))
    else if sameX && !sameY && sameZ then
      Some(Brick(s.2, 1, AlongY(s.0, Lower(s.1, e.1), Upper(s.1, e.1))))
    else if sameX && sameY && !sameZ then
      var lo := Lower(s.2, e.2);
      Some(Brick(lo, Upper(s.2, e.2) - lo + 1, [(s.0, s.1)]))
    else if sameX && sameY && sameZ then
      Some(Brick(s.2, 1, [(s.0, s.1)]))
    else
      None
  }

  /** The order of the two endpoints does not matter. */
  lemma MakeBrickSymmetric(s: Point, e: Point)
    ensures MakeBrick(s, e) == MakeBrick(e, s)
  {
  }

  // ---------------------------------------------------------------------
  // Sorting by the lowest cube

  predicate SortedByZ(bs: seq<Brick>)
  {
    forall i :: 0 < i < |bs| ==> bs[i - 1].zLow <= bs[i].zLow
  }

  function InsertByZ(b: Brick, bs: seq<Brick>): (r: seq<Brick>)
    requires SortedByZ(bs)
    ensures multiset(r) == multiset(bs) + multiset{b}
    ensures |r| > 0 && (r[0] == b || (|bs| > 0 && r[0] == bs[0]))
    ensures SortedByZ(r)
  {
    if |bs| == 0 || b.zLow <= bs[0].zLow then [b] + bs
    else
      var rest := InsertByZ(b, bs[1..]);
      assert bs == [bs[0]] + bs[1..];
      [bs[0]] + rest
  }

  /** `sorted(bricks, key=lambda b: b.z_low)`, as an insertion sort. */
  function SortByZ(bs: seq<Brick>): (r: seq<Brick>)
    ensures multiset(r) == multiset(bs)
    ensures SortedByZ(r)
  {
    if |bs| == 0 then []
    else
      assert bs == [bs[0]] + bs[1..];
      InsertByZ(bs[0], SortByZ(bs[1..]))
  }

  // ---------------------------------------------------------------------
  // Settling

  function HeightAt(heights: map<Cell, nat>, p: Cell): nat
  {
    if p in heights then heights[p] else 0
  }

  /** The highest point of the height map over a footprint: the height a brick
      with that footprint comes to rest on. */
  function Landing(heights: map<Cell, nat>, cells: seq<Cell>): (r: nat)
    ensures forall p :: p in cells ==> HeightAt(heights, p) <= r
    ensures |cells| > 0 ==> exists p :: p in cells && HeightAt(heights, p) == r
  {
    if |cells| == 0 then 0
    else
      var rest := Landing(heights, cells[1..]);
      assert forall p :: p in cells ==> p == cells[0] || p in cells[1..];
      if HeightAt(heights, cells[0]) >= rest then HeightAt(heights, cells[0]) else rest
  }

  /** Set the height map to `v` over a footprint. */
  function Paint(heights: map<Cell, nat>, cells: seq<Cell>, v: nat): (r: map<Cell, nat>)
    ensures forall p :: p in cells ==> p in r && r[p] == v
    ensures forall p :: p !in cells ==> (p in r <==> p in heights)
    ensures forall p :: p !in cells && p in heights ==> r[p] == heights[p]
    decreases |cells|
  {
    if |cells| == 0 then heights
    else
      assert forall p :: p in cells ==> p == cells[0] || p in cells[1..];
      Paint(heights[cells[0] := v], cells[1..], v)
  }

  /** Painting a brick's top over its footprint never lowers the height map. */
  lemma PaintRaises(heights: map<Cell, nat>, cells: seq<Cell>, v: nat, p: Cell)
    requires v >= Landing(heights, cells)
    ensures HeightAt(Paint(heights, cells, v), p) >= HeightAt(heights, p)
  {
  }

  /** The outcome of `settle`: the height map, the top of every brick and,
      for every brick, the set of earlier bricks it rests on (the out-edges of
      the Python graph), all indexed by position in the processing order. */
  datatype Settled = Settled(heights: map<Cell, nat>, tops: seq<nat>, supports: seq<set<nat>>)

  predicate Overlaps(a: Brick, b: Brick)
  {
    exists k :: 0 <= k < |a.cells| && a.cells[k] in b.cells
  }

  /** One iteration of the loop in `settle`: brick `b` drops onto the bricks
      `placed` that have settled into `prev`. */
  function Place(prev: Settled, placed: seq<Brick>, b: Brick): (r: Settled)
    requires |prev.tops| == |placed|
    ensures |r.tops| == |placed| + 1 && |r.supports| == |prev.supports| + 1
  {
    var below := Landing(prev.heights, b.cells);
    var top := below + b.zHeight;
    Settled(Paint(prev.heights, b.cells, top), prev.tops + [top],
            prev.supports + [set j | 0 <= j < |placed| && Overlaps(placed[j], b) && prev.tops[j] == below])
  }

  /** `settle`: drop every brick in turn onto the height map. */
  function Settle(bs: seq<Brick>): (r: Settled)
    ensures |r.tops| == |bs| && |r.supports| == |bs|
    decreases |bs|
  {
    if |bs| == 0 then Settled(map[], [], [])
    else Place(Settle(bs[..|bs| - 1]), bs[..|bs| - 1], bs[|bs| - 1])
  }

  /** The height of a settled brick's lowest cube. */
  function Bottom(bs: seq<Brick>, r: Settled, i: nat): int
    requires i < |bs| && i < |r.tops|
  {
    r.tops[i] - bs[i].zHeight + 1
  }

  /** Every recorded height is the top of a brick covering that column. */
  ghost predicate Witnessed(bs: seq<Brick>, r: Settled)
    requires |r.tops| == |bs|
  {
    forall p :: p in r.heights ==> exists j :: 0 <= j < |bs| && p in bs[j].cells && r.tops[j] == r.heights[p]
  }

  /** No settled brick reaches above the recorded height of its columns. */
  ghost predicate Covered(bs: seq<Brick>, r: Settled)
    requires |r.tops| == |bs|
  {
    forall j, p :: 0 <= j < |bs| && p in bs[j].cells ==> p in r.heights && r.tops[j] <= r.heights[p]
  }

  lemma PlaceWitnessed(prev: Settled, placed: seq<Brick>, b: Brick)
    requires |prev.tops| == |placed| && Witnessed(placed, prev)
    ensures Witnessed(placed + [b], Place(prev, placed, b))
  {
    var r := Place(prev, placed, b);
    var bs := placed + [b];
    var n := |placed|;
    forall p | p in r.heights
      ensures exists j :: 0 <= j < |bs| && p in bs[j].cells && r.tops[j] == r.heights[p]
    {
      if p in b.cells {
        assert p in bs[n].cells && r.tops[n] == r.heights[p];
      } else {
        var j :| 0 <= j < n && p in placed[j].cells && prev.tops[j] == prev.heights[p];
        assert p in bs[j].cells && r.tops[j] == r.heights[p];
      }
    }
  }

  lemma PlaceCovered(prev: Settled, placed: seq<Brick>, b: Brick)
    requires |prev.tops| == |placed| && Covered(placed, prev)
    ensures Covered(placed + [b], Place(prev, placed, b))
  {
    var r := Place(prev, placed, b);
    var bs := placed + [b];
    var n := |placed|;
    var top := Landing(prev.heights, b.cells) + b.zHeight;
    forall j, p | 0 <= j < |bs| && p in bs[j].cells
      ensures p in r.heights && r.tops[j] <= r.heights[p]
    {
      if j < n {
        assert p in placed[j].cells;
        PaintRaises(prev.heights, b.cells, top, p);
      }
    }
  }

  lemma {:induction false} SettleWitnessed(bs: seq<Brick>)
    ensures Witnessed(bs, Settle(bs))
    decreases |bs|
  {
    if |bs| > 0 {
      var n := |bs| - 1;
      SettleWitnessed(bs[..n]);
      PlaceWitnessed(Settle(bs[..n]), bs[..n], bs[n]);
      assert bs[..n] + [bs[n]] == bs;
    }
  }

  lemma {:induction false} SettleCovered(bs: seq<Brick>)
    ensures Covered(bs, Settle(bs))
    decreases |bs|
  {
    if |bs| > 0 {
      var n := |bs| - 1;
      SettleCovered(bs[..n]);
      PlaceCovered(Settle(bs[..n]), bs[..n], bs[n]);
      assert bs[..n] + [bs[n]] == bs;
    }
  }

  /** The result of settling a prefix is the prefix of the result. */
  lemma {:induction false} SettlePrefix(bs: seq<Brick>, k: nat)
    requires k <= |bs|
    ensures Settle(bs[..k]).tops == Settle(bs).tops[..k]
    ensures Settle(bs[..k]).supports == Settle(bs).supports[..k]
    decreases |bs| - k
  {
    if k < |bs| {
      var n := |bs| - 1;
      SettlePrefix(bs[..n], k);
      assert bs[..n][..k] == bs[..k];
    } else {
      assert bs[..k] == bs;
    }
  }

  /** Brick `i` rests exactly on the earlier bricks under its footprint whose
      top is just below its bottom. */
  ghost predicate SupportsExact(bs: seq<Brick>, r: Settled, i: nat)
    requires i < |bs| == |r.tops| == |r.supports|
  {
    forall j :: j in r.supports[i] <==> 0 <= j < i && Overlaps(bs[j], bs[i]) && r.tops[j] == Bottom(bs, r, i) - 1
  }

  /** Brick `i` does not pass through any earlier brick. */
  predicate NoPassThrough(bs: seq<Brick>, r: Settled, i: nat)
    requires i < |bs| == |r.tops| == |r.supports|
  {
    forall j :: 0 <= j < i && Overlaps(bs[j], bs[i]) ==> r.tops[j] < Bottom(bs, r, i)
  }

  /** Brick `i` lies on the ground (its bottom is at height 1) or on a support. */
  predicate Grounded(bs: seq<Brick>, r: Settled, i: nat)
    requires i < |bs| == |r.tops| == |r.supports|
  {
    Bottom(bs, r, i) == 1 || r.supports[i] != {}
  }

  lemma PlaceSupports(prev: Settled, placed: seq<Brick>, b: Brick)
    requires |prev.tops| == |placed| == |prev.supports|
    ensures SupportsExact(placed + [b], Place(prev, placed, b), |placed|)
  {
    var bs := placed + [b];
    assert forall j :: 0 <= j < |placed| ==> bs[j] == placed[j];
  }

  lemma PlaceNoPassThrough(prev: Settled, placed: seq<Brick>, b: Brick)
    requires |prev.tops| == |placed| == |prev.supports| && Covered(placed, prev)
    ensures NoPassThrough(placed + [b], Place(prev, placed, b), |placed|)
  {
    var bs := placed + [b];
    var below := Landing(prev.heights, b.cells);
    forall j | 0 <= j < |placed| && Overlaps(bs[j], b)
      ensures prev.tops[j] < below + 1
    {
      assert bs[j] == placed[j];
      var k :| 0 <= k < |placed[j].cells| && placed[j].cells[k] in b.cells;
      var p := placed[j].cells[k];
      assert HeightAt(prev.heights, p) <= below;
    }
  }

  lemma PlaceGrounded(prev: Settled, placed: seq<Brick>, b: Brick)
    requires |prev.tops| == |placed| == |prev.supports| && Witnessed(placed, prev)
    ensures Grounded(placed + [b], Place(prev, placed, b), |placed|)
  {
    var n := |placed|;
    var r := Place(prev, placed, b);
    var below := Landing(prev.heights, b.cells);
    if below != 0 {
      var p :| p in b.cells && HeightAt(prev.heights, p) == below;
      var j :| 0 <= j < n && p in placed[j].cells && prev.tops[j] == prev.heights[p];
      var k :| 0 <= k < |placed[j].cells| && placed[j].cells[k] == p;
      assert Overlaps(placed[j], b);
      assert j in r.supports[n];
    }
  }

  /** Brick `i` of the whole settling is brick `i` of the settling of the
      first `i + 1` bricks, which is `Place` applied to the first `i`. */
  lemma SettleAt(bs: seq<Brick>, i: nat)
    requires i < |bs|
    ensures var q := Settle(bs[..i + 1]); var r := Settle(bs);
      q == Place(Settle(bs[..i]), bs[..i], bs[i]) && q.tops == r.tops[..i + 1] && q.supports[i] == r.supports[i]
  {
    SettlePrefix(bs, i + 1);
    assert bs[..i + 1][..i] == bs[..i] && bs[..i + 1][i] == bs[i];
  }

  lemma BricksRestExact(bs: seq<Brick>, i: nat)
    requires i < |bs|
    ensures SupportsExact(bs, Settle(bs), i)
  {
    SettleAt(bs, i);
    PlaceSupports(Settle(bs[..i]), bs[..i], bs[i]);
    SnocSlice(bs, i);
  }

  lemma NoPassThroughPrefix(p: seq<Brick>, q: Settled, bs: seq<Brick>, r: Settled, i: nat)
    requires i < |bs| == |r.tops| == |r.supports| && |p| == |q.tops| == |q.supports|
    requires p == bs[..i + 1] && q.tops == r.tops[..i + 1]
    requires NoPassThrough(p, q, i)
    ensures NoPassThrough(bs, r, i)
  {
    forall j | 0 <= j < i && Overlaps(bs[j], bs[i])
      ensures r.tops[j] < Bottom(bs, r, i)
    {
      assert p[j] == bs[j] && p[i] == bs[i];
      assert q.tops[j] == r.tops[j] && q.tops[i] == r.tops[i];
    }
  }

  lemma BricksDoNotPassThrough(bs: seq<Brick>, i: nat)
    requires i < |bs|
    ensures NoPassThrough(bs, Settle(bs), i)
  {
    SettleAt(bs, i);
    SettleCovered(bs[..i]);
    PlaceNoPassThrough(Settle(bs[..i]), bs[..i], bs[i]);
    SnocSlice(bs, i);
    NoPassThroughPrefix(bs[..i + 1], Settle(bs[..i + 1]), bs, Settle(bs), i);
  }

  lemma BricksGrounded(bs: seq<Brick>, i: nat)
    requires i < |bs|
    ensures Grounded(bs, Settle(bs), i)
  {
    SettleAt(bs, i);
    SettleWitnessed(bs[..i]);
    PlaceGrounded(Settle(bs[..i]), bs[..i], bs[i]);
    SnocSlice(bs, i);
  }

  /** Supports always point to earlier bricks, so the graph has no cycles. */
  predicate PointsDown(sup: seq<set<nat>>)
  {
    forall i, j :: 0 <= i < |sup| && j in sup[i] ==> j < i
  }

  lemma SettlePointsDown(bs: seq<Brick>)
    ensures PointsDown(Settle(bs).supports)
  {
    forall i, j | 0 <= i < |bs| && j in Settle(bs).supports[i]
      ensures j < i
    {
      BricksRestExact(bs, i);
    }
  }

  // ---------------------------------------------------------------------
  // Safe bricks and chain reactions

  /** A brick can be removed when everything resting on it has another support. */
  predicate Safe(sup: seq<set<nat>>, i: nat)
  {
    forall k :: 0 <= k < |sup| && i in sup[k] ==> |sup[k]| > 1
  }

  function CountSafe(sup: seq<set<nat>>, n: nat): (c: nat)
    requires n <= |sup|
    ensures c <= n
  {
    if n == 0 then 0 else CountSafe(sup, n - 1) + (if Safe(sup, n - 1) then 1 else 0)
  }

  /** The bricks among the first `n` that fall when `d` is removed: `d` itself
      and every brick all of whose (at least one) supports have fallen.
      Because supports point down, one pass in settling order finds them all. */
  function FallenBelow(sup: seq<set<nat>>, d: nat, n: nat): (f: set<nat>)
    requires n <= |sup|
    ensures forall x :: x in f ==> x < n
  {
    if n == 0 then {}
    else
      var f := FallenBelow(sup, d, n - 1);
      var i := n - 1;
      if i == d || (sup[i] != {} && sup[i] <= f) then f + {i} else f
  }

  function Fallen(sup: seq<set<nat>>, d: nat): set<nat>
  {
    FallenBelow(sup, d, |sup|)
  }

  /** `chain_reaction`: the number of other bricks that fall. */
  function ChainReaction(sup: seq<set<nat>>, d: nat): nat
  {
    |Fallen(sup, d) - {d}|
  }

  /** A set of bricks closed under the falling rule. */
  predicate Closed(sup: seq<set<nat>>, g: set<nat>)
  {
    forall k :: 0 <= k < |sup| && sup[k] != {} && sup[k] <= g ==> k in g
  }

  lemma {:induction false} FallenGrows(sup: seq<set<nat>>, d: nat, k: nat, m: nat)
    requires k <= m <= |sup|
    ensures forall x :: x < k ==> (x in FallenBelow(sup, d, m) <==> x in FallenBelow(sup, d, k))
    decreases m - k
  {
    if k < m {
      FallenGrows(sup, d, k, m - 1);
    }
  }

  /** The fallen set contains the removed brick and is closed under the rule:
      the worklist of `chain_reaction` stops only once nothing more can fall. */
  lemma FallenClosed(sup: seq<set<nat>>, d: nat)
    requires PointsDown(sup) && d < |sup|
    ensures d in Fallen(sup, d)
    ensures Closed(sup, Fallen(sup, d))
  {
    var f := Fallen(sup, d);
    FallenGrows(sup, d, d + 1, |sup|);
    forall k | 0 <= k < |sup| && sup[k] != {} && sup[k] <= f
      ensures k in f
    {
      FallenGrows(sup, d, k, |sup|);
      FallenGrows(sup, d, k + 1, |sup|);
      assert sup[k] <= FallenBelow(sup, d, k);
    }
  }

  /** ... and it is the least such set: nothing falls without a reason. */
  lemma {:induction false} FallenLeast(sup: seq<set<nat>>, d: nat, g: set<nat>, n: nat)
    requires n <= |sup| && d in g && Closed(sup, g)
    ensures FallenBelow(sup, d, n) <= g
  {
    if n > 0 {
      FallenLeast(sup, d, g, n - 1);
    }
  }

  lemma SubsetOfSingleton(s: set<nat>, i: nat)
    requires s != {} && s <= {i}
    ensures s == {i}
  {
  }

  /** The part 1 test agrees with part 2: a brick is safe to remove exactly
      when removing it makes no other brick fall. */
  lemma SafeIffNothingFalls(sup: seq<set<nat>>, i: nat)
    requires PointsDown(sup) && i < |sup|
    ensures Safe(sup, i) <==> ChainReaction(sup, i) == 0
  {
    FallenClosed(sup, i);
    if Safe(sup, i) {
      forall k | 0 <= k < |sup| && sup[k] <= {i}
        ensures sup[k] == {}
      {
        if sup[k] != {} {
          SubsetOfSingleton(sup[k], i);
          assert false;
        }
      }
      FallenLeast(sup, i, {i}, |sup|);
      assert Fallen(sup, i) - {i} == {};
    } else {
      var k :| 0 <= k < |sup| && i in sup[k] && |sup[k]| <= 1;
      var others := sup[k] - {i};
      assert sup[k] == others + {i};
      assert others == {};
      assert k in Fallen(sup, i) - {i};
    }
  }

  function TotalFallen(sup: seq<set<nat>>, n: nat): nat
    requires n <= |sup|
  {
    if n == 0 then 0 else TotalFallen(sup, n - 1) + ChainReaction(sup, n - 1)
  }

  /** Part 2 counts, over all bricks, the others that fall, and a brick adds
      nothing exactly when part 1 counts it safe. */
  lemma {:induction false} SafeBricksAddNothing(sup: seq<set<nat>>, n: nat)
    requires PointsDown(sup) && n <= |sup|
    ensures TotalFallen(sup, n) >= n - CountSafe(sup, n)
    ensures TotalFallen(sup, n) == 0 <==> CountSafe(sup, n) == n
  {
    if n > 0 {
      SafeBricksAddNothing(sup, n - 1);
      TotalStep(sup, n);
      SafeStep(sup, n);
    }
  }

  /** One brick more is counted safe exactly when its chain reaction is empty. */
  lemma SafeStep(sup: seq<set<nat>>, n: nat)
    requires PointsDown(sup) && 0 < n <= |sup|
    ensures CountSafe(sup, n) == CountSafe(sup, n - 1) + if ChainReaction(sup, n - 1) == 0 then 1 else 0
  {
    SafeIffNothingFalls(sup, n - 1);
  }

  function Part1(bricks: seq<Brick>): (r: nat)
    ensures r <= |bricks|
  {
    var sorted := SortByZ(bricks);
    assert |sorted| == |multiset(sorted)| == |multiset(bricks)| == |bricks|;
    CountSafe(Settle(sorted).supports, |sorted|)
  }

  /** `part_2`: the bricks that fall, summed over every brick removed. Every
      brick that part 1 does not count safe brings down at least one other,
      and the total is 0 exactly when part 1 counts every brick safe. */
  function Part2(bricks: seq<Brick>): (r: nat)
    ensures r >= |bricks| - Part1(bricks)
    ensures r == 0 <==> Part1(bricks) == |bricks|
  {
    var sorted := SortByZ(bricks);
    assert |sorted| == |multiset(sorted)| == |multiset(bricks)| == |bricks|;
    SettlePointsDown(sorted);
    SafeBricksAddNothing(Settle(sorted).supports, |sorted|);
    TotalFallen(Settle(sorted).supports, |sorted|)
  }

  /** The support graph of the seven example bricks A..G in settling order:
      B and C rest on A, D and E on both B and C, F on D and E, G on F. */
  function ExampleSupports(): seq<set<nat>>
  {
    [{}, {0}, {0}, {1, 2}, {1, 2}, {3, 4}, {5}]
  }

  /** B, C, D, E and G can each be removed; A and F cannot. */
  lemma ExampleSafeBricks()
    ensures var sup := ExampleSupports();
      && !Safe(sup, 0) && Safe(sup, 1) && Safe(sup, 2) && Safe(sup, 3)
      && Safe(sup, 4) && !Safe(sup, 5) && Safe(sup, 6)
  {
    var sup := ExampleSupports();
    assert 0 in sup[1] && 5 in sup[6];
  }

  lemma ExampleSafe()
    ensures CountSafe(ExampleSupports(), 7) == 5
  {
    ExampleSafeBricks();
  }

  lemma ExampleRemoveALower()
    ensures FallenBelow(ExampleSupports(), 0, 4) == {0, 1, 2, 3}
  {
    var sup := ExampleSupports();
    assert FallenBelow(sup, 0, 1) == {0};
    assert FallenBelow(sup, 0, 2) == {0, 1};
    assert FallenBelow(sup, 0, 3) == {0, 1, 2};
  }

  /** Removing A brings down all six others. */
  lemma ExampleRemoveA()
    ensures ChainReaction(ExampleSupports(), 0) == 6
  {
    var sup := ExampleSupports();
    ExampleRemoveALower();
    assert FallenBelow(sup, 0, 5) == {0, 1, 2, 3, 4};
    assert FallenBelow(sup, 0, 6) == {0, 1, 2, 3, 4, 5};
    assert FallenBelow(sup, 0, 7) == {0, 1, 2, 3, 4, 5, 6};
    assert Fallen(sup, 0) - {0} == {1, 2, 3, 4, 5, 6};
  }

  /** Removing F brings down G only. */
  lemma ExampleRemoveF()
    ensures ChainReaction(ExampleSupports(), 5) == 1
  {
    var sup := ExampleSupports();
    assert FallenBelow(sup, 5, 1) == {};
    assert FallenBelow(sup, 5, 2) == {};
    assert FallenBelow(sup, 5, 3) == {};
    assert FallenBelow(sup, 5, 4) == {};
    assert FallenBelow(sup, 5, 5) == {};
    assert FallenBelow(sup, 5, 6) == {5};
    assert FallenBelow(sup, 5, 7) == {5, 6};
    assert Fallen(sup, 5) - {5} == {6};
  }

  /** The seven per-brick counts of the example add up to 7. */
  lemma ExampleTotal(sup: seq<set<nat>>)
    requires |sup| == 7 && ChainReaction(sup, 0) == 6 && ChainReaction(sup, 5) == 1
    requires ChainReaction(sup, 1) == ChainReaction(sup, 2) == ChainReaction(sup, 3) == 0
    requires ChainReaction(sup, 4) == ChainReaction(sup, 6) == 0
    ensures TotalFallen(sup, 7) == 7
  {
    TotalStep(sup, 1);
    TotalStep(sup, 2);
    TotalStep(sup, 3);
    TotalStep(sup, 4);
    TotalStep(sup, 5);
    TotalStep(sup, 6);
    TotalStep(sup, 7);
  }

  lemma TotalStep(sup: seq<set<nat>>, n: nat)
    requires 0 < n <= |sup|
    ensures TotalFallen(sup, n) == TotalFallen(sup, n - 1) + ChainReaction(sup, n - 1)
  {
  }

  lemma ExampleFalls()
    ensures TotalFallen(ExampleSupports(), 7) == 7
  {
    var sup := ExampleSupports();
    assert PointsDown(sup);
    ExampleSafeBricks();
    ExampleRemoveA();
    ExampleRemoveF();
    SafeIffNothingFalls(sup, 1);
    SafeIffNothingFalls(sup, 2);
    SafeIffNothingFalls(sup, 3);
    SafeIffNothingFalls(sup, 4);
    SafeIffNothingFalls(sup, 6);
    ExampleTotal(sup);
  }
}
