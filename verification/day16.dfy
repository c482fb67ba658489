/** Day 16: a beam of light enters a grid of mirrors and splitters; count
    the cells it passes through. */
module Day16 {
  import opened Common

  type Point = (int, int)
  type Grid = seq<string>

  datatype Direction = Up | Down | Left | Right

  /** The unit step `(dx, dy)`; `y` grows downward. */
  function Vec(d: Direction): Point
  {
    match d
    case Up => (0, -1)
    case Down => (0, 1)
    case Left => (-1, 0)
    case Right => (1, 0)
  }

  /** A '/' mirror: `(dx, dy)` becomes `(-dy, -dx)`. */
  function Slash(d: Direction): (r: Direction)
    ensures Vec(r) == (-Vec(d).1, -Vec(d).0)
  {
    match d
    case Up => Right
    case Right => Up
    case Down => Left
    case Left => Down
  }

  /** A '\' mirror: `(dx, dy)` becomes `(dy, dx)`. */
  function Backslash(d: Direction): (r: Direction)
    ensures Vec(r) == (Vec(d).1, Vec(d).0)
  {
    match d
    case Up => Left
    case Left => Up
    case Down => Right
    case Right => Down
  }

  /** Both mirrors send a beam straight back out the way it came in when
      met twice, and turn every beam through a right angle. */
  lemma MirrorFacts(d: Direction)
    ensures Slash(Slash(d)) == d && Backslash(Backslash(d)) == d
    ensures Vec(Slash(d)).0 * Vec(d).0 + Vec(Slash(d)).1 * Vec(d).1 == 0
    ensures Vec(Backslash(d)).0 * Vec(d).0 + Vec(Backslash(d)).1 * Vec(d).1 == 0
  {
  }

  function Move(p: Point, d: Direction): Point
  {
    (p.0 + Vec(d).0, p.1 + Vec(d).1)
  }

  /** A beam: where it is and where it is heading. */
  datatype Beam = Beam(pos: Point, dir: Direction)

  function Width(g: Grid): nat
  {
    if |g| == 0 then 0 else |g[0]|
  }

  /** Every row as long as the first; the source reads the width off the
      first row and indexes the others with it. */
  predicate Rectangular(g: Grid)
  {
    |g| > 0 && forall y :: 0 <= y < |g| ==> |g[y]| == |g[0]|
  }

  predicate InGrid(g: Grid, p: Point)
  {
    0 <= p.0 < Width(g) && 0 <= p.1 < |g|
  }

  function Cells(g: Grid): set<Point>
  {
    Rect(Width(g), |g|)
  }

  function Cell(g: Grid, p: Point): char
  {
    if 0 <= p.1 < |g| && 0 <= p.0 < |g[p.1]| then g[p.1][p.0] else '.'
  }

  function Horizontal(d: Direction): bool
  {
    d == Left || d == Right
  }

  /** Whether a beam is split at its cell: a '|' met horizontally or a '-'
      met vertically. */
  predicate Splits(g: Grid, b: Beam)
  {
    (Cell(g, b.pos) == '|' && Horizontal(b.dir)) || (Cell(g, b.pos) == '-' && !Horizontal(b.dir))
  }

  /** The direction a beam leaves its cell in when it is not split. */
  function Turn(c: char, d: Direction): Direction
  {
    if c == '/' then Slash(d) else if c == '\\' then Backslash(d) else d
  }

  /** The beams one step of the tracer makes from `b`: none off the grid;
      at a splitter met side-on, two beams on the same cell heading out
      along the splitter; otherwise the beam one cell on, turned by any
      mirror. */
  function Next(g: Grid, b: Beam): seq<Beam>
  {
    if !InGrid(g, b.pos) then []
    else if Splits(g, b) then
      if Horizontal(b.dir) then [Beam(b.pos, Up), Beam(b.pos, Down)]
      else [Beam(b.pos, Left), Beam(b.pos, Right)]
    else
      var d := Turn(Cell(g, b.pos), b.dir);
      [Beam(Move(b.pos, d), d)]
  }

  /** The cases of the tracer's `match`: '.' and splitters met end-on pass
      the beam on unchanged, mirrors turn it, splitters met side-on end it
      and start two perpendicular beams from the same cell. */
  lemma NextFacts(g: Grid, b: Beam)
    requires InGrid(g, b.pos)
    ensures var c := Cell(g, b.pos);
      (c == '.' || (c == '|' && !Horizontal(b.dir)) || (c == '-' && Horizontal(b.dir)))
        ==> Next(g, b) == [Beam(Move(b.pos, b.dir), b.dir)]
    ensures Cell(g, b.pos) == '/' ==> Next(g, b) == [Beam(Move(b.pos, Slash(b.dir)), Slash(b.dir))]
    ensures Cell(g, b.pos) == '\\' ==> Next(g, b) == [Beam(Move(b.pos, Backslash(b.dir)), Backslash(b.dir))]
    ensures |Next(g, b)| == 2 <==> Splits(g, b)
    ensures Splits(g, b) ==> forall n :: n in Next(g, b) ==> n.pos == b.pos && Horizontal(n.dir) != Horizontal(b.dir)
    ensures |Next(g, b)| == 1 || |Next(g, b)| == 2
  {
  }

  // ---------------------------------------------------------------------
  // What the beam reaches

  /** A sequence of beams, each made from the one before by `Next`. */
  ghost predicate IsTrace(g: Grid, start: Beam, w: seq<Beam>)
  {
    |w| > 0 && w[0] == start
    && forall i :: 0 <= i < |w| - 1 ==> w[i + 1] in Next(g, w[i])
  }

  /** The cells some beam descending from `start` passes through. */
  ghost function Energised(g: Grid, start: Beam): set<Point>
  {
    set p | p in Cells(g) && exists w: seq<Beam> :: IsTrace(g, start, w) && w[|w| - 1].pos == p
  }

  /** The beams on the grid heading `d`. */
  function Along(g: Grid, d: Direction): set<Beam>
  {
    set p | p in Cells(g) :: Beam(p, d)
  }

  /** Every state of a beam on the grid. */
  function AllStates(g: Grid): set<Beam>
  {
    Along(g, Up) + Along(g, Down) + Along(g, Left) + Along(g, Right)
  }

  lemma InAllStates(g: Grid, b: Beam)
    ensures b in AllStates(g) <==> InGrid(g, b.pos)
  {
    RectMembers(Width(g), |g|, b.pos);
    if InGrid(g, b.pos) {
      match b.dir
      case Up => assert b in Along(g, Up);
      case Down => assert b in Along(g, Down);
      case Left => assert b in Along(g, Left);
      case Right => assert b in Along(g, Right);
    }
  }

  lemma {:induction false} TraceExtend(g: Grid, start: Beam, w: seq<Beam>, n: Beam)
    requires IsTrace(g, start, w) && n in Next(g, w[|w| - 1])
    ensures IsTrace(g, start, w + [n])
  {
    var w' := w + [n];
    forall i | 0 <= i < |w'| - 1
      ensures w'[i + 1] in Next(g, w'[i])
    {
      if i < |w| - 1 {
        assert w'[i] == w[i] && w'[i + 1] == w[i + 1];
      }
    }
  }

  /** A set of beams holding the start and closed under `Next` on the grid
      holds the end of every trace that ends on the grid. */
  lemma {:induction false} ClosedHoldsTraces(g: Grid, start: Beam, seen: set<Beam>, w: seq<Beam>)
    requires InGrid(g, start.pos) ==> start in seen
    requires forall s, n :: s in seen && n in Next(g, s) && InGrid(g, n.pos) ==> n in seen
    requires IsTrace(g, start, w) && InGrid(g, w[|w| - 1].pos)
    ensures w[|w| - 1] in seen
    decreases |w|
  {
    if |w| > 1 {
      var front := w[..|w| - 1];
      assert IsTrace(g, start, front) by {
        forall i | 0 <= i < |front| - 1
          ensures front[i + 1] in Next(g, front[i])
        {
          assert front[i] == w[i] && front[i + 1] == w[i + 1];
        }
      }
      assert w[|w| - 1] in Next(g, w[|w| - 2]);
      assert InGrid(g, w[|w| - 2].pos);
      ClosedHoldsTraces(g, start, seen, front);
    }
  }

  lemma AddShrinks(all: set<Beam>, seen: set<Beam>, b: Beam)
    requires b in all && b !in seen
    ensures |all - (seen + {b})| < |all - seen|
  {
    assert all - seen == (all - (seen + {b})) + {b};
  }

  lemma GrowShrinks(all: set<Beam>, seen0: set<Beam>, seen: set<Beam>)
    requires seen0 <= seen <= all
    ensures |all - seen| <= |all - seen0|
    ensures seen0 != seen ==> |all - seen| < |all - seen0|
  {
    SubsetSize(all - seen, all - seen0);
    if seen0 != seen {
      var b :| b in seen && b !in seen0;
      assert b in all - seen0 && b !in all - seen;
    }
  }

  /** The cells of the beams in `seen`. */
  function Positions(seen: set<Beam>): set<Point>
  {
    set b | b in seen :: b.pos
  }

  // ---------------------------------------------------------------------
  // The tracer

  /** Some trace from `start` ends at `b`. */
  ghost predicate Reachable(g: Grid, start: Beam, b: Beam)
  {
    exists w: seq<Beam> :: IsTrace(g, start, w) && w[|w| - 1] == b
  }

  lemma ReachableStep(g: Grid, start: Beam, b: Beam)
    requires Reachable(g, start, b)
    ensures forall n :: n in Next(g, b) ==> Reachable(g, start, n)
  {
    var w: seq<Beam> :| IsTrace(g, start, w) && w[|w| - 1] == b;
    forall n | n in Next(g, b)
      ensures Reachable(g, start, n)
    {
      TraceExtend(g, start, w, n);
      assert (w + [n])[|w + [n]| - 1] == n;
    }
  }

  /** The beams followed so far are on the grid and reachable, and their
      cells are the energised ones. */
  ghost predicate Followed(g: Grid, start: Beam, seen: set<Beam>, energised: set<Point>)
  {
    seen <= AllStates(g) && energised == Positions(seen)
    && forall s :: s in seen ==> Reachable(g, start, s)
  }

  /** Every beam waiting in the queue is reachable. */
  ghost predicate Queued(g: Grid, start: Beam, queue: seq<Beam>)
  {
    forall b :: b in queue ==> Reachable(g, start, b)
  }

  /** Each successor on the grid of a followed beam is followed or still
      waiting in `queue` or `more`. */
  ghost predicate ClosedUpTo(g: Grid, seen: set<Beam>, queue: seq<Beam>, more: set<Beam>)
  {
    forall s, n :: s in seen && n in Next(g, s) && InGrid(g, n.pos) ==> n in seen || n in queue || n in more
  }

  lemma ClosedAfterStep(g: Grid, seen: set<Beam>, queue: seq<Beam>, cur: Beam, queue': seq<Beam>, more: set<Beam>)
    requires ClosedUpTo(g, seen, queue, {cur})
    requires forall n :: n in Next(g, cur) ==> n in queue' || n in more
    requires forall b :: b in queue ==> b in queue'
    ensures ClosedUpTo(g, seen + {cur}, queue', more)
  {
    forall s, n | s in seen + {cur} && n in Next(g, s) && InGrid(g, n.pos)
      ensures n in seen + {cur} || n in queue' || n in more
    {
      if s in seen && n !in seen && n != cur {
        assert n in queue;
      }
    }
  }

  lemma ClosedAtEnd(g: Grid, seen: set<Beam>, queue: seq<Beam>, cur: Beam)
    requires ClosedUpTo(g, seen, queue, {cur}) && (cur in seen || !InGrid(g, cur.pos))
    ensures ClosedUpTo(g, seen, queue, {})
  {
  }

  /** Following one more beam on the grid keeps `Followed`. */
  lemma FollowedAdd(g: Grid, start: Beam, seen: set<Beam>, energised: set<Point>, cur: Beam)
    requires Followed(g, start, seen, energised)
    requires InGrid(g, cur.pos) && Reachable(g, start, cur)
    ensures Followed(g, start, seen + {cur}, energised + {cur.pos})
  {
    InAllStates(g, cur);
    assert Positions(seen + {cur}) == Positions(seen) + {cur.pos};
  }

  /** The inner loop of `count_energised`: follow `beam` until it leaves the
      grid, reaches a state already followed, or is split, in which case the
      two new beams join the queue. */
  method Follow(g: Grid, ghost start: Beam, beam: Beam, seen0: set<Beam>, energised0: set<Point>, queue0: seq<Beam>)
    returns (seen: set<Beam>, energised: set<Point>, queue: seq<Beam>)
    requires Followed(g, start, seen0, energised0) && Queued(g, start, queue0)
    requires Reachable(g, start, beam) && ClosedUpTo(g, seen0, queue0, {beam})
    ensures Followed(g, start, seen, energised) && Queued(g, start, queue)
    ensures ClosedUpTo(g, seen, queue, {})
    ensures seen0 <= seen && (InGrid(g, beam.pos) ==> beam in seen)
    ensures (forall b :: b in queue0 ==> b in queue) && (seen == seen0 ==> queue == queue0)
  {
    seen, energised, queue := seen0, energised0, queue0;
    var cur := beam;
    ghost var all := AllStates(g);
    while InGrid(g, cur.pos) && cur !in seen
      invariant Followed(g, start, seen, energised) && Queued(g, start, queue)
      invariant Reachable(g, start, cur) && ClosedUpTo(g, seen, queue, {cur})
      invariant seen0 <= seen <= all && (InGrid(g, beam.pos) ==> beam in seen || beam == cur)
      invariant forall b :: b in queue0 ==> b in queue
      invariant seen == seen0 ==> queue == queue0
      decreases |all - seen|
    {
      InAllStates(g, cur);
      AddShrinks(all, seen, cur);
      FollowedAdd(g, start, seen, energised, cur);
      ReachableStep(g, start, cur);
      ghost var before := seen;
      var nexts := Next(g, cur);
      seen := seen + {cur};
      energised := energised + {cur.pos};
      if |nexts| == 2 {
        assert nexts == [nexts[0], nexts[1]];
        ClosedAfterStep(g, before, queue, cur, queue + nexts, {});
        queue := queue + nexts;
        return;
      }
      ClosedAfterStep(g, before, queue, cur, queue, {nexts[0]});
      cur := nexts[0];
    }
    ClosedAtEnd(g, seen, queue, cur);
  }

  /** `count_energised`: beams wait in a FIFO queue and each is followed
      cell by cell, energising every cell it crosses, until it leaves the
      grid or a splitter ends it and queues two new beams. A beam already
      followed is skipped. Every state a beam passes through is recorded
      as followed, so a beam running round a closed circuit of mirrors
      stops where it came in. */
  method CountEnergised(g: Grid, p: Point, d: Direction) returns (count: nat, energised: set<Point>)
    requires Rectangular(g)
    ensures energised == Energised(g, Beam(p, d))
    ensures count == |energised|
  {
    var start := Beam(p, d);
    ghost var all := AllStates(g);
    var seen: set<Beam> := {};
    energised := {};
    var queue := [start];
    assert IsTrace(g, start, [start]);
    while |queue| > 0
      invariant Followed(g, start, seen, energised) && Queued(g, start, queue)
      invariant InGrid(g, start.pos) ==> start in seen || start in queue
      invariant ClosedUpTo(g, seen, queue, {})
      decreases |all - seen|, |queue|
    {
      var beam := queue[0];
      var rest := queue[1..];
      assert beam in queue && forall b :: b in rest ==> b in queue;
      if beam in seen {
        queue := rest;
        continue;
      }
      ghost var seen0 := seen;
      seen, energised, queue := Follow(g, start, beam, seen, energised, rest);
      GrowShrinks(all, seen0, seen);
    }
    Collected(g, start, seen, energised);
    count := |energised|;
  }

  /** Once nothing is queued, the followed beams are exactly the reachable
      ones on the grid, so their cells are the energised ones. */
  lemma Collected(g: Grid, start: Beam, seen: set<Beam>, energised: set<Point>)
    requires Followed(g, start, seen, energised) && ClosedUpTo(g, seen, [], {})
    requires InGrid(g, start.pos) ==> start in seen
    ensures energised == Energised(g, start)
  {
    forall q | q in energised
      ensures q in Energised(g, start)
    {
      var s :| s in seen && s.pos == q;
      InAllStates(g, s);
      RectMembers(Width(g), |g|, q);
      var w: seq<Beam> :| IsTrace(g, start, w) && w[|w| - 1] == s;
    }
    forall q | q in Energised(g, start)
      ensures q in energised
    {
      var w: seq<Beam> :| IsTrace(g, start, w) && w[|w| - 1].pos == q;
      RectMembers(Width(g), |g|, q);
      ClosedHoldsTraces(g, start, seen, w);
      assert q in Positions(seen);
    }
  }

  /** No cell off the grid is energised, so at most `width * height` are. */
  lemma EnergisedBound(g: Grid, start: Beam)
    ensures Energised(g, start) <= Cells(g)
    ensures |Energised(g, start)| <= Width(g) * |g|
  {
    SubsetSize(Energised(g, start), Cells(g));
    RectSize(Width(g), |g|);
  }

  /** A beam starting on the grid energises its own cell. */
  lemma StartEnergised(g: Grid, start: Beam)
    requires InGrid(g, start.pos)
    ensures start.pos in Energised(g, start)
  {
    assert IsTrace(g, start, [start]);
    RectMembers(Width(g), |g|, start.pos);
  }

  // ---------------------------------------------------------------------
  // The two parts

  function Part1Start(): Beam
  {
    Beam((0, 0), Right)
  }

  /** Candidate `i` of `part_2`, in order: the left edge heading right,
      the right edge heading left, the top edge heading down and the bottom
      edge heading up. */
  function EdgeStart(h: nat, w: nat, i: nat): Beam
  {
    if i < h then Beam((0, i), Right)
    else if i < 2 * h then Beam((w - 1, i - h), Left)
    else if i < 2 * h + w then Beam((i - 2 * h, 0), Down)
    else Beam((i - 2 * h - w, h - 1), Up)
  }

  function EdgeStarts(g: Grid): seq<Beam>
  {
    seq(2 * |g| + 2 * Width(g), i requires 0 <= i => EdgeStart(|g|, Width(g), i))
  }

  function Opposite(d: Direction): Direction
  {
    match d
    case Up => Down
    case Down => Up
    case Left => Right
    case Right => Left
  }

  /** A beam on the grid whose cell behind it is off the grid: it enters
      across the edge. */
  predicate Inward(g: Grid, b: Beam)
  {
    InGrid(g, b.pos) && !InGrid(g, Move(b.pos, Opposite(b.dir)))
  }

  /** Every candidate enters across the edge. */
  lemma EdgeStartsInward(g: Grid, i: nat)
    requires Width(g) > 0 && i < |EdgeStarts(g)|
    ensures Inward(g, EdgeStarts(g)[i])
  {
  }

  /** Every beam entering across the edge is a candidate. */
  lemma InwardIsEdgeStart(g: Grid, b: Beam)
    requires Inward(g, b)
    ensures b in EdgeStarts(g)
  {
    var h, w := |g|, Width(g);
    var (x, y) := b.pos;
    var i: nat := match b.dir
      case Right => y
      case Left => h + y
      case Down => 2 * h + x
      case Up => 2 * h + w + x;
    assert EdgeStarts(g)[i] == b;
  }

  /** `part_2`: the largest count over all edge starts. */
  method Part2(g: Grid) returns (best: nat)
    requires Rectangular(g)
    ensures forall i :: 0 <= i < |EdgeStarts(g)| ==> |Energised(g, EdgeStarts(g)[i])| <= best
    ensures exists i :: 0 <= i < |EdgeStarts(g)| && |Energised(g, EdgeStarts(g)[i])| == best
  {
    var starts := EdgeStarts(g);
    var cells;
    best, cells := CountEnergised(g, starts[0].pos, starts[0].dir);
    var i := 1;
    while i < |starts|
      invariant 1 <= i <= |starts|
      invariant forall j :: 0 <= j < i ==> |Energised(g, starts[j])| <= best
      invariant exists j :: 0 <= j < i && |Energised(g, starts[j])| == best
    {
      var count, cells := CountEnergised(g, starts[i].pos, starts[i].dir);
      if count > best {
        best := count;
      }
      i := i + 1;
    }
  }

  method Part1(g: Grid) returns (count: nat)
    requires Rectangular(g)
    ensures count == |Energised(g, Part1Start())|
  {
    var cells;
    count, cells := CountEnergised(g, (0, 0), Right);
  }

  // ---------------------------------------------------------------------
  // The tracer as written, and a circuit it never leaves

  /** `count_energised` as written, run for at most `fuel` steps (None when
      the fuel runs out): only beams taken from the queue are checked
      against `seen_beams`; the walk of a beam stops only at the grid's
      edge or at a splitter met side-on. */
  function TraceAsWritten(g: Grid, queue: seq<Beam>, seenBeams: set<Beam>, energised: set<Point>,
                          cur: Option<Beam>, fuel: nat): Option<set<Point>>
    decreases fuel
  {
    if fuel == 0 then None
    else match cur
      case Some(b) =>
        if !InGrid(g, b.pos) then TraceAsWritten(g, queue, seenBeams, energised, None, fuel - 1)
        else
          var e := energised + {b.pos};
          if Splits(g, b) then TraceAsWritten(g, queue + Next(g, b), seenBeams, e, None, fuel - 1)
          else TraceAsWritten(g, queue, seenBeams, e, Some(Next(g, b)[0]), fuel - 1)
      case None =>
        if |queue| == 0 then Some(energised)
        else if queue[0] in seenBeams then TraceAsWritten(g, queue[1..], seenBeams, energised, None, fuel - 1)
        else TraceAsWritten(g, queue[1..], seenBeams + {queue[0]}, energised, Some(queue[0]), fuel - 1)
  }

  /** A reachable beam on the grid energises its cell. */
  lemma ReachedEnergised(g: Grid, start: Beam, b: Beam)
    requires Reachable(g, start, b) && InGrid(g, b.pos)
    ensures b.pos in Energised(g, start)
  {
    RectMembers(Width(g), |g|, b.pos);
  }

  /** The tracer as written only walks reachable beams, so whatever it
      collects when it returns is energised: it never over-counts. */
  lemma {:induction false} AsWrittenSound(g: Grid, start: Beam, queue: seq<Beam>, seenBeams: set<Beam>,
                                          energised: set<Point>, cur: Option<Beam>, fuel: nat)
    requires Queued(g, start, queue) && energised <= Energised(g, start)
    requires cur.Some? ==> Reachable(g, start, cur.value)
    ensures var r := TraceAsWritten(g, queue, seenBeams, energised, cur, fuel);
      r.Some? ==> energised <= r.value <= Energised(g, start)
    decreases fuel
  {
    if fuel > 0 {
      match cur
      case Some(b) =>
        if !InGrid(g, b.pos) {
          AsWrittenSound(g, start, queue, seenBeams, energised, None, fuel - 1);
        } else {
          ReachedEnergised(g, start, b);
          ReachableStep(g, start, b);
          var e := energised + {b.pos};
          if Splits(g, b) {
            assert Queued(g, start, queue + Next(g, b));
            AsWrittenSound(g, start, queue + Next(g, b), seenBeams, e, None, fuel - 1);
          } else {
            assert Next(g, b)[0] in Next(g, b);
            AsWrittenSound(g, start, queue, seenBeams, e, Some(Next(g, b)[0]), fuel - 1);
          }
        }
      case None =>
        if |queue| > 0 {
          assert queue[0] in queue;
          assert Queued(g, start, queue[1..]) by {
            forall b | b in queue[1..] ensures Reachable(g, start, b) {
              assert b in queue;
            }
          }
          if queue[0] in seenBeams {
            AsWrittenSound(g, start, queue[1..], seenBeams, energised, None, fuel - 1);
          } else {
            AsWrittenSound(g, start, queue[1..], seenBeams + {queue[0]}, energised, Some(queue[0]), fuel - 1);
          }
        }
    }
  }

  /** `count_energised` as written, when it returns, counts no more than
      the cells a beam from the start passes through, and so no more than
      width times height. */
  function CountAsWritten(g: Grid, p: Point, d: Direction, fuel: nat): (r: Option<nat>)
    ensures r.Some? ==> r.value <= |Energised(g, Beam(p, d))| <= Width(g) * |g|
  {
    var start := Beam(p, d);
    assert IsTrace(g, start, [start]);
    AsWrittenSound(g, start, [start], {}, {}, None, fuel);
    EnergisedBound(g, start);
    match TraceAsWritten(g, [start], {}, {}, None, fuel)
    case None => None
    case Some(e) =>
      SubsetSize(e, Energised(g, start));
      Some(|e|)
  }

  /** Three rows `/\`, `||` and `\/`: the mirrors and the two splitters met
      end-on form a closed circuit. */
  function Circuit(): Grid
  {
    ["/\\", "||", "\\/"]
  }

  /** The six states of the circuit, each leading to the next. */
  function Loop(): seq<Beam>
  {
    [Beam((0, 1), Up), Beam((0, 0), Up), Beam((1, 0), Right),
     Beam((1, 1), Down), Beam((1, 2), Down), Beam((0, 2), Left)]
  }

  lemma CircuitStep(i: nat)
    requires i < 6
    ensures InGrid(Circuit(), Loop()[i].pos) && !Splits(Circuit(), Loop()[i])
    ensures Next(Circuit(), Loop()[i]) == [Loop()[(i + 1) % 6]]
  {
    var g := Circuit();
    assert g[0][0] == '/' && g[0][1] == '\\' && g[1][0] == '|' && g[1][1] == '|';
    assert g[2][0] == '\\' && g[2][1] == '/';
  }

  /** A beam on the circuit is walked forever. */
  lemma {:induction false} CircuitForever(queue: seq<Beam>, seenBeams: set<Beam>, energised: set<Point>,
                                          i: nat, fuel: nat)
    requires i < 6
    ensures TraceAsWritten(Circuit(), queue, seenBeams, energised, Some(Loop()[i]), fuel).None?
    decreases fuel
  {
    if fuel > 0 {
      CircuitStep(i);
      CircuitForever(queue, seenBeams, energised + {Loop()[i].pos}, (i + 1) % 6, fuel - 1);
    }
  }

  /** The beam entering the middle row from the left is split by the '|'
      there, and the upward half then circles for ever: `count_energised`
      as written does not return, whatever the fuel. */
  lemma AsWrittenNeverReturns(fuel: nat)
    ensures CountAsWritten(Circuit(), (0, 1), Right, fuel).None?
  {
    var g := Circuit();
    var start := Beam((0, 1), Right);
    var up, down := Beam((0, 1), Up), Beam((0, 1), Down);
    assert g[1][0] == '|';
    assert Splits(g, start) && Next(g, start) == [up, down];
    var none: set<Beam> := {};
    var dark: set<Point> := {};
    assert [start][1..] == [] && none + {start} == {start};
    assert [] + Next(g, start) == [up, down] && [up, down][1..] == [down];
    assert dark + {(0, 1)} == {(0, 1)} && {start} + {up} == {start, up};
    if fuel >= 3 {
      CircuitForever([down], {start, up}, {(0, 1)}, 0, fuel - 3);
      calc {
        TraceAsWritten(g, [start], none, dark, None, fuel);
        TraceAsWritten(g, [], {start}, dark, Some(start), fuel - 1);
        TraceAsWritten(g, [up, down], {start}, {(0, 1)}, None, fuel - 2);
        TraceAsWritten(g, [down], {start, up}, {(0, 1)}, Some(up), fuel - 3);
      }
    } else if fuel > 0 {
      assert TraceAsWritten(g, [start], none, dark, None, fuel)
        == TraceAsWritten(g, [], {start}, dark, Some(start), fuel - 1);
    }
  }

  /** An initial part of a trace is a trace. */
  lemma TracePrefix(g: Grid, start: Beam, w: seq<Beam>, k: nat)
    requires IsTrace(g, start, w) && 0 < k <= |w|
    ensures IsTrace(g, start, w[..k])
  {
    forall i | 0 <= i < k - 1
      ensures w[..k][i + 1] in Next(g, w[..k][i])
    {
      assert w[..k][i] == w[i] && w[..k][i + 1] == w[i + 1];
    }
  }

  /** The entering beam followed by one round of the circuit. */
  lemma CircuitTrace()
    ensures IsTrace(Circuit(), Beam((0, 1), Right), [Beam((0, 1), Right)] + Loop())
  {
    var g := Circuit();
    var start := Beam((0, 1), Right);
    var w := [start] + Loop();
    assert g[1][0] == '|' && Next(g, start) == [Beam((0, 1), Up), Beam((0, 1), Down)];
    assert w[1] in Next(g, w[0]);
    forall k | 1 <= k < 6
      ensures w[k + 1] in Next(g, w[k])
    {
      CircuitStep(k - 1);
    }
  }

  /** Every cell on the grid that a trace passes through is energised. */
  lemma TraceEnergises(g: Grid, start: Beam, w: seq<Beam>, k: nat)
    requires IsTrace(g, start, w) && k < |w| && InGrid(g, w[k].pos)
    ensures w[k].pos in Energised(g, start)
  {
    TracePrefix(g, start, w, k + 1);
    assert w[..k + 1][k] == w[k];
    RectMembers(Width(g), |g|, w[k].pos);
  }

  /** The circuit's trace passes through all six cells. */
  lemma CircuitCells()
    ensures var e := Energised(Circuit(), Beam((0, 1), Right));
      (0, 0) in e && (1, 0) in e && (0, 1) in e && (1, 1) in e && (0, 2) in e && (1, 2) in e
  {
    var g := Circuit();
    var start := Beam((0, 1), Right);
    var w := [start] + Loop();
    assert Width(g) == 2 && |g| == 3;
    CircuitTrace();
    TraceEnergises(g, start, w, 1);
    TraceEnergises(g, start, w, 2);
    TraceEnergises(g, start, w, 3);
    TraceEnergises(g, start, w, 4);
    TraceEnergises(g, start, w, 5);
    TraceEnergises(g, start, w, 6);
  }

  /** A beam energising every cell on the grid energises `width * height`. */
  lemma FullGrid(g: Grid, start: Beam)
    requires forall q :: InGrid(g, q) ==> q in Energised(g, start)
    ensures Energised(g, start) == Cells(g) && |Energised(g, start)| == Width(g) * |g|
  {
    forall q | q in Cells(g)
      ensures q in Energised(g, start)
    {
      RectMembers(Width(g), |g|, q);
    }
    EnergisedBound(g, start);
    RectSize(Width(g), |g|);
  }

  /** With each state followed once, the same beam energises all six cells. */
  lemma CircuitEnergised()
    ensures Energised(Circuit(), Beam((0, 1), Right)) == Cells(Circuit())
    ensures |Energised(Circuit(), Beam((0, 1), Right))| == 6
  {
    var g := Circuit();
    var start := Beam((0, 1), Right);
    assert Width(g) == 2 && |g| == 3;
    CircuitCells();
    FullGrid(g, start);
  }
}
