/** Day 18: the lagoon dug along a closed rectilinear path. Its size is the
    shoelace area plus half the boundary plus one (Pick's theorem counts the
    interior points; adding the boundary points gives the lagoon). */
module Day18 {
  import opened Common

  datatype Dir = Up | Down | Right | Left

  /** The unit vectors of part 1's `directions` table: U is +i, D is -i,
      R is +1 and L is -1. */
  function Delta(d: Dir): (int, int)
  {
    match d
    case Up => (0, 1)
    case Down => (0, -1)
    case Right => (1, 0)
    case Left => (-1, 0)
  }

  function Opposite(d: Dir): (o: Dir)
    ensures Delta(o).0 == -Delta(d).0 && Delta(o).1 == -Delta(d).1
  {
    match d
    case Up => Down
    case Down => Up
    case Right => Left
    case Left => Right
  }

  datatype Step = Step(distance: nat, dir: Dir)

  type Point = (int, int)

  function Move(p: Point, s: Step): Point
  {
    (p.0 + s.distance * Delta(s.dir).0, p.1 + s.distance * Delta(s.dir).1)
  }

  /** `p0.real*p1.imag - p0.imag*p1.real`. */
  function Cross(p: Point, q: Point): int
  {
    p.0 * q.1 - p.1 * q.0
  }

  /** Where the path ends. */
  function End(p: Point, steps: seq<Step>): Point
    decreases |steps|
  {
    if |steps| == 0 then p else End(Move(p, steps[0]), steps[1..])
  }

  /** The shoelace sum accumulated by `trace_area`. */
  function Shoelace(p: Point, steps: seq<Step>): int
    decreases |steps|
  {
    if |steps| == 0 then 0 else Cross(p, Move(p, steps[0])) + Shoelace(Move(p, steps[0]), steps[1..])
  }

  /** The boundary points: the sum of all step distances. */
  function Boundary(steps: seq<Step>): nat
  {
    if |steps| == 0 then 0 else steps[0].distance + Boundary(steps[1..])
  }

  /** The path returns to where it started. */
  predicate Closed(p: Point, steps: seq<Step>)
  {
    End(p, steps) == p
  }

  /** The final `yield` of `trace_area` started at the origin: `abs(S // 2)`
      (a floor division), then `int(area - B/2 + 1 + B)`, which for the
      non-negative values involved is `area + B // 2 + 1`. */
  function Lagoon(steps: seq<Step>): (r: nat)
    ensures r >= 1
    ensures Closed((0, 0), steps) ==> 2 * r == Abs(Shoelace((0, 0), steps)) + Boundary(steps) + 2
  {
    HalvingsExact(steps);
    Abs(Shoelace((0, 0), steps) / 2) + Boundary(steps) / 2 + 1
  }

  /** On a closed plan both halvings of `trace_area` are exact. */
  lemma HalvingsExact(steps: seq<Step>)
    ensures Closed((0, 0), steps) ==> Shoelace((0, 0), steps) % 2 == 0 && Boundary(steps) % 2 == 0
  {
    if Closed((0, 0), steps) {
      ShoelaceEven((0, 0), steps);
      BoundaryEven((0, 0), steps);
    }
  }

  // ---------------------------------------------------------------------
  // The halvings are exact on closed paths

  /** Each step changes x*y by as much as it adds to the shoelace sum, up to
      an even amount. */
  lemma CrossPotential(p: Point, s: Step)
    ensures (Cross(p, Move(p, s)) - (Move(p, s).0 * Move(p, s).1 - p.0 * p.1)) % 2 == 0
  {
    var q := Move(p, s);
    var d := s.distance;
    match s.dir
    case Up =>
      assert q == (p.0, p.1 + d);
      assert Cross(p, q) == p.0 * d;
      assert q.0 * q.1 - p.0 * p.1 == p.0 * d;
    case Down =>
      assert q == (p.0, p.1 - d);
      assert Cross(p, q) == - p.0 * d;
      assert q.0 * q.1 - p.0 * p.1 == - p.0 * d;
    case Right =>
      assert q == (p.0 + d, p.1);
      assert Cross(p, q) == - p.1 * d;
      assert q.0 * q.1 - p.0 * p.1 == p.1 * d;
      assert Cross(p, q) - (q.0 * q.1 - p.0 * p.1) == 2 * (- p.1 * d);
    case Left =>
      assert q == (p.0 - d, p.1);
      assert Cross(p, q) == p.1 * d;
      assert q.0 * q.1 - p.0 * p.1 == - p.1 * d;
      assert Cross(p, q) - (q.0 * q.1 - p.0 * p.1) == 2 * (p.1 * d);
  }

  lemma EvenSum(a: int, b: int)
    requires a % 2 == 0 && b % 2 == 0
    ensures (a + b) % 2 == 0
  {
  }

  lemma {:induction false} ShoelacePotential(p: Point, steps: seq<Step>)
    ensures (Shoelace(p, steps) - (End(p, steps).0 * End(p, steps).1 - p.0 * p.1)) % 2 == 0
    decreases |steps|
  {
    if |steps| > 0 {
      var q := Move(p, steps[0]);
      var e := End(p, steps);
      CrossPotential(p, steps[0]);
      ShoelacePotential(q, steps[1..]);
      assert e == End(q, steps[1..]);
      assert Shoelace(p, steps) == Cross(p, q) + Shoelace(q, steps[1..]);
      EvenSum(Shoelace(q, steps[1..]) - (e.0 * e.1 - q.0 * q.1), Cross(p, q) - (q.0 * q.1 - p.0 * p.1));
    }
  }

  /** On a closed path the shoelace sum is even, so `S // 2` is exact. */
  lemma ShoelaceEven(p: Point, steps: seq<Step>)
    requires Closed(p, steps)
    ensures Shoelace(p, steps) % 2 == 0
  {
    ShoelacePotential(p, steps);
  }

  lemma {:induction false} BoundaryParity(p: Point, steps: seq<Step>)
    ensures (Boundary(steps) - (End(p, steps).0 - p.0) - (End(p, steps).1 - p.1)) % 2 == 0
    decreases |steps|
  {
    if |steps| > 0 {
      BoundaryParity(Move(p, steps[0]), steps[1..]);
    }
  }

  /** On a closed path the boundary is even, so `B/2` is exact. */
  lemma BoundaryEven(p: Point, steps: seq<Step>)
    requires Closed(p, steps)
    ensures Boundary(steps) % 2 == 0
  {
    BoundaryParity(p, steps);
  }

  // ---------------------------------------------------------------------
  // Independence of the starting point and of the orientation

  lemma {:induction false} EndShift(p: Point, o: Point, steps: seq<Step>)
    ensures End((p.0 + o.0, p.1 + o.1), steps) == (End(p, steps).0 + o.0, End(p, steps).1 + o.1)
    decreases |steps|
  {
    if |steps| > 0 {
      EndShift(Move(p, steps[0]), o, steps[1..]);
    }
  }

  lemma CrossShift(p: Point, q: Point, o: Point)
    ensures Cross((p.0 + o.0, p.1 + o.1), (q.0 + o.0, q.1 + o.1))
         == Cross(p, q) + o.0 * (q.1 - p.1) - o.1 * (q.0 - p.0)
  {
    assert (p.0 + o.0) * (q.1 + o.1) == p.0 * q.1 + p.0 * o.1 + o.0 * q.1 + o.0 * o.1;
    assert (p.1 + o.1) * (q.0 + o.0) == p.1 * q.0 + p.1 * o.0 + o.1 * q.0 + o.1 * o.0;
    assert o.0 * (q.1 - p.1) == o.0 * q.1 - o.0 * p.1;
    assert o.1 * (q.0 - p.0) == o.1 * q.0 - o.1 * p.0;
  }

  lemma {:induction false} ShoelaceShift(p: Point, o: Point, steps: seq<Step>)
    ensures Shoelace((p.0 + o.0, p.1 + o.1), steps)
         == Shoelace(p, steps) + o.0 * (End(p, steps).1 - p.1) - o.1 * (End(p, steps).0 - p.0)
    decreases |steps|
  {
    if |steps| > 0 {
      var q := Move(p, steps[0]);
      CrossShift(p, q, o);
      ShoelaceShift(q, o, steps[1..]);
      var e := End(q, steps[1..]);
      assert o.0 * (q.1 - p.1) + o.0 * (e.1 - q.1) == o.0 * (e.1 - p.1);
      assert o.1 * (q.0 - p.0) + o.1 * (e.0 - q.0) == o.1 * (e.0 - p.0);
    }
  }

  /** Starting a closed path elsewhere does not change its shoelace sum. */
  lemma ShoelaceTranslation(p: Point, o: Point, steps: seq<Step>)
    requires Closed(p, steps)
    ensures Shoelace((p.0 + o.0, p.1 + o.1), steps) == Shoelace(p, steps)
  {
    ShoelaceShift(p, o, steps);
  }

  /** The same loop walked backwards. */
  function Reversed(steps: seq<Step>): (r: seq<Step>)
    ensures |r| == |steps|
  {
    if |steps| == 0 then []
    else Reversed(steps[1..]) + [Step(steps[0].distance, Opposite(steps[0].dir))]
  }

  lemma {:induction false} EndAppend(p: Point, a: seq<Step>, b: seq<Step>)
    ensures End(p, a + b) == End(End(p, a), b)
    decreases |a|
  {
    if |a| > 0 {
      assert (a + b)[1..] == a[1..] + b;
      EndAppend(Move(p, a[0]), a[1..], b);
    } else {
      assert a + b == b;
    }
  }

  lemma {:induction false} ShoelaceAppend(p: Point, a: seq<Step>, b: seq<Step>)
    ensures Shoelace(p, a + b) == Shoelace(p, a) + Shoelace(End(p, a), b)
    decreases |a|
  {
    if |a| > 0 {
      assert (a + b)[1..] == a[1..] + b;
      ShoelaceAppend(Move(p, a[0]), a[1..], b);
    } else {
      assert a + b == b;
    }
  }

  lemma {:induction false} BoundaryReversed(steps: seq<Step>)
    ensures Boundary(Reversed(steps)) == Boundary(steps)
    decreases |steps|
  {
    if |steps| > 0 {
      var t := Step(steps[0].distance, Opposite(steps[0].dir));
      BoundaryReversed(steps[1..]);
      BoundaryAppend(Reversed(steps[1..]), [t]);
    }
  }

  lemma {:induction false} BoundaryAppend(a: seq<Step>, b: seq<Step>)
    ensures Boundary(a + b) == Boundary(a) + Boundary(b)
    decreases |a|
  {
    if |a| > 0 {
      assert (a + b)[1..] == a[1..] + b;
      BoundaryAppend(a[1..], b);
    } else {
      assert a + b == b;
    }
  }

  /** Walking the path backwards from its end returns to its start and
      negates the shoelace sum. */
  lemma {:induction false} ReversedPath(p: Point, steps: seq<Step>)
    ensures End(End(p, steps), Reversed(steps)) == p
    ensures Shoelace(End(p, steps), Reversed(steps)) == -Shoelace(p, steps)
    decreases |steps|
  {
    if |steps| > 0 {
      var q := Move(p, steps[0]);
      var rest := steps[1..];
      var e := End(q, rest);
      var t := Step(steps[0].distance, Opposite(steps[0].dir));
      ReversedPath(q, rest);
      EndAppend(e, Reversed(rest), [t]);
      ShoelaceAppend(e, Reversed(rest), [t]);
      assert Move(q, t) == p;
      assert Cross(q, p) == -Cross(p, q);
    }
  }

  /** Taking the absolute value makes the lagoon independent of the direction
      in which the loop is walked. The floor division `S // 2` gives the same
      magnitude for S and -S only because S is even on a closed path. */
  lemma LagoonOrientation(steps: seq<Step>)
    requires Closed((0, 0), steps)
    ensures Lagoon(Reversed(steps)) == Lagoon(steps)
  {
    ReversedPath((0, 0), steps);
    BoundaryReversed(steps);
    ShoelaceEven((0, 0), steps);
  }

  /** The lagoon of a closed loop started anywhere. */
  lemma LagoonFromAnywhere(o: Point, steps: seq<Step>)
    requires Closed((0, 0), steps)
    ensures Abs(Shoelace(o, steps) / 2) + Boundary(steps) / 2 + 1 == Lagoon(steps)
  {
    ShoelaceTranslation((0, 0), o, steps);
    assert (0 + o.0, 0 + o.1) == o;
  }

  // ---------------------------------------------------------------------
  // Decoding the two readings of a plan line

  /** Part 1: the letter of the plan; any other letter is the `KeyError`. */
  function LetterDir(c: char): (r: Option<Dir>)
    ensures r.Some? <==> c in {'U', 'D', 'R', 'L'}
  {
    match c
    case 'U' => Some(Up)
    case 'D' => Some(Down)
    case 'R' => Some(Right)
    case 'L' => Some(Left)
    case _ => None
  }

  function HexDigit(c: char): (r: Option<nat>)
    ensures r.Some? ==> r.value < 16
  {
    if '0' <= c <= '9' then Some(c as int - '0' as int)
    else if 'a' <= c <= 'f' then Some(c as int - 'a' as int + 10)
    else if 'A' <= c <= 'F' then Some(c as int - 'A' as int + 10)
    else None
  }

  /** `int(h, 16)` on a string of hex digits. */
  function HexValue(h: string): (r: Option<nat>)
    ensures r.Some? <==> |h| > 0 && forall i :: 0 <= i < |h| ==> HexDigit(h[i]).Some?
  {
    if |h| == 0 then None
    else
      var last := HexDigit(h[|h| - 1]);
      if last.None? then None
      else if |h| == 1 then last
      else
        match HexValue(h[..|h| - 1])
        case None => None
        case Some(v) =>
          assert forall i :: 0 <= i < |h| - 1 ==> h[..|h| - 1][i] == h[i];
          Some(16 * v + last.value)
  }

  /** `[1, -1j, -1, 1j]`: the last hex digit picks R, D, L or U. */
  function DigitDir(k: nat): (r: Option<Dir>)
    ensures r.Some? <==> k < 4
  {
    if k == 0 then Some(Right) else if k == 1 then Some(Down)
    else if k == 2 then Some(Left) else if k == 3 then Some(Up) else None
  }

  /** Part 2: `divmod(int(h, 16), 16)`; a last digit above 3 is the
      `IndexError`. */
  function DecodeHex(h: string): (r: Option<Step>)
    ensures r.Some? <==> HexValue(h).Some? && HexValue(h).value % 16 < 4
    ensures r.Some? ==> r.value.distance == HexValue(h).value / 16
  {
    match HexValue(h)
    case None => None
    case Some(v) =>
      match DigitDir(v % 16)
      case None => None
      case Some(d) => Some(Step(v / 16, d))
  }

  /** The first digits give the distance and the last digit the direction. */
  lemma DecodeHexDigits(h: string)
    requires |h| >= 2
    ensures DecodeHex(h).Some? <==>
      HexValue(h[..|h| - 1]).Some? && HexDigit(h[|h| - 1]).Some? && HexDigit(h[|h| - 1]).value < 4
    ensures DecodeHex(h).Some? ==>
      DecodeHex(h).value.distance == HexValue(h[..|h| - 1]).value
      && Some(DecodeHex(h).value.dir) == DigitDir(HexDigit(h[|h| - 1]).value)
  {
    var front := HexValue(h[..|h| - 1]);
    var last := HexDigit(h[|h| - 1]);
    if front.Some? && last.Some? {
      var v := 16 * front.value + last.value;
      assert HexValue(h) == Some(v);
      assert v / 16 == front.value && v % 16 == last.value;
    }
  }

  /** The answer for a plan whose lines all decode, `None` otherwise. */
  function Dig(steps: seq<Option<Step>>): (r: Option<nat>)
    ensures r.Some? <==> forall i :: 0 <= i < |steps| ==> steps[i].Some?
    ensures r.Some? ==> r.value >= 1
  {
    if forall i :: 0 <= i < |steps| ==> steps[i].Some? then
      Some(Lagoon(seq(|steps|, i requires 0 <= i < |steps| => steps[i].value)))
    else None
  }

  /** part_1: defined exactly when every line's letter is a direction. */
  function Part1(plan: seq<(char, nat)>): (r: Option<nat>)
    ensures r.Some? <==> forall i :: 0 <= i < |plan| ==> plan[i].0 in {'U', 'D', 'R', 'L'}
  {
    var steps := seq(|plan|, i requires 0 <= i < |plan| =>
      match LetterDir(plan[i].0)
      case None => None
      case Some(d) => Some(Step(plan[i].1, d)));
    assert forall i :: 0 <= i < |plan| ==> (steps[i].Some? <==> LetterDir(plan[i].0).Some?);
    Dig(steps)
  }

  /** part_2: defined exactly when every colour code is a run of hex digits
      whose value ends in a hex digit from 0 to 3. */
  function Part2(codes: seq<string>): (r: Option<nat>)
    ensures r.Some? <==> forall i :: 0 <= i < |codes| ==>
      HexValue(codes[i]).Some? && HexValue(codes[i]).value % 16 < 4
  {
    var steps := seq(|codes|, i requires 0 <= i < |codes| => DecodeHex(codes[i]));
    assert forall i :: 0 <= i < |codes| ==> steps[i] == DecodeHex(codes[i]);
    Dig(steps)
  }

  /** The example plan as part 1 reads it, in four pieces. */
  function ExamplePiece(k: nat): seq<Step>
  {
    if k == 0 then [Step(6, Right), Step(5, Down), Step(2, Left), Step(2, Down)]
    else if k == 1 then [Step(2, Right), Step(2, Down), Step(5, Left)]
    else if k == 2 then [Step(2, Up), Step(1, Left), Step(2, Up), Step(2, Right)]
    else [Step(3, Up), Step(2, Left), Step(2, Up)]
  }

  function ExamplePlan(): seq<Step>
  {
    ExamplePiece(0) + ExamplePiece(1) + ExamplePiece(2) + ExamplePiece(3)
  }

  /** One step at the front of a plan: its end, shoelace term and distance. */
  lemma StepCons(p: Point, x: Step, t: seq<Step>, q: Point)
    requires q == Move(p, x)
    ensures End(p, [x] + t) == End(q, t)
    ensures Shoelace(p, [x] + t) == Cross(p, q) + Shoelace(q, t)
    ensures Boundary([x] + t) == x.distance + Boundary(t)
  {
    assert ([x] + t)[0] == x && ([x] + t)[1..] == t;
  }

  /** The end point, shoelace sum and boundary of each piece. */
  lemma ExamplePiece0()
    ensures End((0, 0), ExamplePiece(0)) == (4, -7)
    ensures Shoelace((0, 0), ExamplePiece(0)) == -48
    ensures Boundary(ExamplePiece(0)) == 15
  {
    var a, b, c, d := Step(6, Right), Step(5, Down), Step(2, Left), Step(2, Down);
    assert ExamplePiece(0) == [a] + ([b] + ([c] + ([d] + [])));
    StepCons((4, -5), d, [], (4, -7));
    StepCons((6, -5), c, [d] + [], (4, -5));
    StepCons((6, 0), b, [c] + ([d] + []), (6, -5));
    StepCons((0, 0), a, [b] + ([c] + ([d] + [])), (6, 0));
  }

  lemma ExamplePiece1()
    ensures End((4, -7), ExamplePiece(1)) == (1, -9)
    ensures Shoelace((4, -7), ExamplePiece(1)) == -43
    ensures Boundary(ExamplePiece(1)) == 9
  {
    var a, b, c := Step(2, Right), Step(2, Down), Step(5, Left);
    assert ExamplePiece(1) == [a] + ([b] + ([c] + []));
    StepCons((6, -9), c, [], (1, -9));
    StepCons((6, -7), b, [c] + [], (6, -9));
    StepCons((4, -7), a, [b] + ([c] + []), (6, -7));
  }

  lemma ExamplePiece2()
    ensures End((1, -9), ExamplePiece(2)) == (2, -5)
    ensures Shoelace((1, -9), ExamplePiece(2)) == 5
    ensures Boundary(ExamplePiece(2)) == 7
  {
    var a, b, c, d := Step(2, Up), Step(1, Left), Step(2, Up), Step(2, Right);
    assert ExamplePiece(2) == [a] + ([b] + ([c] + ([d] + [])));
    StepCons((0, -5), d, [], (2, -5));
    StepCons((0, -7), c, [d] + [], (0, -5));
    StepCons((1, -7), b, [c] + ([d] + []), (0, -7));
    StepCons((1, -9), a, [b] + ([c] + ([d] + [])), (1, -7));
  }

  lemma ExamplePiece3()
    ensures End((2, -5), ExamplePiece(3)) == (0, 0)
    ensures Shoelace((2, -5), ExamplePiece(3)) == 2
    ensures Boundary(ExamplePiece(3)) == 7
  {
    var a, b, c := Step(3, Up), Step(2, Left), Step(2, Up);
    assert ExamplePiece(3) == [a] + ([b] + ([c] + []));
    StepCons((0, -2), c, [], (0, 0));
    StepCons((2, -2), b, [c] + [], (0, -2));
    StepCons((2, -5), a, [b] + ([c] + []), (2, -2));
  }

  /** The example plan read as part 1 does: 62 cubic metres. */
  lemma Example()
    ensures Lagoon(ExamplePlan()) == 62
  {
    var p0, p1, p2, p3 := ExamplePiece(0), ExamplePiece(1), ExamplePiece(2), ExamplePiece(3);
    ExamplePiece0();
    ExamplePiece1();
    ExamplePiece2();
    ExamplePiece3();
    ShoelaceAppend((0, 0), p0, p1);
    EndAppend((0, 0), p0, p1);
    BoundaryAppend(p0, p1);
    ShoelaceAppend((0, 0), p0 + p1, p2);
    EndAppend((0, 0), p0 + p1, p2);
    BoundaryAppend(p0 + p1, p2);
    ShoelaceAppend((0, 0), p0 + p1 + p2, p3);
    BoundaryAppend(p0 + p1 + p2, p3);
  }

  /** The first code of the example reads as part 2 does: R 461937. */
  lemma ExampleCode()
    ensures DecodeHex("70c710") == Some(Step(461937, Right))
  {
    assert HexValue("70") == Some(112);
    assert HexValue("70c") == Some(1804);
    assert "70c7"[..3] == "70c";
    assert HexValue("70c7") == Some(28871);
    assert "70c71"[..4] == "70c7";
    assert HexValue("70c71") == Some(461937);
    assert "70c710"[..5] == "70c71";
    assert HexValue("70c710") == Some(7390992);
  }
}
