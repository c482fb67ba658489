/** Day 8: walking a network of nodes by repeating a list of left/right
    instructions until an end node is reached. */
module Day08 {
  import opened Common

  /** One line of the network: `name = (left, right)`. */
  datatype Entry = Entry(name: string, left: string, right: string)

  /** `graph`: later lines for the same name replace earlier ones, as in a
      dict comprehension. */
  function Graph(entries: seq<Entry>): map<string, (string, string)>
  {
    if |entries| == 0 then map[]
    else
      var e := entries[|entries| - 1];
      Graph(entries[..|entries| - 1])[e.name := (e.left, e.right)]
  }

  lemma {:induction false} GraphKeys(entries: seq<Entry>, x: string)
    ensures x in Graph(entries) <==> exists i :: 0 <= i < |entries| && entries[i].name == x
  {
    if |entries| > 0 {
      var front := entries[..|entries| - 1];
      GraphKeys(front, x);
      if exists i :: 0 <= i < |front| && front[i].name == x {
        var i :| 0 <= i < |front| && front[i].name == x;
        assert entries[i].name == x;
      }
      if exists i :: 0 <= i < |entries| && entries[i].name == x {
        var i :| 0 <= i < |entries| && entries[i].name == x;
        if i < |front| {
          assert front[i].name == x;
        }
      }
    }
  }

  /** `graph[node][instruction == "R"]`: 'R' takes the right successor,
      every other instruction the left. */
  function Next(succ: (string, string), instruction: char): string
  {
    if instruction == 'R' then succ.1 else succ.0
  }

  // ---------------------------------------------------------------------
  // Walking

  /** How a walk ends: at an end node after `steps` steps; at once when
      there are no instructions (the cycle is empty); with Python's
      `KeyError` at a node the network lacks; or not within the fuel. */
  datatype Outcome = Arrived(steps: nat) | NoInstructions | KeyError(node: string) | OutOfFuel

  /** `walk` from `node`, `k` steps already taken, for at most `fuel` more. */
  function Walk(g: map<string, (string, string)>, instructions: string, node: string,
                ends: seq<string>, k: nat, fuel: nat): (r: Outcome)
    ensures r.Arrived? ==> k < r.steps <= k + fuel
    decreases fuel
  {
    if |instructions| == 0 then NoInstructions
    else if fuel == 0 then OutOfFuel
    else if node !in g then KeyError(node)
    else
      var next := Next(g[node], instructions[k % |instructions|]);
      if next in ends then Arrived(k + 1) else Walk(g, instructions, next, ends, k + 1, fuel - 1)
  }

  /** Where `n` steps from `start` lead, or None once a node is missing. */
  function Position(g: map<string, (string, string)>, instructions: string, start: string, n: nat): Option<string>
    requires |instructions| > 0
  {
    if n == 0 then Some(start)
    else
      match Position(g, instructions, start, n - 1)
      case None => None
      case Some(node) => if node in g then Some(Next(g[node], instructions[(n - 1) % |instructions|])) else None
  }

  /** Step `s` reaches an end and no step from 1 to `s - 1` does. */
  ghost predicate FirstArrival(g: map<string, (string, string)>, instructions: string, start: string,
                               ends: seq<string>, s: nat)
    requires |instructions| > 0
  {
    s >= 1
    && Position(g, instructions, start, s).Some? && Position(g, instructions, start, s).value in ends
    && forall k :: 1 <= k < s ==> Position(g, instructions, start, k).Some? && Position(g, instructions, start, k).value !in ends
  }

  /** An end reached first at step `s` lies after every step known to miss. */
  lemma ArrivalAfter(g: map<string, (string, string)>, instructions: string, start: string,
                     ends: seq<string>, k: nat, s: nat)
    requires |instructions| > 0
    requires forall j :: 1 <= j <= k ==> Position(g, instructions, start, j).Some? && Position(g, instructions, start, j).value !in ends
    requires FirstArrival(g, instructions, start, ends, s)
    ensures s > k
  {
  }

  /** The walk from step `k` arrives at step `s` exactly when `s` is the
      first step after `k` that reaches an end and lies within the fuel;
      the start itself is never tested. */
  lemma {:induction false} WalkArrives(g: map<string, (string, string)>, instructions: string, start: string,
                                       ends: seq<string>, k: nat, fuel: nat, s: nat)
    requires |instructions| > 0 && Position(g, instructions, start, k).Some?
    requires forall j :: 1 <= j <= k ==> Position(g, instructions, start, j).Some? && Position(g, instructions, start, j).value !in ends
    ensures Walk(g, instructions, Position(g, instructions, start, k).value, ends, k, fuel) == Arrived(s)
        <==> s <= k + fuel && FirstArrival(g, instructions, start, ends, s)
    decreases fuel
  {
    var node := Position(g, instructions, start, k).value;
    if FirstArrival(g, instructions, start, ends, s) {
      ArrivalAfter(g, instructions, start, ends, k, s);
    }
    if fuel > 0 && node in g {
      var next := Next(g[node], instructions[k % |instructions|]);
      assert Position(g, instructions, start, k + 1) == Some(next);
      if next !in ends {
        WalkArrives(g, instructions, start, ends, k + 1, fuel - 1, s);
      }
    } else if fuel > 0 {
      assert Position(g, instructions, start, k + 1).None?;
    }
  }

  /** `walk` from the start: it returns `s` exactly when step `s` is the
      first to reach an end, given fuel for `s` steps. */
  lemma WalkSpec(g: map<string, (string, string)>, instructions: string, start: string,
                 ends: seq<string>, fuel: nat, s: nat)
    requires |instructions| > 0
    ensures Walk(g, instructions, start, ends, 0, fuel) == Arrived(s)
        <==> s <= fuel && FirstArrival(g, instructions, start, ends, s)
  {
    WalkArrives(g, instructions, start, ends, 0, fuel, s);
  }

  /** With no instructions `it.cycle` yields nothing and `walk` falls off
      its loop. */
  lemma NoInstructionsNoWalk(g: map<string, (string, string)>, start: string, ends: seq<string>, fuel: nat)
    ensures Walk(g, "", start, ends, 0, fuel) == NoInstructions
  {
  }

  // ---------------------------------------------------------------------
  // The puzzle

  /** `walk` from the start, for every step count at once. */
  lemma WalkSpecAll(g: map<string, (string, string)>, instructions: string, start: string,
                    ends: seq<string>, fuel: nat)
    requires |instructions| > 0
    ensures forall s: nat ::
      (Walk(g, instructions, start, ends, 0, fuel) == Arrived(s) <==> s <= fuel && FirstArrival(g, instructions, start, ends, s))
  {
    forall s: nat
      ensures Walk(g, instructions, start, ends, 0, fuel) == Arrived(s) <==> s <= fuel && FirstArrival(g, instructions, start, ends, s)
    {
      WalkSpec(g, instructions, start, ends, fuel, s);
    }
  }

  /** `part_1`: the walk from "AAA" arrives after s steps exactly when step
      s is the first to reach "ZZZ" and lies within the fuel; without
      instructions there is no walk. */
  function Part1(instructions: string, entries: seq<Entry>, fuel: nat): (r: Outcome)
    ensures |instructions| == 0 ==> r == NoInstructions
    ensures |instructions| > 0 ==>
      forall s: nat :: (r == Arrived(s) <==> s <= fuel && FirstArrival(Graph(entries), instructions, "AAA", ["ZZZ"], s))
  {
    if |instructions| > 0 then
      WalkSpecAll(Graph(entries), instructions, "AAA", ["ZZZ"], fuel);
      Walk(Graph(entries), instructions, "AAA", ["ZZZ"], 0, fuel)
    else
      Walk(Graph(entries), instructions, "AAA", ["ZZZ"], 0, fuel)
  }

  predicate EndsWith(s: string, c: char)
  {
    |s| > 0 && s[|s| - 1] == c
  }

  /** The names of the network in order of first appearance, each once: the
      keys of the dict. */
  function Names(entries: seq<Entry>): (r: seq<string>)
  {
    if |entries| == 0 then []
    else
      var r := Names(entries[..|entries| - 1]);
      var x := entries[|entries| - 1].name;
      if x in r then r else r + [x]
  }

  lemma {:induction false} NamesExact(entries: seq<Entry>)
    ensures forall x :: x in Names(entries) <==> x in Graph(entries)
    ensures forall i, j :: 0 <= i < j < |Names(entries)| ==> Names(entries)[i] != Names(entries)[j]
  {
    if |entries| > 0 {
      NamesExact(entries[..|entries| - 1]);
    }
  }

  /** The names ending in `c`, in key order. */
  function Ending(names: seq<string>, c: char): seq<string>
  {
    if |names| == 0 then []
    else Ending(names[..|names| - 1], c) + (if EndsWith(names[|names| - 1], c) then [names[|names| - 1]] else [])
  }

  lemma {:induction false} EndingExact(names: seq<string>, c: char)
    ensures forall x :: x in Ending(names, c) <==> x in names && EndsWith(x, c)
  {
    if |names| > 0 {
      EndingExact(names[..|names| - 1], c);
      assert names == names[..|names| - 1] + [names[|names| - 1]];
    }
  }

  /** The walk lengths of every start, or the first walk that did not
      arrive. */
  function Times(g: map<string, (string, string)>, instructions: string, starts: seq<string>,
                 ends: seq<string>, fuel: nat): (r: Result)
    ensures r.Failed? ==> !r.outcome.Arrived?
    ensures r.Failed? ==> exists i :: 0 <= i < |starts| && Walk(g, instructions, starts[i], ends, 0, fuel) == r.outcome
    ensures r.Ok? ==> |r.times| == |starts| && forall i :: 0 <= i < |starts| ==>
      r.times[i] > 0 && Walk(g, instructions, starts[i], ends, 0, fuel) == Arrived(r.times[i])
  {
    if |starts| == 0 then Ok([])
    else
      match Walk(g, instructions, starts[0], ends, 0, fuel)
      case Arrived(s) =>
        var rest := Times(g, instructions, starts[1..], ends, fuel);
        if rest.Failed? then rest else Ok([s] + rest.times)
      case other => Failed(other)
  }

  datatype Result = Ok(times: seq<nat>) | Failed(outcome: Outcome)

  /** `part_2`: every start (a name ending in 'A') walks until some name
      ending in 'Z'; the answer is the least common multiple of the walk
      lengths (1 when there is no start). */
  function Part2(instructions: string, entries: seq<Entry>, fuel: nat): (r: Outcome)
    ensures r.Arrived? ==> r.steps > 0
    ensures !r.Arrived? ==>
      exists start :: (start in Graph(entries) && EndsWith(start, 'A')
                       && Walk(Graph(entries), instructions, start, Ending(Names(entries), 'Z'), 0, fuel) == r)
  {
    var names := Names(entries);
    NamesExact(entries);
    EndingExact(names, 'A');
    match Times(Graph(entries), instructions, Ending(names, 'A'), Ending(names, 'Z'), fuel)
    case Failed(o) => o
    case Ok(times) => Arrived(LcmAll(times))
  }

  /** When every walk arrives the answer is a positive multiple of each
      start's own walk length. */
  lemma Part2Multiple(instructions: string, entries: seq<Entry>, fuel: nat, start: string, s: nat)
    requires Part2(instructions, entries, fuel).Arrived?
    requires start in Graph(entries) && EndsWith(start, 'A')
    requires Walk(Graph(entries), instructions, start, Ending(Names(entries), 'Z'), 0, fuel) == Arrived(s)
    ensures Part2(instructions, entries, fuel).steps > 0
    ensures Part2(instructions, entries, fuel).steps % s == 0
  {
    var names := Names(entries);
    NamesExact(entries);
    EndingExact(names, 'A');
    var starts := Ending(names, 'A');
    var r := Times(Graph(entries), instructions, starts, Ending(names, 'Z'), fuel);
    var i :| 0 <= i < |starts| && starts[i] == start;
    assert r.times[i] == s;
  }

  /** The answer is the least such multiple: it divides every number that is
      a multiple of each start's walk length, so no smaller positive number
      works, which is what math.lcm returns. */
  lemma Part2Least(instructions: string, entries: seq<Entry>, fuel: nat, m: nat)
    requires Part2(instructions, entries, fuel).Arrived?
    requires forall start :: start in Graph(entries) && EndsWith(start, 'A') ==>
      var w := Walk(Graph(entries), instructions, start, Ending(Names(entries), 'Z'), 0, fuel);
      w.Arrived? && m % w.steps == 0
    ensures m % Part2(instructions, entries, fuel).steps == 0
    ensures m > 0 ==> Part2(instructions, entries, fuel).steps <= m
  {
    var names := Names(entries);
    NamesExact(entries);
    EndingExact(names, 'A');
    var starts := Ending(names, 'A');
    var times := Times(Graph(entries), instructions, starts, Ending(names, 'Z'), fuel).times;
    forall i | 0 <= i < |times|
      ensures m % times[i] == 0
    {
      assert starts[i] in starts;
    }
    var r := LcmAll(times);
    if m > 0 {
      MultipleAtLeast(m, r);
    }
  }

  /** The entry for a name that no later line repeats is the one in the
      network. */
  lemma {:induction false} GraphLast(entries: seq<Entry>, i: nat)
    requires i < |entries|
    requires forall j :: i < j < |entries| ==> entries[j].name != entries[i].name
    ensures entries[i].name in Graph(entries)
    ensures Graph(entries)[entries[i].name] == (entries[i].left, entries[i].right)
  {
    if i < |entries| - 1 {
      var front := entries[..|entries| - 1];
      assert front[i] == entries[i];
      GraphLast(front, i);
    }
  }

  function FirstNetwork(): seq<Entry>
  {
    [Entry("AAA", "BBB", "CCC"), Entry("BBB", "DDD", "EEE"), Entry("CCC", "ZZZ", "GGG"),
     Entry("DDD", "DDD", "DDD"), Entry("EEE", "EEE", "EEE"), Entry("GGG", "GGG", "GGG"),
     Entry("ZZZ", "ZZZ", "ZZZ")]
  }

  /** The first example: R then L leads from AAA through CCC to ZZZ. */
  lemma FirstExample(fuel: nat)
    requires fuel >= 2
    ensures Part1("RL", FirstNetwork(), fuel) == Arrived(2)
  {
    var entries := FirstNetwork();
    GraphLast(entries, 0);
    GraphLast(entries, 2);
    var g := Graph(entries);
    assert Walk(g, "RL", "CCC", ["ZZZ"], 1, fuel - 1) == Arrived(2);
  }

  function SecondNetwork(): seq<Entry>
  {
    [Entry("AAA", "BBB", "BBB"), Entry("BBB", "AAA", "ZZZ"), Entry("ZZZ", "ZZZ", "ZZZ")]
  }

  /** The second example: LLR has to be repeated twice, six steps. */
  lemma SecondExample(fuel: nat)
    requires fuel >= 6
    ensures Part1("LLR", SecondNetwork(), fuel) == Arrived(6)
  {
    var entries := SecondNetwork();
    GraphLast(entries, 0);
    GraphLast(entries, 1);
    var g := Graph(entries);
    assert Walk(g, "LLR", "BBB", ["ZZZ"], 5, fuel - 5) == Arrived(6);
    assert Walk(g, "LLR", "AAA", ["ZZZ"], 4, fuel - 4) == Arrived(6);
    assert Walk(g, "LLR", "BBB", ["ZZZ"], 3, fuel - 3) == Arrived(6);
    assert Walk(g, "LLR", "AAA", ["ZZZ"], 2, fuel - 2) == Arrived(6);
    assert Walk(g, "LLR", "BBB", ["ZZZ"], 1, fuel - 1) == Arrived(6);
  }
}
