/** Day 20: the pulse network. Flip-flops, conjunctions and one broadcaster
    pass high/low pulses along their target lists. A button press injects one
    low pulse into the broadcaster and the pulses are processed first in,
    first out until none are left; module states persist from one press to
    the next. A pulse can in principle cause an endless cascade, so draining
    the queue takes a fuel bound and fails when it runs out. */
module Day20 {
  import opened Common

  datatype Module =
    | FlipFlop(targets: seq<string>, on: bool)
    | Conjunction(targets: seq<string>, memory: map<string, bool>)
    | Broadcaster(targets: seq<string>)

  /** One tokenised configuration line: "%a -> b, c" is Line("%a", ["b", "c"]). */
  datatype Line = Line(name: string, targets: seq<string>)

  /** A pulse in flight; `high` is its level. */
  datatype Pulse = Pulse(source: string, target: string, high: bool)

  predicate AllHigh(memory: map<string, bool>)
  {
    forall s :: s in memory ==> memory[s]
  }

  /** The module's reaction to one pulse: its new state and what it emits, if anything. */
  function Receive(m: Module, source: string, high: bool): (Module, Option<bool>)
  {
    match m
    case FlipFlop(t, on) => if high then (m, None) else (FlipFlop(t, !on), Some(!on))
    case Conjunction(t, memory) =>
      var memory' := memory[source := high];
      (Conjunction(t, memory'), Some(!AllHigh(memory')))
    case Broadcaster(t) => (m, Some(high))
  }

  /** Two low pulses bring a flip-flop back to its original state. */
  lemma FlipFlopTwoLows(t: seq<string>, on: bool, s1: string, s2: string)
    ensures Receive(Receive(FlipFlop(t, on), s1, false).0, s2, false).0 == FlipFlop(t, on)
  {
  }

  /** A conjunction records the sender's level, then emits low exactly when
      every remembered input level is high. */
  lemma ConjunctionReceive(t: seq<string>, memory: map<string, bool>, source: string, high: bool)
    ensures Receive(Conjunction(t, memory), source, high).0.memory == memory[source := high]
    ensures Receive(Conjunction(t, memory), source, high).1.Some?
    ensures !Receive(Conjunction(t, memory), source, high).1.value <==>
      (forall s :: s in memory && s != source ==> memory[s]) && high
  {
    var memory' := memory[source := high];
    assert source in memory' && memory'[source] == high;
    assert forall s :: s in memory && s != source ==> s in memory' && memory'[s] == memory[s];
  }

  /** Deliver the levels one after another from one source: the module's
      final state and the levels it emits, in order. */
  function Feed(m: Module, source: string, levels: seq<bool>): (Module, seq<bool>)
    decreases |levels|
  {
    if |levels| == 0 then (m, [])
    else
      var (m', out) := Receive(m, source, levels[0]);
      var (final, outs) := Feed(m', source, levels[1..]);
      (final, (if out.Some? then [out.value] else []) + outs)
  }

  /** Levels that alternate, starting with the opposite of `on`. */
  predicate Alternating(outs: seq<bool>, on: bool)
  {
    forall i :: 0 <= i < |outs| ==> outs[i] == (on == (i % 2 == 1))
  }

  /** A flip-flop answers every low pulse and nothing else: after a run of
      pulses it is toggled once per low, and its answers alternate, starting
      with the opposite of its initial state. */
  lemma {:induction false} FlipFlopParity(t: seq<string>, on: bool, source: string, levels: seq<bool>)
    ensures Feed(FlipFlop(t, on), source, levels).0 == FlipFlop(t, on != (Count(levels, false) % 2 == 1))
    ensures |Feed(FlipFlop(t, on), source, levels).1| == Count(levels, false)
    ensures Alternating(Feed(FlipFlop(t, on), source, levels).1, on)
    decreases |levels|
  {
    if |levels| > 0 {
      var rest := levels[1..];
      FlipFlopStep(t, on, source, levels);
      if levels[0] {
        FlipFlopParity(t, on, source, rest);
      } else {
        FlipFlopParity(t, !on, source, rest);
        OddAfter(Count(rest, false));
        AlternatingCons(Feed(FlipFlop(t, !on), source, rest).1, on);
      }
    }
  }

  /** A high pulse leaves a flip-flop alone; a low one toggles it and is answered. */
  lemma FlipFlopStep(t: seq<string>, on: bool, source: string, levels: seq<bool>)
    requires |levels| > 0
    ensures levels[0] ==> (Count(levels, false) == Count(levels[1..], false)
      && Feed(FlipFlop(t, on), source, levels) == Feed(FlipFlop(t, on), source, levels[1..]))
    ensures !levels[0] ==> (Count(levels, false) == 1 + Count(levels[1..], false)
      && Feed(FlipFlop(t, on), source, levels)
         == (Feed(FlipFlop(t, !on), source, levels[1..]).0, [!on] + Feed(FlipFlop(t, !on), source, levels[1..]).1))
  {
    var outs := Feed(FlipFlop(t, on), source, levels[1..]).1;
    assert [] + outs == outs;
  }

  lemma OddAfter(c: nat)
    ensures ((1 + c) % 2 == 1) == (c % 2 != 1)
  {
  }

  lemma AlternatingCons(outs: seq<bool>, on: bool)
    requires Alternating(outs, !on)
    ensures Alternating([!on] + outs, on)
  {
    var all := [!on] + outs;
    forall i | 0 < i < |all|
      ensures all[i] == (on == (i % 2 == 1))
    {
      assert all[i] == outs[i - 1];
    }
  }

  /** The broadcaster keeps no state and passes on every level it receives. */
  lemma {:induction false} BroadcasterEcho(t: seq<string>, source: string, levels: seq<bool>)
    ensures Feed(Broadcaster(t), source, levels) == (Broadcaster(t), levels)
    decreases |levels|
  {
    if |levels| > 0 {
      BroadcasterEcho(t, source, levels[1..]);
      HeadTail(levels);
    }
  }

  // ---------------------------------------------------------------------------
  // Wiring the network from its configuration lines

  /** The module name a line declares: "broadcaster", or the name after its type character. */
  function DeclaredName(line: Line): string
  {
    if line.name == "broadcaster" || |line.name| == 0 then line.name else line.name[1..]
  }

  /** The module a line declares; an unknown type character is a parse failure. */
  function Declare(line: Line): (r: Option<Module>)
    ensures r.Some? ==> r.value.targets == line.targets
    ensures r.Some? <==> line.name == "broadcaster" || (|line.name| > 0 && line.name[0] in "%&")
  {
    if line.name == "broadcaster" then Some(Broadcaster(line.targets))
    else if |line.name| > 0 && line.name[0] == '%' then Some(FlipFlop(line.targets, false))
    else if |line.name| > 0 && line.name[0] == '&' then Some(Conjunction(line.targets, map[]))
    else None
  }

  /** All declarations; a later line with the same name replaces an earlier one. */
  function DeclareAll(lines: seq<Line>): Option<map<string, Module>>
  {
    if |lines| == 0 then Some(map[])
    else
      match (DeclareAll(lines[..|lines| - 1]), Declare(lines[|lines| - 1]))
      case (Some(mods), Some(m)) => Some(mods[DeclaredName(lines[|lines| - 1]) := m])
      case _ => None
  }

  /** The names of the lines listing `target`, once per listing, in line order. */
  function Sources(lines: seq<Line>, target: string): seq<string>
  {
    if |lines| == 0 then []
    else
      var line := lines[|lines| - 1];
      Sources(lines[..|lines| - 1], target)
        + seq(Count(line.targets, target), _ => DeclaredName(line))
  }

  /** parse: every conjunction starts with a low memory for each of its sources. */
  function Parse(lines: seq<Line>): Option<map<string, Module>>
  {
    match DeclareAll(lines)
    case None => None
    case Some(mods) =>
      Some(map n | n in mods ::
        match mods[n]
        case Conjunction(t, _) => Conjunction(t, map s | s in Sources(lines, n) :: false)
        case m => m)
  }

  lemma {:induction false} SourcesSpec(lines: seq<Line>, target: string, s: string)
    ensures s in Sources(lines, target) <==>
      exists i :: 0 <= i < |lines| && target in lines[i].targets && DeclaredName(lines[i]) == s
  {
    if |lines| > 0 {
      var init := lines[..|lines| - 1];
      var line := lines[|lines| - 1];
      SourcesSpec(init, target, s);
      CountZero(line.targets, target);
      var tail := seq(Count(line.targets, target), _ => DeclaredName(line));
      assert s in Sources(lines, target) <==> s in Sources(init, target) || s in tail;
      if s in tail {
        assert target in lines[|lines| - 1].targets && DeclaredName(lines[|lines| - 1]) == s;
      }
      if exists i :: 0 <= i < |lines| && target in lines[i].targets && DeclaredName(lines[i]) == s {
        var i :| 0 <= i < |lines| && target in lines[i].targets && DeclaredName(lines[i]) == s;
        if i < |init| {
          assert init[i] == lines[i];
        } else {
          assert tail[0] == s;
        }
      }
    }
  }

  /** Each conjunction's memory starts low, with one entry for every module
      that lists it as a target. */
  lemma ParseWiresMemory(lines: seq<Line>, n: string)
    requires Parse(lines).Some? && n in Parse(lines).value && Parse(lines).value[n].Conjunction?
    ensures forall s :: s in Parse(lines).value[n].memory ==> !Parse(lines).value[n].memory[s]
    ensures forall s :: s in Parse(lines).value[n].memory <==>
      exists i :: 0 <= i < |lines| && n in lines[i].targets && DeclaredName(lines[i]) == s
  {
    forall s ensures s in Parse(lines).value[n].memory <==>
      exists i :: 0 <= i < |lines| && n in lines[i].targets && DeclaredName(lines[i]) == s
    {
      SourcesSpec(lines, n, s);
    }
  }

  // ---------------------------------------------------------------------------
  // Processing pulses

  datatype State = State(modules: map<string, Module>, queue: seq<Pulse>, lows: nat, highs: nat)

  /** The pulses a module sends: one per target, in listed order. */
  function Emit(name: string, targets: seq<string>, out: Option<bool>): seq<Pulse>
  {
    if out.None? then [] else seq(|targets|, i requires 0 <= i < |targets| => Pulse(name, targets[i], out.value))
  }

  /** Process the pulse at the head of the queue: count it, deliver it if its
      target exists, and append what the target emits at the back. */
  function Step(s: State): State
    requires |s.queue| > 0
  {
    var p := s.queue[0];
    var lows := if p.high then s.lows else s.lows + 1;
    var highs := if p.high then s.highs + 1 else s.highs;
    if p.target !in s.modules then State(s.modules, s.queue[1..], lows, highs)
    else
      var (m, out) := Receive(s.modules[p.target], p.source, p.high);
      State(s.modules[p.target := m], s.queue[1..] + Emit(p.target, m.targets, out), lows, highs)
  }

  /** One step counts the head pulse exactly once, by its level, and queues
      the target's emissions behind everything already waiting; a pulse to an
      unknown module is counted and goes nowhere. */
  lemma StepIsFifo(s: State)
    requires |s.queue| > 0
    ensures var p := s.queue[0];
      && Step(s).lows + Step(s).highs == s.lows + s.highs + 1
      && (p.high <==> Step(s).highs == s.highs + 1)
      && Step(s).queue[..|s.queue| - 1] == s.queue[1..]
      && (p.target !in s.modules ==> Step(s).queue == s.queue[1..] && Step(s).modules == s.modules)
      && (p.target in s.modules ==>
            var out := Receive(s.modules[p.target], p.source, p.high).1;
            var targets := s.modules[p.target].targets;
            && |Step(s).queue| == |s.queue| - 1 + (if out.Some? then |targets| else 0)
            && forall i :: |s.queue| - 1 <= i < |Step(s).queue| ==>
                 Step(s).queue[i] == Pulse(p.target, targets[i - |s.queue| + 1], out.value))
  {
    var p := s.queue[0];
    if p.target in s.modules {
      var m := s.modules[p.target];
      assert Receive(m, p.source, p.high).0.targets == m.targets;
    }
  }

  /** Process pulses until the queue is empty; None if the fuel runs out first. */
  function Drain(s: State, fuel: nat): Option<State>
    decreases fuel
  {
    if |s.queue| == 0 then Some(s)
    else if fuel == 0 then None
    else Drain(Step(s), fuel - 1)
  }

  /** A drained queue is empty and every pulse that was waiting has been counted. */
  lemma {:induction false} DrainCountsEveryPulse(s: State, fuel: nat)
    requires Drain(s, fuel).Some?
    ensures Drain(s, fuel).value.queue == []
    ensures Drain(s, fuel).value.lows + Drain(s, fuel).value.highs >= s.lows + s.highs + |s.queue|
    decreases fuel
  {
    if |s.queue| > 0 {
      StepIsFifo(s);
      DrainCountsEveryPulse(Step(s), fuel - 1);
    }
  }

  /** One button press: a low pulse from the button to the broadcaster, drained. */
  function Press(modules: map<string, Module>, fuel: nat): Option<State>
  {
    Drain(State(modules, [Pulse("button", "broadcaster", false)], 0, 0), fuel)
  }

  /** n presses on the same, evolving modules; the low and high totals. */
  function PressMany(modules: map<string, Module>, n: nat, fuel: nat): Option<(map<string, Module>, nat, nat)>
    decreases n
  {
    if n == 0 then Some((modules, 0, 0))
    else
      match Press(modules, fuel)
      case None => None
      case Some(after) =>
        match PressMany(after.modules, n - 1, fuel)
        case None => None
        case Some((final, lows, highs)) => Some((final, after.lows + lows, after.highs + highs))
  }

  /** Every press counts at least its own button pulse, so n presses count at least n pulses. */
  lemma {:induction false} PressManyCountsButton(modules: map<string, Module>, n: nat, fuel: nat)
    requires PressMany(modules, n, fuel).Some?
    ensures PressMany(modules, n, fuel).value.1 + PressMany(modules, n, fuel).value.2 >= n
    decreases n
  {
    if n > 0 {
      var s0 := State(modules, [Pulse("button", "broadcaster", false)], 0, 0);
      DrainCountsEveryPulse(s0, fuel);
      var after := Press(modules, fuel).value;
      PressManyCountsButton(after.modules, n - 1, fuel);
    }
  }

  /** part_1 presses the button 1000 times. */
  function PressCount(): nat
  {
    1000
  }

  function Product(a: nat, b: nat): nat
  {
    a * b
  }

  /** part_1: the product of the high and low totals over 1000 presses. */
  function Part1(lines: seq<Line>, fuel: nat): Option<nat>
  {
    var parsed := Parse(lines);
    if parsed.None? then None
    else
      var pressed := PressMany(parsed.value, PressCount(), fuel);
      if pressed.None? then None else Some(Product(pressed.value.2, pressed.value.1))
  }

  /** When one press returns the parsed network to where it started, part_1
      is a million times the product of that press's high and low counts. */
  lemma Part1Periodic(lines: seq<Line>, fuel: nat)
    requires Parse(lines).Some? && Press(Parse(lines).value, fuel).Some?
    requires Press(Parse(lines).value, fuel).value.modules == Parse(lines).value
    ensures var once := Press(Parse(lines).value, fuel).value;
      Part1(lines, fuel) == Some(1000000 * (once.highs * once.lows))
  {
    var once := Press(Parse(lines).value, fuel).value;
    PeriodicPresses(Parse(lines).value, PressCount(), fuel, once.lows, once.highs);
    ScaledProduct(once.highs, once.lows);
  }

  lemma ScaledProduct(a: nat, b: nat)
    ensures Product(1000 * a, 1000 * b) == 1000000 * (a * b)
  {
    calc {
      (1000 * a) * (1000 * b);
      1000 * (a * (1000 * b));
      { assert a * (1000 * b) == 1000 * (a * b); }
      1000 * (1000 * (a * b));
    }
  }

  /** If one press returns the network to where it started, every press repeats
      it, so the totals scale with the number of presses. */
  lemma {:induction false} PeriodicPresses(modules: map<string, Module>, n: nat, fuel: nat, lows: nat, highs: nat)
    requires Press(modules, fuel).Some?
    requires Press(modules, fuel).value.modules == modules
    requires Press(modules, fuel).value.lows == lows && Press(modules, fuel).value.highs == highs
    ensures PressMany(modules, n, fuel) == Some((modules, n * lows, n * highs))
  {
    if n > 0 {
      PeriodicPresses(modules, n - 1, fuel, lows, highs);
      assert lows + (n - 1) * lows == n * lows;
      assert highs + (n - 1) * highs == n * highs;
    }
  }

  // ---------------------------------------------------------------------------
  // part_2: watch the inputs of the conjunction that feeds "rx"

  /** Distinct elements in first-occurrence order (the order of dict.fromkeys). */
  function Dedup(s: seq<string>): (r: seq<string>)
    ensures forall x :: x in r <==> x in s
    ensures forall i, j :: 0 <= i < j < |r| ==> r[i] != r[j]
  {
    if |s| == 0 then []
    else
      var init := Dedup(s[..|s| - 1]);
      assert forall x :: x in s <==> x in s[..|s| - 1] || x == s[|s| - 1];
      if s[|s| - 1] in init then init else init + [s[|s| - 1]]
  }

  /** The names the lines declare, in line order: every key of the parsed modules. */
  function Names(lines: seq<Line>): seq<string>
  {
    seq(|lines|, i requires 0 <= i < |lines| => DeclaredName(lines[i]))
  }

  predicate FeedsRx(modules: map<string, Module>, n: string)
  {
    n in modules && "rx" in modules[n].targets
  }

  /** The names among `names` whose module lists "rx", in order, each once. */
  function Feeding(modules: map<string, Module>, names: seq<string>): (r: seq<string>)
    ensures forall n :: n in r <==> n in names && FeedsRx(modules, n)
  {
    if |names| == 0 then []
    else
      var init := Feeding(modules, names[..|names| - 1]);
      var n := names[|names| - 1];
      assert forall x :: x in names <==> x in names[..|names| - 1] || x == n;
      if FeedsRx(modules, n) && n !in init then init + [n] else init
  }

  /** mit.only over the modules listing "rx": the one such module; none, or
      more than one, is a failure. */
  function Feeder(modules: map<string, Module>, names: seq<string>): (r: Option<string>)
    ensures r.Some? ==> r.value in names && FeedsRx(modules, r.value)
    ensures r.Some? ==> forall n :: n in names && FeedsRx(modules, n) ==> n == r.value
    ensures r.None? ==>
      (forall n :: n in names ==> !FeedsRx(modules, n)) ||
      (exists n1, n2 :: n1 in names && n2 in names && n1 != n2 && FeedsRx(modules, n1) && FeedsRx(modules, n2))
  {
    var feeding := Feeding(modules, names);
    FeedingDistinct(modules, names);
    if |feeding| == 1 then Some(feeding[0])
    else
      assert |feeding| >= 2 ==> feeding[0] in feeding && feeding[1] in feeding && feeding[0] != feeding[1];
      None
  }

  lemma {:induction false} FeedingDistinct(modules: map<string, Module>, names: seq<string>)
    ensures forall i, j :: 0 <= i < j < |Feeding(modules, names)| ==> Feeding(modules, names)[i] != Feeding(modules, names)[j]
  {
    if |names| > 0 {
      FeedingDistinct(modules, names[..|names| - 1]);
    }
  }

  /** The declared names are exactly the keys of the declaration map. */
  lemma {:induction false} DeclaredKeys(lines: seq<Line>)
    requires DeclareAll(lines).Some?
    ensures forall n :: n in DeclareAll(lines).value <==> n in Names(lines)
  {
    if |lines| > 0 {
      var init := lines[..|lines| - 1];
      DeclaredKeys(init);
      assert forall n :: n in Names(lines) <==> n in Names(init) || n == DeclaredName(lines[|lines| - 1]) by {
        assert Names(lines) == Names(init) + [DeclaredName(lines[|lines| - 1])];
      }
    }
  }

  /** The feeder is read from the final modules, where a later declaration of
      a name replaces an earlier one: it is the one module of the parsed
      network that lists "rx", and there is none exactly when no module, or
      more than one, lists it. */
  lemma FeederOfModules(lines: seq<Line>)
    requires Parse(lines).Some?
    ensures var modules := Parse(lines).value;
      var r := Feeder(modules, Names(lines));
      && (r.Some? ==> FeedsRx(modules, r.value) && forall n :: FeedsRx(modules, n) ==> n == r.value)
      && (r.None? ==>
            (forall n :: !FeedsRx(modules, n)) ||
            (exists n1, n2 :: n1 != n2 && FeedsRx(modules, n1) && FeedsRx(modules, n2)))
  {
    DeclaredKeys(lines);
  }

  /** The feeder's remembered input levels; none when it is missing or is not a conjunction. */
  function FeederMemory(modules: map<string, Module>, feeder: string): map<string, bool>
  {
    if feeder in modules && modules[feeder].Conjunction? then modules[feeder].memory else map[]
  }

  predicate HighIn(memory: map<string, bool>, w: string)
  {
    w in memory && memory[w]
  }

  /** Record the current press for each watched input not yet recorded whose
      remembered level is high; earlier records are kept. */
  function Record(watch: seq<string>, memory: map<string, bool>, seen: map<string, nat>, press: nat): (r: map<string, nat>)
    ensures forall w :: w in r <==> w in seen || (w in watch && HighIn(memory, w))
    ensures forall w :: w in r ==> r[w] == if w in seen then seen[w] else press
  {
    if |watch| == 0 then seen
    else
      var w := watch[0];
      assert forall x :: x in watch <==> x == w || x in watch[1..];
      var seen' := if HighIn(memory, w) && w !in seen then seen[w := press] else seen;
      Record(watch[1..], memory, seen', press)
  }

  function AllSeen(watch: seq<string>, seen: map<string, nat>): bool
  {
    forall w :: w in watch ==> w in seen
  }

  /** The state of a fresh button press on the given modules. */
  function Start(modules: map<string, Module>): State
  {
    State(modules, [Pulse("button", "broadcaster", false)], 0, 0)
  }

  /** How a watched press ends: with every watched input recorded, at which
      point the search answers at once, or with the queue drained. */
  datatype Watched = Found(seen: map<string, nat>) | Drained(after: State, seen: map<string, nat>)

  /** Drain one press; after every pulse delivered to a known module, record
      the watched inputs the feeder remembers as high, and stop as soon as
      every watched input has a record. None if the fuel runs out first. */
  function DrainWatching(s: State, feeder: string, watch: seq<string>, seen: map<string, nat>, press: nat, fuel: nat)
    : (r: Option<Watched>)
    ensures r.Some? && r.value.Found? ==> AllSeen(watch, r.value.seen)
    decreases fuel
  {
    if |s.queue| == 0 then Some(Drained(s, seen))
    else if fuel == 0 then None
    else if s.queue[0].target !in s.modules then DrainWatching(Step(s), feeder, watch, seen, press, fuel - 1)
    else
      var s' := Step(s);
      var seen' := Record(watch, FeederMemory(s'.modules, feeder), seen, press);
      if AllSeen(watch, seen') then Some(Found(seen'))
      else DrainWatching(s', feeder, watch, seen', press, fuel - 1)
  }

  /** The recorded press of each watched input, in watch order. */
  function Recorded(watch: seq<string>, seen: map<string, nat>): seq<nat>
    requires AllSeen(watch, seen)
  {
    seq(|watch|, i requires 0 <= i < |watch| => seen[watch[i]])
  }

  /** Press from `press` onwards, at most `presses` times, until every watched
      input has been recorded; the answer is the lcm of the recorded presses. */
  function Search(modules: map<string, Module>, feeder: string, watch: seq<string>, seen: map<string, nat>,
                  press: nat, presses: nat, fuel: nat): Option<nat>
    decreases presses
  {
    if presses == 0 then None
    else
      match DrainWatching(Start(modules), feeder, watch, seen, press, fuel)
      case None => None
      case Some(Found(seen')) => Some(LcmAll(Recorded(watch, seen')))
      case Some(Drained(after, seen')) => Search(after.modules, feeder, watch, seen', press + 1, presses - 1, fuel)
  }

  /** part_2: the watched inputs are the sources of the feeder, the keys of
      its memory; a feeder that is not a conjunction fails the assertion. */
  function Part2(lines: seq<Line>, presses: nat, fuel: nat): Option<nat>
  {
    match Parse(lines)
    case None => None
    case Some(modules) =>
      match Feeder(modules, Names(lines))
      case None => None
      case Some(feeder) =>
        if modules[feeder].Conjunction? then Search(modules, feeder, Dedup(Sources(lines, feeder)), map[], 1, presses, fuel)
        else None
  }

  // ---------------------------------------------------------------------------
  // What the search records, against a reference run of each press

  /** Whether, while the queue drains (for at most `fuel` pulses), some pulse
      delivered to a known module leaves the feeder remembering `w` as high. */
  predicate HighDuring(s: State, feeder: string, w: string, fuel: nat)
    decreases fuel
  {
    && |s.queue| > 0 && fuel > 0
    && ((s.queue[0].target in s.modules && HighIn(FeederMemory(Step(s).modules, feeder), w))
        || HighDuring(Step(s), feeder, w, fuel - 1))
  }

  /** Press j (counting from 0) of a run of full presses starting from
      `modules` is the first during which `w` is remembered high. */
  predicate FirstHigh(modules: map<string, Module>, feeder: string, w: string, j: nat, fuel: nat)
  {
    && (forall i :: 0 <= i <= j ==> PressMany(modules, i, fuel).Some?)
    && HighDuring(Start(PressMany(modules, j, fuel).value.0), feeder, w, fuel)
    && forall i :: 0 <= i < j ==> !HighDuring(Start(PressMany(modules, i, fuel).value.0), feeder, w, fuel)
  }

  /** Every watched input not recorded before `press` has, as its record,
      the first press from `press` on during which it was high. */
  predicate FirstHighs(modules: map<string, Module>, feeder: string, watch: seq<string>, seen: map<string, nat>,
                       first: map<string, nat>, press: nat, fuel: nat)
    requires AllSeen(watch, first)
  {
    forall w :: w in watch && w !in seen ==> first[w] >= press && FirstHigh(modules, feeder, w, first[w] - press, fuel)
  }

  /** A watched press keeps earlier records; a new record is the current
      press of a watched input that was high during it; a press that drains
      ends as the plain press does, and has recorded every watched input that
      was high during it. */
  lemma {:induction false} DrainWatchingSpec(s: State, feeder: string, watch: seq<string>, seen: map<string, nat>,
                                            press: nat, fuel: nat)
    requires DrainWatching(s, feeder, watch, seen, press, fuel).Some?
    ensures var r := DrainWatching(s, feeder, watch, seen, press, fuel).value;
      && (forall w :: w in seen ==> w in r.seen && r.seen[w] == seen[w])
      && (forall w :: w in r.seen && w !in seen ==> r.seen[w] == press && w in watch && HighDuring(s, feeder, w, fuel))
    ensures var r := DrainWatching(s, feeder, watch, seen, press, fuel).value;
      r.Drained? ==>
        && Drain(s, fuel) == Some(r.after)
        && forall w :: w in watch && HighDuring(s, feeder, w, fuel) ==> w in r.seen
    decreases fuel
  {
    if |s.queue| > 0 {
      var s' := Step(s);
      if s.queue[0].target !in s.modules {
        DrainWatchingSpec(s', feeder, watch, seen, press, fuel - 1);
      } else {
        var seen' := Record(watch, FeederMemory(s'.modules, feeder), seen, press);
        if !AllSeen(watch, seen') {
          DrainWatchingSpec(s', feeder, watch, seen', press, fuel - 1);
        }
      }
    }
  }

  /** The first high press of an input that was low during the first press
      is one later than its first high press counted from the second. */
  lemma FirstHighLater(modules: map<string, Module>, feeder: string, w: string, j: nat, fuel: nat)
    requires Press(modules, fuel).Some?
    requires !HighDuring(Start(modules), feeder, w, fuel)
    requires FirstHigh(Press(modules, fuel).value.modules, feeder, w, j, fuel)
    ensures FirstHigh(modules, feeder, w, j + 1, fuel)
  {
    var after := Press(modules, fuel).value.modules;
    forall i | 0 <= i <= j
      ensures PressMany(modules, i + 1, fuel).Some? && PressMany(modules, i + 1, fuel).value.0 == PressMany(after, i, fuel).value.0
    {
      assert PressMany(after, i, fuel).Some?;
    }
    forall i | 0 <= i <= j + 1
      ensures PressMany(modules, i, fuel).Some?
    {
      if i > 0 {
        assert PressMany(modules, (i - 1) + 1, fuel).Some?;
      }
    }
    forall i | 0 <= i < j + 1
      ensures !HighDuring(Start(PressMany(modules, i, fuel).value.0), feeder, w, fuel)
    {
      if i > 0 {
        assert PressMany(modules, (i - 1) + 1, fuel).value.0 == PressMany(after, i - 1, fuel).value.0;
      }
    }
    assert PressMany(modules, j + 1, fuel).value.0 == PressMany(after, j, fuel).value.0;
  }

  /** An input high during the first press is first high at press 0. */
  lemma FirstHighNow(modules: map<string, Module>, feeder: string, w: string, fuel: nat)
    requires HighDuring(Start(modules), feeder, w, fuel)
    ensures FirstHigh(modules, feeder, w, 0, fuel)
  {
    assert PressMany(modules, 0, fuel) == Some((modules, 0, 0));
  }

  /** What a search answers: every watched input gets the first press (from
      `press` on) during which the feeder remembered it high, unless it was
      recorded before; the answer is the lcm of those presses. */
  lemma {:induction false} SearchFindsFirstHighs(modules: map<string, Module>, feeder: string, watch: seq<string>,
                                               seen: map<string, nat>, press: nat, presses: nat, fuel: nat)
    returns (first: map<string, nat>)
    requires Search(modules, feeder, watch, seen, press, presses, fuel).Some?
    ensures AllSeen(watch, first)
    ensures Search(modules, feeder, watch, seen, press, presses, fuel).value == LcmAll(Recorded(watch, first))
    ensures forall w :: w in seen ==> w in first && first[w] == seen[w]
    ensures FirstHighs(modules, feeder, watch, seen, first, press, fuel)
    decreases presses
  {
    var r := DrainWatching(Start(modules), feeder, watch, seen, press, fuel).value;
    if r.Found? {
      assert Search(modules, feeder, watch, seen, press, presses, fuel) == Some(LcmAll(Recorded(watch, r.seen)));
      first := r.seen;
      FoundFirstHighs(modules, feeder, watch, seen, press, fuel);
    } else {
      assert Search(modules, feeder, watch, seen, press, presses, fuel)
        == Search(r.after.modules, feeder, watch, r.seen, press + 1, presses - 1, fuel);
      first := SearchFindsFirstHighs(r.after.modules, feeder, watch, r.seen, press + 1, presses - 1, fuel);
      DrainedFirstHighs(modules, feeder, watch, seen, first, press, fuel);
    }
  }

  /** The search case where the first press records every watched input. */
  lemma FoundFirstHighs(modules: map<string, Module>, feeder: string, watch: seq<string>,
                        seen: map<string, nat>, press: nat, fuel: nat)
    requires DrainWatching(Start(modules), feeder, watch, seen, press, fuel).Some?
    requires DrainWatching(Start(modules), feeder, watch, seen, press, fuel).value.Found?
    ensures var seen' := DrainWatching(Start(modules), feeder, watch, seen, press, fuel).value.seen;
      && (forall w :: w in seen ==> w in seen' && seen'[w] == seen[w])
      && FirstHighs(modules, feeder, watch, seen, seen', press, fuel)
  {
    DrainWatchingSpec(Start(modules), feeder, watch, seen, press, fuel);
    var seen' := DrainWatching(Start(modules), feeder, watch, seen, press, fuel).value.seen;
    forall w | w in watch && w !in seen
      ensures seen'[w] >= press && FirstHigh(modules, feeder, w, seen'[w] - press, fuel)
    {
      FirstHighNow(modules, feeder, w, fuel);
    }
  }

  /** The search case where the first press drains: inputs recorded during it
      are first high at press 0, the others one press later than the rest of
      the search says. */
  lemma DrainedFirstHighs(modules: map<string, Module>, feeder: string, watch: seq<string>,
                          seen: map<string, nat>, first: map<string, nat>, press: nat, fuel: nat)
    requires DrainWatching(Start(modules), feeder, watch, seen, press, fuel).Some?
    requires DrainWatching(Start(modules), feeder, watch, seen, press, fuel).value.Drained?
    requires AllSeen(watch, first)
    requires var r := DrainWatching(Start(modules), feeder, watch, seen, press, fuel).value;
      && (forall w :: w in r.seen ==> w in first && first[w] == r.seen[w])
      && FirstHighs(r.after.modules, feeder, watch, r.seen, first, press + 1, fuel)
    ensures forall w :: w in seen ==> w in first && first[w] == seen[w]
    ensures FirstHighs(modules, feeder, watch, seen, first, press, fuel)
  {
    var r := DrainWatching(Start(modules), feeder, watch, seen, press, fuel).value;
    DrainWatchingSpec(Start(modules), feeder, watch, seen, press, fuel);
    assert Press(modules, fuel) == Some(r.after);
    forall w | w in watch && w !in seen
      ensures first[w] >= press && FirstHigh(modules, feeder, w, first[w] - press, fuel)
    {
      if w in r.seen {
        FirstHighNow(modules, feeder, w, fuel);
      } else {
        FirstHighLater(modules, feeder, w, first[w] - (press + 1), fuel);
      }
    }
  }

  /** part_2's answer: the feeder is the one module listing "rx", the watched
      inputs are exactly its sources, each gets the first press (from 1)
      during which the feeder remembered it high, and the answer is the lcm of
      those presses, which divides every common multiple of them. */
  lemma Part2FirstHighs(lines: seq<Line>, presses: nat, fuel: nat) returns (feeder: string, first: map<string, nat>)
    requires Part2(lines, presses, fuel).Some?
    ensures Parse(lines).Some? && FeedsRx(Parse(lines).value, feeder)
    ensures forall n :: FeedsRx(Parse(lines).value, n) ==> n == feeder
    ensures Parse(lines).value[feeder].Conjunction?
    ensures forall w :: w in Parse(lines).value[feeder].memory ==>
      w in first && first[w] >= 1 && FirstHigh(Parse(lines).value, feeder, w, first[w] - 1, fuel)
    ensures var watch := Dedup(Sources(lines, feeder));
      && (forall w :: w in watch <==> w in Parse(lines).value[feeder].memory)
      && AllSeen(watch, first)
      && Part2(lines, presses, fuel).value == LcmAll(Recorded(watch, first))
      && forall m: nat :: (forall w :: w in watch ==> m % first[w] == 0) ==> m % Part2(lines, presses, fuel).value == 0
  {
    var modules := Parse(lines).value;
    FeederOfModules(lines);
    feeder := Feeder(modules, Names(lines)).value;
    var watch := Dedup(Sources(lines, feeder));
    first := SearchFindsFirstHighs(modules, feeder, watch, map[], 1, presses, fuel);
    RecordedLcm(watch, first);
  }

  /** The lcm of positive recorded presses divides every common multiple of them. */
  lemma RecordedLcm(watch: seq<string>, first: map<string, nat>)
    requires AllSeen(watch, first) && forall w :: w in watch ==> first[w] >= 1
    ensures forall m: nat :: (forall w :: w in watch ==> m % first[w] == 0) ==> m % LcmAll(Recorded(watch, first)) == 0
  {
    var recorded := Recorded(watch, first);
    assert forall i :: 0 <= i < |recorded| ==> recorded[i] > 0;
    forall m: nat | forall w :: w in watch ==> m % first[w] == 0
      ensures m % LcmAll(recorded) == 0
    {
      assert forall i :: 0 <= i < |recorded| ==> m % recorded[i] == 0;
    }
  }

  /** Without a broadcaster no pulse reaches a known module, so the watched
      inputs are never checked and the search never answers, whatever the
      bounds (the source loops for ever). */
  lemma NoBroadcasterNoAnswer(presses: nat, fuel: nat)
    ensures Part2([Line("&f", ["rx"])], presses, fuel) == None
  {
    var modules := map["f" := Conjunction(["rx"], map[])];
    LoneConjunction();
    assert Names([Line("&f", ["rx"])]) == ["f"];
    assert Feeding(modules, ["f"]) == ["f"] by {
      assert ["f"][..0] == [];
    }
    assert Dedup([]) == [];
    SilentSearch(modules, presses, fuel);
  }

  /** The lone line "&f -> rx" declares one conjunction with no sources. */
  lemma LoneConjunction()
    ensures Sources([Line("&f", ["rx"])], "f") == []
    ensures Parse([Line("&f", ["rx"])]) == Some(map["f" := Conjunction(["rx"], map[])])
  {
    var lines := [Line("&f", ["rx"])];
    var modules := map["f" := Conjunction(["rx"], map[])];
    assert lines[..0] == [];
    assert DeclareAll(lines) == Some(modules);
    assert Sources(lines, "f") == [];
    var wired := map s | s in Sources(lines, "f") :: false;
    assert wired == map[];
    var parsed := Parse(lines).value;
    assert parsed.Keys == modules.Keys;
    assert parsed["f"] == Conjunction(["rx"], wired);
    assert parsed == modules;
  }

  lemma {:induction false} SilentSearch(modules: map<string, Module>, presses: nat, fuel: nat)
    requires "broadcaster" !in modules
    ensures forall press: nat :: Search(modules, "f", [], map[], press, presses, fuel) == None
    decreases presses
  {
    if presses > 0 {
      SilentSearch(modules, presses - 1, fuel);
      forall press: nat
        ensures Search(modules, "f", [], map[], press, presses, fuel) == None
      {
        var s0 := Start(modules);
        if fuel > 0 {
          assert Step(s0).queue == [] && Step(s0).modules == modules;
          assert DrainWatching(Step(s0), "f", [], map[], press, fuel - 1) == Some(Drained(Step(s0), map[]));
        }
      }
    }
  }
}
