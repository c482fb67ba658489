/** The first example of day 20's part_1, followed pulse by pulse: one press
    of the network returns it to where it started, so 1000 presses multiply
    its pulse counts by 1000 each. */
module Day20Example {
  import opened Common
  import opened Day20

  /** The first example network of part_1, with its flip-flop states and the
      conjunction's memory of "c" as parameters. */
  function ExampleNet(a: bool, b: bool, c: bool, inv: bool): map<string, Module>
  {
    map["broadcaster" := Broadcaster(["a", "b", "c"]),
        "a" := FlipFlop(["b"], a),
        "b" := FlipFlop(["c"], b),
        "c" := FlipFlop(["inv"], c),
        "inv" := Conjunction(["a"], map["c" := inv])]
  }

  /** The states of one press of the first example network, pulse by pulse. */
  function ExampleState(k: nat): State
    requires k <= 12
  {
    if k == 0 then State(ExampleNet(false, false, false, false),
      [Pulse("button", "broadcaster", false)], 0, 0)
    else if k == 1 then State(ExampleNet(false, false, false, false),
      [Pulse("broadcaster", "a", false), Pulse("broadcaster", "b", false), Pulse("broadcaster", "c", false)], 1, 0)
    else if k == 2 then State(ExampleNet(true, false, false, false),
      [Pulse("broadcaster", "b", false), Pulse("broadcaster", "c", false), Pulse("a", "b", true)], 2, 0)
    else if k == 3 then State(ExampleNet(true, true, false, false),
      [Pulse("broadcaster", "c", false), Pulse("a", "b", true), Pulse("b", "c", true)], 3, 0)
    else if k == 4 then State(ExampleNet(true, true, true, false),
      [Pulse("a", "b", true), Pulse("b", "c", true), Pulse("c", "inv", true)], 4, 0)
    else if k == 5 then State(ExampleNet(true, true, true, false),
      [Pulse("b", "c", true), Pulse("c", "inv", true)], 4, 1)
    else if k == 6 then State(ExampleNet(true, true, true, false),
      [Pulse("c", "inv", true)], 4, 2)
    else if k == 7 then State(ExampleNet(true, true, true, true),
      [Pulse("inv", "a", false)], 4, 3)
    else if k == 8 then State(ExampleNet(false, true, true, true),
      [Pulse("a", "b", false)], 5, 3)
    else if k == 9 then State(ExampleNet(false, false, true, true),
      [Pulse("b", "c", false)], 6, 3)
    else if k == 10 then State(ExampleNet(false, false, false, true),
      [Pulse("c", "inv", false)], 7, 3)
    else if k == 11 then State(ExampleNet(false, false, false, false),
      [Pulse("inv", "a", true)], 8, 3)
    else State(ExampleNet(false, false, false, false),
      [], 8, 4)
  }

  lemma ExampleStepsA(k: nat)
    requires k < 2
    ensures |ExampleState(k).queue| > 0 && Step(ExampleState(k)) == ExampleState(k + 1)
  {
  }

  lemma ExampleStepsB(k: nat)
    requires 2 <= k < 4
    ensures |ExampleState(k).queue| > 0 && Step(ExampleState(k)) == ExampleState(k + 1)
  {
  }

  lemma ExampleStepsC(k: nat)
    requires 4 <= k < 6
    ensures |ExampleState(k).queue| > 0 && Step(ExampleState(k)) == ExampleState(k + 1)
  {
  }

  lemma ExampleStepsD(k: nat)
    requires 6 <= k < 8
    ensures |ExampleState(k).queue| > 0 && Step(ExampleState(k)) == ExampleState(k + 1)
  {
    if k == 6 {
      assert map["c" := false]["c" := true] == map["c" := true];
      assert AllHigh(map["c" := true]);
    }
  }

  lemma ExampleStepsE(k: nat)
    requires 8 <= k < 10
    ensures |ExampleState(k).queue| > 0 && Step(ExampleState(k)) == ExampleState(k + 1)
  {
  }

  lemma ExampleStepsF(k: nat)
    requires 10 <= k < 12
    ensures |ExampleState(k).queue| > 0 && Step(ExampleState(k)) == ExampleState(k + 1)
  {
    if k == 10 {
      assert map["c" := true]["c" := false] == map["c" := false];
      assert map["c" := false]["c"] == false;
    }
  }

  lemma ExampleStep(k: nat)
    requires k < 12
    ensures |ExampleState(k).queue| > 0 && Step(ExampleState(k)) == ExampleState(k + 1)
  {
    if k < 2 { ExampleStepsA(k); }
    else if k < 4 { ExampleStepsB(k); }
    else if k < 6 { ExampleStepsC(k); }
    else if k < 8 { ExampleStepsD(k); }
    else if k < 10 { ExampleStepsE(k); }
    else { ExampleStepsF(k); }
  }

  lemma {:induction false} ExampleDrain(k: nat, fuel: nat)
    requires k <= 12 && fuel == 12 - k
    ensures Drain(ExampleState(k), fuel) == Some(ExampleState(12))
    decreases fuel
  {
    if k < 12 {
      ExampleStep(k);
      assert Drain(ExampleState(k), fuel) == Drain(ExampleState(k + 1), fuel - 1);
      ExampleDrain(k + 1, fuel - 1);
    }
  }

  /** One press of the first example sends 8 low and 4 high pulses and
      leaves every module as it was. */
  lemma ExamplePress(fuel: nat)
    requires fuel == 12
    ensures Press(ExampleNet(false, false, false, false), fuel)
      == Some(State(ExampleNet(false, false, false, false), [], 8, 4))
  {
    ExampleDrain(0, fuel);
    var net := ExampleNet(false, false, false, false);
    assert Start(net) == ExampleState(0);
    assert Press(net, fuel) == Drain(ExampleState(0), fuel);
    assert ExampleState(12) == State(net, [], 8, 4);
  }

  /** The lines of the first example, as tokenised by parse. */
  function ExampleLines(): seq<Line>
  {
    [Line("broadcaster", ["a", "b", "c"]), Line("%a", ["b"]), Line("%b", ["c"]), Line("%c", ["inv"]),
     Line("&inv", ["a"])]
  }

  lemma ExampleDeclared()
    ensures DeclareAll(ExampleLines()) == Some(map["broadcaster" := Broadcaster(["a", "b", "c"]),
      "a" := FlipFlop(["b"], false), "b" := FlipFlop(["c"], false), "c" := FlipFlop(["inv"], false),
      "inv" := Conjunction(["a"], map[])])
  {
    var lines := ExampleLines();
    var bc := Broadcaster(["a", "b", "c"]);
    assert DeclareAll(lines[..1]) == Some(map["broadcaster" := bc]) by {
      assert lines[..1][..0] == [];
    }
    assert DeclaredName(lines[1]) == "a" && DeclaredName(lines[2]) == "b";
    assert DeclaredName(lines[3]) == "c" && DeclaredName(lines[4]) == "inv";
    assert DeclareAll(lines[..2]) == Some(map["broadcaster" := bc, "a" := FlipFlop(["b"], false)]) by {
      assert lines[..2][..1] == lines[..1];
    }
    assert DeclareAll(lines[..3])
        == Some(map["broadcaster" := bc, "a" := FlipFlop(["b"], false), "b" := FlipFlop(["c"], false)]) by {
      assert lines[..3][..2] == lines[..2];
    }
    assert DeclareAll(lines[..4])
        == Some(map["broadcaster" := bc, "a" := FlipFlop(["b"], false), "b" := FlipFlop(["c"], false),
                    "c" := FlipFlop(["inv"], false)]) by {
      assert lines[..4][..3] == lines[..3];
    }
    assert lines[..4] == lines[..|lines| - 1];
    assert Declare(lines[4]) == Some(Conjunction(["a"], map[]));
  }

  lemma ExampleSources()
    ensures Sources(ExampleLines(), "inv") == ["c"]
  {
    var lines := ExampleLines();
    assert Count(["a", "b", "c"], "inv") == 0;
    assert Count(["b"], "inv") == 0;
    assert Count(["c"], "inv") == 0;
    assert Count(["inv"], "inv") == 1;
    assert Count(["a"], "inv") == 0;
    assert DeclaredName(lines[3]) == "c";
    assert Sources(lines[..1], "inv") == [] by {
      assert lines[..1][..0] == [];
    }
    assert Sources(lines[..2], "inv") == [] by {
      assert lines[..2][..1] == lines[..1];
    }
    assert Sources(lines[..3], "inv") == [] by {
      assert lines[..3][..2] == lines[..2];
    }
    assert Sources(lines[..4], "inv") == ["c"] by {
      assert lines[..4][..3] == lines[..3];
    }
    assert lines[..4] == lines[..|lines| - 1];
  }

  lemma ExampleParsedKeys()
    ensures Parse(ExampleLines()).Some?
    ensures Parse(ExampleLines()).value.Keys == ExampleNet(false, false, false, false).Keys
    ensures Parse(ExampleLines()).value["inv"] == ExampleNet(false, false, false, false)["inv"]
  {
    ExampleDeclared();
    ExampleSources();
    var wired := map s | s in ["c"] :: false;
    assert wired == map["c" := false];
  }

  lemma ExampleParsedFlips()
    ensures Parse(ExampleLines()).Some?
    ensures forall n :: n in ExampleNet(false, false, false, false) && n != "inv" ==>
      n in Parse(ExampleLines()).value && Parse(ExampleLines()).value[n] == ExampleNet(false, false, false, false)[n]
  {
    ExampleDeclared();
  }

  lemma ExampleParse()
    ensures Parse(ExampleLines()) == Some(ExampleNet(false, false, false, false))
  {
    ExampleParsedKeys();
    ExampleParsedFlips();
    var parsed := Parse(ExampleLines()).value;
    var net := ExampleNet(false, false, false, false);
    assert parsed.Keys == net.Keys;
    assert forall n :: n in net && n != "inv" ==> parsed[n] == net[n];
    assert parsed["inv"] == net["inv"];
    assert parsed == net;
  }

  /** The first example of part_1: 32000000. */
  lemma Part1Example(fuel: nat)
    requires fuel == 12
    ensures Part1(ExampleLines(), fuel) == Some(32000000)
  {
    ExampleParse();
    ExamplePress(fuel);
    Part1Periodic(ExampleLines(), fuel);
  }
}
