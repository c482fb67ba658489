/** Day 19: sorting machine parts through workflows. A part has four ratings
    x, m, a, s; a workflow is a list of rules tried in order, each sending the
    part on to another workflow or to "A" (accept) or "R" (reject). Part 1
    routes single parts; part 2 routes whole boxes of parts at once, splitting
    a box whenever a rule's test cuts through it. */
module Day19 {
  import opened Common

  datatype Category = X | M | A | S

  datatype Part = Part(x: int, m: int, a: int, s: int)

  function Rating(p: Part, c: Category): int
  {
    match c
      case X => p.x
      case M => p.m
      case A => p.a
      case S => p.s
  }

  /** "c<t:target" or "c>t:target" (less tells which), or a bare target
      without ':' that always applies. */
  datatype Rule = Test(category: Category, less: bool, threshold: int, target: string) | Goto(target: string)

  type Workflows = map<string, seq<Rule>>

  /** The strict comparison of a test; a bare target always holds. */
  predicate Holds(rule: Rule, p: Part)
  {
    match rule
      case Goto(_) => true
      case Test(c, less, t, _) => if less then Rating(p, c) < t else Rating(p, c) > t
  }

  /** The target of the first rule that holds, if any. */
  function FirstMatch(rules: seq<Rule>, p: Part): (r: Option<string>)
    ensures r.None? <==> forall i :: 0 <= i < |rules| ==> !Holds(rules[i], p)
    ensures r.Some? ==> exists i :: 0 <= i < |rules| && Holds(rules[i], p)
                                  && rules[i].target == r.value && forall k :: 0 <= k < i ==> !Holds(rules[k], p)
  {
    if |rules| == 0 then None
    else if Holds(rules[0], p) then Some(rules[0].target)
    else
      var r := FirstMatch(rules[1..], p);
      assert forall i :: 1 <= i < |rules| ==> rules[i] == rules[1..][i - 1];
      if r.Some? then
        var i :| 0 <= i < |rules[1..]| && Holds(rules[1..][i], p)
          && rules[1..][i].target == r.value && forall k :: 0 <= k < i ==> !Holds(rules[1..][k], p);
        assert Holds(rules[i + 1], p) && rules[i + 1].target == r.value;
        r
      else r
  }

  /** Routes a part from workflow `name`: Some(true) when it reaches "A",
      Some(false) at "R". None when the source would not answer: a workflow
      name that is not defined (KeyError), a workflow none of whose rules
      applies (the source loops for ever), or more than `fuel` workflow
      steps. */
  function Route(wf: Workflows, p: Part, name: string, fuel: nat): Option<bool>
    decreases fuel
  {
    if name == "R" then Some(false)
    else if name == "A" then Some(true)
    else if name !in wf || fuel == 0 then None
    else match FirstMatch(wf[name], p)
      case None => None
      case Some(next) => Route(wf, p, next, fuel - 1)
  }

  /** An answer reached is justified by a path of workflows ending at the
      verdict, no longer than the fuel allows. */
  lemma {:induction false} RouteLeads(wf: Workflows, p: Part, name: string, fuel: nat)
    ensures Route(wf, p, name, fuel).Some? ==>
      Leads(wf, p, name, fuel + 1, if Route(wf, p, name, fuel).value then "A" else "R")
    decreases fuel
  {
    if name == "R" || name == "A" {
      LeadsHere(wf, p, name, fuel + 1);
    } else if name in wf && fuel > 0 && FirstMatch(wf[name], p).Some? {
      var next := FirstMatch(wf[name], p).value;
      RouteLeads(wf, p, next, fuel - 1);
      RouteLeadsStep(wf, p, name, next, fuel);
    }
  }

  /** The inductive step of RouteLeads: one workflow hop in front of a path. */
  lemma RouteLeadsStep(wf: Workflows, p: Part, name: string, next: string, fuel: nat)
    requires name != "A" && name != "R" && name in wf && fuel > 0
    requires FirstMatch(wf[name], p) == Some(next)
    requires Route(wf, p, next, fuel - 1).Some? ==>
      Leads(wf, p, next, fuel, if Route(wf, p, next, fuel - 1).value then "A" else "R")
    ensures Route(wf, p, name, fuel).Some? ==>
      Leads(wf, p, name, fuel + 1, if Route(wf, p, name, fuel).value then "A" else "R")
  {
    var r := Route(wf, p, next, fuel - 1);
    assert Route(wf, p, name, fuel) == r;
    if r.Some? {
      LeadsCons(wf, p, name, next, fuel, fuel + 1, if r.value then "A" else "R");
    }
  }

  /** The workflow names a part passes through: each name before the last is
      a workflow whose first matching rule sends the part to the next name. */
  ghost predicate Follows(wf: Workflows, p: Part, path: seq<string>)
  {
    |path| > 0 && forall i :: 0 <= i < |path| - 1 ==>
      path[i] != "A" && path[i] != "R" && path[i] in wf && FirstMatch(wf[path[i]], p) == Some(path[i + 1])
  }

  /** From `name` the part reaches `target` through at most n names. */
  ghost predicate Leads(wf: Workflows, p: Part, name: string, n: nat, target: string)
  {
    exists path :: Follows(wf, p, path) && path[0] == name && |path| <= n && path[|path| - 1] == target
  }

  /** Every name reaches itself through the path holding just that name. */
  lemma LeadsHere(wf: Workflows, p: Part, name: string, n: nat)
    requires n > 0
    ensures Leads(wf, p, name, n, name)
  {
    assert Follows(wf, p, [name]);
  }

  lemma LeadsCons(wf: Workflows, p: Part, name: string, next: string, n: nat, m: nat, target: string)
    requires name != "A" && name != "R" && name in wf && FirstMatch(wf[name], p) == Some(next)
    requires n < m
    ensures Leads(wf, p, next, n, target) ==> Leads(wf, p, name, m, target)
  {
    if Leads(wf, p, next, n, target) {
      var path :| Follows(wf, p, path) && path[0] == next && |path| <= n && path[|path| - 1] == target;
      var longer := [name] + path;
      assert forall i :: 1 <= i < |longer| ==> longer[i] == path[i - 1];
      assert Follows(wf, p, longer);
    }
  }

  /** Conversely, a part that follows its workflows from `name` to "A" or
      "R" within the fuel is routed there. */
  lemma {:induction false} RouteFollowsPath(wf: Workflows, p: Part, path: seq<string>, fuel: nat)
    requires Follows(wf, p, path) && |path| <= fuel + 1
    requires path[|path| - 1] == "A" || path[|path| - 1] == "R"
    ensures Route(wf, p, path[0], fuel) == Some(path[|path| - 1] == "A")
    decreases |path|
  {
    if |path| > 1 {
      var rest := path[1..];
      assert Follows(wf, p, rest) by {
        assert forall i :: 0 <= i < |rest| ==> rest[i] == path[i + 1];
      }
      RouteFollowsPath(wf, p, rest, fuel - 1);
    }
  }

  /** More fuel never changes an answer already reached. */
  lemma {:induction false} RouteMonotone(wf: Workflows, p: Part, name: string, fuel: nat, more: nat)
    requires Route(wf, p, name, fuel).Some?
    requires fuel <= more
    ensures Route(wf, p, name, more) == Route(wf, p, name, fuel)
    decreases fuel
  {
    if name != "R" && name != "A" {
      RouteMonotone(wf, p, FirstMatch(wf[name], p).value, fuel - 1, more - 1);
    }
  }

  function PartRating(p: Part): int
  {
    p.x + p.m + p.a + p.s
  }

  /** part_1: the total rating of the accepted parts, each routed from "in". */
  function Part1(wf: Workflows, parts: seq<Part>, fuel: nat): (r: Option<int>)
    ensures r.Some? <==> forall i :: 0 <= i < |parts| ==> Route(wf, parts[i], "in", fuel).Some?
  {
    if |parts| == 0 then Some(0)
    else
      var rest := Part1(wf, parts[1..], fuel);
      assert forall i :: 1 <= i < |parts| ==> parts[i] == parts[1..][i - 1];
      assert rest.Some? <==> forall i :: 1 <= i < |parts| ==> Route(wf, parts[i], "in", fuel).Some?;
      match Route(wf, parts[0], "in", fuel)
        case None => None
        case Some(accepted) =>
          match rest
            case None => None
            case Some(total) => Some((if accepted then PartRating(parts[0]) else 0) + total)
  }

  lemma Part1Example()
    ensures Route(map["in" := [Test(X, true, 100, "A"), Goto("R")]], Part(5, 0, 0, 0), "in", 1) == Some(true)
  {
  }

  // ---------------------------------------------------------------------------
  // Part 2: boxes of parts

  /** Python's range(lo, hi): the integers lo <= v < hi. */
  datatype Range = Range(lo: int, hi: int)

  predicate InRange(v: int, r: Range)
  {
    r.lo <= v < r.hi
  }

  function Len(r: Range): nat
  {
    if r.hi > r.lo then r.hi - r.lo else 0
  }

  datatype Box = Box(x: Range, m: Range, a: Range, s: Range)

  function Get(b: Box, c: Category): Range
  {
    match c
      case X => b.x
      case M => b.m
      case A => b.a
      case S => b.s
  }

  function Set(b: Box, c: Category, r: Range): Box
  {
    match c
      case X => b.(x := r)
      case M => b.(m := r)
      case A => b.(a := r)
      case S => b.(s := r)
  }

  predicate InBox(p: Part, b: Box)
  {
    InRange(p.x, b.x) && InRange(p.m, b.m) && InRange(p.a, b.a) && InRange(p.s, b.s)
  }

  /** `not all(parts.values())`: some range is empty. */
  predicate HasEmpty(b: Box)
  {
    Len(b.x) == 0 || Len(b.m) == 0 || Len(b.a) == 0 || Len(b.s) == 0
  }

  lemma EmptyBoxHasNoPart(b: Box, p: Part)
    requires HasEmpty(b)
    ensures !InBox(p, b)
  {
  }

  /** math.prod of the range lengths. */
  function Size(b: Box): nat
  {
    Len(b.x) * Len(b.m) * Len(b.a) * Len(b.s)
  }

  /** Every rating from 1 to 4000. */
  function FullBox(): Box
  {
    Box(Range(1, 4001), Range(1, 4001), Range(1, 4001), Range(1, 4001))
  }

  /** The source's split of a range on "<t" or ">t", used only when t lies in
      the range: "<t" sends [lo, t) and keeps [t, hi); ">t" sends [t+1, hi)
      and keeps [lo, t+1). */
  function SplitInside(r: Range, less: bool, t: int): (pieces: (Range, Range))
    requires InRange(t, r)
  {
    if less then (Range(r.lo, t), Range(t, r.hi)) else (Range(t + 1, r.hi), Range(r.lo, t + 1))
  }

  function Clamp(k: int, r: Range): int
  {
    if k < r.lo then r.lo else if k > r.hi then r.hi else k
  }

  /** The split for every threshold: the cut point clamped into the range. */
  function Split(r: Range, less: bool, t: int): (pieces: (Range, Range))
    ensures InRange(t, r) ==> pieces == SplitInside(r, less, t)
  {
    var c := Clamp(if less then t else t + 1, r);
    if less then (Range(r.lo, c), Range(c, r.hi)) else (Range(c, r.hi), Range(r.lo, c))
  }

  predicate Satisfies(v: int, less: bool, t: int)
  {
    if less then v < t else v > t
  }

  /** The two pieces partition the range: the first holds exactly the values
      that pass the test, the second exactly those that fail it. */
  lemma SplitPartitions(r: Range, less: bool, t: int, v: int)
    ensures InRange(v, Split(r, less, t).0) <==> InRange(v, r) && Satisfies(v, less, t)
    ensures InRange(v, Split(r, less, t).1) <==> InRange(v, r) && !Satisfies(v, less, t)
  {
  }

  /** The same holds for the source's split when t is in the range. */
  lemma SplitInsidePartitions(r: Range, less: bool, t: int, v: int)
    requires InRange(t, r)
    ensures InRange(v, SplitInside(r, less, t).0) <==> InRange(v, r) && Satisfies(v, less, t)
    ensures InRange(v, SplitInside(r, less, t).1) <==> InRange(v, r) && !Satisfies(v, less, t)
  {
    SplitPartitions(r, less, t, v);
  }

  /** A part of the box lies in the piece sent on iff the rule holds for it,
      and in the kept piece iff it does not. */
  lemma SplitBox(b: Box, c: Category, less: bool, t: int, p: Part)
    requires InBox(p, b)
    ensures InBox(p, Set(b, c, Split(Get(b, c), less, t).0)) <==> Satisfies(Rating(p, c), less, t)
    ensures InBox(p, Set(b, c, Split(Get(b, c), less, t).1)) <==> !Satisfies(Rating(p, c), less, t)
  {
    SplitPartitions(Get(b, c), less, t, Rating(p, c));
  }

  lemma SplitBoxSubset(b: Box, c: Category, r: Range, p: Part)
    requires InBox(p, Set(b, c, r))
    requires forall v :: InRange(v, r) ==> InRange(v, Get(b, c))
    ensures InBox(p, b)
  {
  }

  /** The boxes accepted starting from workflow `name`. With `asWritten`, a
      test splits the box only when its threshold lies inside the box's range
      and otherwise lets the whole box move on to the next rule, as the source
      does; without it, the box is always split at the clamped threshold.
      None when the source would not answer (see Route). */
  function Accepted(wf: Workflows, b: Box, name: string, fuel: nat, asWritten: bool): (r: Option<seq<Box>>)
    ensures r.Some? ==> Within(r.value, b) && Disjoint(r.value)
    decreases fuel, 0, 0
  {
    if name == "R" then Some([])
    else if name == "A" then
      assert Within([b], b);
      Some([b])
    else if HasEmpty(b) then Some([])
    else if name !in wf || fuel == 0 then None
    else AcceptedRules(wf, b, wf[name], fuel - 1, asWritten)
  }

  /** The rules of one workflow applied to the box that is still unsent.
      When the rules run out the source starts the workflow again with the
      same remainder, which is left unchanged by a second pass: it stops at
      once if the remainder is empty and loops for ever otherwise. */
  function AcceptedRules(wf: Workflows, b: Box, rules: seq<Rule>, fuel: nat, asWritten: bool): (r: Option<seq<Box>>)
    ensures r.Some? ==> Within(r.value, b) && Disjoint(r.value)
    decreases fuel, 1, |rules|
  {
    if |rules| == 0 then
      if HasEmpty(b) then Some([]) else None
    else match rules[0]
      case Goto(next) => Accepted(wf, b, next, fuel, asWritten)
      case Test(c, less, t, target) =>
        if asWritten && !InRange(t, Get(b, c)) then
          AcceptedRules(wf, b, rules[1..], fuel, asWritten)
        else
          var (sent, kept) := Split(Get(b, c), less, t);
          match Accepted(wf, Set(b, c, sent), target, fuel, asWritten)
            case None => None
            case Some(bs) =>
              match AcceptedRules(wf, Set(b, c, kept), rules[1..], fuel, asWritten)
                case None => None
                case Some(more) =>
                  SplitHalves(b, c, less, t);
                  AppendFacts(bs, more, Set(b, c, sent), Set(b, c, kept), b);
                  Some(bs + more)
  }

  /** The two halves of a split box lie in the box and share no part. */
  lemma SplitHalves(b: Box, c: Category, less: bool, t: int)
    ensures var (sent, kept) := Split(Get(b, c), less, t);
      (forall p :: InBox(p, Set(b, c, sent)) ==> InBox(p, b) && !InBox(p, Set(b, c, kept)))
      && (forall p :: InBox(p, Set(b, c, kept)) ==> InBox(p, b))
  {
    var (sent, kept) := Split(Get(b, c), less, t);
    forall p | InBox(p, Set(b, c, sent)) ensures InBox(p, b) && !InBox(p, Set(b, c, kept)) {
      SplitPartitions(Get(b, c), less, t, Rating(p, c));
    }
    forall p | InBox(p, Set(b, c, kept)) ensures InBox(p, b) {
      SplitPartitions(Get(b, c), less, t, Rating(p, c));
    }
  }

  function SizeSum(bs: seq<Box>): nat
  {
    if |bs| == 0 then 0 else Size(bs[0]) + SizeSum(bs[1..])
  }

  /** part_2 as the source computes it: a total over boxes of ratings from 1
      to 4000 that share no part, so no part is counted twice. */
  function Part2AsWritten(wf: Workflows, fuel: nat): (r: Option<nat>)
    ensures r.Some? ==> exists bs :: SizeSum(bs) == r.value && Within(bs, FullBox()) && Disjoint(bs)
  {
    match Accepted(wf, FullBox(), "in", fuel, true)
      case None => None
      case Some(bs) => Some(SizeSum(bs))
  }

  /** part_2 with every test splitting the box: the total size of boxes that
      share no part and hold exactly the parts between 1 and 4000 that part
      1's routing accepts from "in". */
  function Part2(wf: Workflows, fuel: nat): (r: Option<nat>)
    ensures r.Some? ==> exists bs :: (SizeSum(bs) == r.value && Disjoint(bs) && Within(bs, FullBox())
      && forall p :: InBox(p, FullBox()) ==>
           Route(wf, p, "in", fuel).Some? && (Route(wf, p, "in", fuel).value <==> Covers(bs, p)))
  {
    match Accepted(wf, FullBox(), "in", fuel, false)
      case None => None
      case Some(bs) =>
        AcceptedMatchesRouting(wf, FullBox(), "in", fuel);
        Some(SizeSum(bs))
  }

  ghost predicate Covers(bs: seq<Box>, p: Part)
  {
    exists i :: 0 <= i < |bs| && InBox(p, bs[i])
  }

  ghost predicate Within(bs: seq<Box>, b: Box)
  {
    forall i, p :: 0 <= i < |bs| && InBox(p, bs[i]) ==> InBox(p, b)
  }

  ghost predicate Disjoint(bs: seq<Box>)
  {
    forall i, j, p :: 0 <= i < j < |bs| && InBox(p, bs[i]) ==> !InBox(p, bs[j])
  }

  lemma AppendFacts(bs: seq<Box>, more: seq<Box>, b1: Box, b2: Box, b: Box)
    requires Within(bs, b1) && Within(more, b2) && Disjoint(bs) && Disjoint(more)
    requires forall p :: InBox(p, b1) ==> InBox(p, b) && !InBox(p, b2)
    requires forall p :: InBox(p, b2) ==> InBox(p, b)
    ensures Within(bs + more, b) && Disjoint(bs + more)
    ensures forall p :: Covers(bs + more, p) <==> Covers(bs, p) || Covers(more, p)
  {
    var all := bs + more;
    forall i, j, p | 0 <= i < j < |all| && InBox(p, all[i]) ensures !InBox(p, all[j]) {
      if j < |bs| {
        assert all[i] == bs[i] && all[j] == bs[j];
      } else if i >= |bs| {
        assert all[i] == more[i - |bs|] && all[j] == more[j - |bs|];
      } else {
        assert all[i] == bs[i] && all[j] == more[j - |bs|];
        assert InBox(p, b1);
      }
    }
    forall p ensures Covers(all, p) <==> Covers(bs, p) || Covers(more, p) {
      if Covers(all, p) {
        var i :| 0 <= i < |all| && InBox(p, all[i]);
        if i < |bs| {
          assert all[i] == bs[i];
        } else {
          assert all[i] == more[i - |bs|];
        }
      }
      if Covers(bs, p) {
        var i :| 0 <= i < |bs| && InBox(p, bs[i]);
        assert all[i] == bs[i];
      }
      if Covers(more, p) {
        var i :| 0 <= i < |more| && InBox(p, more[i]);
        assert all[i + |bs|] == more[i];
      }
    }
  }

  /** The point-level meaning of a workflow's rules: the first rule that holds
      decides where the part goes next. */
  function RouteRules(wf: Workflows, p: Part, rules: seq<Rule>, fuel: nat): Option<bool>
  {
    match FirstMatch(rules, p)
      case None => None
      case Some(next) => Route(wf, p, next, fuel)
  }

  lemma RouteRulesStep(wf: Workflows, p: Part, rules: seq<Rule>, fuel: nat)
    requires |rules| > 0 && !Holds(rules[0], p)
    ensures RouteRules(wf, p, rules, fuel) == RouteRules(wf, p, rules[1..], fuel)
  {
  }

  /** With every test splitting the box, the accepted boxes are disjoint,
      lie in the box, and contain exactly the parts of the box that part 1's
      routing accepts; and routing answers for every part of the box. */
  lemma {:induction false} AcceptedMatchesRouting(wf: Workflows, b: Box, name: string, fuel: nat)
    requires Accepted(wf, b, name, fuel, false).Some?
    ensures var bs := Accepted(wf, b, name, fuel, false).value;
      Within(bs, b) && Disjoint(bs)
      && forall p :: InBox(p, b) ==> Route(wf, p, name, fuel).Some? && (Route(wf, p, name, fuel).value <==> Covers(bs, p))
    decreases fuel, 0, 0
  {
    if name == "R" {
    } else if name == "A" {
      forall p | InBox(p, b) ensures Covers([b], p) {
        assert [b][0] == b;
      }
    } else if HasEmpty(b) {
    } else {
      AcceptedRulesMatchRouting(wf, b, wf[name], fuel - 1);
    }
  }

  lemma {:induction false} AcceptedRulesMatchRouting(wf: Workflows, b: Box, rules: seq<Rule>, fuel: nat)
    requires AcceptedRules(wf, b, rules, fuel, false).Some?
    ensures var bs := AcceptedRules(wf, b, rules, fuel, false).value;
      Within(bs, b) && Disjoint(bs)
      && forall p :: InBox(p, b) ==> RouteRules(wf, p, rules, fuel).Some? && (RouteRules(wf, p, rules, fuel).value <==> Covers(bs, p))
    decreases fuel, 1, |rules|
  {
    if |rules| == 0 {
    } else {
      match rules[0]
      case Goto(next) =>
        AcceptedMatchesRouting(wf, b, next, fuel);
      case Test(c, less, t, target) =>
        var (sent, kept) := Split(Get(b, c), less, t);
        var b1 := Set(b, c, sent);
        var b2 := Set(b, c, kept);
        AcceptedMatchesRouting(wf, b1, target, fuel);
        AcceptedRulesMatchRouting(wf, b2, rules[1..], fuel);
        var bs := Accepted(wf, b1, target, fuel, false).value;
        var more := AcceptedRules(wf, b2, rules[1..], fuel, false).value;
        assert AcceptedRules(wf, b, rules, fuel, false).value == bs + more;
        TestRouting(wf, b, rules, fuel, b1, b2, bs, more);
    }
  }

  /** A test rule: the boxes accepted from its target and from the rules after
      it, each correct for its half of the box, are together correct for the
      whole box. */
  lemma TestRouting(wf: Workflows, b: Box, rules: seq<Rule>, fuel: nat, b1: Box, b2: Box, bs: seq<Box>, more: seq<Box>)
    requires |rules| > 0 && rules[0].Test?
    requires b1 == Set(b, rules[0].category, Split(Get(b, rules[0].category), rules[0].less, rules[0].threshold).0)
    requires b2 == Set(b, rules[0].category, Split(Get(b, rules[0].category), rules[0].less, rules[0].threshold).1)
    requires Within(bs, b1) && Disjoint(bs)
    requires forall p :: InBox(p, b1) ==> Route(wf, p, rules[0].target, fuel).Some? && (Route(wf, p, rules[0].target, fuel).value <==> Covers(bs, p))
    requires Within(more, b2) && Disjoint(more)
    requires forall p :: InBox(p, b2) ==> RouteRules(wf, p, rules[1..], fuel).Some? && (RouteRules(wf, p, rules[1..], fuel).value <==> Covers(more, p))
    ensures Within(bs + more, b) && Disjoint(bs + more)
    ensures forall p :: InBox(p, b) ==> RouteRules(wf, p, rules, fuel).Some? && (RouteRules(wf, p, rules, fuel).value <==> Covers(bs + more, p))
  {
    var c, less, t := rules[0].category, rules[0].less, rules[0].threshold;
    SplitHalves(b, c, less, t);
    AppendFacts(bs, more, b1, b2, b);
    forall p | InBox(p, b)
      ensures RouteRules(wf, p, rules, fuel).Some?
      ensures RouteRules(wf, p, rules, fuel).value <==> Covers(bs + more, p)
    {
      SplitBox(b, c, less, t, p);
      if Holds(rules[0], p) {
        assert InBox(p, b1);
        assert !Covers(more, p);
      } else {
        RouteRulesStep(wf, p, rules, fuel);
        assert InBox(p, b2);
        assert !Covers(bs, p);
      }
    }
  }

  // ---------------------------------------------------------------------------
  // The discrepancy

  /** A workflow pair where a test's threshold lies outside the box on the
      side that passes: every x below 100 goes to foo, where x<200 holds for
      all of them. */
  function ExampleWorkflows(): Workflows
  {
    map["in" := [Test(X, true, 100, "foo"), Goto("A")], "foo" := [Test(X, true, 200, "R"), Goto("A")]]
  }

  /** The part x=50 is rejected by part 1's routing, yet the source's part 2
      accepts a box containing it; the corrected count does not. */
  lemma AsWrittenCountsRejectedPart()
    ensures Route(ExampleWorkflows(), Part(50, 1, 1, 1), "in", 3) == Some(false)
    ensures Accepted(ExampleWorkflows(), FullBox(), "in", 3, true).Some?
    ensures Covers(Accepted(ExampleWorkflows(), FullBox(), "in", 3, true).value, Part(50, 1, 1, 1))
    ensures Accepted(ExampleWorkflows(), FullBox(), "in", 3, false).Some?
    ensures !Covers(Accepted(ExampleWorkflows(), FullBox(), "in", 3, false).value, Part(50, 1, 1, 1))
  {
    var wf := ExampleWorkflows();
    var p := Part(50, 1, 1, 1);
    var full := FullBox();
    var low := Set(full, X, Range(1, 100));
    var high := Set(full, X, Range(100, 4001));
    var none := Set(low, X, Range(100, 100));
    var inRules := wf["in"];
    var fooRules := wf["foo"];
    assert inRules[1..] == [Goto("A")] && fooRules[1..] == [Goto("A")];
    assert "in" in wf && "foo" in wf && !HasEmpty(full) && !HasEmpty(low);
    assert [low] + [high] == [low, high] && [none] + [high] == [none, high] && [] + [none] == [none];
    assert Split(Get(full, X), true, 100) == (Range(1, 100), Range(100, 4001));
    assert Split(Get(low, X), true, 200) == (Range(1, 100), Range(100, 100));
    // as written: 200 is not inside [1, 100), so foo passes the whole box on to "A"
    assert AcceptedRules(wf, low, fooRules[1..], 1, true) == Some([low]);
    assert AcceptedRules(wf, low, fooRules, 1, true) == Some([low]);
    assert Accepted(wf, low, "foo", 2, true) == Some([low]);
    assert AcceptedRules(wf, high, inRules[1..], 2, true) == Some([high]);
    assert AcceptedRules(wf, full, inRules, 2, true) == Some([low] + [high]);
    assert Accepted(wf, full, "in", 3, true) == Some([low, high]);
    assert InBox(p, low);
    assert [low, high][0] == low;
    // corrected: foo sends all of [1, 100) to "R" and keeps an empty box
    assert Accepted(wf, low, "R", 1, false) == Some([]);
    assert AcceptedRules(wf, none, fooRules[1..], 1, false) == Some([none]);
    assert AcceptedRules(wf, low, fooRules, 1, false) == Some([] + [none]);
    assert Accepted(wf, low, "foo", 2, false) == Some([none]);
    assert AcceptedRules(wf, high, inRules[1..], 2, false) == Some([high]);
    assert AcceptedRules(wf, full, inRules, 2, false) == Some([none] + [high]);
    assert Accepted(wf, full, "in", 3, false) == Some([none, high]);
    assert !InBox(p, none) && !InBox(p, high);
  }
}
