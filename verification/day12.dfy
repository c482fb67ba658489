/** Day 12: counting spring arrangements. A record is a row of '#' (damaged),
    '.' (operational) and '?' (unknown); the groups list the lengths of the
    maximal runs of damaged springs from left to right. `CountArrangements`
    is the recursive counter of the solver, with its shortcuts and pruning;
    `Spec` counts, among all ways of filling the '?'s, those whose runs are
    the groups. The main theorem says the two agree. */
module Day12 {
  import opened Common

  /** count(record, groups, current_group): the solver's counter. `current` is
      the length of a run of '#' that is still open to the left of `record`.
      On a record of '#', '.' and '?' and positive groups it counts exactly
      the fillings of the '?' cells whose runs are the groups. */
  function CountArrangements(record: string, groups: seq<nat>, current: nat): (r: nat)
    ensures Admissible(record, groups, current) ==> r == Spec(record, groups, current)
    decreases |record|
  {
    if |record| == 0 then
      EmptyRecord(groups, current);
      if |groups| == 0 then (if current == 0 then 1 else 0)
      else if |groups| == 1 then (if current == groups[0] then 1 else 0)
      else 0
    else if |groups| == 0 then
      NoGroupsAdmissible(record, current);
      (if '#' in record then 0 else 1)
    else if current > groups[0] then
      OverlongRunIsSound(record, groups, current);
      0
    else if Count(record, '#') + Count(record, '?') + current < Sum(groups) then
      PruneIsSound(record, groups, current);
      0
    else
      var c := record[0];
      var rest := record[1..];
      SpecStep(record, groups, current);
      AdmissibleTail(record, groups, current);
      (if c == '#' || c == '?' then CountArrangements(rest, groups, current + 1) else 0)
      + (if c == '.' || c == '?' then
           (if current != 0 && groups[0] == current then CountArrangements(rest, groups[1..], 0)
            else if current == 0 then CountArrangements(rest, groups, 0)
            else 0)
         else 0)
  }

  // ---------------------------------------------------------------------------
  // The reference definition

  /** The lengths of the maximal runs of '#' in `s`, read left to right, when a
      run of length `open` is already open before `s`. */
  function Runs(s: string, open: nat): seq<nat>
  {
    if |s| == 0 then (if open > 0 then [open] else [])
    else if s[0] == '#' then Runs(s[1..], open + 1)
    else (if open > 0 then [open] else []) + Runs(s[1..], 0)
  }

  function Hashes(n: nat): string
  {
    seq(n, _ => '#')
  }

  /** An open run of length k is the same as k '#'s written before the row. */
  lemma {:induction false} RunsOpenIsPrefix(s: string, k: nat)
    ensures Runs(Hashes(k) + s, 0) == Runs(s, k)
  {
    RunsOpenShift(s, k, 0);
  }

  lemma {:induction false} RunsOpenShift(s: string, k: nat, j: nat)
    ensures Runs(Hashes(k) + s, j) == Runs(s, j + k)
    decreases k
  {
    if k > 0 {
      var t := Hashes(k) + s;
      assert t[0] == '#';
      assert t[1..] == Hashes(k - 1) + s;
      RunsOpenShift(s, k - 1, j + 1);
    } else {
      assert Hashes(k) + s == s;
    }
  }

  /** The characters a record cell may become. */
  function Choices(c: char): seq<char>
  {
    if c == '?' then ['#', '.'] else if c == '#' || c == '.' then [c] else []
  }

  function Prefix(c: char, fs: seq<string>): (r: seq<string>)
    ensures |r| == |fs| && forall i :: 0 <= i < |fs| ==> r[i] == [c] + fs[i]
  {
    seq(|fs|, i requires 0 <= i < |fs| => [c] + fs[i])
  }

  /** Every way of filling the record's '?'s with '#' or '.'. */
  function Fills(record: string): seq<string>
  {
    if |record| == 0 then [""]
    else
      var rest := Fills(record[1..]);
      (if record[0] == '#' || record[0] == '?' then Prefix('#', rest) else [])
        + (if record[0] == '.' || record[0] == '?' then Prefix('.', rest) else [])
  }

  /** How many of the rows in `fs` have exactly the given runs. */
  function Matching(fs: seq<string>, groups: seq<nat>, open: nat): nat
  {
    if |fs| == 0 then 0
    else (if Runs(fs[0], open) == groups then 1 else 0) + Matching(fs[1..], groups, open)
  }

  /** The number of fillings of the record whose runs (after an open run of
      length `open`) are exactly the groups. */
  function Spec(record: string, groups: seq<nat>, open: nat): nat
  {
    Matching(Fills(record), groups, open)
  }

  lemma {:induction false} MatchingAppend(a: seq<string>, b: seq<string>, groups: seq<nat>, open: nat)
    ensures Matching(a + b, groups, open) == Matching(a, groups, open) + Matching(b, groups, open)
  {
    if |a| > 0 {
      assert (a + b)[1..] == a[1..] + b;
      MatchingAppend(a[1..], b, groups, open);
    } else {
      assert a + b == b;
    }
  }

  lemma {:induction false} MatchingHash(fs: seq<string>, groups: seq<nat>, open: nat)
    ensures Matching(Prefix('#', fs), groups, open) == Matching(fs, groups, open + 1)
  {
    if |fs| > 0 {
      assert Prefix('#', fs)[1..] == Prefix('#', fs[1..]);
      assert ([ '#' ] + fs[0])[1..] == fs[0];
      MatchingHash(fs[1..], groups, open);
    }
  }

  lemma {:induction false} MatchingDot(fs: seq<string>, groups: seq<nat>, open: nat)
    ensures Matching(Prefix('.', fs), groups, open) ==
      if open == 0 then Matching(fs, groups, 0)
      else if |groups| > 0 && groups[0] == open then Matching(fs, groups[1..], 0)
      else 0
  {
    if |fs| > 0 {
      assert Prefix('.', fs)[1..] == Prefix('.', fs[1..]);
      var f := fs[0];
      assert ([ '.' ] + f)[1..] == f;
      assert Runs([ '.' ] + f, open) == (if open > 0 then [open] else []) + Runs(f, 0);
      if open > 0 {
        var r := [open] + Runs(f, 0);
        if |groups| > 0 && groups[0] == open {
          assert r == groups <==> Runs(f, 0) == groups[1..] by {
            if Runs(f, 0) == groups[1..] {
              assert groups == [groups[0]] + groups[1..];
            }
            if r == groups {
              assert r[1..] == Runs(f, 0);
            }
          }
        } else {
          assert r[0] == open;
        }
      }
      MatchingDot(fs[1..], groups, open);
    }
  }

  /** The reference count obeys the counter's unpruned recurrence. */
  lemma SpecStep(record: string, groups: seq<nat>, open: nat)
    requires |record| > 0
    ensures Spec(record, groups, open) ==
      (if record[0] == '#' || record[0] == '?' then Spec(record[1..], groups, open + 1) else 0)
      + (if record[0] == '.' || record[0] == '?' then
           (if open == 0 then Spec(record[1..], groups, 0)
            else if |groups| > 0 && groups[0] == open then Spec(record[1..], groups[1..], 0)
            else 0)
         else 0)
  {
    var rest := Fills(record[1..]);
    var hs := if record[0] == '#' || record[0] == '?' then Prefix('#', rest) else [];
    var ds := if record[0] == '.' || record[0] == '?' then Prefix('.', rest) else [];
    MatchingAppend(hs, ds, groups, open);
    MatchingHash(rest, groups, open);
    MatchingDot(rest, groups, open);
  }

  lemma {:induction false} MatchingNone(fs: seq<string>, groups: seq<nat>, open: nat)
    requires forall i :: 0 <= i < |fs| ==> Runs(fs[i], open) != groups
    ensures Matching(fs, groups, open) == 0
  {
    if |fs| > 0 {
      MatchingNone(fs[1..], groups, open);
    }
  }

  /** With a run open, the first run is at least that long. */
  lemma {:induction false} RunsFirst(s: string, open: nat)
    requires open > 0
    ensures |Runs(s, open)| > 0 && Runs(s, open)[0] >= open
  {
    if |s| > 0 && s[0] == '#' {
      RunsFirst(s[1..], open + 1);
    }
  }

  /** The runs add up to the open run plus the row's '#' cells. */
  lemma {:induction false} RunsSum(s: string, open: nat)
    ensures Sum(Runs(s, open)) == open + Count(s, '#')
  {
    if |s| > 0 {
      RunsSum(s[1..], if s[0] == '#' then open + 1 else 0);
      if s[0] != '#' {
        SumAppend(if open > 0 then [open] else [], Runs(s[1..], 0));
      }
    }
  }

  /** A filling has no more '#' cells than the record has '#' and '?' cells. */
  lemma {:induction false} FillsHashBound(record: string)
    ensures forall i :: 0 <= i < |Fills(record)| ==>
      Count(Fills(record)[i], '#') <= Count(record, '#') + Count(record, '?')
  {
    if |record| > 0 {
      FillsHashBound(record[1..]);
      var rest := Fills(record[1..]);
      var hs := if record[0] == '#' || record[0] == '?' then Prefix('#', rest) else [];
      var ds := if record[0] == '.' || record[0] == '?' then Prefix('.', rest) else [];
      forall i | 0 <= i < |Fills(record)|
        ensures Count(Fills(record)[i], '#') <= Count(record, '#') + Count(record, '?')
      {
        var f := Fills(record)[i];
        if i < |hs| {
          assert f == ['#'] + rest[i];
          assert f[1..] == rest[i];
        } else {
          assert f == ['.'] + rest[i - |hs|];
          assert f[1..] == rest[i - |hs|];
        }
      }
    }
  }

  /** No filling can have runs exceeding the damaged cells available. */
  lemma PruneIsSound(record: string, groups: seq<nat>, open: nat)
    requires Count(record, '#') + Count(record, '?') + open < Sum(groups)
    ensures Spec(record, groups, open) == 0
  {
    FillsHashBound(record);
    forall i | 0 <= i < |Fills(record)| ensures Runs(Fills(record)[i], open) != groups {
      RunsSum(Fills(record)[i], open);
    }
    MatchingNone(Fills(record), groups, open);
  }

  /** An open run longer than the next group can never match. */
  lemma OverlongRunIsSound(record: string, groups: seq<nat>, open: nat)
    requires |groups| > 0 && open > groups[0]
    ensures Spec(record, groups, open) == 0
  {
    forall i | 0 <= i < |Fills(record)| ensures Runs(Fills(record)[i], open) != groups {
      RunsFirst(Fills(record)[i], open);
    }
    MatchingNone(Fills(record), groups, open);
  }

  /** With no groups left, an open run can never match. */
  lemma OpenRunWithoutGroups(record: string, open: nat)
    requires open > 0
    ensures Spec(record, [], open) == 0
  {
    forall i | 0 <= i < |Fills(record)| ensures Runs(Fills(record)[i], open) != [] {
      RunsFirst(Fills(record)[i], open);
    }
    MatchingNone(Fills(record), [], open);
  }

  predicate WellFormedRecord(record: string)
  {
    forall i :: 0 <= i < |record| ==> record[i] in "#.?"
  }

  /** With no groups left, exactly the all-operational filling matches, and it
      exists exactly when the record has no '#'. */
  lemma {:induction false} NoGroupsLeft(record: string)
    requires WellFormedRecord(record)
    ensures Spec(record, [], 0) == if '#' in record then 0 else 1
  {
    if |record| == 0 {
      assert Fills(record) == [""];
    } else {
      SpecStep(record, [], 0);
      WellFormedTail(record);
      NoGroupsLeft(record[1..]);
      OpenRunWithoutGroups(record[1..], 1);
      InHeadTail(record, '#');
    }
  }

  lemma WellFormedTail(record: string)
    requires |record| > 0 && WellFormedRecord(record)
    ensures WellFormedRecord(record[1..])
  {
    forall i | 0 <= i < |record| - 1 ensures record[1..][i] in "#.?" {
      assert record[1..][i] == record[i + 1];
    }
  }

  predicate Positive(groups: seq<nat>)
  {
    forall i :: 0 <= i < |groups| ==> groups[i] > 0
  }

  /** The inputs on which the counter means what it should: a record of '#',
      '.' and '?', positive groups, and no open run once the groups are used. */
  predicate Admissible(record: string, groups: seq<nat>, current: nat)
  {
    WellFormedRecord(record) && Positive(groups) && (|groups| == 0 ==> current == 0)
  }

  /** The counter's answers on an empty record are the reference count. */
  lemma EmptyRecord(groups: seq<nat>, current: nat)
    ensures Positive(groups) ==>
      Spec("", groups, current) ==
        if |groups| == 0 then (if current == 0 then 1 else 0)
        else if |groups| == 1 then (if current == groups[0] then 1 else 0)
        else 0
  {
    assert Fills("") == [""];
    assert Fills("")[1..] == [];
    assert Matching([""], groups, current) == (if Runs("", current) == groups then 1 else 0) + Matching([], groups, current);
    if Positive(groups) && |groups| == 1 && current == 0 {
      assert groups[0] > 0;
    }
  }

  lemma NoGroupsAdmissible(record: string, current: nat)
    ensures Admissible(record, [], current) ==> Spec(record, [], current) == if '#' in record then 0 else 1
  {
    if Admissible(record, [], current) {
      NoGroupsLeft(record);
    }
  }

  /** Every recursive call of the counter stays admissible. */
  lemma AdmissibleTail(record: string, groups: seq<nat>, current: nat)
    requires |record| > 0 && |groups| > 0
    ensures Admissible(record, groups, current) ==>
      Admissible(record[1..], groups, current + 1) && Admissible(record[1..], groups[1..], 0)
      && Admissible(record[1..], groups, 0)
  {
    if Admissible(record, groups, current) {
      WellFormedTail(record);
      assert Positive(groups[1..]);
    }
  }

  // ---------------------------------------------------------------------------
  // Part 2: unfolding

  /** Five copies of the record joined by '?'. */
  function UnfoldRecord(record: string): (r: string)
    ensures |r| == 5 * |record| + 4
    ensures var n := |record|;
      r[..n] == record && r[n] == '?' && r[n + 1..2 * n + 1] == record && r[2 * n + 1] == '?'
      && r[2 * n + 2..3 * n + 2] == record && r[3 * n + 2] == '?' && r[3 * n + 3..4 * n + 3] == record
      && r[4 * n + 3] == '?' && r[4 * n + 4..] == record
  {
    record + "?" + record + "?" + record + "?" + record + "?" + record
  }

  /** The groups repeated five times. */
  function UnfoldGroups(groups: seq<nat>): (r: seq<nat>)
    ensures |r| == 5 * |groups|
    ensures var n := |groups|;
      r[..n] == groups && r[n..2 * n] == groups && r[2 * n..3 * n] == groups
      && r[3 * n..4 * n] == groups && r[4 * n..] == groups
  {
    groups + groups + groups + groups + groups
  }

  /** One parsed line: the record and its groups. */
  datatype Row = Row(record: string, groups: seq<nat>)

  predicate WellFormedRows(rows: seq<Row>)
  {
    forall i :: 0 <= i < |rows| ==> WellFormedRecord(rows[i].record) && Positive(rows[i].groups)
  }

  /** The answer in terms of the reference count: the total, over rows, of the
      fillings that match. */
  function TotalMatching(rows: seq<Row>, unfold: bool): nat
  {
    if |rows| == 0 then 0
    else
      var r := if unfold then UnfoldRecord(rows[0].record) else rows[0].record;
      var g := if unfold then UnfoldGroups(rows[0].groups) else rows[0].groups;
      Matching(Fills(r), g, 0) + TotalMatching(rows[1..], unfold)
  }

  /** `part_1`: on well-formed rows, the total number of matching fillings. */
  function Part1(rows: seq<Row>): (r: nat)
    ensures WellFormedRows(rows) ==> r == TotalMatching(rows, false)
  {
    if |rows| == 0 then 0
    else
      assert WellFormedRows(rows) ==> WellFormedRows(rows[1..]);
      CountArrangements(rows[0].record, rows[0].groups, 0) + Part1(rows[1..])
  }

  lemma UnfoldKeepsWellFormed(row: Row)
    ensures WellFormedRecord(row.record) && Positive(row.groups) ==>
      WellFormedRecord(UnfoldRecord(row.record)) && Positive(UnfoldGroups(row.groups))
  {
    if WellFormedRecord(row.record) && Positive(row.groups) {
      var r := row.record;
      var g := row.groups;
      assert WellFormedRecord(r + "?");
      assert WellFormedRecord(r + "?" + r);
      assert WellFormedRecord(r + "?" + r + "?");
      assert WellFormedRecord(r + "?" + r + "?" + r);
      assert WellFormedRecord(r + "?" + r + "?" + r + "?");
      assert WellFormedRecord(r + "?" + r + "?" + r + "?" + r);
      assert WellFormedRecord(r + "?" + r + "?" + r + "?" + r + "?");
      assert Positive(g + g);
      assert Positive(g + g + g);
      assert Positive(g + g + g + g);
    }
  }

  /** `part_2`: on well-formed rows, the total number of matching fillings of
      the unfolded rows. */
  function Part2(rows: seq<Row>): (r: nat)
    ensures WellFormedRows(rows) ==> r == TotalMatching(rows, true)
  {
    if |rows| == 0 then 0
    else
      assert WellFormedRows(rows) ==> WellFormedRows(rows[1..]);
      UnfoldKeepsWellFormed(rows[0]);
      CountArrangements(UnfoldRecord(rows[0].record), UnfoldGroups(rows[0].groups), 0) + Part2(rows[1..])
  }

  /** The tail "###" of the example matches the last group in one way. */
  lemma ExampleTail()
    ensures CountArrangements(".###", [1, 3], 1) == 1
    ensures CountArrangements(".###", [1, 3], 0) == 0
  {
    assert CountArrangements("", [3], 3) == 1;
    assert CountArrangements("#", [3], 2) == 1;
    assert CountArrangements("##", [3], 1) == 1;
    assert CountArrangements("###", [3], 0) == 1;
  }

  lemma ExampleMiddle()
    ensures CountArrangements("??.###", [1, 1, 3], 1) == 1
    ensures CountArrangements("?.###", [1, 1, 3], 2) == 0
  {
    ExampleTail();
    assert CountArrangements("?.###", [1, 3], 0) == 1;
  }

  /** "???.### 1,1,3" has exactly one arrangement, "#.#.###". */
  lemma ExampleRows()
    ensures CountArrangements("???.###", [1, 1, 3], 0) == 1
  {
    ExampleMiddle();
    assert CountArrangements(".###", [1, 1, 3], 2) == 0;
    assert CountArrangements("?.###", [1, 1, 3], 1) == 0;
    assert CountArrangements("?.###", [1, 1, 3], 0) == 0;
    assert CountArrangements("??.###", [1, 1, 3], 0) == 0;
  }
}
