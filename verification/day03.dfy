/** Day 3: the numbers of an engine schematic that touch a symbol, and the
    gears ('*') that touch exactly two numbers. */
module Day03 {
  import opened Common

  predicate IsDigit(c: char)
  {
    '0' as int <= c as int <= '9' as int
  }

  /** The characters the integer pattern `{:d}` accepts in front of the
      digits, and which then belong to the match. */
  predicate IsSign(c: char)
  {
    c == '-' || c == '+' || c == ' '
  }

  predicate IsSymbol(c: char)
  {
    !IsDigit(c) && c != '.'
  }

  function Decimal(s: string): nat
    requires forall k :: 0 <= k < |s| ==> IsDigit(s[k])
  {
    if |s| == 0 then 0 else 10 * Decimal(s[..|s| - 1]) + DigitValue(s[|s| - 1])
  }

  function DigitValue(c: char): nat
    requires IsDigit(c)
  {
    c as int - '0' as int
  }

  // ---------------------------------------------------------------------
  // Finding the numbers of a line

  /** A number found on a line: its match spans columns `start` to `end`
      (exclusive), its digits begin at `first`; `value` is the absolute
      value the source keeps. */
  datatype Number = Number(start: nat, first: nat, end: nat, value: nat)

  /** Where the run of digits from `i` ends. */
  function RunEnd(line: string, i: nat): (e: nat)
    requires i <= |line|
    ensures i <= e <= |line|
    ensures forall k :: i <= k < e ==> IsDigit(line[k])
    ensures e == |line| || !IsDigit(line[e])
    decreases |line| - i
  {
    if i == |line| || !IsDigit(line[i]) then i else RunEnd(line, i + 1)
  }

  /** `t` is a maximal run of digits of `line`, with the sign in front of
      it (if any) inside its span, and `value` is its decimal value. */
  ghost predicate Token(line: string, t: Number)
  {
    t.first < t.end <= |line|
    && (forall k :: t.first <= k < t.end ==> IsDigit(line[k]))
    && (t.first == 0 || !IsDigit(line[t.first - 1]))
    && (t.end == |line| || !IsDigit(line[t.end]))
    && t.start == (if t.first > 0 && IsSign(line[t.first - 1]) then t.first - 1 else t.first)
    && t.value == Decimal(line[t.first..t.end])
  }

  /** Position `i` is not inside a run of digits. */
  predicate Boundary(line: string, i: nat)
    requires i <= |line|
  {
    i == 0 || i == |line| || !IsDigit(line[i - 1]) || !IsDigit(line[i])
  }

  /** `parse.findall("{:d}", line)` from column `i`, left to right. */
  function Numbers(line: string, i: nat): (r: seq<Number>)
    requires i <= |line| && Boundary(line, i)
    ensures forall k :: 0 <= k < |r| ==> i <= r[k].first && Token(line, r[k])
    ensures forall k, l :: 0 <= k < l < |r| ==> r[k].end < r[l].first
    decreases |line| - i
  {
    if i == |line| then []
    else if !IsDigit(line[i]) then Numbers(line, i + 1)
    else
      var e := RunEnd(line, i);
      var start := if i > 0 && IsSign(line[i - 1]) then i - 1 else i;
      [Number(start, i, e, Decimal(line[i..e]))] + Numbers(line, e)
  }

  /** A run of digits at `i` is found first, then the rest of the line. */
  lemma NumbersStep(line: string, i: nat)
    requires i < |line| && Boundary(line, i) && IsDigit(line[i])
    ensures Numbers(line, i)[1..] == Numbers(line, RunEnd(line, i))
  {
  }

  lemma Shift(a: seq<Number>, b: seq<Number>, k: nat)
    requires |a| > 0 && a[1..] == b && k < |b|
    ensures a[k + 1] == b[k]
  {
  }

  /** Every maximal run of digits after `i` is found. */
  lemma {:induction false} NumbersComplete(line: string, i: nat, j: nat)
    requires i <= j < |line| && Boundary(line, i)
    requires IsDigit(line[j]) && (j == 0 || !IsDigit(line[j - 1]))
    ensures exists k :: 0 <= k < |Numbers(line, i)| && Numbers(line, i)[k].first == j
    decreases |line| - i
  {
    if !IsDigit(line[i]) {
      NumbersComplete(line, i + 1, j);
      var k :| 0 <= k < |Numbers(line, i + 1)| && Numbers(line, i + 1)[k].first == j;
      assert Numbers(line, i)[k].first == j;
    } else if j != i {
      var e := RunEnd(line, i);
      assert e < j;
      NumbersComplete(line, e, j);
      var k :| 0 <= k < |Numbers(line, e)| && Numbers(line, e)[k].first == j;
      NumbersStep(line, i);
      Shift(Numbers(line, i), Numbers(line, e), k);
    } else {
      assert Numbers(line, i)[0].first == j;
    }
  }

  // ---------------------------------------------------------------------
  // The grid

  /** The cell the source may read: inside the first line's width and the
      height, and present in its own line. */
  predicate SymbolAt(lines: seq<string>, x: int, y: int)
  {
    0 <= y < |lines| && 0 <= x < |lines[0]| && x < |lines[y]| && IsSymbol(lines[y][x])
  }

  predicate GearAt(lines: seq<string>, x: int, y: int)
  {
    0 <= y < |lines| && 0 <= x < |lines[0]| && x < |lines[y]| && lines[y][x] == '*'
  }

  predicate Rectangular(lines: seq<string>)
  {
    forall y :: 0 <= y < |lines| ==> |lines[y]| == |lines[0]|
  }

  /** The left edge of a number: the start of its match as the source takes
      it, or its first digit. */
  function Left(t: Number, asWritten: bool): int
  {
    if asWritten then t.start else t.first
  }

  /** The cells `it.product` visits for a number on `row`: one column either
      side, the rows above, on and below. */
  predicate Around(t: Number, asWritten: bool, row: int, x: int, y: int)
  {
    Left(t, asWritten) - 1 <= x <= t.end && row - 1 <= y <= row + 1
  }

  ghost predicate IsPart(lines: seq<string>, row: int, t: Number, asWritten: bool)
  {
    exists x, y :: Around(t, asWritten, row, x, y) && SymbolAt(lines, x, y)
  }

  /** The sign in front of a number is itself a symbol next to its digits,
      so whether a number is a part does not depend on which left edge is
      used. */
  lemma SignIrrelevantForParts(lines: seq<string>, row: nat, t: Number)
    requires Rectangular(lines) && row < |lines| && Token(lines[row], t)
    ensures IsPart(lines, row, t, true) <==> IsPart(lines, row, t, false)
  {
    if IsPart(lines, row, t, true) && t.start < t.first {
      assert Around(t, false, row, t.start, row) && SymbolAt(lines, t.start, row);
    }
  }

  // ---------------------------------------------------------------------
  // Part 1

  /** The sum of the values of `ns`. */
  function RowSum(ns: seq<Number>): nat
  {
    if |ns| == 0 then 0 else RowSum(ns[..|ns| - 1]) + ns[|ns| - 1].value
  }

  /** The sum of every number on the first `n` lines. */
  function NumberTotal(lines: seq<string>, n: nat): nat
    requires n <= |lines|
  {
    if n == 0 then 0 else NumberTotal(lines, n - 1) + RowSum(Numbers(lines[n - 1], 0))
  }

  /** No cell of the schematic holds a symbol. */
  ghost predicate NoSymbol(lines: seq<string>)
  {
    forall x, y :: !SymbolAt(lines, x, y)
  }

  /** The sum of the parts among `ns`, found on `row`: between 0 and the sum
      of all of them. */
  ghost function RowParts(lines: seq<string>, row: int, ns: seq<Number>): (r: int)
    ensures 0 <= r <= RowSum(ns)
  {
    if |ns| == 0 then 0
    else RowParts(lines, row, ns[..|ns| - 1]) + (if IsPart(lines, row, ns[|ns| - 1], true) then ns[|ns| - 1].value else 0)
  }

  /** The sum of the parts on the first `n` lines: between 0 and the sum of
      all numbers there. */
  ghost function PartTotal(lines: seq<string>, n: nat): (r: int)
    requires n <= |lines|
    ensures 0 <= r <= NumberTotal(lines, n)
  {
    if n == 0 then 0 else PartTotal(lines, n - 1) + RowParts(lines, n - 1, Numbers(lines[n - 1], 0))
  }

  /** Every number of `ns` is a part. */
  ghost predicate AllParts(lines: seq<string>, row: int, ns: seq<Number>)
  {
    forall k :: 0 <= k < |ns| ==> IsPart(lines, row, ns[k], true)
  }

  /** A line's parts are none without symbols and all its numbers when each
      is a part. */
  lemma {:induction false} RowPartsExtremes(lines: seq<string>, row: int, ns: seq<Number>)
    ensures NoSymbol(lines) ==> RowParts(lines, row, ns) == 0
    ensures AllParts(lines, row, ns) ==> RowParts(lines, row, ns) == RowSum(ns)
  {
    if |ns| > 0 {
      var front := ns[..|ns| - 1];
      RowPartsExtremes(lines, row, front);
      if AllParts(lines, row, ns) {
        assert forall k :: 0 <= k < |front| ==> front[k] == ns[k];
        assert AllParts(lines, row, front);
        assert IsPart(lines, row, ns[|ns| - 1], true);
      }
    }
  }

  /** Part 1 is 0 without symbols, and the sum of all numbers when every
      number is next to a symbol. */
  lemma {:induction false} PartTotalExtremes(lines: seq<string>, n: nat)
    requires n <= |lines|
    ensures NoSymbol(lines) ==> PartTotal(lines, n) == 0
    ensures (forall y :: 0 <= y < n ==> AllParts(lines, y, Numbers(lines[y], 0))) ==> PartTotal(lines, n) == NumberTotal(lines, n)
  {
    if n > 0 {
      PartTotalExtremes(lines, n - 1);
      RowPartsExtremes(lines, n - 1, Numbers(lines[n - 1], 0));
    }
  }

  /** The search of one neighbourhood, stopping at the first symbol. */
  method HasSymbol(lines: seq<string>, row: int, t: Number) returns (b: bool)
    ensures b <==> IsPart(lines, row, t, true)
  {
    var x := t.start - 1;
    while x <= t.end
      invariant t.start - 1 <= x && (x <= t.end + 1 || x == t.start - 1)
      invariant forall x', y' :: t.start - 1 <= x' < x && row - 1 <= y' <= row + 1 ==> !SymbolAt(lines, x', y')
    {
      var y := row - 1;
      while y <= row + 1
        invariant row - 1 <= y <= row + 2
        invariant forall y' :: row - 1 <= y' < y ==> !SymbolAt(lines, x, y')
      {
        if SymbolAt(lines, x, y) {
          assert Around(t, true, row, x, y);
          return true;
        }
        y := y + 1;
      }
      x := x + 1;
    }
    return false;
  }

  /** `part_1`: the sum of every number next to a symbol, each counted once;
      an empty schematic has no first line. */
  method Part1(lines: seq<string>) returns (r: Option<int>)
    ensures r.None? <==> |lines| == 0
    ensures r.Some? ==> r.value == PartTotal(lines, |lines|)
  {
    if |lines| == 0 {
      return None;
    }
    var total := 0;
    for y := 0 to |lines|
      invariant total == PartTotal(lines, y)
    {
      var rowTotal := RowTotal(lines, y);
      total := total + rowTotal;
    }
    return Some(total);
  }

  /** The inner loop of `part_1`: the parts of one line. */
  method RowTotal(lines: seq<string>, y: nat) returns (t: int)
    requires y < |lines|
    ensures t == RowParts(lines, y, Numbers(lines[y], 0))
  {
    var ns := Numbers(lines[y], 0);
    t := 0;
    for k := 0 to |ns|
      invariant t == RowParts(lines, y, ns[..k])
    {
      var part := HasSymbol(lines, y, ns[k]);
      assert ns[..k + 1][..k] == ns[..k];
      if part {
        t := t + ns[k].value;
      }
    }
    assert ns[..|ns|] == ns;
  }

  // ---------------------------------------------------------------------
  // Part 2

  /** The numbers among `ns`, found on `row`, whose neighbourhood holds
      (x, y), in the order they are found. */
  function RowCovering(ns: seq<Number>, row: nat, x: int, y: int, asWritten: bool): seq<(nat, Number)>
  {
    if |ns| == 0 then []
    else
      RowCovering(ns[..|ns| - 1], row, x, y, asWritten)
      + (if Around(ns[|ns| - 1], asWritten, row, x, y) then [(row, ns[|ns| - 1])] else [])
  }

  /** `gears_found[(x, y)]`: the numbers of the first `n` lines whose
      neighbourhood holds (x, y), with the line each was found on. */
  function Covering(lines: seq<string>, x: int, y: int, n: nat, asWritten: bool): seq<(nat, Number)>
    requires n <= |lines|
  {
    if n == 0 then []
    else Covering(lines, x, y, n - 1, asWritten) + RowCovering(Numbers(lines[n - 1], 0), n - 1, x, y, asWritten)
  }

  lemma {:induction false} RowCoveringExact(ns: seq<Number>, row: nat, x: int, y: int, asWritten: bool, p: (nat, Number))
    ensures p in RowCovering(ns, row, x, y, asWritten) <==> p.0 == row && p.1 in ns && Around(p.1, asWritten, row, x, y)
  {
    if |ns| > 0 {
      RowCoveringExact(ns[..|ns| - 1], row, x, y, asWritten, p);
      assert ns == ns[..|ns| - 1] + [ns[|ns| - 1]];
    }
  }

  /** Each '*' collects exactly the numbers whose neighbourhood holds it. */
  lemma {:induction false} CoveringExact(lines: seq<string>, x: int, y: int, n: nat, asWritten: bool, p: (nat, Number))
    requires n <= |lines|
    ensures p in Covering(lines, x, y, n, asWritten)
        <==> p.0 < n && p.1 in Numbers(lines[p.0], 0) && Around(p.1, asWritten, p.0, x, y)
  {
    if n > 0 {
      CoveringExact(lines, x, y, n - 1, asWritten, p);
      RowCoveringExact(Numbers(lines[n - 1], 0), n - 1, x, y, asWritten, p);
    }
  }

  /** A number collected by a gear is a part. */
  lemma GearNumbersAreParts(lines: seq<string>, x: int, y: int, p: (nat, Number))
    requires GearAt(lines, x, y) && p in Covering(lines, x, y, |lines|, true)
    ensures IsPart(lines, p.0, p.1, true)
  {
    CoveringExact(lines, x, y, |lines|, true, p);
    assert SymbolAt(lines, x, y);
  }

  /** A gear's product: only a '*' with exactly two numbers counts. */
  function Ratio(c: seq<(nat, Number)>): nat
  {
    if |c| == 2 then c[0].1.value * c[1].1.value else 0
  }

  /** No cell of the schematic holds a '*'. */
  ghost predicate NoStar(lines: seq<string>)
  {
    forall x, y :: !GearAt(lines, x, y)
  }

  /** The gears among the first `w` cells of line `y`. */
  function RowGears(lines: seq<string>, y: int, w: nat, asWritten: bool): (r: nat)
    ensures NoStar(lines) ==> r == 0
  {
    if w == 0 then 0
    else
      RowGears(lines, y, w - 1, asWritten)
      + (if GearAt(lines, w - 1, y) then Ratio(Covering(lines, w - 1, y, |lines|, asWritten)) else 0)
  }

  /** The gears on the first `n` lines; a schematic without a '*' has
      none. */
  function Gears(lines: seq<string>, n: nat, asWritten: bool): (r: nat)
    requires 0 < |lines| && n <= |lines|
    ensures NoStar(lines) ==> r == 0
  {
    if n == 0 then 0 else Gears(lines, n - 1, asWritten) + RowGears(lines, n - 1, |lines[0]|, asWritten)
  }

  /** `part_2` as written: a number's neighbourhood starts one column left
      of its match, and the match includes a sign in front of the digits. */
  function Part2AsWritten(lines: seq<string>): (r: Option<nat>)
    ensures r.None? <==> |lines| == 0
  {
    if |lines| == 0 then None else Some(Gears(lines, |lines|, true))
  }

  /** `part_2` with every neighbourhood starting one column left of the
      digits. */
  function Part2(lines: seq<string>): (r: Option<nat>)
    ensures r.None? <==> |lines| == 0
  {
    if |lines| == 0 then None else Some(Gears(lines, |lines|, false))
  }

  // ---------------------------------------------------------------------
  // A gear two columns from a signed number

  function SignedLine(): seq<string>
  {
    ["2*-5"]
  }

  lemma SignedNumbers()
    ensures Numbers(SignedLine()[0], 0) == [Number(0, 0, 1, 2), Number(2, 3, 4, 5)]
  {
    var line := SignedLine()[0];
    assert line[0..1] == "2" && line[3..4] == "5";
    assert Decimal("2") == 2 && Decimal("5") == 5;
    assert RunEnd(line, 0) == 1;
    assert RunEnd(line, 3) == 4;
    assert Numbers(line, 4) == [];
    assert Numbers(line, 1) == Numbers(line, 3) == [Number(2, 3, 4, 5)];
  }

  /** With the sign inside the match the '*' collects both numbers, though
      the 5 is two columns away from it. */
  lemma AsWrittenReachesPastSign()
    ensures Part2AsWritten(SignedLine()) == Some(10)
  {
    var lines := SignedLine();
    var ns := Numbers(lines[0], 0);
    SignedNumbers();
    assert Covering(lines, 1, 0, 1, true) == [(0, ns[0]), (0, ns[1])] by {
      assert ns[..1] == [ns[0]];
      assert RowCovering(ns[..1], 0, 1, 0, true) == [(0, ns[0])];
    }
    assert RowGears(lines, 0, 1, true) == 0;
    assert RowGears(lines, 0, 2, true) == 10;
  }

  /** Measured from the digits, the 5 is not next to the '*', which keeps a
      single number and counts nothing. */
  lemma CorrectedIgnoresDistantNumber()
    ensures Part2(SignedLine()) == Some(0)
  {
    var lines := SignedLine();
    var ns := Numbers(lines[0], 0);
    SignedNumbers();
    assert Covering(lines, 1, 0, 1, false) == [(0, ns[0])] by {
      assert ns[..1] == [ns[0]];
      assert RowCovering(ns[..1], 0, 1, 0, false) == [(0, ns[0])];
    }
    assert RowGears(lines, 0, 2, false) == 0;
  }
}
