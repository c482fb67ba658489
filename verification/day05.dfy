/** Day 5: the seed almanac. Each resource map is an ordered list of rules
    "dest src size"; a rule remaps the half-open source range [src, src+size)
    by the offset dest - src. Later rules take priority where source ranges
    overlap, as when they are assigned one after another into an interval
    dictionary. Values no rule covers pass through unchanged. */
module Day05 {
  import opened Common

  /** The half-open integer range [lo, hi); empty when hi <= lo. */
  datatype Range = Range(lo: int, hi: int)

  /** One map line: dest_start, source_start, size. */
  datatype Rule = Rule(dest: int, src: int, size: int)

  datatype ResourceMap = ResourceMap(fromResource: string, toResource: string, rules: seq<Rule>)

  predicate InRange(x: int, r: Range)
  {
    r.lo <= x < r.hi
  }

  /** Membership in a union of ranges. */
  predicate Mem(x: int, rs: seq<Range>)
  {
    exists i :: 0 <= i < |rs| && InRange(x, rs[i])
  }

  /** interval_range(start, size): the half-open range [start, start + size). */
  function IntervalRange(start: int, size: int): (r: Range)
    ensures forall x :: InRange(x, r) <==> start <= x < start + size
  {
    Range(start, start + size)
  }

  function Source(rule: Rule): Range
  {
    IntervalRange(rule.src, rule.size)
  }

  /** One tokenised rule line; anything but three integers is a parse failure. */
  function ParseRule(nums: seq<int>): (r: Option<Rule>)
    ensures r.Some? <==> |nums| == 3
    ensures r.Some? ==> r.value.dest == nums[0] && r.value.src == nums[1] && r.value.size == nums[2]
  {
    if |nums| == 3 then Some(Rule(nums[0], nums[1], nums[2])) else None
  }

  // ---------------------------------------------------------------------------
  // Point lookup

  /** The point lookup: the last rule whose source range holds x decides. */
  function MapPoint(rules: seq<Rule>, x: int): int
  {
    if |rules| == 0 then x
    else
      var last := rules[|rules| - 1];
      if InRange(x, Source(last)) then last.dest + x - last.src
      else MapPoint(rules[..|rules| - 1], x)
  }

  /** x is covered by some rule of the map. */
  predicate Covered(rules: seq<Rule>, x: int)
  {
    exists i :: 0 <= i < |rules| && InRange(x, Source(rules[i]))
  }

  /** Point lookup, stated against the rules: a covered x is shifted by the
      offset of the last rule covering it, an uncovered x is returned as is. */
  lemma {:induction false} MapPointSpec(rules: seq<Rule>, x: int)
    ensures !Covered(rules, x) ==> MapPoint(rules, x) == x
    ensures forall i :: 0 <= i < |rules| && InRange(x, Source(rules[i]))
              && (forall j :: i < j < |rules| ==> !InRange(x, Source(rules[j])))
              ==> MapPoint(rules, x) == rules[i].dest + x - rules[i].src
  {
    if |rules| > 0 {
      var init := rules[..|rules| - 1];
      var last := rules[|rules| - 1];
      MapPointSpec(init, x);
      if !Covered(rules, x) {
        assert !InRange(x, Source(last));
        assert !Covered(init, x) by {
          assert forall i :: 0 <= i < |init| ==> init[i] == rules[i];
        }
      }
      forall i | 0 <= i < |rules| && InRange(x, Source(rules[i]))
          && (forall j :: i < j < |rules| ==> !InRange(x, Source(rules[j])))
        ensures MapPoint(rules, x) == rules[i].dest + x - rules[i].src
      {
        if i < |init| {
          assert !InRange(x, Source(last));
          assert init[i] == rules[i];
          assert forall j :: i < j < |init| ==> !InRange(x, Source(init[j])) by {
            assert forall j :: i < j < |init| ==> init[j] == rules[j];
          }
        }
      }
    }
  }

  // ---------------------------------------------------------------------------
  // Interval lookup

  function Inter(a: Range, b: Range): (r: Range)
    ensures forall x :: InRange(x, r) <==> InRange(x, a) && InRange(x, b)
  {
    Range(if a.lo < b.lo then b.lo else a.lo, if a.hi < b.hi then a.hi else b.hi)
  }

  /** a minus b: the part of a below b and the part of a above b. */
  function Minus(a: Range, b: Range): (r: seq<Range>)
    ensures forall x :: Mem(x, r) <==> InRange(x, a) && !InRange(x, b)
  {
    var below := Range(a.lo, if a.hi < b.lo then a.hi else b.lo);
    var above := Range(if a.lo < b.hi then b.hi else a.lo, a.hi);
    forall x | InRange(x, below) ensures Mem(x, [below, above]) {
      assert [below, above][0] == below;
    }
    forall x | InRange(x, above) ensures Mem(x, [below, above]) {
      assert [below, above][1] == above;
    }
    [below, above]
  }

  function Shift(r: Range, k: int): (s: Range)
    ensures forall x :: InRange(x, r) <==> InRange(x + k, s)
  {
    Range(r.lo + k, r.hi + k)
  }

  function InterAll(rs: seq<Range>, b: Range): (r: seq<Range>)
    ensures |r| == |rs|
    ensures forall i :: 0 <= i < |rs| ==> r[i] == Inter(rs[i], b)
  {
    if |rs| == 0 then [] else [Inter(rs[0], b)] + InterAll(rs[1..], b)
  }

  function ShiftAll(rs: seq<Range>, k: int): (r: seq<Range>)
    ensures |r| == |rs|
    ensures forall i :: 0 <= i < |rs| ==> r[i] == Shift(rs[i], k)
  {
    if |rs| == 0 then [] else [Shift(rs[0], k)] + ShiftAll(rs[1..], k)
  }

  function MinusAll(rs: seq<Range>, b: Range): seq<Range>
  {
    if |rs| == 0 then [] else Minus(rs[0], b) + MinusAll(rs[1..], b)
  }

  lemma MemAppend(x: int, a: seq<Range>, b: seq<Range>)
    ensures Mem(x, a + b) <==> Mem(x, a) || Mem(x, b)
  {
    if Mem(x, a + b) {
      var i :| 0 <= i < |a + b| && InRange(x, (a + b)[i]);
      if i >= |a| {
        assert InRange(x, b[i - |a|]);
      }
    }
    if Mem(x, b) {
      var i :| 0 <= i < |b| && InRange(x, b[i]);
      assert (a + b)[|a| + i] == b[i];
    }
    if Mem(x, a) {
      var i :| 0 <= i < |a| && InRange(x, a[i]);
      assert (a + b)[i] == a[i];
    }
  }

  lemma {:induction false} MemMinusAll(x: int, rs: seq<Range>, b: Range)
    ensures Mem(x, MinusAll(rs, b)) <==> Mem(x, rs) && !InRange(x, b)
  {
    if |rs| > 0 {
      MemMinusAll(x, rs[1..], b);
      MemAppend(x, Minus(rs[0], b), MinusAll(rs[1..], b));
      MemCons(x, rs);
    }
  }

  lemma MemCons(x: int, rs: seq<Range>)
    requires |rs| > 0
    ensures Mem(x, rs) <==> InRange(x, rs[0]) || Mem(x, rs[1..])
  {
    if Mem(x, rs[1..]) {
      var i :| 0 <= i < |rs[1..]| && InRange(x, rs[1..][i]);
      assert rs[i + 1] == rs[1..][i];
    }
    if Mem(x, rs) && !InRange(x, rs[0]) {
      var i :| 0 <= i < |rs| && InRange(x, rs[i]);
      assert rs[1..][i - 1] == rs[i];
    }
  }

  lemma MemInterAll(x: int, rs: seq<Range>, b: Range)
    ensures Mem(x, InterAll(rs, b)) <==> Mem(x, rs) && InRange(x, b)
  {
    var r := InterAll(rs, b);
    if Mem(x, r) {
      var i :| 0 <= i < |r| && InRange(x, r[i]);
      assert InRange(x, rs[i]);
    }
    if Mem(x, rs) && InRange(x, b) {
      var i :| 0 <= i < |rs| && InRange(x, rs[i]);
      assert InRange(x, r[i]);
    }
  }

  lemma MemShiftAll(x: int, rs: seq<Range>, k: int)
    ensures Mem(x + k, ShiftAll(rs, k)) <==> Mem(x, rs)
  {
    var r := ShiftAll(rs, k);
    if Mem(x + k, r) {
      var i :| 0 <= i < |r| && InRange(x + k, r[i]);
      assert InRange(x, rs[i]);
    }
    if Mem(x, rs) {
      var i :| 0 <= i < |rs| && InRange(x, rs[i]);
      assert InRange(x + k, r[i]);
    }
  }

  /** The rule-covered pieces of the input, each shifted by its rule's offset.
      Rules are visited from the last (highest priority) down, and each rule
      only sees what the later rules left. */
  function Mapped(rules: seq<Rule>, rs: seq<Range>): seq<Range>
  {
    if |rules| == 0 then []
    else
      var last := rules[|rules| - 1];
      ShiftAll(InterAll(rs, Source(last)), last.dest - last.src)
        + Mapped(rules[..|rules| - 1], MinusAll(rs, Source(last)))
  }

  /** What is left of the input once every rule's source range is subtracted. */
  function Remainder(rules: seq<Rule>, rs: seq<Range>): seq<Range>
  {
    if |rules| == 0 then rs
    else
      var last := rules[|rules| - 1];
      Remainder(rules[..|rules| - 1], MinusAll(rs, Source(last)))
  }

  /** The interval lookup: the mapped pieces joined with the remainder. */
  function MapRanges(rules: seq<Rule>, rs: seq<Range>): seq<Range>
  {
    Mapped(rules, rs) + Remainder(rules, rs)
  }

  /** The remainder is exactly the uncovered part of the input, so it is
      disjoint from every rule's source range. */
  lemma {:induction false} RemainderSpec(rules: seq<Rule>, rs: seq<Range>, x: int)
    ensures Mem(x, Remainder(rules, rs)) <==> Mem(x, rs) && !Covered(rules, x)
    ensures Mem(x, Remainder(rules, rs)) ==> forall i :: 0 <= i < |rules| ==> !InRange(x, Source(rules[i]))
  {
    if |rules| > 0 {
      var init := rules[..|rules| - 1];
      var last := rules[|rules| - 1];
      RemainderSpec(init, MinusAll(rs, Source(last)), x);
      MemMinusAll(x, rs, Source(last));
      assert forall i :: 0 <= i < |init| ==> init[i] == rules[i];
      if Covered(rules, x) && !InRange(x, Source(last)) {
        var i :| 0 <= i < |rules| && InRange(x, Source(rules[i]));
        assert i < |init|;
        assert Covered(init, x);
      }
    }
  }

  /** One rule of the interval lookup: the last rule's shifted pieces, then
      the earlier rules applied to what it leaves over. */
  lemma {:induction false} MappedStep(rules: seq<Rule>, rs: seq<Range>, init: seq<Rule>, last: Rule, rest: seq<Range>)
    requires |rules| > 0 && init == rules[..|rules| - 1] && last == rules[|rules| - 1]
    requires rest == MinusAll(rs, Source(last))
    ensures Mapped(rules, rs) == ShiftAll(InterAll(rs, Source(last)), last.dest - last.src) + Mapped(init, rest)
  {
    var n := |rules| - 1;
    assert Mapped(rules, rs) == ShiftAll(InterAll(rs, Source(rules[n])), rules[n].dest - rules[n].src)
      + Mapped(rules[..n], MinusAll(rs, Source(rules[n])));
  }

  /** The remainder after all rules is the remainder, under the earlier
      rules, of what the last rule leaves over. */
  lemma {:induction false} RemainderStep(rules: seq<Rule>, rs: seq<Range>, init: seq<Rule>, last: Rule, rest: seq<Range>)
    requires |rules| > 0 && init == rules[..|rules| - 1] && last == rules[|rules| - 1]
    requires rest == MinusAll(rs, Source(last))
    ensures Remainder(rules, rs) == Remainder(init, rest)
  {
  }

  /** A point of piece i that the source range b covers lands in the i-th
      shifted piece. */
  lemma ShiftedHit(rs: seq<Range>, b: Range, k: int, i: nat, x: int)
    requires i < |rs| && InRange(x, rs[i]) && InRange(x, b)
    ensures i < |ShiftAll(InterAll(rs, b), k)| && InRange(x + k, ShiftAll(InterAll(rs, b), k)[i])
  {
    var inter := InterAll(rs, b);
    assert InRange(x, inter[i]);
  }

  /** The first pieces of the interval lookup are the last rule's shifted
      pieces, one per input range. */
  lemma {:induction false} LookupHead(rules: seq<Rule>, rs: seq<Range>, i: nat)
    requires |rules| > 0 && i < |rs|
    ensures var last := rules[|rules| - 1];
      MapRanges(rules, rs)[i] == ShiftAll(InterAll(rs, Source(last)), last.dest - last.src)[i]
  {
    var init := rules[..|rules| - 1];
    var last := rules[|rules| - 1];
    var shifted := ShiftAll(InterAll(rs, Source(last)), last.dest - last.src);
    var rest := MinusAll(rs, Source(last));
    var m := Mapped(rules, rs);
    MappedStep(rules, rs, init, last, rest);
    IndexLeft(m, shifted, Mapped(init, rest), i);
    IndexLeft(MapRanges(rules, rs), m, Remainder(rules, rs), i);
  }

  /** A range of the list that holds x makes x a member. */
  lemma MemAt(x: int, rs: seq<Range>, i: nat)
    requires i < |rs| && InRange(x, rs[i])
    ensures Mem(x, rs)
  {
  }

  /** A value in the last rule's source lands in that rule's shifted pieces. */
  lemma {:induction false} HitLands(rules: seq<Rule>, rs: seq<Range>, x: int)
    requires |rules| > 0 && Mem(x, rs) && InRange(x, Source(rules[|rules| - 1]))
    ensures Mem(MapPoint(rules, x), MapRanges(rules, rs))
  {
    var last := rules[|rules| - 1];
    var k := last.dest - last.src;
    var i :| 0 <= i < |rs| && InRange(x, rs[i]);
    ShiftedHit(rs, Source(last), k, i, x);
    LookupHead(rules, rs, i);
    MemAt(x + k, MapRanges(rules, rs), i);
    assert MapPoint(rules, x) == x + k;
  }

  /** After the last rule's n shifted pieces, the interval lookup continues
      with the earlier rules' lookup of what the last rule leaves over. */
  lemma {:induction false} LookupTail(rules: seq<Rule>, rs: seq<Range>, j: nat) returns (n: nat)
    requires |rules| > 0
    requires j < |MapRanges(rules[..|rules| - 1], MinusAll(rs, Source(rules[|rules| - 1])))|
    ensures n + j < |MapRanges(rules, rs)|
    ensures MapRanges(rules, rs)[n + j] == MapRanges(rules[..|rules| - 1], MinusAll(rs, Source(rules[|rules| - 1])))[j]
  {
    var init := rules[..|rules| - 1];
    var last := rules[|rules| - 1];
    var shifted := ShiftAll(InterAll(rs, Source(last)), last.dest - last.src);
    var rest := MinusAll(rs, Source(last));
    MappedStep(rules, rs, init, last, rest);
    RemainderStep(rules, rs, init, last, rest);
    n := |shifted|;
    IndexRight(MapRanges(rules, rs), shifted, Mapped(init, rest), Remainder(init, rest), j);
  }

  /** A value outside the last rule's source lands wherever the earlier rules
      send it within what the last rule leaves over. */
  lemma {:induction false} MissLands(rules: seq<Rule>, rs: seq<Range>, x: int)
    requires |rules| > 0 && !InRange(x, Source(rules[|rules| - 1]))
    requires Mem(MapPoint(rules[..|rules| - 1], x), MapRanges(rules[..|rules| - 1], MinusAll(rs, Source(rules[|rules| - 1]))))
    ensures Mem(MapPoint(rules, x), MapRanges(rules, rs))
  {
    var init := rules[..|rules| - 1];
    var last := rules[|rules| - 1];
    var rest := MinusAll(rs, Source(last));
    var y := MapPoint(init, x);
    var j :| 0 <= j < |MapRanges(init, rest)| && InRange(y, MapRanges(init, rest)[j]);
    var n := LookupTail(rules, rs, j);
    MemAt(y, MapRanges(rules, rs), n + j);
    assert MapPoint(rules, x) == y;
  }

  /** Every value of the input maps, by the point lookup, into the output. */
  lemma {:induction false} NoCoordinateLost(rules: seq<Rule>, rs: seq<Range>, x: int)
    requires Mem(x, rs)
    ensures Mem(MapPoint(rules, x), MapRanges(rules, rs))
  {
    if |rules| == 0 {
      MemAppend(x, Mapped(rules, rs), Remainder(rules, rs));
    } else {
      var last := rules[|rules| - 1];
      if InRange(x, Source(last)) {
        HitLands(rules, rs, x);
      } else {
        MemMinusAll(x, rs, Source(last));
        NoCoordinateLost(rules[..|rules| - 1], MinusAll(rs, Source(last)), x);
        MissLands(rules, rs, x);
      }
    }
  }

  /** A value of the mapped pieces is the shifted image of a covered input value. */
  lemma {:induction false} MappedComesFromInput(rules: seq<Rule>, rs: seq<Range>, y: int)
    requires Mem(y, Mapped(rules, rs))
    ensures exists x :: Mem(x, rs) && MapPoint(rules, x) == y
  {
    var init := rules[..|rules| - 1];
    var last := rules[|rules| - 1];
    var k := last.dest - last.src;
    var inter := InterAll(rs, Source(last));
    var shifted := ShiftAll(inter, k);
    var rest := MinusAll(rs, Source(last));
    MemAppend(y, shifted, Mapped(init, rest));
    if Mem(y, shifted) {
      var x := y - k;
      MemShiftAll(x, inter, k);
      MemInterAll(x, rs, Source(last));
      assert Mem(x, rs) && MapPoint(rules, x) == y;
    } else {
      MappedComesFromInput(init, rest, y);
      var x :| Mem(x, rest) && MapPoint(init, x) == y;
      MemMinusAll(x, rs, Source(last));
      assert Mem(x, rs) && MapPoint(rules, x) == y;
    }
  }

  /** Every value of the output is the point lookup of some input value. */
  lemma NoCoordinateGained(rules: seq<Rule>, rs: seq<Range>, y: int)
    requires Mem(y, MapRanges(rules, rs))
    ensures exists x :: Mem(x, rs) && MapPoint(rules, x) == y
  {
    MemAppend(y, Mapped(rules, rs), Remainder(rules, rs));
    if Mem(y, Mapped(rules, rs)) {
      MappedComesFromInput(rules, rs, y);
    } else {
      RemainderSpec(rules, rs, y);
      MapPointSpec(rules, y);
      assert Mem(y, rs) && MapPoint(rules, y) == y;
    }
  }

  /** A map without rules is the identity on points and on ranges. */
  lemma EmptyMapIsIdentity(rs: seq<Range>)
    ensures forall x :: MapPoint([], x) == x
    ensures MapRanges([], rs) == rs
  {
  }

  // ---------------------------------------------------------------------------
  // The almanac: maps applied in list order

  function ApplyPoint(maps: seq<ResourceMap>, x: int): int
  {
    if |maps| == 0 then x else ApplyPoint(maps[1..], MapPoint(maps[0].rules, x))
  }

  function ApplyRanges(maps: seq<ResourceMap>, rs: seq<Range>): seq<Range>
  {
    if |maps| == 0 then rs else ApplyRanges(maps[1..], MapRanges(maps[0].rules, rs))
  }

  /** Chaining keeps the conservation law: the ranges that come out of the
      almanac are exactly the point images of the ranges that go in. */
  lemma {:induction false} AlmanacConserves(maps: seq<ResourceMap>, rs: seq<Range>)
    ensures forall x :: Mem(x, rs) ==> Mem(ApplyPoint(maps, x), ApplyRanges(maps, rs))
    ensures forall y :: Mem(y, ApplyRanges(maps, rs)) ==> exists x :: Mem(x, rs) && ApplyPoint(maps, x) == y
  {
    if |maps| > 0 {
      var next := MapRanges(maps[0].rules, rs);
      AlmanacConserves(maps[1..], next);
      forall x | Mem(x, rs) ensures Mem(ApplyPoint(maps, x), ApplyRanges(maps, rs)) {
        NoCoordinateLost(maps[0].rules, rs, x);
      }
      forall y | Mem(y, ApplyRanges(maps, rs)) ensures exists x :: Mem(x, rs) && ApplyPoint(maps, x) == y {
        var z :| Mem(z, next) && ApplyPoint(maps[1..], z) == y;
        NoCoordinateGained(maps[0].rules, rs, z);
        var x :| Mem(x, rs) && MapPoint(maps[0].rules, x) == z;
        assert ApplyPoint(maps, x) == y;
      }
    }
  }

  // ---------------------------------------------------------------------------
  // The two answers

  /** part_1: the smallest location over the seed points. */
  function Part1(seeds: seq<int>, maps: seq<ResourceMap>): (r: int)
    requires |seeds| > 0
    ensures forall i :: 0 <= i < |seeds| ==> r <= ApplyPoint(maps, seeds[i])
    ensures exists i :: 0 <= i < |seeds| && r == ApplyPoint(maps, seeds[i])
  {
    var locations := seq(|seeds|, i requires 0 <= i < |seeds| => ApplyPoint(maps, seeds[i]));
    assert forall i :: 0 <= i < |seeds| ==> locations[i] == ApplyPoint(maps, seeds[i]);
    Min(locations)
  }

  /** The seed line of part 2 read as (start, size) pairs; an odd count fails to unpack. */
  function SeedRanges(nums: seq<int>): (r: Option<seq<Range>>)
    ensures r.Some? <==> |nums| % 2 == 0
    ensures r.Some? ==> |r.value| == |nums| / 2
    ensures r.Some? ==> forall i :: 0 <= i < |r.value| ==> r.value[i] == IntervalRange(nums[2 * i], nums[2 * i + 1])
  {
    if |nums| == 0 then Some([])
    else if |nums| == 1 then None
    else
      match SeedRanges(nums[2..])
      case None => None
      case Some(rest) =>
        assert forall i :: 1 <= i < |rest| + 1 ==> nums[2 * i] == nums[2..][2 * (i - 1)];
        Some([IntervalRange(nums[0], nums[1])] + rest)
  }

  /** The lower bound of a union of ranges; None for an empty union, whose
      `lower` the interval library reports as positive infinity. */
  function Lower(rs: seq<Range>): (r: Option<int>)
    ensures r.None? ==> forall x :: !Mem(x, rs)
    ensures r.Some? ==> Mem(r.value, rs) && forall x :: Mem(x, rs) ==> r.value <= x
  {
    if |rs| == 0 then None
    else
      var rest := Lower(rs[1..]);
      forall x ensures Mem(x, rs) <==> InRange(x, rs[0]) || Mem(x, rs[1..]) {
        MemCons(x, rs);
      }
      if rs[0].lo >= rs[0].hi then rest
      else if rest.Some? && rest.value < rs[0].lo then rest
      else Some(rs[0].lo)
  }

  /** part_2: the lowest value of the location ranges the seed ranges are
      mapped to, and none when those ranges hold no value. */
  function Part2(seedRanges: seq<Range>, maps: seq<ResourceMap>): (r: Option<int>)
    ensures r.None? ==> forall x :: !Mem(x, ApplyRanges(maps, seedRanges))
    ensures (forall x :: !Mem(x, ApplyRanges(maps, seedRanges))) ==> r.None?
    ensures r.Some? ==> Mem(r.value, ApplyRanges(maps, seedRanges))
    ensures r.Some? ==> forall x :: Mem(x, ApplyRanges(maps, seedRanges)) ==> r.value <= x
  {
    var out := ApplyRanges(maps, seedRanges);
    var low := Lower(out);
    assert low.Some? ==> Mem(low.value, out);
    low
  }

  /** part_2 agrees with a seed-by-seed minimum: its answer is the location of
      some seed in the ranges and no seed reaches a lower location; it has no
      answer exactly when the seed ranges are empty. */
  lemma Part2IsPointwiseMinimum(seedRanges: seq<Range>, maps: seq<ResourceMap>)
    ensures Part2(seedRanges, maps).Some? ==>
      (exists x :: Mem(x, seedRanges) && ApplyPoint(maps, x) == Part2(seedRanges, maps).value)
      && forall x :: Mem(x, seedRanges) ==> Part2(seedRanges, maps).value <= ApplyPoint(maps, x)
    ensures Part2(seedRanges, maps).None? <==> forall x :: !Mem(x, seedRanges)
  {
    AlmanacConserves(maps, seedRanges);
    var out := ApplyRanges(maps, seedRanges);
    if Part2(seedRanges, maps).None? {
      forall x | Mem(x, seedRanges) ensures false {
      }
    }
  }
}
