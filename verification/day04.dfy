/** Day 4: scratchcards. A card scores by how many of its selected numbers
    are winning numbers, and each match wins a copy of a following card. */
module Day04 {
  import opened Common

  datatype Card = Card(id: int, winning: seq<int>, selected: seq<int>)

  /** `sum(number in winning for number in selected)`. */
  function Matches(winning: seq<int>, selected: seq<int>): (m: nat)
    ensures m <= |selected|
  {
    if |selected| == 0 then 0
    else (if selected[0] in winning then 1 else 0) + Matches(winning, selected[1..])
  }

  /** The positions of the selected numbers that are winning numbers. */
  function Hits(winning: seq<int>, selected: seq<int>): set<nat>
  {
    set k: nat | k < |selected| && selected[k] in winning
  }

  lemma {:induction false} MatchesSnoc(winning: seq<int>, selected: seq<int>, x: int)
    ensures Matches(winning, selected + [x]) == Matches(winning, selected) + (if x in winning then 1 else 0)
    decreases |selected|
  {
    if |selected| > 0 {
      assert (selected + [x])[1..] == selected[1..] + [x];
      MatchesSnoc(winning, selected[1..], x);
    } else {
      assert (selected + [x])[1..] == [];
    }
  }

  /** The match count is the number of positions holding a winning number (a
      number selected twice counts twice). */
  lemma {:induction false} MatchesAreHits(winning: seq<int>, selected: seq<int>)
    ensures Matches(winning, selected) == |Hits(winning, selected)|
    decreases |selected|
  {
    if |selected| > 0 {
      var n := |selected| - 1;
      var front := selected[..n];
      MatchesAreHits(winning, front);
      MatchesSnoc(winning, front, selected[n]);
      assert front + [selected[n]] == selected;
      var h := Hits(winning, front);
      assert n !in h;
      if selected[n] in winning {
        assert Hits(winning, selected) == h + {n};
      } else {
        assert Hits(winning, selected) == h;
      }
    }
  }

  function Pow2(n: nat): (r: nat)
    ensures r >= 1
  {
    if n == 0 then 1 else 2 * Pow2(n - 1)
  }

  /** `2**(matches-1)` for a card with matches, nothing otherwise. */
  function Points(m: nat): nat
  {
    if m == 0 then 0 else Pow2(m - 1)
  }

  /** The first match is worth one point and every further match doubles it. */
  lemma PointsDouble(m: nat)
    ensures Points(1) == 1
    ensures m >= 1 ==> Points(m + 1) == 2 * Points(m)
  {
  }

  function MatchCounts(cards: seq<Card>): (ms: seq<nat>)
    ensures |ms| == |cards|
    ensures forall i :: 0 <= i < |cards| ==> ms[i] == Matches(cards[i].winning, cards[i].selected)
  {
    seq(|cards|, i requires 0 <= i < |cards| => Matches(cards[i].winning, cards[i].selected))
  }

  lemma {:induction false} Pow2AtLeast(n: nat)
    ensures Pow2(n) >= n + 1
  {
    if n > 0 {
      Pow2AtLeast(n - 1);
    }
  }

  /** The points of all cards: none exactly when no card has a match, and
      at least one point per match. */
  function TotalPoints(ms: seq<nat>): (r: nat)
    ensures r == 0 <==> forall i :: 0 <= i < |ms| ==> ms[i] == 0
    ensures Sum(ms) <= r
  {
    if |ms| == 0 then 0
    else
      if ms[0] > 0 then Pow2AtLeast(ms[0] - 1); Points(ms[0]) + TotalPoints(ms[1..])
      else Points(ms[0]) + TotalPoints(ms[1..])
  }

  /** `part_1`: the points of all cards; none exactly when no card has a
      winning number among its selected ones, and at least one per match. */
  function Part1(cards: seq<Card>): (r: nat)
    ensures r == 0 <==> forall i :: 0 <= i < |cards| ==> Matches(cards[i].winning, cards[i].selected) == 0
    ensures Sum(MatchCounts(cards)) <= r
  {
    TotalPoints(MatchCounts(cards))
  }

  // ---------------------------------------------------------------------
  // Part 2: copies cascade down the table

  /** The copies card `k` holds once cards `0 .. i-1` (all before `k`) have
      handed out their wins: the original plus one copy for every copy of an
      earlier card `j` whose wins reach `k`. */
  function Pending(ms: seq<nat>, k: nat, i: nat): (c: nat)
    requires i <= k < |ms|
    ensures c >= 1
    decreases k, 0, i
  {
    if i == 0 then 1
    else Pending(ms, k, i - 1) + (if k <= i - 1 + ms[i - 1] then Copies(ms, i - 1) else 0)
  }

  /** The copies of card `k` in the end. */
  function Copies(ms: seq<nat>, k: nat): (c: nat)
    requires k < |ms|
    ensures c >= 1
    decreases k, 1
  {
    Pending(ms, k, k)
  }

  /** Counts only grow while earlier cards are processed. */
  lemma {:induction false} PendingGrows(ms: seq<nat>, k: nat, i: nat, j: nat)
    requires i <= j <= k < |ms|
    ensures Pending(ms, k, i) <= Pending(ms, k, j)
    decreases j - i
  {
    if i < j {
      PendingGrows(ms, k, i, j - 1);
    }
  }

  /** `part_2`'s loop: every card starts with one copy; card `i` adds its
      current copy count to each of the next `matches` cards that exist. */
  method Cascade(ms: seq<nat>) returns (copies: seq<nat>)
    ensures |copies| == |ms|
    ensures forall k :: 0 <= k < |ms| ==> copies[k] == Copies(ms, k)
  {
    copies := seq(|ms|, _ => 1);
    var i := 0;
    while i < |ms|
      invariant 0 <= i <= |ms| && |copies| == |ms|
      invariant forall k :: 0 <= k < i ==> copies[k] == Copies(ms, k)
      invariant forall k :: i <= k < |ms| ==> copies[k] == Pending(ms, k, i)
    {
      var current := copies[i];
      assert current == Copies(ms, i);
      var j := 1;
      while j <= ms[i]
        invariant 1 <= j <= ms[i] + 1 && |copies| == |ms|
        invariant forall k :: 0 <= k <= i ==> copies[k] == Copies(ms, k)
        invariant forall k :: i < k < |ms| && k < i + j ==> copies[k] == Pending(ms, k, i + 1)
        invariant forall k :: i + j <= k < |ms| ==> copies[k] == Pending(ms, k, i)
      {
        if i + j < |ms| {
          copies := copies[i + j := copies[i + j] + current];
        }
        j := j + 1;
      }
      i := i + 1;
    }
  }

  /** Every original card is counted at least once. */
  lemma {:induction false} TotalAtLeastCards(copies: seq<nat>)
    requires forall k :: 0 <= k < |copies| ==> copies[k] >= 1
    ensures Sum(copies) >= |copies|
    decreases |copies|
  {
    if |copies| > 0 {
      TotalAtLeastCards(copies[1..]);
    }
  }

  method Part2(cards: seq<Card>) returns (total: nat)
    ensures total >= |cards|
    ensures total == Sum(seq(|cards|, k requires 0 <= k < |cards| => Copies(MatchCounts(cards), k)))
  {
    var ms := MatchCounts(cards);
    var copies := Cascade(ms);
    TotalAtLeastCards(copies);
    assert copies == seq(|cards|, k requires 0 <= k < |cards| => Copies(ms, k));
    total := Sum(copies);
  }

  /** The match counts 4, 2, 2, 1, 0, 0 of the example score 13 points and
      end with 1, 2, 4, 8, 14 and 1 copies: 30 cards. */
  lemma ExamplePoints()
    ensures TotalPoints([4, 2, 2, 1, 0, 0]) == 13
  {
  }

  lemma ExampleCopies()
    ensures var ms := [4, 2, 2, 1, 0, 0];
      Copies(ms, 0) == 1 && Copies(ms, 1) == 2 && Copies(ms, 2) == 4
      && Copies(ms, 3) == 8 && Copies(ms, 4) == 14 && Copies(ms, 5) == 1
  {
    var ms := [4, 2, 2, 1, 0, 0];
    assert Copies(ms, 0) == 1;
    assert Copies(ms, 1) == 2;
    assert Pending(ms, 2, 1) == 2;
    assert Copies(ms, 2) == 4;
    assert Pending(ms, 3, 2) == 4;
    assert Copies(ms, 3) == 8;
    assert Pending(ms, 4, 2) == 2;
    assert Pending(ms, 4, 3) == 6;
    assert Copies(ms, 4) == 14;
    assert Pending(ms, 5, 4) == 1;
    assert Copies(ms, 5) == 1;
  }

  /** The first example card: 83, 86, 17 and 48 are winning numbers. */
  lemma ExampleCard()
    ensures Matches([41, 48, 83, 86, 17], [83, 86, 6, 31, 17, 9, 48, 53]) == 4
  {
  }
}
