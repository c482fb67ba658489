/** Day 7: Camel Cards. A hand of five cards gets one of seven types from the
    multiset of its card counts; plays are ranked by type, then card by card,
    then by bet, and the winnings are the sum of rank times bet. In part 2 a
    J is a joker: it ranks lowest and joins the most frequent other card. */
module Day07 {
  import opened Common

  /** Every card in order of value; '1' is the rewritten joker. */
  const AllCards: string := "123456789TJQKA"

  predicate IsCard(c: char)
  {
    '1' <= c <= '9' || c == 'T' || c == 'J' || c == 'Q' || c == 'K' || c == 'A'
  }

  /** Digits count as themselves, T J Q K A as 10 to 14. Its position in
      AllCards is one less than the value, so values order the cards. */
  function CardValue(c: char): (v: int)
    requires IsCard(c)
    ensures 1 <= v <= 14 && AllCards[v - 1] == c
  {
    if '0' <= c <= '9' then (c - '0') as int
    else if c == 'T' then 10
    else if c == 'J' then 11
    else if c == 'Q' then 12
    else if c == 'K' then 13
    else 14
  }

  function Index(c: char): (i: nat)
    requires IsCard(c)
    ensures i < |AllCards| && AllCards[i] == c
  {
    CardValue(c) - 1
  }

  lemma CardAt(b: nat)
    requires b < |AllCards|
    ensures IsCard(AllCards[b]) && Index(AllCards[b]) == b
  {
    if b < 9 {
      assert AllCards[b] == ('1' as int + b) as char;
    }
  }

  lemma IndexInjective(c: char, d: char)
    requires IsCard(c) && IsCard(d)
    ensures Index(c) == Index(d) <==> c == d
  {
  }

  /** A hand of the puzzle input: five cards, no rewritten jokers. */
  predicate ValidHand(h: string)
  {
    |h| == 5 && forall i :: 0 <= i < |h| ==> IsCard(h[i]) && h[i] != '1'
  }

  datatype HandType = HighCard | Pair | TwoPair | ThreeOfAKind | FullHouse | FourOfAKind | FiveOfAKind

  /** The enum value: HIGH_CARD = 1 up to FIVE_OF_A_KIND = 7. */
  function Strength(k: HandType): (s: int)
    ensures 1 <= s <= 7
  {
    match k
      case HighCard => 1
      case Pair => 2
      case TwoPair => 3
      case ThreeOfAKind => 4
      case FullHouse => 5
      case FourOfAKind => 6
      case FiveOfAKind => 7
  }

  lemma StrengthInjective(a: HandType, b: HandType)
    ensures Strength(a) == Strength(b) <==> a == b
  {
  }

  // ---------------------------------------------------------------------------
  // Counting vectors: one count per card of AllCards

  function Total(t: seq<nat>): nat
  {
    if |t| == 0 then 0 else t[0] + Total(t[1..])
  }

  /** The number of different cards present. */
  function Kinds(t: seq<nat>): nat
  {
    if |t| == 0 then 0 else (if t[0] > 0 then 1 else 0) + Kinds(t[1..])
  }

  /** The largest count, 0 for no counts. */
  function Largest(t: seq<nat>): nat
  {
    if |t| == 0 then 0
    else
      var rest := Largest(t[1..]);
      if t[0] >= rest then t[0] else rest
  }

  lemma {:induction false} LargestIsMax(t: seq<nat>)
    ensures forall i :: 0 <= i < |t| ==> t[i] <= Largest(t)
    ensures |t| > 0 ==> exists i :: 0 <= i < |t| && t[i] == Largest(t)
  {
    if |t| > 0 {
      LargestIsMax(t[1..]);
      assert forall i :: 1 <= i < |t| ==> t[i] == t[1..][i - 1];
      if t[0] < Largest(t[1..]) {
        var i :| 0 <= i < |t[1..]| && t[1..][i] == Largest(t[1..]);
        assert t[i + 1] == Largest(t);
      }
    }
  }

  /** The counts of the cards present: the counts `most_common` lists. */
  function Profile(t: seq<nat>): (p: seq<nat>)
    ensures forall i :: 0 <= i < |p| ==> p[i] >= 1
  {
    if |t| == 0 then []
    else (if t[0] > 0 then [t[0]] else []) + Profile(t[1..])
  }

  lemma {:induction false} ProfileFacts(t: seq<nat>)
    ensures |Profile(t)| == Kinds(t)
    ensures Total(Profile(t)) == Total(t)
    ensures Largest(Profile(t)) == Largest(t)
  {
    if |t| > 0 {
      ProfileFacts(t[1..]);
      var p := Profile(t[1..]);
      if t[0] > 0 {
        assert Profile(t) == [t[0]] + p;
        assert ([t[0]] + p)[1..] == p;
      } else {
        assert Profile(t) == p;
      }
    }
  }

  /** How an update of one count changes the summaries. */
  lemma {:induction false} UpdateFacts(t: seq<nat>, i: nat, v: nat)
    requires i < |t|
    ensures Total(t[i := v]) == Total(t) - t[i] + v
    ensures Kinds(t[i := v]) == Kinds(t) - (if t[i] > 0 then 1 else 0) + (if v > 0 then 1 else 0)
    ensures v <= Largest(t[i := v]) && Largest(t[i := v]) <= (if Largest(t) >= v then Largest(t) else v)
  {
    var u := t[i := v];
    if i > 0 {
      assert u[1..] == t[1..][i - 1 := v];
      UpdateFacts(t[1..], i - 1, v);
    } else {
      assert u[1..] == t[1..];
    }
  }

  function Zeros(n: nat): (t: seq<nat>)
    ensures |t| == n && Total(t) == 0 && Kinds(t) == 0
    ensures forall i :: 0 <= i < n ==> t[i] == 0
  {
    if n == 0 then [] else [0] + Zeros(n - 1)
  }

  /** The Counter of a hand, as one count per card of AllCards. */
  function Tally(h: string): (t: seq<nat>)
    requires forall i :: 0 <= i < |h| ==> IsCard(h[i])
    ensures |t| == |AllCards|
    ensures Total(t) == |h|
  {
    if |h| == 0 then Zeros(|AllCards|)
    else
      var rest := Tally(h[1..]);
      var k := Index(h[0]);
      UpdateFacts(rest, k, rest[k] + 1);
      rest[k := rest[k] + 1]
  }

  /** Each entry of the tally counts its card in the hand. */
  lemma {:induction false} TallyCounts(h: string, c: char)
    requires forall i :: 0 <= i < |h| ==> IsCard(h[i])
    requires IsCard(c)
    ensures Tally(h)[Index(c)] == Count(h, c)
  {
    if |h| > 0 {
      TallyCounts(h[1..], c);
      IndexInjective(h[0], c);
    }
  }

  // ---------------------------------------------------------------------------
  // Hand types

  /** `type_of`: the pattern `most_common()` matches. It lists the counts
      in descending order, so a pattern matches exactly when the profile has
      the pattern's length and as many of each count as the pattern. None
      for a profile that is none of the seven (never for five cards, see
      ShapeDecidesType). */
  function TypeOf(p: seq<nat>): Option<HandType>
  {
    if |p| == 5 && Count(p, 1) == 5 then Some(HighCard)
    else if |p| == 4 && Count(p, 2) == 1 && Count(p, 1) == 3 then Some(Pair)
    else if |p| == 3 && Count(p, 2) == 2 && Count(p, 1) == 1 then Some(TwoPair)
    else if |p| == 3 && Count(p, 3) == 1 && Count(p, 1) == 2 then Some(ThreeOfAKind)
    else if |p| == 2 && Count(p, 3) == 1 && Count(p, 2) == 1 then Some(FullHouse)
    else if |p| == 2 && Count(p, 4) == 1 && Count(p, 1) == 1 then Some(FourOfAKind)
    else if |p| == 1 && Count(p, 5) == 1 then Some(FiveOfAKind)
    else None
  }

  /** The type from the number of different cards and the largest count. */
  function FromShape(kinds: nat, largest: nat): HandType
  {
    if kinds >= 5 then HighCard
    else if kinds == 4 then Pair
    else if kinds == 3 then (if largest <= 2 then TwoPair else ThreeOfAKind)
    else if kinds == 2 then (if largest <= 3 then FullHouse else FourOfAKind)
    else FiveOfAKind
  }

  /** Fewer kinds, or as many kinds and a larger count, is never weaker. */
  lemma ShapeMonotone(k1: nat, m1: nat, k2: nat, m2: nat)
    requires k2 <= k1 && (k2 == k1 ==> m1 <= m2)
    ensures Strength(FromShape(k1, m1)) <= Strength(FromShape(k2, m2))
  {
  }

  predicate Decided(p: seq<nat>)
  {
    TypeOf(p) == Some(FromShape(|p|, Largest(p)))
  }

  lemma ProfileOfTwo(a: nat, b: nat)
    requires a >= 1 && b >= 1 && a + b == 5
    ensures Decided([a, b])
  {
    var p := [a, b];
    assert p[1..] == [b] && p[1..][1..] == [];
    forall k: nat ensures Count(p, k) == (if a == k then 1 else 0) + (if b == k then 1 else 0) {
      assert Count([b], k) == (if b == k then 1 else 0);
    }
    var m := Largest(p);
    LargestIsMax(p);
    assert (m == a || m == b) && a <= m && b <= m;
  }

  lemma ProfileOfThree(a: nat, b: nat, c: nat)
    requires a >= 1 && b >= 1 && c >= 1 && a + b + c == 5
    ensures Decided([a, b, c])
  {
    var p := [a, b, c];
    assert p[1..] == [b, c] && p[1..][1..] == [c] && p[1..][1..][1..] == [];
    forall k: nat ensures Count(p, k) == (if a == k then 1 else 0) + (if b == k then 1 else 0) + (if c == k then 1 else 0) {
      assert Count([c], k) == (if c == k then 1 else 0);
      assert Count([b, c], k) == (if b == k then 1 else 0) + Count([c], k);
    }
    var m := Largest(p);
    LargestIsMax(p);
    assert (m == a || m == b || m == c) && a <= m && b <= m && c <= m;
    if a == 3 || b == 3 || c == 3 {
      assert m == 3;
    } else {
      assert m == 2;
    }
  }

  lemma ProfileOfFour(a: nat, b: nat, c: nat, d: nat)
    requires a >= 1 && b >= 1 && c >= 1 && d >= 1 && a + b + c + d == 5
    ensures Decided([a, b, c, d])
  {
    var p := [a, b, c, d];
    assert p[1..] == [b, c, d] && p[1..][1..] == [c, d] && p[1..][1..][1..] == [d] && p[1..][1..][1..][1..] == [];
    forall k: nat ensures Count(p, k) == (if a == k then 1 else 0) + (if b == k then 1 else 0) + (if c == k then 1 else 0) + (if d == k then 1 else 0) {
      assert Count([d], k) == (if d == k then 1 else 0);
      assert Count([c, d], k) == (if c == k then 1 else 0) + Count([d], k);
      assert Count([b, c, d], k) == (if b == k then 1 else 0) + Count([c, d], k);
    }
  }

  lemma ProfileOfFive()
    ensures Decided([1, 1, 1, 1, 1])
  {
    var p: seq<nat> := [1, 1, 1, 1, 1];
    assert p[1..] == [1, 1, 1, 1] && p[1..][1..] == [1, 1, 1] && p[1..][1..][1..] == [1, 1] && p[1..][1..][1..][1..] == [1];
    assert Count([1], 1) == 1;
    assert Count([1, 1], 1) == 2;
    assert Count([1, 1, 1], 1) == 3;
    assert Count([1, 1, 1, 1], 1) == 4;
  }

  lemma {:induction false} TotalOfSmall(p: seq<nat>)
    requires |p| <= 5
    ensures |p| == 1 ==> Total(p) == p[0]
    ensures |p| == 2 ==> Total(p) == p[0] + p[1]
    ensures |p| == 3 ==> Total(p) == p[0] + p[1] + p[2]
    ensures |p| == 4 ==> Total(p) == p[0] + p[1] + p[2] + p[3]
    ensures |p| == 5 ==> Total(p) == p[0] + p[1] + p[2] + p[3] + p[4]
  {
    if |p| > 0 {
      TotalOfSmall(p[1..]);
    }
  }

  lemma DecidedTwo(p: seq<nat>)
    requires |p| == 2 && p[0] >= 1 && p[1] >= 1 && p[0] + p[1] == 5
    ensures Decided(p)
  {
    assert p == [p[0], p[1]];
    ProfileOfTwo(p[0], p[1]);
  }

  lemma DecidedThree(p: seq<nat>)
    requires |p| == 3 && p[0] >= 1 && p[1] >= 1 && p[2] >= 1 && p[0] + p[1] + p[2] == 5
    ensures Decided(p)
  {
    assert p == [p[0], p[1], p[2]];
    ProfileOfThree(p[0], p[1], p[2]);
  }

  lemma DecidedFour(p: seq<nat>)
    requires |p| == 4 && p[0] >= 1 && p[1] >= 1 && p[2] >= 1 && p[3] >= 1 && p[0] + p[1] + p[2] + p[3] == 5
    ensures Decided(p)
  {
    assert p == [p[0], p[1], p[2], p[3]];
    ProfileOfFour(p[0], p[1], p[2], p[3]);
  }

  lemma DecidedFive(p: seq<nat>)
    requires |p| == 5 && p[0] >= 1 && p[1] >= 1 && p[2] >= 1 && p[3] >= 1 && p[4] >= 1
    requires p[0] + p[1] + p[2] + p[3] + p[4] == 5
    ensures Decided(p)
  {
    assert p == [1, 1, 1, 1, 1];
    ProfileOfFive();
  }

  lemma DecidedOne(p: seq<nat>)
    requires |p| == 1 && p[0] == 5
    ensures Decided(p)
  {
    assert p == [5];
    assert Count([5], 5) == 1;
  }

  /** Every five-card profile matches exactly one pattern, the one its kinds
      and largest count name. */
  lemma ShapeDecidesType(p: seq<nat>)
    requires forall i :: 0 <= i < |p| ==> p[i] >= 1
    requires Total(p) == 5
    ensures Decided(p)
  {
    TotalAtLeastLength(p);
    TotalOfSmall(p);
    var n := |p|;
    if n == 1 {
      DecidedOne(p);
    } else if n == 2 {
      DecidedTwo(p);
    } else if n == 3 {
      DecidedThree(p);
    } else if n == 4 {
      DecidedFour(p);
    } else if n == 5 {
      DecidedFive(p);
    }
  }

  lemma {:induction false} TotalAtLeastLength(p: seq<nat>)
    requires forall i :: 0 <= i < |p| ==> p[i] >= 1
    ensures Total(p) >= |p|
  {
    if |p| > 0 {
      TotalAtLeastLength(p[1..]);
    }
  }

  /** `type_of` of a Counter holding five cards. */
  function TypeOfCounts(t: seq<nat>): (k: HandType)
    requires Total(t) == 5
    ensures k == FromShape(Kinds(t), Largest(t))
  {
    ProfileFacts(t);
    ShapeDecidesType(Profile(t));
    TypeOf(Profile(t)).value
  }

  /** part_1's type of a hand: `type_of(Counter(hand))`. */
  function TypeOfHand(h: string): HandType
    requires forall i :: 0 <= i < |h| ==> IsCard(h[i])
    requires |h| == 5
  {
    TypeOfCounts(Tally(h))
  }

  // ---------------------------------------------------------------------------
  // Jokers

  /** `str.replace(a, b)` on single characters. */
  function Replace(h: string, a: char, b: char): (r: string)
    ensures |r| == |h|
    ensures forall i :: 0 <= i < |h| ==> r[i] == (if h[i] == a then b else h[i])
  {
    if |h| == 0 then [] else [if h[0] == a then b else h[0]] + Replace(h[1..], a, b)
  }

  /** Replacing a by b moves a's count onto b. */
  lemma {:induction false} CountReplace(h: string, a: char, b: char, z: char)
    requires a != b
    ensures Count(Replace(h, a, b), z) ==
      (if z == b then Count(h, b) + Count(h, a) else if z == a then 0 else Count(h, z))
  {
    if |h| > 0 {
      CountReplace(h[1..], a, b, z);
      assert Replace(h, a, b)[1..] == Replace(h[1..], a, b);
    }
  }

  /** The last index holding the largest count: `max((n, card))` breaks ties
      in count by the higher card, and AllCards is in order of value. */
  function Best(t: seq<nat>): (b: nat)
    requires |t| > 0
    ensures b < |t| && t[b] == Largest(t)
    ensures forall i :: b < i < |t| ==> t[i] < t[b]
  {
    LargestIsMax(t);
    LastAt(t, Largest(t), |t|)
  }

  function LastAt(t: seq<nat>, m: nat, k: nat): (b: nat)
    requires k <= |t|
    requires exists i :: 0 <= i < k && t[i] == m
    ensures b < k && t[b] == m
    ensures forall i :: b < i < k ==> t[i] != m
  {
    if t[k - 1] == m then k - 1 else LastAt(t, m, k - 1)
  }

  lemma {:induction false} LargestZero(t: seq<nat>)
    requires Largest(t) == 0
    ensures Total(t) == 0
  {
    if |t| > 0 {
      LargestZero(t[1..]);
    }
  }

  const JokerIndex: nat := 10
  const OneIndex: nat := 0

  /** The jokers' count (at '1') is removed and added to the best remaining
      card: its kinds stay, its largest count grows by the jokers. */
  function JokerCounts(t: seq<nat>): (u: seq<nat>)
    requires |t| == |AllCards| && Total(t) == 5 && t[OneIndex] < 5
    ensures |u| == |AllCards| && Total(u) == 5 && u[OneIndex] == 0
    ensures Kinds(u) == Kinds(t[OneIndex := 0])
    ensures Largest(u) == Largest(t[OneIndex := 0]) + t[OneIndex]
  {
    var n := t[OneIndex];
    var t0 := t[OneIndex := 0];
    UpdateFacts(t, OneIndex, 0);
    var b := Best(t0);
    assert t0[b] > 0 by {
      if t0[b] == 0 {
        LargestZero(t0);
      }
    }
    UpdateFacts(t0, b, t0[b] + n);
    t0[b := t0[b] + n]
  }

  /** `parse_with_jokers`' type: J becomes '1'; five jokers are five of a
      kind; otherwise the jokers join the best remaining card. */
  function JokerType(h: string): HandType
    requires ValidHand(h)
  {
    JokerTypeOfCounts(Tally(Replace(h, 'J', '1')))
  }

  /** The same on the Counter of the rewritten hand. */
  function JokerTypeOfCounts(j: seq<nat>): (k: HandType)
    requires |j| == |AllCards| && Total(j) == 5
    ensures var j0 := j[OneIndex := 0];
      k == if j[OneIndex] == 5 then FiveOfAKind else FromShape(Kinds(j0), Largest(j0) + j[OneIndex])
  {
    if j[OneIndex] == 5 then FiveOfAKind else TypeOfCounts(JokerCounts(j))
  }

  /** The counts with the jokers taken out. */
  function WithoutJokers(t: seq<nat>): seq<nat>
    requires JokerIndex < |t|
  {
    t[JokerIndex := 0]
  }

  /** The counts with every joker counted as the card at index c instead. */
  function PlayedAs(t: seq<nat>, c: nat): seq<nat>
    requires JokerIndex < |t| && c < |t|
  {
    WithoutJokers(t)[c := WithoutJokers(t)[c] + t[JokerIndex]]
  }

  /** The counts of a valid hand with every J played as card x. */
  lemma TallyReplace(h: string, x: char)
    requires ValidHand(h) && IsCard(x) && x != 'J'
    ensures Tally(Replace(h, 'J', x)) == PlayedAs(Tally(h), Index(x))
  {
    var t := Tally(h);
    var r := Tally(Replace(h, 'J', x));
    var e := PlayedAs(t, Index(x));
    TallyCounts(h, 'J');
    TallyCounts(h, x);
    forall i | 0 <= i < |AllCards| ensures r[i] == e[i] {
      CardAt(i);
      var c := AllCards[i];
      TallyCounts(Replace(h, 'J', x), c);
      TallyCounts(h, c);
      CountReplace(h, 'J', x, c);
      IndexInjective(x, c);
      IndexInjective('J', c);
    }
  }

  /** The jokers' counts seen from the hand itself: '1' holds the J count and
      the rest is the hand without its jokers. */
  lemma JokerTally(h: string)
    requires ValidHand(h)
    ensures var t := Tally(h); var j := Tally(Replace(h, 'J', '1'));
      j[OneIndex] == t[JokerIndex] && j[OneIndex := 0] == WithoutJokers(t)
      && Total(WithoutJokers(t)) == 5 - t[JokerIndex]
  {
    var t := Tally(h);
    TallyCounts(h, '1');
    CountZero(h, '1');
    TallyReplace(h, '1');
    UpdateFacts(t, JokerIndex, 0);
  }

  /** The joker type by the shape of the counts without jokers. */
  function JokerShape(t: seq<nat>): HandType
    requires JokerIndex < |t|
  {
    FromShape(Kinds(WithoutJokers(t)), Largest(WithoutJokers(t)) + t[JokerIndex])
  }

  function PlayedShape(t: seq<nat>, c: nat): HandType
    requires JokerIndex < |t| && c < |t|
  {
    FromShape(Kinds(PlayedAs(t, c)), Largest(PlayedAs(t, c)))
  }

  /** On counts: adding the jokers to a card with the largest count beats
      adding them to any card c. */
  lemma JokersOnLargest(t: seq<nat>, c: nat)
    requires JokerIndex < |t| && c < |t| && c != JokerIndex
    requires Total(WithoutJokers(t)) + t[JokerIndex] == 5 && t[JokerIndex] < 5
    ensures Strength(PlayedShape(t, c)) <= Strength(JokerShape(t))
  {
    var t0 := WithoutJokers(t);
    var n := t[JokerIndex];
    var ux := PlayedAs(t, c);
    UpdateFacts(t0, c, t0[c] + n);
    if Largest(t0) == 0 {
      LargestZero(t0);
    }
    LargestIsMax(t0);
    ShapeMonotone(Kinds(ux), Largest(ux), Kinds(t0), Largest(t0) + n);
  }

  /** The joker type by shape: the hand's kinds without jokers, and its
      largest count without jokers plus the jokers. */
  lemma JokerTypeShape(h: string)
    requires ValidHand(h) && Tally(h)[JokerIndex] < 5
    ensures JokerType(h) == JokerShape(Tally(h))
  {
    JokerTally(h);
  }

  /** The type of the hand with every J played as card x, by shape. */
  lemma ReplaceShape(h: string, x: char)
    requires ValidHand(h) && IsCard(x) && x != 'J'
    ensures TypeOfHand(Replace(h, 'J', x)) == PlayedShape(Tally(h), Index(x))
  {
    TallyReplace(h, x);
  }

  lemma AllJokersFive(h: string)
    requires ValidHand(h) && Tally(h)[JokerIndex] >= 5
    ensures JokerType(h) == FiveOfAKind
  {
    JokerTally(h);
  }

  lemma JokersPlayBestFew(h: string, x: char)
    requires ValidHand(h) && IsCard(x) && x != 'J' && x != '1'
    requires Tally(h)[JokerIndex] < 5
    ensures Strength(TypeOfHand(Replace(h, 'J', x))) <= Strength(JokerType(h))
  {
    ReplaceShape(h, x);
    JokerTally(h);
    JokerTypeShape(h);
    IndexInjective(x, 'J');
    JokersOnLargest(Tally(h), Index(x));
  }

  /** The joker rule gives the strongest type any single card played for all
      the jokers could give. */
  lemma JokersPlayBest(h: string, x: char)
    requires ValidHand(h) && IsCard(x) && x != 'J' && x != '1'
    ensures Strength(TypeOfHand(Replace(h, 'J', x))) <= Strength(JokerType(h))
  {
    if Tally(h)[JokerIndex] < 5 {
      JokersPlayBestFew(h, x);
    } else {
      AllJokersFive(h);
    }
  }

  lemma TotalZero(t: seq<nat>)
    requires Total(t) == 0
    ensures Kinds(t) == 0 && Largest(t) == 0
  {
    if |t| > 0 {
      TotalZero(t[1..]);
    }
  }

  /** Adding the jokers to Best keeps the kinds and raises the largest count. */
  lemma BestTarget(t: seq<nat>)
    requires JokerIndex < |t| && Total(WithoutJokers(t)) > 0
    ensures var b := Best(WithoutJokers(t));
      WithoutJokers(t)[b] > 0 && PlayedShape(t, b) == JokerShape(t)
  {
    var t0 := WithoutJokers(t);
    var n := t[JokerIndex];
    var b := Best(t0);
    if t0[b] == 0 {
      LargestZero(t0);
    }
    UpdateFacts(t0, b, t0[b] + n);
    assert Kinds(PlayedAs(t, b)) == Kinds(t0);
    assert Largest(PlayedAs(t, b)) == Largest(t0) + n;
  }

  lemma BestCard(h: string) returns (x: char)
    requires ValidHand(h) && Tally(h)[JokerIndex] < 5
    ensures IsCard(x) && x != 'J' && x != '1' && TypeOfHand(Replace(h, 'J', x)) == JokerType(h)
  {
    var t := Tally(h);
    JokerTally(h);
    var b := Best(WithoutJokers(t));
    BestTarget(t);
    x := AllCards[b];
    CardAt(b);
    assert b != JokerIndex;
    assert b != OneIndex by {
      TallyCounts(h, '1');
      CountZero(h, '1');
    }
    ReplaceShape(h, x);
    JokerTypeShape(h);
    assert Index('J') == JokerIndex && Index('1') == OneIndex;
  }

  lemma AllJokers(h: string)
    requires ValidHand(h) && Tally(h)[JokerIndex] >= 5
    ensures TypeOfHand(Replace(h, 'J', 'A')) == JokerType(h)
  {
    JokerTally(h);
    ReplaceShape(h, 'A');
    OnlyJokersShape(Tally(h), Index('A'));
    AllJokersFive(h);
  }

  lemma OnlyJokersShape(t: seq<nat>, c: nat)
    requires JokerIndex < |t| && c < |t| && c != JokerIndex
    requires Total(WithoutJokers(t)) == 0 && t[JokerIndex] > 0
    ensures PlayedShape(t, c) == FiveOfAKind
  {
    var t0 := WithoutJokers(t);
    TotalZero(t0);
    LargestIsMax(t0);
    UpdateFacts(t0, c, t0[c] + t[JokerIndex]);
  }

  /** ... and some card does as well: the joker type is the maximum. */
  lemma JokersAttained(h: string)
    requires ValidHand(h)
    ensures exists x :: IsCard(x) && x != 'J' && x != '1' && TypeOfHand(Replace(h, 'J', x)) == JokerType(h)
  {
    if Tally(h)[JokerIndex] < 5 {
      var x := BestCard(h);
    } else {
      AllJokers(h);
    }
  }

  // ---------------------------------------------------------------------------
  // Ranking

  /** A parsed play: its cards (jokers already rewritten to '1'), type and bet. */
  datatype Play = Play(cards: string, kind: HandType, bet: nat)

  predicate ValidPlay(p: Play)
  {
    |p.cards| == 5 && forall i :: 0 <= i < 5 ==> IsCard(p.cards[i])
  }

  function Parse(hand: string, bet: nat): (p: Play)
    requires ValidHand(hand)
    ensures ValidPlay(p)
  {
    Play(hand, TypeOfHand(hand), bet)
  }

  function ParseWithJokers(hand: string, bet: nat): (p: Play)
    requires ValidHand(hand)
    ensures ValidPlay(p)
  {
    Play(Replace(hand, 'J', '1'), JokerType(hand), bet)
  }

  function Values(cards: string): (v: seq<int>)
    requires forall i :: 0 <= i < |cards| ==> IsCard(cards[i])
    ensures |v| == |cards| && forall i :: 0 <= i < |v| ==> v[i] == CardValue(cards[i])
  {
    if |cards| == 0 then [] else [CardValue(cards[0])] + Values(cards[1..])
  }

  /** The tuple Python compares: type, the five cards, then the bet. */
  function Key(p: Play): (k: seq<int>)
    requires ValidPlay(p)
    ensures |k| == 7
  {
    [Strength(p.kind)] + Values(p.cards) + [p.bet]
  }

  lemma KeyInjective(p: Play, q: Play)
    requires ValidPlay(p) && ValidPlay(q)
    requires Key(p) == Key(q)
    ensures p == q
  {
    StrengthInjective(p.kind, q.kind);
    assert Key(p)[0] == Strength(p.kind);
    forall i | 0 <= i < 5 ensures p.cards[i] == q.cards[i] {
      assert Key(p)[i + 1] == CardValue(p.cards[i]);
      assert Key(q)[i + 1] == CardValue(q.cards[i]);
    }
    assert Key(p)[6] == p.bet && Key(q)[6] == q.bet;
  }

  /** Lexicographic order on integer sequences. */
  predicate LexLess(a: seq<int>, b: seq<int>)
  {
    |a| > 0 && |b| > 0 && (a[0] < b[0] || (a[0] == b[0] && LexLess(a[1..], b[1..])))
  }

  lemma {:induction false} LexIrreflexive(a: seq<int>)
    ensures !LexLess(a, a)
  {
    if |a| > 0 {
      LexIrreflexive(a[1..]);
    }
  }

  lemma {:induction false} LexTransitive(a: seq<int>, b: seq<int>, c: seq<int>)
    requires LexLess(a, b) && LexLess(b, c)
    ensures LexLess(a, c)
  {
    if a[0] == b[0] && b[0] == c[0] {
      LexTransitive(a[1..], b[1..], c[1..]);
    }
  }

  lemma {:induction false} LexTotal(a: seq<int>, b: seq<int>)
    requires |a| == |b|
    ensures LexLess(a, b) || a == b || LexLess(b, a)
  {
    if |a| > 0 && a[0] == b[0] {
      LexTotal(a[1..], b[1..]);
      if a[1..] == b[1..] {
        assert a == [a[0]] + a[1..] && b == [b[0]] + b[1..];
      }
    }
  }

  predicate Before(p: Play, q: Play)
    requires ValidPlay(p) && ValidPlay(q)
  {
    Key(p) == Key(q) || LexLess(Key(p), Key(q))
  }

  lemma BeforeTransitive(p: Play, q: Play, r: Play)
    requires ValidPlay(p) && ValidPlay(q) && ValidPlay(r)
    requires Before(p, q) && Before(q, r)
    ensures Before(p, r)
  {
    if LexLess(Key(p), Key(q)) && LexLess(Key(q), Key(r)) {
      LexTransitive(Key(p), Key(q), Key(r));
    }
  }

  lemma BeforeTotal(p: Play, q: Play)
    requires ValidPlay(p) && ValidPlay(q)
    ensures Before(p, q) || Before(q, p)
  {
    LexTotal(Key(p), Key(q));
  }

  lemma BeforeAntisymmetric(p: Play, q: Play)
    requires ValidPlay(p) && ValidPlay(q)
    requires Before(p, q) && Before(q, p)
    ensures p == q
  {
    if Key(p) != Key(q) {
      LexTransitive(Key(p), Key(q), Key(p));
      LexIrreflexive(Key(p));
    }
    KeyInjective(p, q);
  }

  predicate AllValid(s: seq<Play>)
  {
    forall i :: 0 <= i < |s| ==> ValidPlay(s[i])
  }

  predicate Sorted(s: seq<Play>)
    requires AllValid(s)
  {
    forall i, j :: 0 <= i < j < |s| ==> Before(s[i], s[j])
  }

  /** A play that comes before every element of a sorted sequence can lead it. */
  lemma SortedCons(p: Play, s: seq<Play>)
    requires ValidPlay(p) && AllValid(s) && Sorted(s)
    requires forall j :: 0 <= j < |s| ==> Before(p, s[j])
    ensures AllValid([p] + s) && Sorted([p] + s)
  {
    var r := [p] + s;
    forall i, j | 0 <= i < j < |r| ensures Before(r[i], r[j]) {
      assert r[j] == s[j - 1];
      if i > 0 {
        assert r[i] == s[i - 1];
      }
    }
  }

  lemma HeadBeforeInserted(h: Play, p: Play, s: seq<Play>, rest: seq<Play>)
    requires ValidPlay(h) && ValidPlay(p) && AllValid(s) && Before(h, p)
    requires forall j :: 0 <= j < |s| ==> Before(h, s[j])
    requires multiset(rest) == multiset(s) + multiset{p}
    ensures forall j :: 0 <= j < |rest| ==> ValidPlay(rest[j]) && Before(h, rest[j])
  {
    forall j | 0 <= j < |rest| ensures ValidPlay(rest[j]) && Before(h, rest[j]) {
      assert rest[j] in multiset(rest);
      if rest[j] != p {
        assert rest[j] in multiset(s);
        var k :| 0 <= k < |s| && s[k] == rest[j];
      }
    }
  }

  lemma BeforeFirst(p: Play, s: seq<Play>)
    requires ValidPlay(p) && AllValid(s) && Sorted(s) && |s| > 0 && Before(p, s[0])
    ensures forall j :: 0 <= j < |s| ==> Before(p, s[j])
  {
    forall j | 0 < j < |s| ensures Before(p, s[j]) {
      BeforeTransitive(p, s[0], s[j]);
    }
  }

  function Insert(p: Play, s: seq<Play>): (r: seq<Play>)
    requires ValidPlay(p) && AllValid(s) && Sorted(s)
    ensures multiset(r) == multiset(s) + multiset{p}
    ensures AllValid(r) && Sorted(r)
  {
    if |s| == 0 then [p]
    else if Before(p, s[0]) then
      BeforeFirst(p, s);
      SortedCons(p, s);
      [p] + s
    else
      SortedTail(s);
      var rest := Insert(p, s[1..]);
      assert s == [s[0]] + s[1..];
      BeforeTotal(p, s[0]);
      HeadBeforeInserted(s[0], p, s[1..], rest);
      SortedCons(s[0], rest);
      [s[0]] + rest
  }

  /** `sorted`: ascending by Key. */
  function Sort(s: seq<Play>): (r: seq<Play>)
    requires AllValid(s)
    ensures multiset(r) == multiset(s)
    ensures AllValid(r) && Sorted(r)
  {
    if |s| == 0 then []
    else
      assert s == [s[0]] + s[1..];
      Insert(s[0], Sort(s[1..]))
  }

  /** The first element of a sorted sequence comes before anything in it. */
  lemma FirstBefore(s: seq<Play>, x: Play)
    requires AllValid(s) && Sorted(s) && x in s
    ensures Before(s[0], x)
  {
    var i :| 0 <= i < |s| && s[i] == x;
    if i == 0 {
      assert Key(x) == Key(x);
    }
  }

  lemma SameTails<T>(a: seq<T>, b: seq<T>)
    requires |a| > 0 && |b| > 0 && a[0] == b[0] && multiset(a) == multiset(b)
    ensures multiset(a[1..]) == multiset(b[1..])
  {
    assert a == [a[0]] + a[1..] && b == [b[0]] + b[1..];
    calc {
      multiset(a[1..]);
      multiset(a) - multiset{a[0]};
      multiset(b) - multiset{b[0]};
      multiset(b[1..]);
    }
  }

  /** Two sorted arrangements of the same plays are the same sequence: the
      key decides every comparison. */
  lemma {:induction false} SortedUnique(a: seq<Play>, b: seq<Play>)
    requires AllValid(a) && AllValid(b) && Sorted(a) && Sorted(b)
    requires multiset(a) == multiset(b)
    ensures a == b
  {
    if |a| == 0 {
      assert |b| == |multiset(b)| == 0;
    } else {
      assert |b| == |multiset(b)| == |a|;
      assert a[0] in multiset(b) && b[0] in multiset(a);
      FirstBefore(a, b[0]);
      FirstBefore(b, a[0]);
      BeforeAntisymmetric(a[0], b[0]);
      SameTails(a, b);
      SortedTail(a);
      SortedTail(b);
      SortedUnique(a[1..], b[1..]);
      assert a == [a[0]] + a[1..] && b == [b[0]] + b[1..];
    }
  }

  lemma SortedTail(s: seq<Play>)
    requires |s| > 0 && AllValid(s) && Sorted(s)
    ensures AllValid(s[1..]) && Sorted(s[1..])
  {
    forall i, j | 0 <= i < j < |s| - 1 ensures Before(s[1..][i], s[1..][j]) {
      assert s[1..][i] == s[i + 1] && s[1..][j] == s[j + 1];
    }
  }

  /** Sum of rank times bet, ranks counting up from `rank`. */
  function WinningsFrom(s: seq<Play>, rank: int): int
  {
    if |s| == 0 then 0 else rank * s[0].bet + WinningsFrom(s[1..], rank + 1)
  }

  /** `s` holds the plays, weakest first. */
  predicate Ranking(s: seq<Play>, plays: seq<Play>)
  {
    AllValid(s) && Sorted(s) && multiset(s) == multiset(plays)
  }

  /** Every arrangement of the plays weakest first is the sorted one. */
  lemma RankingIsSort(plays: seq<Play>)
    requires AllValid(plays)
    ensures forall s :: Ranking(s, plays) ==> s == Sort(plays)
  {
    forall s | Ranking(s, plays) ensures s == Sort(plays) {
      SortedUnique(s, Sort(plays));
    }
  }

  /** The total winnings: each play's bet times its rank in any arrangement
      of the plays weakest first. */
  function Winnings(plays: seq<Play>): (r: int)
    requires AllValid(plays)
    ensures forall s :: Ranking(s, plays) ==> r == WinningsFrom(s, 1)
  {
    RankingIsSort(plays);
    WinningsFrom(Sort(plays), 1)
  }

  /** The total depends only on which plays there are, not their input order. */
  lemma WinningsIgnoreOrder(a: seq<Play>, b: seq<Play>)
    requires AllValid(a) && AllValid(b)
    requires multiset(a) == multiset(b)
    ensures Winnings(a) == Winnings(b)
  {
    SortedUnique(Sort(a), Sort(b));
  }

  /** A better play is ranked higher: in the sorted order every play with a
      smaller key comes first. */
  lemma SortRanksByKey(plays: seq<Play>, i: nat, j: nat)
    requires AllValid(plays)
    requires i < |Sort(plays)| && j < |Sort(plays)|
    requires LexLess(Key(Sort(plays)[i]), Key(Sort(plays)[j]))
    ensures i < j
  {
    var s := Sort(plays);
    if j < i {
      assert Before(s[j], s[i]);
      LexIrreflexive(Key(s[i]));
      if LexLess(Key(s[j]), Key(s[i])) {
        LexTransitive(Key(s[i]), Key(s[j]), Key(s[i]));
      }
    } else if i == j {
      LexIrreflexive(Key(s[i]));
    }
  }

  /** The plays of the lines, read with or without jokers. */
  function Plays(lines: seq<(string, nat)>, jokers: bool): (r: seq<Play>)
    requires forall i :: 0 <= i < |lines| ==> ValidHand(lines[i].0)
    ensures |r| == |lines| && AllValid(r)
    ensures forall i :: 0 <= i < |lines| ==>
      r[i] == if jokers then ParseWithJokers(lines[i].0, lines[i].1) else Parse(lines[i].0, lines[i].1)
  {
    seq(|lines|, i requires 0 <= i < |lines| =>
      if jokers then ParseWithJokers(lines[i].0, lines[i].1) else Parse(lines[i].0, lines[i].1))
  }

  /** `part_1`: the winnings of the parsed hands, each bet times its rank
      among the plays arranged weakest first. */
  function Part1(lines: seq<(string, nat)>): (r: int)
    requires forall i :: 0 <= i < |lines| ==> ValidHand(lines[i].0)
    ensures forall s :: Ranking(s, Plays(lines, false)) ==> r == WinningsFrom(s, 1)
  {
    Winnings(Plays(lines, false))
  }

  /** `part_2`: the same with every 'J' a joker. */
  function Part2(lines: seq<(string, nat)>): (r: int)
    requires forall i :: 0 <= i < |lines| ==> ValidHand(lines[i].0)
    ensures forall s :: Ranking(s, Plays(lines, true)) ==> r == WinningsFrom(s, 1)
  {
    Winnings(Plays(lines, true))
  }
}
