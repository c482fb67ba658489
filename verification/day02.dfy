/** Day 2: games of coloured cubes drawn from a bag; which games a given bag
    allows, and the smallest bag each game needs. */
module Day02 {
  import opened Common

  datatype Colour = Red | Green | Blue

  /** One `{:n} {:colour}` match: a count and the colour it names. */
  datatype Draw = Draw(count: int, colour: Colour)

  /** `CubeSubset`: the cubes of one handful; colours not drawn are 0. */
  datatype Subset = Subset(blue: int, red: int, green: int)

  function Amount(s: Subset, c: Colour): int
  {
    match c
    case Red => s.red
    case Green => s.green
    case Blue => s.blue
  }

  /** `setattr(self, colour, count)` for one match. */
  function Set(s: Subset, d: Draw): Subset
  {
    match d.colour
    case Red => s.(red := d.count)
    case Green => s.(green := d.count)
    case Blue => s.(blue := d.count)
  }

  /** `CubeSubset.__init__` over the matches in order: every colour starts
      at 0 and a later match for a colour replaces an earlier one. */
  function SubsetOf(draws: seq<Draw>): Subset
  {
    if |draws| == 0 then Subset(0, 0, 0) else Set(SubsetOf(draws[..|draws| - 1]), draws[|draws| - 1])
  }

  /** Match `k` is the last one for colour `c`. */
  predicate LastOf(draws: seq<Draw>, k: int, c: Colour)
    requires 0 <= k < |draws|
  {
    draws[k].colour == c && forall l :: k < l < |draws| ==> draws[l].colour != c
  }

  /** A colour no match names stays 0. */
  lemma {:induction false} SubsetOfUnnamed(draws: seq<Draw>, c: Colour)
    requires forall k :: 0 <= k < |draws| ==> draws[k].colour != c
    ensures Amount(SubsetOf(draws), c) == 0
  {
    if |draws| > 0 {
      SubsetOfUnnamed(draws[..|draws| - 1], c);
    }
  }

  /** A colour holds the count of its last match. */
  lemma {:induction false} SubsetOfLast(draws: seq<Draw>, c: Colour, k: nat)
    requires k < |draws| && LastOf(draws, k, c)
    ensures Amount(SubsetOf(draws), c) == draws[k].count
  {
    if k < |draws| - 1 {
      var front := draws[..|draws| - 1];
      assert LastOf(front, k, c);
      SubsetOfLast(front, c, k);
    }
  }

  /** The docstring's example: "3 blue, 4 red". */
  lemma SubsetExample()
    ensures SubsetOf([Draw(3, Blue), Draw(4, Red)]) == Subset(3, 4, 0)
  {
    assert [Draw(3, Blue), Draw(4, Red)][..1] == [Draw(3, Blue)];
  }

  // ---------------------------------------------------------------------
  // Splitting a game at ';'

  /** Where the first separator is. */
  function FirstIndex(s: string, sep: char): (i: nat)
    requires sep in s
    ensures i < |s| && s[i] == sep
    ensures forall k :: 0 <= k < i ==> s[k] != sep
  {
    if s[0] == sep then 0
    else
      var i := FirstIndex(s[1..], sep);
      assert forall k :: 1 <= k <= i ==> s[k] == s[1..][k - 1];
      i + 1
  }

  /** `str.split(sep)`: the pieces between the separators, at least one. */
  function Split(s: string, sep: char): (r: seq<string>)
    ensures |r| >= 1
    ensures forall k :: 0 <= k < |r| ==> sep !in r[k]
    decreases |s|
  {
    if sep !in s then [s]
    else
      var i := FirstIndex(s, sep);
      [s[..i]] + Split(s[i + 1..], sep)
  }

  /** `sep.join(pieces)`. */
  function Join(pieces: seq<string>, sep: char): string
    requires |pieces| >= 1
  {
    if |pieces| == 1 then pieces[0] else pieces[0] + [sep] + Join(pieces[1..], sep)
  }

  /** Joining the pieces again gives back the text. */
  lemma {:induction false} JoinSplit(s: string, sep: char)
    ensures Join(Split(s, sep), sep) == s
    decreases |s|
  {
    if sep in s {
      var i := FirstIndex(s, sep);
      var rest := Split(s[i + 1..], sep);
      JoinSplit(s[i + 1..], sep);
      assert Split(s, sep)[1..] == rest;
      assert s == s[..i] + [sep] + s[i + 1..];
    }
  }

  /** A piece without separators, then a separator, splits off first. */
  lemma SplitCons(p: string, t: string, sep: char)
    requires sep !in p
    ensures Split(p + [sep] + t, sep) == [p] + Split(t, sep)
  {
    var s := p + [sep] + t;
    assert s[|p|] == sep;
    assert forall k :: 0 <= k < |p| ==> s[k] == p[k];
    assert FirstIndex(s, sep) == |p|;
    assert s[..|p|] == p;
    assert s[|p| + 1..] == t;
  }

  /** Pieces without separators split back into themselves. */
  lemma {:induction false} SplitJoin(pieces: seq<string>, sep: char)
    requires |pieces| >= 1 && forall k :: 0 <= k < |pieces| ==> sep !in pieces[k]
    ensures Split(Join(pieces, sep), sep) == pieces
  {
    if |pieces| > 1 {
      var tail := pieces[1..];
      SplitJoin(tail, sep);
      SplitCons(pieces[0], Join(tail, sep), sep);
      assert pieces == [pieces[0]] + tail;
    }
  }

  // ---------------------------------------------------------------------
  // The games

  /** `dict(pairs)`: each key once, in the order it first appears, with the
      value of its last pair. */
  function Dict<V>(pairs: seq<(int, V)>): seq<(int, V)>
  {
    if |pairs| == 0 then []
    else
      var d := Dict(pairs[..|pairs| - 1]);
      var p := pairs[|pairs| - 1];
      var i := KeyIndex(d, p.0);
      if i < |d| then d[i := p] else d + [p]
  }

  /** No key appears twice. */
  lemma {:induction false} DictKeysDistinct<V>(pairs: seq<(int, V)>)
    ensures forall i, j :: 0 <= i < j < |Dict(pairs)| ==> Dict(pairs)[i].0 != Dict(pairs)[j].0
  {
    if |pairs| > 0 {
      DictKeysDistinct(pairs[..|pairs| - 1]);
    }
  }

  /** Every entry is one of the pairs. */
  lemma {:induction false} DictFromPairs<V>(pairs: seq<(int, V)>)
    ensures forall k :: 0 <= k < |Dict(pairs)| ==> Dict(pairs)[k] in pairs
  {
    if |pairs| > 0 {
      var front := pairs[..|pairs| - 1];
      DictFromPairs(front);
      assert forall e :: e in front ==> e in pairs;
    }
  }

  /** The last pair for each key is an entry. */
  lemma {:induction false} DictKeepsLast<V>(pairs: seq<(int, V)>, i: nat)
    requires i < |pairs| && forall j :: i < j < |pairs| ==> pairs[j].0 != pairs[i].0
    ensures pairs[i] in Dict(pairs)
  {
    var front := pairs[..|pairs| - 1];
    var d := Dict(front);
    var p := pairs[|pairs| - 1];
    var x := KeyIndex(d, p.0);
    if i < |pairs| - 1 {
      assert front[i] == pairs[i];
      DictKeepsLast(front, i);
      var k :| 0 <= k < |d| && d[k] == pairs[i];
      if x < |d| {
        assert k != x;
        assert Dict(pairs)[k] == pairs[i];
      } else {
        assert Dict(pairs)[k] == pairs[i];
      }
    } else if x < |d| {
      assert Dict(pairs)[x] == p;
    } else {
      assert Dict(pairs)[|d|] == p;
    }
  }

  function KeyIndex<V>(d: seq<(int, V)>, key: int): (i: nat)
    ensures i <= |d|
    ensures i < |d| ==> d[i].0 == key
    ensures i == |d| ==> forall k :: 0 <= k < |d| ==> d[k].0 != key
  {
    if |d| == 0 then 0
    else if d[0].0 == key then 0
    else
      assert forall k :: 1 <= k < |d| ==> d[1..][k - 1] == d[k];
      1 + KeyIndex(d[1..], key)
  }

  /** `parse_games`: every line is a game id and the text after the colon;
      the game is the subsets the text splits into at ';', each read by
      `find`, the `{:n} {:colour}` scan. */
  function Games(lines: seq<(int, string)>, find: string -> seq<Draw>): (r: seq<(int, seq<Subset>)>)
    ensures forall k :: 0 <= k < |r| ==> |r[k].1| >= 1
  {
    var pairs := seq(|lines|, k requires 0 <= k < |lines| => (lines[k].0, Subsets(lines[k].1, find)));
    DictFromPairs(pairs);
    Dict(pairs)
  }

  function Subsets(text: string, find: string -> seq<Draw>): (r: seq<Subset>)
    ensures |r| == |Split(text, ';')| >= 1
    ensures forall k :: 0 <= k < |r| ==> r[k] == SubsetOf(find(Split(text, ';')[k]))
  {
    var pieces := Split(text, ';');
    seq(|pieces|, k requires 0 <= k < |pieces| => SubsetOf(find(pieces[k])))
  }

  // ---------------------------------------------------------------------
  // Part 1: the bag of 12 red, 13 green and 14 blue cubes

  const RedCubes := 12
  const GreenCubes := 13
  const BlueCubes := 14

  predicate Possible(game: seq<Subset>)
  {
    forall k :: 0 <= k < |game| ==> game[k].red <= RedCubes && game[k].green <= GreenCubes && game[k].blue <= BlueCubes
  }

  /** The most cubes of one colour any subset of the game shows. */
  function MaxOf(game: seq<Subset>, c: Colour): (m: int)
    requires |game| >= 1
    ensures forall k :: 0 <= k < |game| ==> Amount(game[k], c) <= m
    ensures exists k :: 0 <= k < |game| && Amount(game[k], c) == m
  {
    if |game| == 1 then Amount(game[0], c)
    else
      var m := MaxOf(game[1..], c);
      assert forall k :: 1 <= k < |game| ==> game[k] == game[1..][k - 1];
      if Amount(game[0], c) >= m then Amount(game[0], c) else m
  }

  /** A game is possible exactly when its largest subsets of each colour fit
      the bag. */
  lemma PossibleIffMaxima(game: seq<Subset>)
    requires |game| >= 1
    ensures Possible(game) <==> MaxOf(game, Red) <= RedCubes && MaxOf(game, Green) <= GreenCubes && MaxOf(game, Blue) <= BlueCubes
  {
    var r, g, b := MaxOf(game, Red), MaxOf(game, Green), MaxOf(game, Blue);
    if Possible(game) {
      var kr :| 0 <= kr < |game| && Amount(game[kr], Red) == r;
      var kg :| 0 <= kg < |game| && Amount(game[kg], Green) == g;
      var kb :| 0 <= kb < |game| && Amount(game[kb], Blue) == b;
    } else {
      var k :| 0 <= k < |game| && !(game[k].red <= RedCubes && game[k].green <= GreenCubes && game[k].blue <= BlueCubes);
      assert Amount(game[k], Red) <= r && Amount(game[k], Green) <= g && Amount(game[k], Blue) <= b;
    }
  }

  /** The largest count of each colour fits the bag. */
  predicate FitsBag(game: seq<Subset>)
    requires |game| >= 1
  {
    MaxOf(game, Red) <= RedCubes && MaxOf(game, Green) <= GreenCubes && MaxOf(game, Blue) <= BlueCubes
  }

  /** Each game's id where its largest counts fit the bag, and 0 elsewhere. */
  function FittingIds(games: seq<(int, seq<Subset>)>): (r: seq<int>)
    requires forall k :: 0 <= k < |games| ==> |games[k].1| >= 1
    ensures |r| == |games|
    ensures forall k :: 0 <= k < |games| ==> r[k] == if FitsBag(games[k].1) then games[k].0 else 0
  {
    seq(|games|, k requires 0 <= k < |games| => if FitsBag(games[k].1) then games[k].0 else 0)
  }

  /** The sum of the ids of the possible games: the ids of the games whose
      largest red, green and blue counts fit the bag. */
  function PossibleIds(games: seq<(int, seq<Subset>)>): (r: int)
    requires forall k :: 0 <= k < |games| ==> |games[k].1| >= 1
    ensures r == Sum(FittingIds(games))
  {
    if |games| == 0 then 0
    else
      var front, last := games[..|games| - 1], games[|games| - 1];
      PossibleIffMaxima(last.1);
      FittingIdsSnoc(games);
      PossibleIds(front) + (if Possible(last.1) then last.0 else 0)
  }

  lemma FittingIdsSnoc(games: seq<(int, seq<Subset>)>)
    requires |games| > 0 && forall k :: 0 <= k < |games| ==> |games[k].1| >= 1
    ensures var last := games[|games| - 1];
      Sum(FittingIds(games)) == Sum(FittingIds(games[..|games| - 1])) + (if FitsBag(last.1) then last.0 else 0)
  {
    var ids := FittingIds(games);
    var n := |games| - 1;
    assert ids == FittingIds(games[..n]) + [ids[n]];
    SumAppend(FittingIds(games[..n]), [ids[n]]);
  }

  /** `part_1`: the sum of the ids of the games of the dictionary whose
      largest counts fit 12 red, 13 green and 14 blue cubes. */
  function Part1(lines: seq<(int, string)>, find: string -> seq<Draw>): (r: int)
    ensures r == Sum(FittingIds(Games(lines, find)))
  {
    PossibleIds(Games(lines, find))
  }

  // ---------------------------------------------------------------------
  // Part 2: the fewest cubes that make a game possible

  /** `minimum_power`: the product of the per-colour maxima. */
  function Power(game: seq<Subset>): int
    requires |game| >= 1
  {
    MaxOf(game, Red) * MaxOf(game, Green) * MaxOf(game, Blue)
  }

  lemma MulMonotone(a: int, b: int, c: int, d: int)
    requires 0 <= a <= c && 0 <= b <= d
    ensures 0 <= a * b <= c * d
  {
    assert a * b <= c * b;
  }

  /** The maximum of counts that all lie between 0 and `bound` does too. */
  lemma MaxWithin(game: seq<Subset>, c: Colour, bound: int)
    requires |game| >= 1
    requires forall k :: 0 <= k < |game| ==> 0 <= Amount(game[k], c) <= bound
    ensures 0 <= MaxOf(game, c) <= bound
  {
    var k :| 0 <= k < |game| && Amount(game[k], c) == MaxOf(game, c);
  }

  /** The maxima make the smallest bag: any bag that holds every subset has
      at least as many cubes of each colour, so its power is no smaller. */
  lemma PowerIsMinimal(game: seq<Subset>, red: int, green: int, blue: int)
    requires |game| >= 1
    requires forall k :: 0 <= k < |game| ==> 0 <= game[k].red <= red && 0 <= game[k].green <= green && 0 <= game[k].blue <= blue
    ensures 0 <= MaxOf(game, Red) <= red && 0 <= MaxOf(game, Green) <= green && 0 <= MaxOf(game, Blue) <= blue
    ensures 0 <= Power(game) <= red * green * blue
  {
    MaxWithin(game, Red, red);
    MaxWithin(game, Green, green);
    MaxWithin(game, Blue, blue);
    var r, g, b := MaxOf(game, Red), MaxOf(game, Green), MaxOf(game, Blue);
    MulMonotone(r, g, red, green);
    MulMonotone(r * g, b, red * green, blue);
  }

  /** No subset of the game holds a negative count. */
  predicate NonNegative(game: seq<Subset>)
  {
    forall k :: 0 <= k < |game| ==> game[k].red >= 0 && game[k].green >= 0 && game[k].blue >= 0
  }

  /** The sum of the powers: with no negative count it is not negative, and
      when every game is possible it is at most 12 * 13 * 14 per game. */
  function Powers(games: seq<(int, seq<Subset>)>): (r: int)
    requires forall k :: 0 <= k < |games| ==> |games[k].1| >= 1
    ensures (forall k :: 0 <= k < |games| ==> NonNegative(games[k].1)) ==> r >= 0
    ensures (forall k :: 0 <= k < |games| ==> NonNegative(games[k].1) && Possible(games[k].1)) ==>
      r <= |games| * (RedCubes * GreenCubes * BlueCubes)
  {
    if |games| == 0 then 0
    else
      var last := games[|games| - 1].1;
      PowerBounds(last);
      Powers(games[..|games| - 1]) + Power(last)
  }

  lemma PowerBounds(game: seq<Subset>)
    requires |game| >= 1
    ensures NonNegative(game) ==> Power(game) >= 0
    ensures NonNegative(game) && Possible(game) ==> Power(game) <= RedCubes * GreenCubes * BlueCubes
  {
    if NonNegative(game) {
      PowerIsMinimal(game, MaxOf(game, Red), MaxOf(game, Green), MaxOf(game, Blue));
      if Possible(game) {
        PossiblePowerBound(game);
      }
    }
  }

  /** `part_2`: the sum of the powers of the games of the dictionary; not
      negative when no count is, and at most 12 * 13 * 14 per game when
      every game is possible. */
  function Part2(lines: seq<(int, string)>, find: string -> seq<Draw>): (r: int)
    ensures var games := Games(lines, find);
      (forall k :: 0 <= k < |games| ==> NonNegative(games[k].1)) ==> r >= 0
    ensures var games := Games(lines, find);
      (forall k :: 0 <= k < |games| ==> NonNegative(games[k].1) && Possible(games[k].1)) ==>
        r <= |games| * (RedCubes * GreenCubes * BlueCubes)
  {
    Powers(Games(lines, find))
  }

  /** A possible game has power at most 12 * 13 * 14, when no count is
      negative. */
  lemma PossiblePowerBound(game: seq<Subset>)
    requires |game| >= 1 && Possible(game)
    requires forall k :: 0 <= k < |game| ==> game[k].red >= 0 && game[k].green >= 0 && game[k].blue >= 0
    ensures 0 <= Power(game) <= RedCubes * GreenCubes * BlueCubes
  {
    PowerIsMinimal(game, RedCubes, GreenCubes, BlueCubes);
  }

  /** The first game of the example: 3 blue, 4 red; 1 red, 2 green, 6 blue;
      2 green. */
  function FirstGame(): seq<Subset>
  {
    [Subset(3, 4, 0), Subset(6, 1, 2), Subset(0, 0, 2)]
  }

  lemma FirstGameExample()
    ensures Possible(FirstGame())
    ensures Power(FirstGame()) == 48
  {
    var game := FirstGame();
    var r, g, b := MaxOf(game, Red), MaxOf(game, Green), MaxOf(game, Blue);
    assert r == 4 && g == 2 && b == 6;
    assert Power(game) == r * g * b;
  }
}
