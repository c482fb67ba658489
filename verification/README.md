# Advent of Code 2023 solvers, modelled in Dafny

This project models the puzzle solvers of one Advent of Code 2023 repository.
It covers day 1 to day 5 and day 7 to day 23. Each `day_NN.py` becomes one
Dafny module `DayNN` in `dayNN.dfy`. The shared arithmetic (sums, counts,
gcd and lcm, minima, rectangles of cells) lives in `Common`, in `common.dfy`.
The first example of day 20 is worked through pulse by pulse in its own
module `Day20Example`, in `day20_example.dfy`.

Each module follows the functions of its Python file:

- **Data.** The parsed puzzle input is a datatype. Examples are a card, a
  hand, a pipe map, a brick, a workflow, a pulse module or a trail graph.
- **Operations.** Each step of a solver is a function or method over that
  data: a parse, a walk, a tilt, a hash, a split, a search.
- **Properties.** Lemmas connect each operation to an independent reference
  definition or to an invariant, over all inputs. Examples:
  - the memoised arrangement counter of day 12 equals a count of fillings;
  - the interval mapping of day 5 maps exactly the values the point lookup maps;
  - Dijkstra's answer of day 17 is the least heat loss over all walks;
  - the longest hike of day 23 is the maximum over all simple paths.

The source's error paths are modelled as well:

- An `IndexError`, `KeyError` or `ValueError` the source raises on some input
  mostly becomes `None` or an error constructor. A few such inputs are
  excluded by a precondition, or read differently, instead. Each of these
  is named under "## Left out": unknown card letters on day 7, a seed list
  without seeds on day 5, ragged rows on days 3, 11, 13 and 16, and the
  1x1 grid on day 17.
- A loop that may never end takes a `fuel` bound and reports running out.

Reading and splitting the raw puzzle text, `aocd` and the doctest runner are
not modelled. Where a part function starts with `rawdata.splitlines()` or a
regular-expression parse, the model starts from the resulting lines or
records.

## Model

| member | source | states |
|---|---|---|
| Day01.Calibration | day_01.py:13-15 | a line has a calibration value exactly when it has a digit (otherwise indexing the empty digit list fails); the value is at most 99 |
| Day01.CalibrationDigits | day_01.py:13-15 | the value is ten times the first digit of the line plus its last digit |
| Day01.DigitsNone | day_01.py:14 | the digit list is empty exactly when no character of the line is a digit |
| Day01.DigitsAppend | day_01.py:14 | the digits of two joined texts are the digits of the first followed by those of the second |
| Day01.FirstDigitIsHead | day_01.py:14-15 | the first digit of the line is the head of the digit list |
| Day01.LastDigitIsTail | day_01.py:14-15 | the last digit of the line is the last entry of the digit list |
| Day01.LoneDigit | day_01.py:9-10 | "treb7uchet" calibrates to 77: one digit is both first and last |
| Day01.Total | day_01.py:17 | the sum of the calibration values fails exactly when some line fails |
| Day01.TotalBound | day_01.py:17 | a sum of values bounded by b over n lines lies between 0 and b*n |
| Day01.Part1 | day_01.py:3-17 | part 1 fails exactly when some line has no digit; otherwise it lies between 0 and 99 per line |
| Day01.ReplaceAbsent | day_01.py:36-44 | `str.replace` leaves text without an occurrence of the word unchanged |
| Day01.ReplaceFront | day_01.py:36-44 | an occurrence at the front is replaced and the scan resumes after it, without overlapping |
| Day01.Wrapped | day_01.py:36-44 | each replacement is the digit word, the digit, then the word again ("one1one") |
| Day01.ReplaceKeepsDigit | day_01.py:36-44 | replacing a word without digits never removes a digit of the line |
| Day01.ReplaceMakesDigit | day_01.py:36-44 | replacing an occurring word by text holding a digit leaves a digit in the line |
| Day01.RewriteFindsDigit | day_01.py:36-45 | after the replacement chain the line has a digit exactly when it had a digit or a digit word; a line without digit words is unchanged |
| Day01.Part2 | day_01.py:20-48 | part 2 fails exactly when some line has neither a digit nor a digit word; otherwise it lies between 0 and 99 per line |
| Day01.PlainLineSame | day_01.py:36-44 | a line spelling none of the digit words is left unchanged by the replacement chain |
| Day01.Calibration2 | day_01.py:33-46 | a line has a part 2 value exactly when it has a digit or a digit word; the value is at most 99, and a line without digit words calibrates as in part 1 |
| Day01.OverlappingWords | day_01.py:33-46 | "twone" has no value in part 1 and reads 21 in part 2: wrapping keeps the shared letter for both words |
| Day02.SubsetOfUnnamed | day_02.py:12-22 | a colour no draw names stays at its default of 0 |
| Day02.SubsetOfLast | day_02.py:21-22 | a colour named several times holds the count of its last draw (`setattr` overwrites) |
| Day02.SubsetExample | day_02.py:9-10 | "3 blue, 4 red" gives blue 3, red 4, green 0 |
| Day02.Split | day_02.py:27 | `split(";")` gives at least one piece and no piece holds a separator |
| Day02.JoinSplit | day_02.py:27 | joining the pieces with ";" gives back the text |
| Day02.SplitJoin | day_02.py:27 | pieces without separators, once joined, split back into the same pieces |
| Day02.DictKeysDistinct | day_02.py:29 | the games dictionary holds each id once |
| Day02.DictFromPairs | day_02.py:29 | every entry of the dictionary is one of the parsed games |
| Day02.DictKeepsLast | day_02.py:29 | for a repeated id, the last game parsed with that id is the one kept |
| Day02.Subsets | day_02.py:27 | a game holds one subset per ";"-piece of its text, each read from that piece |
| Day02.MaxOf | day_02.py:61 | the maximum bounds the colour in every subset and is attained in one of them |
| Day02.PossibleIffMaxima | day_02.py:44-45 | a game is possible exactly when its red, green and blue maxima are within 12, 13 and 14 |
| Day02.FittingIds | day_02.py:44-47 | each game contributes its id when its largest counts fit the bag, and 0 otherwise |
| Day02.PossibleIds | day_02.py:47 | the sum of the ids of exactly the games that fit the bag |
| Day02.Part1 | day_02.py:42-47 | part 1 sums the ids of the games of the dictionary that fit 12 red, 13 green and 14 blue |
| Day02.PowerIsMinimal | day_02.py:60-61 | any red, green and blue counts that cover every subset give at least the power, so the maxima form the smallest bag |
| Day02.PossiblePowerBound | day_02.py:44-61 | a possible game has power at most 12*13*14 |
| Day02.PowerBounds | day_02.py:60-61 | with no negative count the power is not negative, and a possible game has power at most 12*13*14 |
| Day02.Powers | day_02.py:63 | the sum of powers is not negative, and is at most 12*13*14 per game when every game is possible |
| Day02.Part2 | day_02.py:59-63 | part 2 is not negative, and at most 12*13*14 per game when every game of the dictionary is possible |
| Day02.FirstGameExample | day_02.py:35 | the first example game is possible and has power 48 |
| Day03.RunEnd | day_03.py:27 | the run of digits from a column ends at the first non-digit or the end of the line |
| Day03.Numbers | day_03.py:27 | `findall("{:d}")` yields tokens in left-to-right order that do not overlap |
| Day03.NumbersComplete | day_03.py:27 | every maximal run of digits in a line is found |
| Day03.SignIrrelevantForParts | day_03.py:30-37 | for part 1, counting the sign character in the span does not change which numbers are parts |
| Day03.HasSymbol | day_03.py:32-37 | the neighbourhood scan, which stops at the first symbol, answers exactly whether the number is a part |
| Day03.RowTotal | day_03.py:27-37 | the inner loop over one line adds exactly the numbers of that line that touch a symbol |
| Day03.PartTotal | day_03.py:24-38 | the total of the part numbers lies between 0 and the sum of all numbers |
| Day03.PartTotalExtremes | day_03.py:24-38 | without symbols the total is 0; when every number touches a symbol it is the sum of all numbers |
| Day03.Part1 | day_03.py:23-38 | part 1 is the sum of the part numbers over all rows; no lines gives no answer |
| Day03.RowCoveringExact | day_03.py:61-68 | a row contributes to a '*' exactly the numbers of that row whose neighbourhood holds the '*' |
| Day03.CoveringExact | day_03.py:60-68 | each '*' collects exactly the numbers, over all rows, whose neighbourhood holds it |
| Day03.GearNumbersAreParts | day_03.py:30-68 | every number a gear collects is a part number in the sense of part 1 |
| Day03.Gears | day_03.py:57-70 | a schematic without a '*' has no gear ratio to add |
| Day03.Part2AsWritten | day_03.py:56-70 | part 2 with the source's neighbourhood; no lines gives no answer |
| Day03.Part2 | day_03.py:56-70 | part 2 with the neighbourhood starting at the digits; no lines gives no answer |
| Day03.SignedNumbers | day_03.py:61-63 | in "2*-5" the tokens are "2" and "-5", and the span of "-5" includes the sign |
| Day03.AsWrittenReachesPastSign | day_03.py:63-65 | as written, "2*-5" gives a gear ratio of 10 (see Findings) |
| Day03.CorrectedIgnoresDistantNumber | day_03.py:63-65 | with the neighbourhood at the digits, "2*-5" has no gear |
| Day04.MatchesAreHits | day_04.py:19 | the match count is the number of selected numbers that are winning numbers |
| Day04.PointsDouble | day_04.py:35 | one match is worth 1 point and each further match doubles the points |
| Day04.TotalPoints | day_04.py:35 | the points are 0 exactly when no card has a match, and at least the number of matches |
| Day04.Part1 | day_04.py:22-35 | part 1 is 0 exactly when no card has a selected number among its winning numbers, and at least one point per match |
| Day04.Cascade | day_04.py:50-55 | the copy-adding loop ends with each card's count equal to the recursive definition of its copies |
| Day04.PendingGrows | day_04.py:51-55 | a card's count only grows while earlier cards are processed |
| Day04.Part2 | day_04.py:49-57 | part 2 is the sum of the copies of every card, and at least the number of cards |
| Day04.TotalAtLeastCards | day_04.py:57 | every original card is counted at least once |
| Day04.ExamplePoints | day_04.py:24-32 | the example's match counts give 13 points |
| Day04.ExampleCopies | day_04.py:39-47 | the example's cards end with 1, 2, 4, 8, 14 and 1 copies |
| Day04.ExampleCard | day_04.py:25 | the first example card has four matches |
| Day05.IntervalRange | day_05.py:10-11 | a value lies in `interval_range(start, size)` exactly when start <= x < start + size |
| Day05.ParseRule | day_05.py:24 | a rule line is accepted exactly when it holds three integers, read as destination, source and size |
| Day05.MapPointSpec | day_05.py:31-36 | a value no rule covers maps to itself; a covered value is shifted by the last rule covering it, because a later assignment to the interval dict wins |
| Day05.Inter | day_05.py:41 | the intersection holds exactly the values in both ranges |
| Day05.Minus | day_05.py:44 | the difference holds exactly the values of the first range outside the second |
| Day05.Shift | day_05.py:43 | shifting by k moves each value x of the range to x + k |
| Day05.MemMinusAll | day_05.py:44 | removing a range from a union keeps exactly the values outside it |
| Day05.MemInterAll | day_05.py:41 | intersecting a union with a range keeps exactly the values inside it |
| Day05.MemShiftAll | day_05.py:42-43 | shifting a union moves every value by the same amount |
| Day05.RemainderSpec | day_05.py:40-45 | what is left after all rules is exactly the input values that no rule covers |
| Day05.NoCoordinateLost | day_05.py:38-45 | the range mapping contains the point lookup of every input value |
| Day05.MappedComesFromInput | day_05.py:41-43 | every value of the remapped pieces is the point lookup of some input value |
| Day05.NoCoordinateGained | day_05.py:38-45 | every value of the range mapping is the point lookup of some input value |
| Day05.EmptyMapIsIdentity | day_05.py:31-45 | a map without rules changes neither points nor ranges |
| Day05.AlmanacConserves | day_05.py:54-59 | through the whole chain of maps, the ranges hold exactly the images of the input values under the point lookups |
| Day05.Part1 | day_05.py:100-103 | part 1 is the least location over the seeds, reached by one of them |
| Day05.SeedRanges | day_05.py:146-148 | the seed line is read as (start, size) pairs and an odd count fails |
| Day05.Lower | day_05.py:151 | `.lower` is a value of the union that is at most every value of it; an empty union has none |
| Day05.Part2 | day_05.py:145-151 | part 2 is a value of the location ranges and at most each of them, and none exactly when those ranges are empty |
| Day05.Part2IsPointwiseMinimum | day_05.py:145-151 | part 2 is the least location of any seed value in the ranges, and is undefined exactly when there are no seeds |
| Day07.CardValue | day_07.py:12-17 | card values run from 1 ('1', the joker) to 14 ('A') in the order of the card list |
| Day07.TallyCounts | day_07.py:65 | the tally of a hand counts each card's occurrences, as `Counter` does |
| Day07.ProfileFacts | day_07.py:38-39 | the counts `most_common` lists have as many entries as there are kinds, the same total and the same largest count |
| Day07.ShapeDecidesType | day_07.py:38-53 | every split of five cards into kinds falls into exactly one branch of `type_of` |
| Day07.TypeOfCounts | day_07.py:37-53 | the type of a five-card tally depends only on the number of kinds and the largest count |
| Day07.ShapeMonotone | day_07.py:25-53 | fewer kinds, or as many kinds with a larger count, never gives a weaker type |
| Day07.CountReplace | day_07.py:73 | replacing one card by another moves its count onto the other and leaves the rest |
| Day07.JokerCounts | day_07.py:85-87 | adding the jokers to the best non-joker card keeps the kinds and adds the jokers to the largest count |
| Day07.JokerTypeOfCounts | day_07.py:76-88 | five jokers make five of a kind; otherwise the type is that of the other cards with the jokers added to the largest count |
| Day07.AllJokersFive | day_07.py:79-81 | a hand of five jokers is five of a kind |
| Day07.JokersPlayBest | day_07.py:83-88 | no way of playing every joker as one fixed card beats the type `parse_with_jokers` gives |
| Day07.JokersAttained | day_07.py:83-88 | some card, played for every joker, reaches that type, so it is the best possible |
| Day07.KeyInjective | day_07.py:55-66 | the compared tuple of type, cards and bet determines the play |
| Day07.BeforeTotal | day_07.py:103 | any two plays are ordered one way or the other |
| Day07.BeforeTransitive | day_07.py:103 | the order on plays is transitive |
| Day07.BeforeAntisymmetric | day_07.py:103 | two plays ordered both ways are the same play |
| Day07.Insert | day_07.py:103 | inserting into a sorted list keeps it sorted and adds exactly that play |
| Day07.Sort | day_07.py:103 | `sorted` returns a sorted permutation of the plays |
| Day07.SortedUnique | day_07.py:103 | two sorted permutations of the same plays are equal, so the ranking is fixed |
| Day07.RankingIsSort | day_07.py:103 | every arrangement of the plays weakest first is the sorted list |
| Day07.Winnings | day_07.py:104 | the winnings are each bet times its rank, in any arrangement of the plays weakest first |
| Day07.Part1 | day_07.py:92-104 | on hands of five cards from 2 to 9, T, J, Q, K and A, part 1 is each bet times its rank, the plays arranged weakest first with 'J' a jack |
| Day07.Part2 | day_07.py:106-118 | on the same hands, part 2 is each bet times its rank with every 'J' a joker |
| Day07.WinningsIgnoreOrder | day_07.py:103-104 | the winnings depend only on which plays there are, not on their input order |
| Day07.SortRanksByKey | day_07.py:103-104 | a play with a smaller key gets a smaller rank |
| Day08.GraphKeys | day_08.py:39 | the network has a node for exactly the names of the lines |
| Day08.GraphLast | day_08.py:39 | for a repeated name, the last line wins |
| Day08.Walk | day_08.py:8-13 | an arrival is reported after at least one step and within the fuel |
| Day08.WalkSpec | day_08.py:8-13 | the walk arrives after s steps exactly when s is within the fuel and step s is the first to reach an end node |
| Day08.WalkSpecAll | day_08.py:8-13 | for every step count at once: the walk reports it exactly when it is the first arrival within the fuel |
| Day08.Part1 | day_08.py:15-40 | part 1 has no walk without instructions, and otherwise arrives after s steps exactly when step s is the first to reach ZZZ from AAA |
| Day08.NoInstructionsNoWalk | day_08.py:10 | with no instructions the walk returns nothing |
| Day08.NamesExact | day_08.py:61-62 | the list of node names holds each node once |
| Day08.EndingExact | day_08.py:61-62 | the start and end lists hold exactly the names ending in 'A' and 'Z' |
| Day08.Times | day_08.py:63 | every start gets a positive walk length that its own walk reports, or the first failure is passed on |
| Day08.Part2Multiple | day_08.py:58-64 | part 2 is positive and a multiple of the walk length of every start |
| Day08.Part2 | day_08.py:42-64 | an answer of part 2 is positive; a failure is the failure of the walk of some start |
| Day08.Part2Least | day_08.py:64 | the answer divides every common multiple of the walk lengths, so no positive common multiple is smaller, as `math.lcm` promises |
| Common.Lcm | day_08.py:64 | `math.lcm` of two positive numbers is a positive common multiple that divides every common multiple, and is 0 when either is 0 |
| Common.LcmAll | day_20.py:132 | `math.lcm` of positive entries is a positive common multiple of all of them that divides every common multiple |
| Day08.FirstExample | day_08.py:17-28 | the first example arrives in 2 steps |
| Day08.SecondExample | day_08.py:29-36 | the second example arrives in 6 steps, repeating its instructions |
| Day09.Diff | day_09.py:19 | each difference is the next value minus the current one |
| Day09.RowsShape | day_09.py:16-20 | each row is the difference of the one before, one shorter, and the rows stop at the first all-zero row |
| Day09.NextStep | day_09.py:17-22 | the next value is the last value plus the next value of the difference row, and 0 added for an all-zero row |
| Day09.PrevStep | day_09.py:37-42 | the previous value is the first value minus the previous value of the difference row |
| Day09.NextContinuesDifferences | day_09.py:17-22 | appending the next value appends the extrapolated difference, so the pattern continues |
| Day09.PrevContinuesDifferences | day_09.py:37-42 | prepending the previous value prepends the extrapolated difference |
| Day09.NextNegate | day_09.py:17-22 | extrapolation is linear: negating a row negates its next value |
| Day09.PrevIsNextReversed | day_09.py:34-42 | extrapolating backwards is extrapolating the reversed row forwards |
| Day09.LoneValueFails | day_09.py:18-20 | a single non-zero value has an empty difference row, so reading its last value fails |
| Day09.ConstantRow | day_09.py:18-22 | a constant row extends by the same value both ways |
| Day09.SumAll | day_09.py:22-23 | the sum over lines is defined exactly when every line extrapolates |
| Day09.SumAllReversed | day_09.py:41-44 | summing the backward extrapolations is summing the forward ones of the reversed lines, line by line through `SumAllPointwise` |
| Day09.Part1 | day_09.py:5-23 | part 1 is defined exactly when every line extrapolates forwards |
| Day09.Part2 | day_09.py:25-44 | part 2 is part 1 on every line reversed |
| Day09.Example | day_09.py:7-32 | the example gives 114 forwards and 2 backwards |
| Day10.TileTable | day_10.py:11-20 | the tiles are exactly the characters of the table; a pipe opens two ways, 'S' all four and '.' none |
| Day10.Nodes | day_10.py:22-26 | there is a node for every cell of the map, with the openings of its tile |
| Day10.LastStart | day_10.py:24-28 | the start is the last 'S' of the scan, and none when there is no 'S' |
| Day10.ParseMap | day_10.py:7-28 | a parsed map has the size of the lines, a node per cell, and its start on an 'S' |
| Day10.ParseMapFails | day_10.py:7-28 | parsing fails exactly on no lines, an unknown tile or a missing 'S' |
| Day10.LinkFacts | day_10.py:30-39 | pipes link exactly when both face each other; links are symmetric and join adjacent cells |
| Day10.CycleEven | day_10.py:41 | a loop on the grid has even length, because colours alternate like a chessboard |
| Day10.HalfLoop | day_10.py:77-78 | a loop visits as many cells as it has steps and that number is even, so the halving is exact |
| Day10.Part1 | day_10.py:57-78 | twice part 1 is the length of any cycle with the loop's cells |
| Day10.FixStart | day_10.py:45-53 | fixing the start changes no other cell and keeps the map's size |
| Day10.StartFixUp | day_10.py:45-53 | after the fix-up the start faces exactly its neighbours on the loop that link to it |
| Day10.StartKeepsLoop | day_10.py:43-53 | after the fix-up the start faces both its loop neighbours |
| Day10.RowStep | day_10.py:142-149 | one cell of the scan flips the parity at a north-opening loop cell and counts a non-loop cell when the parity is odd |
| Day10.CrossingStep | day_10.py:145-147 | the parity flips exactly at loop cells that open north |
| Day10.Part2 | day_10.py:133-154 | the enclosed cells are exactly the non-loop cells with an odd number of crossings to their left |
| Day10.ScanRow | day_10.py:142-149 | the scan of one row adds exactly that row's enclosed cells |
| Day10.EdgeNotEnclosed | day_10.py:143-149 | cells in the first column and loop cells are never enclosed |
| Day10.ExampleSquareLoop | day_10.py:59-66 | the square example is a loop of eight cells whose farthest point is 4 steps away |
| Day10.SquareEnclosed | day_10.py:83-90 | after the fix-up, the centre of the square is the only enclosed cell |
| Day10.ExampleSquarePart2 | day_10.py:83-90 | part 2 on the square counts 1 |
| Day11.EmptyRowsExact | day_11.py:24 | the empty rows are exactly the rows without '#', in increasing order |
| Day11.EmptyColumnsExact | day_11.py:23 | the empty columns are exactly the columns without '#', in increasing order |
| Day11.GalaxiesExact | day_11.py:26 | the galaxies are every '#' cell, each once, in row-major order |
| Day11.Distance | day_11.py:71-72 | with an expansion factor of at least 1, the distance is at least the plain taxicab distance |
| Day11.DistanceSymmetric | day_11.py:71-72 | the distance does not depend on the order of the pair |
| Day11.ExpandedManhattan | day_11.py:71-72 | the distance is the taxicab distance after each empty line is widened by the factor |
| Day11.PairsFromExact | day_11.py:75 | `combinations(galaxies, 2)` gives every unordered pair exactly once |
| Day11.PairsFromCount | day_11.py:75 | there are n(n-1)/2 pairs |
| Day11.Part1 | day_11.py:5-32 | part 1 is part 2 with an expansion factor of 2 |
| Day11.Part2 | day_11.py:34-75 | with a factor of at least 1 the total is not negative, and with fewer than two galaxies it is 0 |
| Day11.Part2AtLeastPlain | day_11.py:64-75 | expansion never shortens the total |
| Day11.CornersExample | day_11.py:71-75 | two galaxies at opposite corners of a 3x3 grid are 4 + 2(f-1) apart |
| Day12.SpecStep | day_12.py:26-35 | the count of fillings obeys the counter's branch for '#', '.' and '?' |
| Day12.PruneIsSound | day_12.py:22-24 | too few possibly-damaged cells for the groups means no filling matches |
| Day12.OverlongRunIsSound | day_12.py:19-20 | an open run longer than the next group means no filling matches |
| Day12.NoGroupsLeft | day_12.py:14-17 | with no groups left, one filling matches when there is no '#' and none otherwise |
| Day12.CountArrangements | day_12.py:4-37 | the pruned, memoised counter equals the number of fillings of the '?' cells whose damaged runs equal the groups |
| Day12.RunsSum | day_12.py:22 | the runs of a row add up to its '#' cells plus the open run |
| Day12.UnfoldRecord | day_12.py:86 | the unfolded record is five copies joined by '?' |
| Day12.UnfoldGroups | day_12.py:86 | the unfolded groups are five copies of the groups |
| Day12.Part1 | day_12.py:44-64 | on well-formed rows, part 1 is the total number of matching fillings |
| Day12.Part2 | day_12.py:66-86 | on well-formed rows, part 2 is the total number of matching fillings of the rows unfolded five times |
| Day12.ExampleRows | day_12.py:56-57 | "???.### 1,1,3" has one arrangement |
| Day13.Transpose | day_13.py:23 | `pattern.T` has row c equal to column c of the pattern |
| Day13.TransposeTwice | day_13.py:23 | transposing twice gives the pattern back |
| Day13.DiffZero | day_13.py:15 | no cell differs exactly when the two blocks are equal |
| Day13.Lhs | day_13.py:9-13 | the left block is the rows just above the line, as many as fit on both sides |
| Day13.Rhs | day_13.py:9-13 | the right block is the rows just below the line |
| Day13.MirrorPairs | day_13.py:7-16 | no difference at a line exactly when every row pair at the same distance from it is equal |
| Day13.FindReflection | day_13.py:4-18 | the result is the first line with exactly the wanted number of differences, or 0 when there is none |
| Day13.ColumnMirror | day_13.py:20-23 | a column line fits exactly when every row is symmetric about it |
| Day13.CountReflections | day_13.py:20-24 | the score is 0 exactly when no line fits either way; for widths up to 100 it decodes as 100 times the row line plus the column line |
| Day13.Summarize | day_13.py:47 | the sum over patterns is 0 exactly when no pattern has a line |
| Day13.Part1 | day_13.py:26-47 | part 1 is 0 exactly when no pattern has a perfect mirror line |
| Day13.Part2 | day_13.py:49-70 | part 2 is 0 exactly when no pattern has a line off by exactly one smudge |
| Day13.TwoRows | day_13.py:7-16 | a pattern of two rows reflects between them exactly when they differ in the wanted number of cells |
| Day13.SmallExamples | day_13.py:20-24 | two small patterns score 100 and 101 |
| Day14.SettleSegment | day_14.py:15-18 | settling a stretch between walls keeps its length and rocks and puts every rock first |
| Day14.TiltLine | day_14.py:10-20 | tilting keeps every cube rock in place |
| Day14.TiltLineSettles | day_14.py:10-20 | after a tilt no rock has free space in front of it |
| Day14.SettledIsFixed | day_14.py:7-21 | a settled column is left unchanged by a tilt |
| Day14.TiltLineIdempotent | day_14.py:7-21 | tilting twice is tilting once |
| Day14.TiltLineKeepsSegmentCounts | day_14.py:12-18 | no rock crosses a cube rock: the rocks before each wall stay the same in number |
| Day14.TiltLineKeepsRocks | day_14.py:12-18 | a tilt keeps the number of round rocks |
| Day14.TiltLineExample | day_14.py:12-18 | "O.O#" tilts to "OO.#" |
| Day14.Columns | day_14.py:10 | `zip(*g)` yields one string per cell of the shortest row, column j holding cell j of every row |
| Day14.MinWidth | day_14.py:10 | `zip` stops at the shortest row: the width read is that of some row and at most every row |
| Day14.Truncate | day_14.py:10 | cutting the rows to the shortest gives a rectangle that keeps every cell read |
| Day14.ZipReadsShortest | day_14.py:7-50 | tilt, rotation and spin read only the rows cut to the shortest |
| Day14.Tilt | day_14.py:7-21 | tilting yields the tilted columns, cut to the shortest row; an empty platform or one with an empty row gives an empty result |
| Day14.TiltColumn | day_14.py:7-21 | column j after a tilt is the tilted column j |
| Day14.TiltSettlesColumns | day_14.py:7-21 | after a tilt every column is settled |
| Day14.TiltKeepsColumnSegments | day_14.py:7-21 | a tilt moves no rock past a cube rock in any column |
| Day14.TiltIdempotent | day_14.py:6-21 | tilting the platform twice is tilting it once |
| Day14.Rotate | day_14.py:46 | the rotation is a quarter turn clockwise of the rows cut to the shortest |
| Day14.RotateFour | day_14.py:45-49 | four quarter turns give back the platform |
| Day14.Spin | day_14.py:43-50 | a spin cycle keeps the shape of a rectangular platform, its cube rocks and its number of round rocks |
| Day14.SpinKeepsWalls | day_14.py:43-50 | a spin cycle keeps the platform's shape and every cube rock |
| Day14.SpinKeepsRocks | day_14.py:43-50 | a spin cycle keeps the number of round rocks |
| Day14.Spins | day_14.py:76-77 | after the first cycle the platform is rectangular; on a rectangular one any number of spins keeps the shape, the walls and the number of rocks |
| Day14.LoadByRows | day_14.py:52-54 | the load summed column by column equals the load summed row by row |
| Day14.Exchange | day_14.py:54 | summing cells by columns equals summing them by rows |
| Day14.RowLoadBounds | day_14.py:54 | each round rock weighs between 1 and the number of rows |
| Day14.LoadBounds | day_14.py:52-54 | the load of a rectangular platform lies between its number of round rocks and that number times its rows |
| Day14.Part1 | day_14.py:23-40 | part 1 lies between the number of round rocks and that number times the rows, since the tilt keeps every rock |
| Day14.Part2 | day_14.py:56-79 | part 2 has the same bounds, since the spin cycles keep every rock |
| Day14.RotateKeepsRocks | day_14.py:46 | a rotation keeps the number of rocks |
| Day14.TiltKeepsRocks | day_14.py:7-21 | a tilt of the platform keeps the number of rocks |
| Day15.HashFrom | day_15.py:8-12 | the hash is below 256 |
| Day15.HashAppend | day_15.py:8-11 | the hash is a left fold: hashing a + b continues from the hash of a |
| Day15.HashSnoc | day_15.py:9-11 | one more character adds its code, multiplies by 17 and reduces mod 256 |
| Day15.HashExample | day_15.py:3-12 | "HASH" hashes to 52 |
| Day15.Part1 | day_15.py:19 | part 1 is at most 255 per step |
| Day15.ParseStep | day_15.py:28-35 | a trailing '-' removes the label; a step without '=' is not accepted; an accepted assignment reads back as its text, so the focal length is plain decimal digits |
| Day15.RemoveLensSpec | day_15.py:29-30 | removing a label leaves it absent, changes nothing when it was absent, keeps only lenses of the box and every lens with another label, and keeps labels unique |
| Day15.RemoveAtIndex | day_15.py:30 | with unique labels, removal cuts out exactly the lens with that label |
| Day15.RemoveAbsent | day_15.py:30 | removing an absent label changes nothing |
| Day15.Upsert | day_15.py:32-33 | an assignment replaces the lens in place when the label is present, and appends it otherwise |
| Day15.Apply | day_15.py:27-35 | a step changes only the box its label hashes to, and keeps every lens in the box of its label |
| Day15.Run | day_15.py:26-35 | the steps run to the end exactly when every step is accepted, and keep lenses in their boxes |
| Day15.BoxPowerIsSlotSum | day_15.py:37-38 | a box's power is the sum of box number times slot times focal length |
| Day15.PowerFromIsSum | day_15.py:37-38 | the power from box b on is the sum of the box totals from b on |
| Day15.FocusingPower | day_15.py:37-38 | the focusing power is the sum over boxes, numbered from 1, of their slot sums |
| Day15.BoxPowerReplace | day_15.py:33-38 | replacing a lens changes the power by its own term only |
| Day15.BoxPowerAppend | day_15.py:33-38 | appending a lens adds the term of the new last slot |
| Day15.PowerFromUpdate | day_15.py:37-38 | changing one box changes the total power by that box's change only |
| Day15.ApplyPowerChange | day_15.py:26-38 | each step changes the focusing power only by the change in the box it touches |
| Day15.Part2 | day_15.py:21-38 | part 2 fails exactly when some step is not accepted, and is 0 with no steps |
| Day15.ExampleSteps | day_15.py:23 | "cm-" removes, "rn=1" assigns 1, "rn" is not accepted; rn and cm share box 0 and qp goes to box 1 |
| Day16.Slash | day_16.py:29-30 | a '/' mirror turns (dx, dy) into (-dy, -dx) |
| Day16.Backslash | day_16.py:31-32 | a '\' mirror turns (dx, dy) into (dy, dx) |
| Day16.MirrorFacts | day_16.py:29-32 | each mirror turns a beam by a right angle and undoes itself |
| Day16.NextFacts | day_16.py:26-42 | empty cells and pointy splitter ends pass a beam on; mirrors turn it; flat splitters split it into two perpendicular beams |
| Day16.ClosedHoldsTraces | day_16.py:16-42 | a set of states closed under beam steps holds every state a beam from the start reaches |
| Day16.FollowedAdd | day_16.py:24-25 | following one more reachable beam keeps every recorded state reachable and every energised cell on it |
| Day16.Follow | day_16.py:17-42 | following a beam records only reachable states, keeps the record closed and records the beam itself |
| Day16.CountEnergised | day_16.py:10-44 | the count is the number of cells some beam from the start passes through |
| Day16.Collected | day_16.py:16-44 | once the queue is empty the energised set is exactly the reachable cells |
| Day16.EnergisedBound | day_16.py:24-25 | only cells on the grid are energised, so at most width times height |
| Day16.StartEnergised | day_16.py:24-25 | a beam starting on the grid energises its own cell |
| Day16.EdgeStartsInward | day_16.py:83-88 | every candidate start of part 2 enters across the edge |
| Day16.InwardIsEdgeStart | day_16.py:83-88 | every beam entering across the edge is a candidate |
| Day16.Part2 | day_16.py:81-88 | part 2 is the largest count over the edge starts, reached by one of them |
| Day16.Part1 | day_16.py:62-63 | part 1 counts the cells energised from the top-left corner heading right |
| Day16.CircuitStep | day_16.py:26-42 | on the circuit grid each of six states passes the beam on to the next without a split |
| Day16.CircuitForever | day_16.py:16-42 | as written, a beam on the circuit is walked for as long as fuel lasts |
| Day16.AsWrittenNeverReturns | day_16.py:16-42 | the as-written count from ((0,1), right) never returns, whatever the fuel (see Findings) |
| Day16.AsWrittenSound | day_16.py:16-42 | whatever the tracer as written collects when it returns is energised |
| Day16.CountAsWritten | day_16.py:10-44 | a count the source returns is at most the true number of energised cells, itself at most the grid's cells |
| Day16.TraceEnergises | day_16.py:24-42 | every cell on the grid that a trace passes through is energised |
| Day16.CircuitEnergised | day_16.py:10-44 | with each state followed once, the beam energises all six cells |
| Day16.FullGrid | day_16.py:10-44 | a beam energising every cell energises width times height |
| Day17.Neg | day_17.py:15-16 | the negated direction points the opposite way |
| Day17.DirectionFacts | day_17.py:15-23 | negation undoes itself; the two perpendiculars are opposite; being perpendicular is symmetric and means a zero dot product |
| Day17.EdgeWeight | day_17.py:47-56 | an edge turns by a right angle and joins cells on the grid |
| Day17.EdgeIsRun | day_17.py:47-56 | every edge is a straight run of lo to hi cells, weighted by the heat of the cells it enters |
| Day17.EdgesAreRuns | day_17.py:95-106 | there is an edge for exactly such runs, with that weight |
| Day17.CandidatesComplete | day_17.py:47-56 | every edge into a node comes from one of its candidate predecessors |
| Day17.MinOpt | day_17.py:61 | the smaller of two optional costs is one of them and at most both |
| Day17.LeastOfAll | day_17.py:61 | the least of the pair costs is defined when all are, is one of them and is at most each |
| Day17.Pairs | day_17.py:58-61 | the pairs are exactly every source paired with every target |
| Day17.DistSound | day_17.py:61 | a computed distance is the cost of an actual walk with at most k edges |
| Day17.DistOptimal | day_17.py:61 | no walk with at most k edges costs less than the distance |
| Day17.CutCycle | day_17.py:61 | cutting out a repeated node gives a shorter walk that costs no more |
| Day17.ShortWalksSuffice | day_17.py:61 | every walk has a walk between the same ends, no longer than the node count, costing no more |
| Day17.DistIsLeast | day_17.py:61 | with node-count-minus-one edges, the distance is at most the cost of any walk |
| Day17.DistIffReachable | day_17.py:61 | the distance is defined exactly when the target is reachable |
| Day17.CostsDefined | day_17.py:61 | the least pair cost is defined exactly when every target is reachable from every source |
| Day17.Answer | day_17.py:58-61 | the answer is defined exactly when every source reaches every target |
| Day17.AnswerAttained | day_17.py:58-61 | the answer is the heat lost on some walk from a source to a target |
| Day17.AnswerIsLeast | day_17.py:108-111 | no walk from a source to a target loses less heat than the answer |
| Day17.AnswerIsLeastHeat | day_17.py:58-61 | the answer is defined exactly when every target is reachable, is then the heat lost on some walk, and no walk loses less |
| Day17.Part1 | day_17.py:25-61 | part 1 is the least heat lost with straight runs of 1 to 3 cells, in that sense |
| Day17.Part2 | day_17.py:64-111 | part 2 is the least heat lost with straight runs of 4 to 10 cells, in that sense |
| Day17.ExampleRun | day_17.py:95-106 | on one row, a run of 3 costs 8 for part 1; part 2 needs runs of at least 4 and a turn between runs |
| Day18.ShoelaceEven | day_18.py:14-17 | on a closed path the shoelace sum is even, so its halving is exact |
| Day18.BoundaryEven | day_18.py:12-18 | on a closed path the boundary length is even |
| Day18.ShoelaceTranslation | day_18.py:3-17 | starting a closed path elsewhere does not change its shoelace sum |
| Day18.LagoonFromAnywhere | day_18.py:3-19 | the lagoon size of a closed plan does not depend on where digging starts |
| Day18.LagoonOrientation | day_18.py:17 | walking the plan backwards gives the same lagoon size |
| Day18.ReversedPath | day_18.py:13-14 | a reversed plan returns to the start and negates the shoelace sum |
| Day18.ShoelaceAppend | day_18.py:6-15 | the shoelace sum of two joined plans is the sum of theirs |
| Day18.BoundaryAppend | day_18.py:12 | the boundary of two joined plans is the sum of theirs |
| Day18.HalvingsExact | day_18.py:14-19 | on a closed plan both halvings of the area formula are exact |
| Day18.Lagoon | day_18.py:3-19 | the lagoon holds at least one cube; on a closed plan twice its size is the shoelace area plus the boundary plus 2 |
| Day18.Dig | day_18.py:3-50 | the plan is dug exactly when every line decodes |
| Day18.Part1 | day_18.py:22-50 | part 1 is defined exactly when every letter is U, D, R or L |
| Day18.LetterDir | day_18.py:42-48 | exactly U, D, R and L are directions; any other letter is the `KeyError` |
| Day18.HexValue | day_18.py:76 | a non-empty run of hex digits has a value; anything else, including the other forms `int(h, 16)` reads, has none |
| Day18.DecodeHexDigits | day_18.py:72-77 | a colour code decodes exactly when its first digits are hex and its last is 0 to 3; these give the distance and the direction |
| Day18.DecodeHex | day_18.py:76-77 | a colour code decodes exactly when its value has a last hex digit of 0 to 3, and the distance is the value without that digit |
| Day18.Part2 | day_18.py:52-79 | part 2 is defined exactly when every colour code is a run of hex digits ending in 0 to 3 |
| Day18.Example | day_18.py:24-40 | the example plan digs 62 cubic metres |
| Day18.ExampleCode | day_18.py:72-77 | "70c710" decodes to R 461937 |
| Day19.FirstMatch | day_19.py:46-55 | the target is that of the first rule that holds, and none when no rule does |
| Day19.RouteLeads | day_19.py:39-55 | a routing that answers is justified by a path of workflows, each taking the first matching rule, that ends at A or R within the fuel |
| Day19.RouteFollowsPath | day_19.py:39-55 | conversely, a part that follows such a path to A or R within the fuel is routed there |
| Day19.RouteMonotone | day_19.py:39-55 | more fuel never changes a routing already decided |
| Day19.Part1 | day_19.py:35-57 | part 1 is defined exactly when every part is routed to A or R from "in" within the fuel |
| Day19.Part1Example | day_19.py:36-55 | a part with x below 100 is accepted by `in{x<100:A,R}` |
| Day19.EmptyBoxHasNoPart | day_19.py:98-99 | a box with an empty range holds no part |
| Day19.Split | day_19.py:108-116 | for a threshold inside the range, the split is the source's split |
| Day19.SplitPartitions | day_19.py:108-116 | the two pieces are exactly the values of the range that satisfy the rule and those that do not |
| Day19.SplitInsidePartitions | day_19.py:108-116 | the source's split partitions the range the same way when the threshold lies inside it |
| Day19.SplitBox | day_19.py:108-117 | splitting a box on a rule sends each part to the piece matching whether it satisfies the rule |
| Day19.Accepted | day_19.py:88-119 | the accepted boxes lie in the box and share no part |
| Day19.AcceptedRules | day_19.py:101-117 | the same for a workflow's remaining rules |
| Day19.AcceptedMatchesRouting | day_19.py:88-119 | the accepted boxes are disjoint, lie in the box, and cover a part exactly when part 1's routing accepts it |
| Day19.AcceptedRulesMatchRouting | day_19.py:101-117 | the same for a workflow's remaining rules |
| Day19.Part2 | day_19.py:59-119 | part 2 is the size of disjoint boxes within 1 to 4000 that hold exactly the parts part 1's routing accepts from "in" |
| Day19.Part2AsWritten | day_19.py:59-119 | as written, part 2 is the size of disjoint boxes within 1 to 4000, so no part is counted twice |
| Day19.AsWrittenCountsRejectedPart | day_19.py:108-117 | as written, a part that part 1 rejects is counted by part 2 (see Findings) |
| Day20.FlipFlopParity | day_20.py:22-26 | a flip-flop sends one pulse per low it receives, alternating from the opposite of its state, and ends flipped exactly when it got an odd number of lows |
| Day20.FlipFlopTwoLows | day_20.py:22-26 | two low pulses bring a flip-flop back to its state |
| Day20.ConjunctionReceive | day_20.py:29-31 | a conjunction remembers the pulse and sends low exactly when all its memory is high |
| Day20.BroadcasterEcho | day_20.py:34-35 | the broadcaster keeps no state and passes on every level it receives |
| Day20.Declare | day_20.py:43-50 | a line declares a module exactly when it is the broadcaster or starts with '%' or '&'; the targets are kept |
| Day20.SourcesSpec | day_20.py:52-53 | the sources of a module are exactly the modules that list it as a target |
| Day20.ParseWiresMemory | day_20.py:52-57 | a conjunction starts with a low memory for exactly its sources |
| Day20.StepIsFifo | day_20.py:91-104 | each step counts one pulse, handles the oldest one, and appends the receiver's output to every target in order |
| Day20.DrainCountsEveryPulse | day_20.py:91-97 | a press ends with an empty queue, having counted every pulse that was waiting |
| Day20.PressManyCountsButton | day_20.py:89-97 | n presses count at least n pulses |
| Day20.PeriodicPresses | day_20.py:89-106 | when a press returns the modules to their state, n presses count n times its pulses |
| Day20.Part1Periodic | day_20.py:64-106 | when one press returns the network to its start, part 1 is a million times the product of that press's high and low counts |
| Day20Example.Part1Example | day_20.py:64-71 | the first example gives 32000000 |
| Day20.Dedup | day_20.py:112 | the watched list holds each source once and exactly the sources |
| Day20.FeederOfModules | day_20.py:110 | the feeder is the one parsed module that targets "rx"; there is none when no module or several modules do |
| Day20.Record | day_20.py:127-129 | a watched input is recorded exactly when it was recorded before or its remembered level is high; old records are kept and new ones get this press |
| Day20.SearchFindsFirstHighs | day_20.py:114-132 | the search answers the lcm of the presses on which each watched input was first high at the feeder |
| Day20.Part2FirstHighs | day_20.py:108-132 | part 2 is the lcm of the first presses on which each input of the unique conjunction feeding "rx" is high, and divides every common multiple of them |
| Day20.NoBroadcasterNoAnswer | day_20.py:114-132 | a lone conjunction feeding "rx", with no broadcaster, never records a press, so no bound gives an answer |
| Day20.DrainWatchingSpec | day_20.py:116-132 | old records are kept; a new record is this press for a watched input that was high at the feeder during it, and a drained press records every such input |
| Day21.DirsAdjacent | day_21.py:27-29 | the four directions reach exactly the adjacent cells |
| Day21.Garden | day_21.py:22 | the garden is exactly the cells that are not rocks |
| Day21.Extent | day_21.py:24 | the extent is one past the largest coordinates of the garden, and none for an empty garden |
| Day21.StepMembers | day_21.py:29 | one step reaches exactly the open cells next to a cell of the old set |
| Day21.ReachedByWalk | day_21.py:26-29 | every cell reached after n steps ends a walk of n steps from the start |
| Day21.WalkReaches | day_21.py:26-29 | the end of every walk from the start is reached after that many steps |
| Day21.ReachedParity | day_21.py:26-30 | a cell reached after n steps is at most n away, with the same parity |
| Day21.ReachedIsOpen | day_21.py:29 | after at least one step only garden cells are reached |
| Day21.Part1Bounded | day_21.py:22-30 | part 1 fails exactly on an empty garden, and counts at most the garden's cells |
| Day21.StartIsCentre | day_21.py:23-24 | on a map whose rows all have one width and whose last row and last column each hold an open cell, the extent is that width and the number of rows |
| Day21.InterpolateFits | day_21.py:69-73 | the quadratic passes through the three samples |
| Day21.InterpolateQuadratic | day_21.py:69-73 | the quadratic has constant second differences |
| Day21.SamplePoints | day_21.py:60 | the three sample points are increasing and the first lies within one width |
| Day21.SampleAsWritten | day_21.py:60-67 | as written, a finished sampling loop has a sample for every point |
| Day21.SampleAsWrittenCounts | day_21.py:60-67 | as written, each sample taken at point xs[i] is the number of cells reached after xs[i] steps |
| Day21.IterateShift | day_21.py:63 | stepping once and then n times is stepping n + 1 times |
| Day21.AsWrittenSamples | day_21.py:60-67 | whenever the loop as written finishes, the width does not divide the steps and the samples are the reached counts |
| Day21.AsWrittenAnswersCorrectly | day_21.py:49-73 | whenever part 2 as written returns, the map is square and the answer is the corrected one |
| Day21.SamplingStalls | day_21.py:60-67 | as written, a sample point that is a multiple of the width is never met, so the loop runs out of fuel |
| Day21.AsWrittenNeverReturns | day_21.py:60-67 | part 2 as written never returns on ["S"] with 1 step (see Findings) |
| Day21.Samples | day_21.py:60-67 | the corrected loop samples the reached count at every sample point |
| Day21.Part2 | day_21.py:49-73 | part 2 fails exactly on an empty or non-square garden; otherwise it is the quadratic through the samples |
| Day22.AlongX | day_22.py:17-18 | the x-extent of a brick is each cell from lo to hi once |
| Day22.AlongY | day_22.py:22-23 | the y-extent of a brick is each cell from lo to hi once |
| Day22.MakeBrick | day_22.py:13-35 | a brick is made exactly when at most one coordinate varies; it holds the cells between its ends and their lower and upper z |
| Day22.MakeBrickSymmetric | day_22.py:13-35 | the order of the two ends does not matter |
| Day22.InsertByZ | day_22.py:41 | inserting keeps the bricks ordered by lowest z and adds exactly that brick |
| Day22.SortByZ | day_22.py:41 | sorting gives a permutation ordered by lowest z |
| Day22.Landing | day_22.py:42 | the landing height is the highest point under the footprint, reached at one of its cells |
| Day22.Paint | day_22.py:44-45 | the height map takes the new value over the footprint and keeps the rest |
| Day22.PaintRaises | day_22.py:42-45 | painting a brick's top never lowers the height map |
| Day22.SettleWitnessed | day_22.py:41-49 | every height of the map is the top of some settled brick or the floor |
| Day22.SettleCovered | day_22.py:41-49 | the height map is at least every settled brick's top under it |
| Day22.SettlePrefix | day_22.py:41-49 | settling a prefix of the bricks gives the prefix of the result |
| Day22.BricksRestExact | day_22.py:48 | a brick rests on exactly the earlier bricks whose top is right under its footprint |
| Day22.BricksDoNotPassThrough | day_22.py:42-45 | no settled brick overlaps an earlier one under its footprint |
| Day22.BricksGrounded | day_22.py:42-43 | a brick with no support rests on the floor |
| Day22.SettlePointsDown | day_22.py:48 | every support of a brick was settled before it |
| Day22.CountSafe | day_22.py:66 | at most all bricks are safe |
| Day22.FallenBelow | day_22.py:76-85 | only bricks that exist can fall |
| Day22.FallenClosed | day_22.py:79-82 | the removed brick is in the fallen set, and a brick all of whose supports fell is in it too |
| Day22.FallenLeast | day_22.py:79-82 | the fallen set is the least such set: nothing falls without a reason |
| Day22.SafeIffNothingFalls | day_22.py:66-85 | a brick is safe to remove exactly when its chain reaction brings down nothing |
| Day22.SafeBricksAddNothing | day_22.py:66-102 | part 2's total is at least the number of unsafe bricks, and is 0 exactly when every brick is safe |
| Day22.Part1 | day_22.py:64-66 | part 1 counts at most all bricks |
| Day22.Part2 | day_22.py:87-102 | part 2 is at least the number of bricks that are not safe, and 0 exactly when every brick is safe |
| Day22.ExampleSafeBricks | day_22.py:53-62 | in the example, B, C, D, E and G are safe and A and F are not |
| Day22.ExampleSafe | day_22.py:53-62 | the example has 5 safe bricks |
| Day22.ExampleRemoveA | day_22.py:68-85 | removing A brings down the other six |
| Day22.ExampleRemoveF | day_22.py:68-85 | removing F brings down G |
| Day22.ExampleFalls | day_22.py:89-98 | the example's chain reactions add up to 7 |
| Day23.CellGraphEdges | day_23.py:6-24 | the cell graph has a node per open cell and a unit edge for each move its tile allows; an unknown tile on the icy map fails |
| Day23.DrySymmetric | day_23.py:6-24 | without slopes every edge can be walked back |
| Day23.IcyWithinDry | day_23.py:6-24 | the icy graph has the same nodes and a subset of the edges of the dry graph |
| Day23.IcyPathIsDry | day_23.py:6-24 | every simple path of the icy graph is a simple path of the dry graph |
| Day23.SlopesNeverLonger | day_23.py:6-24 | the longest hike with slopes is never longer than without |
| Day23.CellSteps | day_23.py:18-24 | the steps from a cell are exactly the unit moves to open cells in the allowed directions |
| Day23.AddEdgeSets | day_23.py:44 | `add_edge` sets the weight both ways on an undirected graph, one way on a directed one, and changes nothing else |
| Day23.RemoveNodesEdges | day_23.py:45 | `remove_nodes_from` deletes the nodes and exactly the edges into them |
| Day23.Forward | day_23.py:39 | a corridor goes on exactly when one unvisited neighbour is left |
| Day23.CorridorForced | day_23.py:39-41 | the corridor walk takes only forced steps |
| Day23.CorridorStuck | day_23.py:39-41 | the corridor walk stops where no step is forced |
| Day23.CollapseWalk | day_23.py:36-41 | the walked cells start at the queued neighbour, follow only forced steps and end where none is forced |
| Day23.JoinedEdge | day_23.py:43-45 | a corridor is replaced by one edge weighted by its length, and its inner cells are removed |
| Day23.JoinedKeeps | day_23.py:43-46 | after the join, edges still lead to nodes and weigh at least one |
| Day23.CollapseKeeps | day_23.py:35-46 | one pass of the queue loop keeps the graph fit for the search |
| Day23.CompressKeeps | day_23.py:35-46 | the compressed graph is fit for the search from the start and keeps its direction |
| Day23.Fanout | day_23.py:46 | the queue gets every unvisited neighbour of the new node |
| Day23.Only | day_23.py:27-33 | `only` fails on none and on several, and returns the single element otherwise |
| Day23.Dots | day_23.py:27 | the '.' cells of a row, left to right |
| Day23.LastOpenRow | day_23.py:28 | the last row that holds an open cell |
| Day23.FoundEnds | day_23.py:27-33 | the start is the one '.' of row 0, and the target the one '.' of the last open row |
| Day23.ParseEnds | day_23.py:27-33 | after parsing, the start and target are those single '.' cells |
| Day23.ParseKeeps | day_23.py:6-48 | the parsed graph is fit for the search and directed exactly on the icy map |
| Day23.LongestSound | day_23.py:80 | what the search reports is the weight of a simple path |
| Day23.LongestComplete | day_23.py:80 | every simple path weighs at most what the search reports |
| Day23.LongestIsMaximum | day_23.py:80 | the search is defined exactly when a simple path exists, and is then the largest path weight |
| Day23.SearchIsLongest | day_23.py:80 | the answer is the weight of the longest simple path, and the `max` fails exactly when there is none |
| Day23.Search | day_23.py:80 | the search fails with `NodeNotFound` exactly when an end is no node; an answer joins distinct ends and no simple path weighs more |
| Day23.Hike | day_23.py:79-80 | an answer means the map parsed, and no simple path of the parsed graph weighs more |
| Day23.Part1 | day_23.py:50-80 | part 1 searches the directed graph of the icy map, and no simple path of it weighs more than the answer |
| Day23.Part2 | day_23.py:82-112 | part 2 searches the undirected graph of the dry map, and no simple path of it weighs more than the answer |
| Day23.HikeIsLongest | day_23.py:111-112 | each part answers the longest simple path of its parsed graph |

## Left out

- Days 6, 24 and 25 are not part of this model, and neither is the day template.
- Reading the puzzle input, `aocd`, the doctest runner and the `__main__` blocks are not modelled.
- Raw text parsing is replaced by the parsed records: the per-line records of days 2, 4, 7, 8, 18, 19, 20 and 22 are parameters, whether the source reads them with a regular expression, the `parse` package, or `str.split` and `int()`.
- Day01: `str.isdigit` also accepts non-ASCII digits; the model reads only '0' to '9'.
- Day01.Part2: states when part 2 is defined and bounds it, but not that it reads the first and last digit or digit word of each line; only the wrapping facts, `RewriteFindsDigit` and "twone" are proved.
- Day01: the examples 142 and 281 are not evaluated.
- Day02: the parse of "Game {:d}: {}" and the `findall` of "{:n} {:colour}" are a parameter, so the digit-grouping quirks of `{:n}` are not modelled.
- Day02: the examples 8 and 2286 are not evaluated; only the first game is.
- Day03: on lines of unequal length the source raises `IndexError`; the model reads such cells as not a symbol.
- Day04: card ids are taken to be 1 to n in input order, as in the puzzle.
- Day05.Part1: requires at least one seed, since `min` of no seeds raises `ValueError`.
- Day05.Lower: the empty union gives `None`; portion reports `+inf` as its `lower`.
- Day05: the examples 35 and 46 are not evaluated.
- Day07: the concrete hand-type doctests and the 6440 and 5905 examples are not evaluated.
- Day07.Part1: requires every hand to be five cards drawn from 2 to 9, T, J, Q, K and A, and every bet to be a natural number. The source also ranks '0' and '1' cards, which `int(value)` reads as 0 and 1. It also ranks a lone hand of another length, whose type is `None` and is never compared, and it reads negative bets. An unknown letter, the `ValueError` of `"TJQKA".index`, is excluded by the requires rather than reported as an error.
- Day07.Part2: the same restrictions. In addition, an input '1' would become a joker alongside the rewritten J's, since `Card("1")` is the joker; the model does not express this.
- Day08: the least common multiple is the answer only under the puzzle's assumption that each walk is a cycle of its first arrival time; that assumption is not proved.
- Day08: walks are bounded by fuel; the part 2 example is not evaluated.
- Day09: the parse of the numbers is a parameter.
- Day10: `find_cycle` from networkx is not modelled; part 1 takes the loop's cells as a parameter and is stated for every cycle of linked cells (`IsCycle`) with those cells. The larger examples are not evaluated.
- Day11: numpy's array functions are modelled by their definitions on rectangular input; empty input (an error in numpy) is excluded; the examples 374, 1030 and 8410 are not evaluated.
- Day12: the examples other than "???.### 1,1,3" are not evaluated; the memo cache does not change results and is not modelled.
- Day13: the split of the input into patterns is not modelled; the examples 405 and 400 are not evaluated.
- Day13.Transpose: numpy raises an error on a pattern whose rows differ in length; the model requires rectangular patterns here and in `Summarize`, `Part1` and `Part2` instead of modelling that error.
- Day14: part 2's 1000 spin cycles are the generic `Spins` for any count; the 1000 itself is not instantiated, and the examples 136 and 64 are not evaluated.
- Day14.Part1: the load bounds are stated for rectangular platforms; on ragged ones only the cut to the shortest row (`ZipReadsShortest`) is stated. The same holds for `Part2` and `Spin`.
- Day15: a step without '=' or a trailing '-' reaches `breakpoint()` in the source; the model reports it as not accepted.
- Day15.ParseStep: the focal length must be plain decimal digits; `int()` also reads a sign, leading zeros, underscores and surrounding blanks ("rn=01", "rn=+1", "rn=-1"), which the model reports as not accepted.
- Day16: non-rectangular grids are excluded; the examples 46 and 51 are not evaluated.
- Day17: on a 1x1 grid networkx raises `NodeNotFound` while the model answers 0; the examples 102, 94 and 71 are not evaluated.
- Day17: Dijkstra's algorithm is modelled by its result (a Bellman-Ford style distance with a bound of the node count), not step by step.
- Day18: the floating-point area is computed on exact integers; the evenness lemmas show the divisions are exact. The part 2 example is not evaluated.
- Day18.HexValue: reads only a non-empty run of hex digits; `int(h, 16)` also reads a "0x" prefix, a sign, underscores and surrounding blanks.
- Day18.Part1: distances are natural numbers; a negative distance, which `int()` reads, is not modelled.
- Day19: routing and the box search are bounded by fuel; the examples 19114 and 167409079868000 are not evaluated.
- Day20: loops are bounded by fuel; the `only()` failure is modelled as `None`; the example 32000000 is proved in `day20_example.dfy`, the example 11687500 is not evaluated.
- Day21: the quadratic-growth assumption behind part 2 is not proved; part 2 is specified as the interpolation of the reached counts. The part 1 example 16 is not evaluated.
- Day22: networkx merges identical bricks into one node; the model keeps bricks by index. The order of `chain_reaction`'s queue is not modelled, only its result. The examples use the example's support graph rather than settling the bricks.
- Day22.Part1: states only the bound on the count; its meaning comes from `CountSafe` and `SafeIffNothingFalls`.
- Day23: the queue loop of the compression is bounded by fuel; that compression preserves the longest path is not proved.
- Day23: the behaviour of `all_simple_paths` when source equals target depends on the networkx version; the model reports `ValueError`.
- Day23: duplicate adjacency keys are not proved absent; the examples 94 and 154 are not evaluated.

## Findings

| source | as written | input that shows it | evidently intended | confidence | as-written member | corrected member |
|---|---|---|---|---|---|---|
| day_03.py:63-65 | the span of a `{:d}` match includes a leading sign, so the neighbourhood of a signed number reaches two columns left of its digits | "2*-5": the '*' collects 2 and 5 and the ratio is 10 | a '*' not touching the digits collects nothing: 0 | not executed | Day03.AsWrittenReachesPastSign | Day03.CorrectedIgnoresDistantNumber |
| day_16.py:24-42 | the inner `while` never checks `seen_beams`, so a beam that enters a mirror circuit through a splitter loops forever | grid ["/\\", "\|\|", "\\/"], start ((0,1), right), one of part 2's edge starts | a finite count: all 6 cells | not executed | Day16.AsWrittenNeverReturns | Day16.CircuitEnergised |
| day_19.py:108-117 | a rule whose threshold lies outside the range is skipped, even when every value of the range satisfies it | workflows in{x<100:foo,A}, foo{x<200:R,A}: the part x=50 is rejected by part 1 but counted by part 2 | the whole box goes to the rule's target | not executed | Day19.AsWrittenCountsRejectedPart | Day19.Part2 |
| day_21.py:60-67 | `xn` starts at 1 and is incremented before the test, so when `steps % w == 0` the sample at 0 is never taken and the loop never ends | ["S"], steps 1 | samples counted from xn = 0 | not executed | Day21.AsWrittenNeverReturns | Day21.Samples |
