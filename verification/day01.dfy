/** Day 1: calibration values read from the first and last digit of each
    line, with digits spelled out as words counting too in the second
    part. */
module Day01 {
  import opened Common

  predicate IsDigit(c: char)
  {
    '0' as int <= c as int <= '9' as int
  }

  function DigitValue(c: char): nat
    requires IsDigit(c)
  {
    c as int - '0' as int
  }

  /** `[d for d in line if d.isdigit()]`. */
  function Digits(line: string): (r: string)
    ensures forall k :: 0 <= k < |r| ==> IsDigit(r[k])
  {
    if |line| == 0 then []
    else (if IsDigit(line[0]) then [line[0]] else []) + Digits(line[1..])
  }

  lemma {:induction false} DigitsAppend(a: string, b: string)
    ensures Digits(a + b) == Digits(a) + Digits(b)
  {
    if |a| > 0 {
      DigitsAppend(a[1..], b);
      assert (a + b)[1..] == a[1..] + b;
    } else {
      assert a + b == b;
    }
  }

  lemma {:induction false} DigitsNone(line: string)
    ensures |Digits(line)| == 0 <==> forall k :: 0 <= k < |line| ==> !IsDigit(line[k])
  {
    if |line| > 0 {
      DigitsNone(line[1..]);
      assert forall k :: 1 <= k < |line| ==> line[k] == line[1..][k - 1];
    }
  }

  predicate NoDigit(line: string)
  {
    forall k :: 0 <= k < |line| ==> !IsDigit(line[k])
  }

  /** `calib`: the two-digit number made of the first and the last digit;
      a line without digits has no `digits[0]` and fails. */
  function Calibration(line: string): (r: Option<nat>)
    ensures r.None? <==> NoDigit(line)
    ensures r.Some? ==> r.value <= 99
  {
    var ds := Digits(line);
    DigitsNone(line);
    if |ds| == 0 then None else Some(10 * DigitValue(ds[0]) + DigitValue(ds[|ds| - 1]))
  }

  /** Position `i` holds the first digit of the line. */
  predicate FirstDigitAt(line: string, i: int)
  {
    0 <= i < |line| && IsDigit(line[i]) && forall k :: 0 <= k < i ==> !IsDigit(line[k])
  }

  /** Position `j` holds the last digit of the line. */
  predicate LastDigitAt(line: string, j: int)
  {
    0 <= j < |line| && IsDigit(line[j]) && forall k :: j < k < |line| ==> !IsDigit(line[k])
  }

  lemma {:induction false} FirstDigitIsHead(line: string, i: nat)
    requires FirstDigitAt(line, i)
    ensures |Digits(line)| > 0 && Digits(line)[0] == line[i]
  {
    if i > 0 {
      assert FirstDigitAt(line[1..], i - 1) by {
        assert forall k :: 0 <= k < |line| - 1 ==> line[1..][k] == line[k + 1];
      }
      FirstDigitIsHead(line[1..], i - 1);
    }
  }

  lemma LastDigitIsTail(line: string, j: nat)
    requires LastDigitAt(line, j)
    ensures |Digits(line)| > 0 && Digits(line)[|Digits(line)| - 1] == line[j]
  {
    var a, b := line[..j], line[j + 1..];
    assert line == (a + [line[j]]) + b;
    DigitsAppend(a + [line[j]], b);
    DigitsAppend(a, [line[j]]);
    assert forall k :: 0 <= k < |b| ==> b[k] == line[j + 1 + k];
    DigitsNone(b);
    assert Digits([line[j]]) == [line[j]];
  }

  /** The calibration is ten times the first digit plus the last one; a
      single digit serves as both. */
  lemma CalibrationDigits(line: string, i: nat, j: nat)
    requires FirstDigitAt(line, i) && LastDigitAt(line, j)
    ensures Calibration(line) == Some(10 * DigitValue(line[i]) + DigitValue(line[j]))
  {
    FirstDigitIsHead(line, i);
    LastDigitIsTail(line, j);
  }

  /** "treb7uchet": the lone 7 is both the first and the last digit. */
  lemma LoneDigit()
    ensures Calibration("treb7uchet") == Some(77)
  {
    CalibrationDigits("treb7uchet", 4, 4);
  }

  /** `sum(...)` over the calibration values, failing with any line that
      fails. */
  function Total(values: seq<Option<nat>>): (r: Option<int>)
    ensures r.None? <==> exists k :: 0 <= k < |values| && values[k].None?
  {
    if |values| == 0 then Some(0)
    else
      var front := Total(values[..|values| - 1]);
      assert forall k :: 0 <= k < |values| - 1 ==> values[..|values| - 1][k] == values[k];
      match values[|values| - 1]
      case None => None
      case Some(v) => if front.None? then None else Some(front.value + v)
  }

  lemma {:induction false} TotalBound(values: seq<Option<nat>>, bound: nat)
    requires forall k :: 0 <= k < |values| && values[k].Some? ==> values[k].value <= bound
    ensures Total(values).Some? ==> 0 <= Total(values).value <= bound * |values|
  {
    if |values| > 0 {
      var front := values[..|values| - 1];
      assert forall k :: 0 <= k < |front| ==> front[k] == values[k];
      TotalBound(front, bound);
    }
  }

  function Calibrations(lines: seq<string>, calibrate: string -> Option<nat>): (r: seq<Option<nat>>)
    ensures |r| == |lines| && forall k :: 0 <= k < |lines| ==> r[k] == calibrate(lines[k])
  {
    seq(|lines|, k requires 0 <= k < |lines| => calibrate(lines[k]))
  }

  /** `part_1`: the sum of the calibration values; it fails exactly when
      some line has no digit, and is at most 99 per line. */
  function Part1(lines: seq<string>): (r: Option<int>)
    ensures r.None? <==> exists k :: 0 <= k < |lines| && NoDigit(lines[k])
    ensures r.Some? ==> 0 <= r.value <= 99 * |lines|
  {
    var values := Calibrations(lines, Calibration);
    TotalBound(values, 99);
    assert forall k :: 0 <= k < |lines| ==> values[k] == Calibration(lines[k]);
    Total(values)
  }

  // ---------------------------------------------------------------------
  // Part 2: digits spelled out as words

  /** `str.replace`: every occurrence of `target`, scanning left to right
      without overlaps, is replaced by `replacement`. */
  function Replace(s: string, target: string, replacement: string): string
    requires |target| > 0
    decreases |s|
  {
    if |s| < |target| then s
    else if s[..|target|] == target then replacement + Replace(s[|target|..], target, replacement)
    else [s[0]] + Replace(s[1..], target, replacement)
  }

  /** `target` starts at position `i` of `s`. */
  predicate OccursAt(s: string, target: string, i: int)
  {
    0 <= i && i + |target| <= |s| && s[i..i + |target|] == target
  }

  /** Text in which `target` does not occur is left as it is. */
  lemma {:induction false} ReplaceAbsent(s: string, target: string, replacement: string)
    requires |target| > 0 && forall i :: !OccursAt(s, target, i)
    ensures Replace(s, target, replacement) == s
    decreases |s|
  {
    if |s| >= |target| {
      assert !OccursAt(s, target, 0);
      forall i ensures !OccursAt(s[1..], target, i) {
        if OccursAt(s[1..], target, i) {
          assert s[1..][i..i + |target|] == s[i + 1..i + 1 + |target|];
          assert OccursAt(s, target, i + 1);
        }
      }
      ReplaceAbsent(s[1..], target, replacement);
      assert s == [s[0]] + s[1..];
    }
  }

  /** An occurrence at the front is wrapped and the scan goes on after it. */
  lemma ReplaceFront(s: string, target: string, replacement: string)
    requires |target| > 0 && OccursAt(s, target, 0)
    ensures Replace(s, target, replacement) == replacement + Replace(s[|target|..], target, replacement)
  {
  }

  /** The replacements of `calib`, each word wrapped around its own digit,
      in this order. */
  const Words: seq<string> := ["one", "two", "three", "four", "five", "six", "seven", "eight", "nine"]

  function Word(d: nat): string
    requires 1 <= d <= 9
  {
    Words[d - 1]
  }

  const Replacements: seq<string> :=
    ["one1one", "two2two", "three3three", "four4four", "five5five", "six6six", "seven7seven", "eight8eight", "nine9nine"]

  /** The word for digit `d` wrapped around that digit: "one1one". */
  function Wrapped(d: nat): (r: string)
    requires 1 <= d <= 9
    ensures |r| == 2 * |Word(d)| + 1
    ensures r[..|Word(d)|] == Word(d) && r[|Word(d)| + 1..] == Word(d)
    ensures IsDigit(r[|Word(d)|]) && DigitValue(r[|Word(d)|]) == d
  {
    Replacements[d - 1]
  }

  /** `real_line`: the replacements for the words from `d` on. */
  function Rewrite(line: string, d: nat): string
    requires 1 <= d <= 10
    decreases 10 - d
  {
    if d == 10 then line else Rewrite(Replace(line, Word(d), Wrapped(d)), d + 1)
  }

  /** No digit word occurs from word `d` on. */
  ghost predicate NoWords(line: string, d: nat)
    requires 1 <= d <= 10
  {
    forall w, i :: d <= w <= 9 ==> !OccursAt(line, Word(w), i)
  }

  /** The calibration value of a line once the words are wrapped: it fails
      exactly when the line has neither a digit nor a digit word, and a line
      without digit words reads as in the first part. */
  function Calibration2(line: string): (r: Option<nat>)
    ensures r.None? <==> NoDigit(line) && NoWords(line, 1)
    ensures r.Some? ==> r.value <= 99
    ensures NoWords(line, 1) ==> r == Calibration(line)
  {
    RewriteFindsDigit(line);
    Calibration(Rewrite(line, 1))
  }

  /** `part_2`: the sum of the values read after the words are wrapped; it
      fails exactly when some line has neither a digit nor a digit word, and
      is at most 99 per line. */
  function Part2(lines: seq<string>): (r: Option<int>)
    ensures r.None? <==> exists k :: 0 <= k < |lines| && NoDigit(lines[k]) && NoWords(lines[k], 1)
    ensures r.Some? ==> 0 <= r.value <= 99 * |lines|
  {
    var values := Calibrations(lines, Calibration2);
    TotalBound(values, 99);
    assert forall k :: 0 <= k < |lines| ==> values[k] == Calibration2(lines[k]);
    Total(values)
  }

  /** The digit words are spelled with letters only. */
  lemma WordsHaveNoDigit(d: nat)
    requires 1 <= d <= 9
    ensures NoDigit(Word(d))
  {
  }

  /** A replacement of letters-only text keeps every digit of the text. */
  lemma {:induction false} ReplaceKeepsDigit(s: string, target: string, replacement: string)
    requires |target| > 0 && NoDigit(target) && !NoDigit(s)
    ensures !NoDigit(Replace(s, target, replacement))
    decreases |s|
  {
    var k :| 0 <= k < |s| && IsDigit(s[k]);
    if |s| >= |target| {
      if s[..|target|] == target {
        assert forall j :: 0 <= j < |target| ==> s[j] == target[j];
        var rest := s[|target|..];
        assert IsDigit(rest[k - |target|]);
        ReplaceKeepsDigit(rest, target, replacement);
        var r := Replace(rest, target, replacement);
        var m :| 0 <= m < |r| && IsDigit(r[m]);
        assert (replacement + r)[|replacement| + m] == r[m];
      } else {
        var r := Replace(s[1..], target, replacement);
        if k == 0 {
          assert ([s[0]] + r)[0] == s[0];
        } else {
          assert IsDigit(s[1..][k - 1]);
          ReplaceKeepsDigit(s[1..], target, replacement);
          var m :| 0 <= m < |r| && IsDigit(r[m]);
          assert ([s[0]] + r)[m + 1] == r[m];
        }
      }
    }
  }

  /** Replacing an occurring word by text with a digit leaves a digit. */
  lemma {:induction false} ReplaceMakesDigit(s: string, target: string, replacement: string, i: nat)
    requires |target| > 0 && OccursAt(s, target, i) && !NoDigit(replacement)
    ensures !NoDigit(Replace(s, target, replacement))
    decreases |s|
  {
    if s[..|target|] == target {
      var r := Replace(s[|target|..], target, replacement);
      var m :| 0 <= m < |replacement| && IsDigit(replacement[m]);
      assert (replacement + r)[m] == replacement[m];
    } else {
      assert i > 0;
      assert s[1..][i - 1..i - 1 + |target|] == s[i..i + |target|];
      ReplaceMakesDigit(s[1..], target, replacement, i - 1);
      var r := Replace(s[1..], target, replacement);
      var m :| 0 <= m < |r| && IsDigit(r[m]);
      assert ([s[0]] + r)[m + 1] == r[m];
    }
  }

  /** The replacements from word `d` on keep every digit. */
  lemma {:induction false} RewriteKeepsDigit(line: string, d: nat)
    requires 1 <= d <= 10 && !NoDigit(line)
    ensures !NoDigit(Rewrite(line, d))
    decreases 10 - d
  {
    if d < 10 {
      WordsHaveNoDigit(d);
      ReplaceKeepsDigit(line, Word(d), Wrapped(d));
      RewriteKeepsDigit(Replace(line, Word(d), Wrapped(d)), d + 1);
    }
  }

  /** An occurring word `d` leaves a digit once the words from `d` on are
      wrapped. */
  lemma WordHereDigit(line: string, d: nat, j: nat)
    requires 1 <= d <= 9 && OccursAt(line, Word(d), j)
    ensures !NoDigit(Rewrite(line, d))
  {
    assert IsDigit(Wrapped(d)[|Word(d)|]);
    ReplaceMakesDigit(line, Word(d), Wrapped(d), j);
    RewriteKeepsDigit(Replace(line, Word(d), Wrapped(d)), d + 1);
  }

  /** An absent word is skipped. */
  lemma SkipAbsentWord(line: string, d: nat)
    requires 1 <= d <= 9 && forall j :: !OccursAt(line, Word(d), j)
    ensures Rewrite(line, d) == Rewrite(line, d + 1)
  {
    ReplaceAbsent(line, Word(d), Wrapped(d));
  }

  /** A digit word from word `d` on leaves a digit once the words are
      wrapped. */
  lemma {:induction false} RewriteWordDigit(line: string, d: nat)
    requires 1 <= d <= 10 && !NoWords(line, d)
    ensures !NoDigit(Rewrite(line, d))
    decreases 10 - d
  {
    var w, i :| d <= w <= 9 && OccursAt(line, Word(w), i);
    if w == d {
      WordHereDigit(line, d, i);
    } else if j :| OccursAt(line, Word(d), j) {
      WordHereDigit(line, d, j);
    } else {
      SkipAbsentWord(line, d);
      RewriteWordDigit(line, d + 1);
    }
  }

  /** The wrapped line has a digit exactly when the line has a digit or a
      digit word, and a line without digit words is not changed. */
  lemma RewriteFindsDigit(line: string)
    ensures NoDigit(Rewrite(line, 1)) <==> NoDigit(line) && NoWords(line, 1)
    ensures NoWords(line, 1) ==> Rewrite(line, 1) == line
  {
    if NoWords(line, 1) {
      PlainLineSame(line, 1);
    }
    if !NoDigit(line) {
      RewriteKeepsDigit(line, 1);
    } else if !NoWords(line, 1) {
      RewriteWordDigit(line, 1);
    } else {
      PlainLineSame(line, 1);
    }
  }

  /** A line spelling no digit word reads the same in both parts. */
  lemma {:induction false} PlainLineSame(line: string, d: nat)
    requires 1 <= d <= 10 && NoWords(line, d)
    ensures Rewrite(line, d) == line
    decreases 10 - d
  {
    if d < 10 {
      ReplaceAbsent(line, Word(d), Wrapped(d));
      PlainLineSame(line, d + 1);
    }
  }

  /** A word with a letter the text lacks does not occur in it. */
  lemma MissingLetter(s: string, target: string, c: char, i: int)
    requires c in target && forall k :: 0 <= k < |s| ==> s[k] != c
    ensures !OccursAt(s, target, i)
  {
  }

  lemma WrapOne()
    ensures Replace("twone", Word(1), Wrapped(1)) == "twone1one"
  {
    var one := Word(1);
    assert Replace("", one, Wrapped(1)) == "";
    assert Replace("one", one, Wrapped(1)) == "one1one";
    assert Replace("wone", one, Wrapped(1)) == "wone1one";
  }

  lemma NoTwo()
    ensures Replace("ne1one", Word(2), Wrapped(2)) == "ne1one"
  {
    var s := "ne1one";
    assert forall k :: 0 <= k < |s| ==> s[k] != 'w';
    forall i ensures !OccursAt(s, Word(2), i) {
      MissingLetter(s, Word(2), 'w', i);
    }
    ReplaceAbsent(s, Word(2), Wrapped(2));
  }

  lemma WrapTwo()
    ensures Replace("twone1one", Word(2), Wrapped(2)) == "two2twone1one"
  {
    var s := "twone1one";
    assert s[..3] == Word(2);
    assert s[3..] == "ne1one";
    ReplaceFront(s, Word(2), Wrapped(2));
    NoTwo();
    assert "two2two" + "ne1one" == "two2twone1one";
  }

  /** A letter of each word from "three" on. */
  function Letter(w: nat): char
  {
    if w == 3 then 'h' else if w <= 5 then 'f' else if w <= 7 then 's' else 'i'
  }

  lemma LettersOfWords(w: nat)
    requires 3 <= w <= 9
    ensures Letter(w) in Word(w)
  {
    if w == 3 {
      assert Word(w)[1] == 'h';
    } else if w <= 5 {
      assert Word(w)[0] == 'f';
    } else if w <= 7 {
      assert Word(w)[0] == 's';
    } else {
      assert Word(w)[1] == 'i';
    }
  }

  lemma LaterWordsAbsent()
    ensures NoWords("two2twone1one", 3)
  {
    var s := "two2twone1one";
    assert forall k :: 0 <= k < |s| ==> s[k] != 'h' && s[k] != 'f' && s[k] != 's' && s[k] != 'i';
    forall w, i | 3 <= w <= 9 ensures !OccursAt(s, Word(w), i) {
      LettersOfWords(w);
      MissingLetter(s, Word(w), Letter(w), i);
    }
  }

  lemma WrappedCalibration()
    ensures Calibration("two2twone1one") == Some(21)
  {
    var s := "two2twone1one";
    assert FirstDigitAt(s, 3);
    assert LastDigitAt(s, 9);
    CalibrationDigits(s, 3, 9);
  }

  /** "twone": "one" is wrapped first, which leaves "two" whole, so both
      words count although they share the 'o'; the first part fails on the
      same line for want of a digit. */
  lemma OverlappingWords()
    ensures Calibration("twone").None?
    ensures Calibration2("twone") == Some(21)
  {
    WrapOne();
    WrapTwo();
    assert Rewrite("twone", 1) == Rewrite("two2twone1one", 3);
    LaterWordsAbsent();
    PlainLineSame("two2twone1one", 3);
    WrappedCalibration();
  }
}
