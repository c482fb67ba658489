/** Day 15: the HASH algorithm and the HASHMAP of 256 boxes. Each box is an
    insertion-ordered list of labelled lenses (a Python dict keeps its keys in
    insertion order and keeps a key's position when its value is replaced). */
module Day15 {
  import opened Common

  /** The rolling hash continued from `start`: add the code point, multiply by
      17, keep the remainder modulo 256. */
  function HashFrom(start: nat, s: string): (h: nat)
    requires start < 256
    ensures h < 256
    decreases |s|
  {
    if |s| == 0 then start
    else HashFrom(((start + s[0] as int) * 17) % 256, s[1..])
  }

  function Hash(s: string): (h: nat)
    ensures h < 256
  {
    HashFrom(0, s)
  }

  /** The hash is a left fold: hashing a + b continues from the hash of a. */
  lemma {:induction false} HashAppend(start: nat, a: string, b: string)
    requires start < 256
    ensures HashFrom(start, a + b) == HashFrom(HashFrom(start, a), b)
    decreases |a|
  {
    if |a| > 0 {
      assert (a + b)[1..] == a[1..] + b;
      HashAppend(((start + a[0] as int) * 17) % 256, a[1..], b);
    } else {
      assert a + b == b;
    }
  }

  /** One more character: the loop body of `hash`. */
  lemma HashSnoc(s: string, c: char)
    ensures Hash(s + [c]) == ((Hash(s) + c as int) * 17) % 256
  {
    HashAppend(0, s, [c]);
  }

  /** One character at the front of the text: one round of the hash. */
  lemma HashCons(start: nat, c: char, t: string, next: nat)
    requires start < 256 && next == ((start + c as int) * 17) % 256
    ensures HashFrom(start, [c] + t) == HashFrom(next, t)
  {
    assert ([c] + t)[0] == c && ([c] + t)[1..] == t;
  }

  lemma HashExample()
    ensures Hash("HASH") == 52
  {
    var s := ['H'] + (['A'] + (['S'] + (['H'] + [])));
    HashCons(172, 'H', [], 52);
    HashCons(153, 'S', ['H'] + [], 172);
    HashCons(200, 'A', ['S'] + (['H'] + []), 153);
    HashCons(0, 'H', ['A'] + (['S'] + (['H'] + [])), 200);
    assert HashFrom(0, s) == 52;
    assert "HASH" == s;
  }

  /** part_1: the sum of the hashes of the comma-separated steps. */
  function Part1(steps: seq<string>): (total: nat)
    ensures total <= 255 * |steps|
  {
    if |steps| == 0 then 0 else Hash(steps[0]) + Part1(steps[1..])
  }

  // ---------------------------------------------------------------------------
  // The HASHMAP

  datatype Lens = Lens(name: string, focal: int)

  type Box = seq<Lens>

  /** A step of the initialisation sequence. */
  datatype Op = Remove(name: string) | Assign(name: string, focal: int)

  /** The value of a non-empty run of decimal digits. */
  function DigitsValue(s: string): (v: Option<nat>)
    ensures v.Some? ==> |s| > 0
    ensures |s| == 1 && '0' <= s[0] <= '9' ==> v == Some(s[0] as int - '0' as int)
  {
    if |s| == 0 then None
    else if !('0' <= s[|s| - 1] <= '9') then None
    else if |s| == 1 then Some(s[0] as int - '0' as int)
    else match DigitsValue(s[..|s| - 1])
      case None => None
      case Some(v) => Some(10 * v + (s[|s| - 1] as int - '0' as int))
  }

  function IndexOf(s: string, c: char): (i: nat)
    requires c in s
    ensures i < |s| && s[i] == c && c !in s[..i]
  {
    if s[0] == c then 0 else 1 + IndexOf(s[1..], c)
  }

  /** How a step is read: a trailing '-' removes the name before it; otherwise
      "name=f" assigns. A step that has neither form (or more than one '=',
      which fails to unpack, or a focal length that is not a number) is not
      accepted. */
  function ParseStep(s: string): (op: Option<Op>)
    ensures |s| > 0 && s[|s| - 1] == '-' ==> op == Some(Remove(s[..|s| - 1]))
    ensures !(|s| > 0 && s[|s| - 1] == '-') && '=' !in s ==> op == None
    ensures op.Some? && op.value.Assign? ==> s == op.value.name + "=" + Digits(op.value.focal)
  {
    if |s| > 0 && s[|s| - 1] == '-' then Some(Remove(s[..|s| - 1]))
    else if '=' !in s then None
    else
      var i := IndexOf(s, '=');
      var name := s[..i];
      var text := s[i + 1..];
      if '=' in text then None
      else match DigitsValue(text)
        case None => None
        case Some(f) =>
          if Digits(f) == text then
            assert s == name + "=" + text;
            Some(Assign(name, f))
          else None
  }

  /** Decimal notation of a natural number (no leading zeros). */
  function Digits(n: int): string
    decreases if n < 0 then 0 else n
  {
    if n < 0 then "-"
    else if n < 10 then [('0' as int + n) as char]
    else Digits(n / 10) + [('0' as int + n % 10) as char]
  }

  predicate HasLabel(box: Box, name: string)
  {
    exists i :: 0 <= i < |box| && box[i].name == name
  }

  /** Dictionary keys are distinct. */
  predicate UniqueLabels(box: Box)
  {
    forall i, j :: 0 <= i < j < |box| ==> box[i].name != box[j].name
  }

  /** pop(name, None): the box without the name, others in their order. */
  function RemoveLens(box: Box, name: string): Box
  {
    if |box| == 0 then []
    else
      var rest := RemoveLens(box[1..], name);
      if box[0].name == name then rest else [box[0]] + rest
  }

  /** Removing a label leaves it absent, changes nothing when it was absent,
      keeps only lenses of the box and every lens with another label, and
      keeps labels unique. */
  lemma {:induction false} RemoveLensSpec(box: Box, name: string)
    ensures var r := RemoveLens(box, name);
      && !HasLabel(r, name)
      && (!HasLabel(box, name) ==> r == box)
      && (forall i :: 0 <= i < |r| ==> r[i] in box)
      && (forall l :: l in box && l.name != name ==> l in r)
      && (UniqueLabels(box) ==> UniqueLabels(r))
  {
    if |box| > 0 {
      RemoveLensSpec(box[1..], name);
      var rest := RemoveLens(box[1..], name);
      if box[0].name == name {
        RemoveHead(box, name, rest);
      } else {
        RemoveCons(box, name, rest);
      }
    }
  }

  /** What RemoveLens promises of `rest` for the tail of `box`. */
  predicate RemovedFrom(rest: Box, box: Box, name: string)
  {
    && !HasLabel(rest, name)
    && (!HasLabel(box, name) ==> rest == box)
    && (forall i :: 0 <= i < |rest| ==> rest[i] in box)
    && (forall l :: l in box && l.name != name ==> l in rest)
    && (UniqueLabels(box) ==> UniqueLabels(rest))
  }

  /** The first lens carries the label: dropping it and removing from the rest. */
  lemma RemoveHead(box: Box, name: string, rest: Box)
    requires |box| > 0 && box[0].name == name && RemovedFrom(rest, box[1..], name)
    ensures RemovedFrom(rest, box, name)
  {
    assert HasLabel(box, name);
    assert forall l :: l in box[1..] ==> l in box;
    forall l | l in box && l.name != name ensures l in box[1..] {
      var k :| 0 <= k < |box| && box[k] == l;
      assert box[1..][k - 1] == l;
    }
    UniqueTail(box);
  }

  lemma UniqueTail(box: Box)
    requires |box| > 0
    ensures UniqueLabels(box) ==> UniqueLabels(box[1..])
  {
    if UniqueLabels(box) {
      forall i, j | 0 <= i < j < |box[1..]| ensures box[1..][i].name != box[1..][j].name {
        assert box[1..][i] == box[i + 1] && box[1..][j] == box[j + 1];
      }
    }
  }

  /** The first lens keeps its place in front of what remains of the others. */
  lemma RemoveCons(box: Box, name: string, rest: Box)
    requires |box| > 0 && box[0].name != name && RemovedFrom(rest, box[1..], name)
    ensures RemovedFrom([box[0]] + rest, box, name)
  {
    var r := [box[0]] + rest;
    assert forall i :: 1 <= i < |r| ==> r[i] == rest[i - 1];
    assert forall l :: l in box[1..] ==> l in box;
    forall i | 0 <= i < |r| ensures r[i].name != name {
      if i > 0 {
        assert r[i] == rest[i - 1];
      }
    }
    if !HasLabel(box, name) {
      assert !HasLabel(box[1..], name) by {
        forall i | 0 <= i < |box[1..]| ensures box[1..][i].name != name {
          assert box[1..][i] == box[i + 1];
        }
      }
      assert r == box;
    }
    forall l | l in box && l.name != name ensures l in r {
      var k :| 0 <= k < |box| && box[k] == l;
      if k > 0 {
        assert box[1..][k - 1] == l;
      }
    }
    ConsUnique(box, rest);
  }

  /** Putting back the first lens in front of lenses taken from the others
      keeps labels unique. */
  lemma ConsUnique(box: Box, rest: Box)
    requires |box| > 0 && forall i :: 0 <= i < |rest| ==> rest[i] in box[1..]
    requires UniqueLabels(box[1..]) ==> UniqueLabels(rest)
    ensures UniqueLabels(box) ==> UniqueLabels([box[0]] + rest)
  {
    if UniqueLabels(box) {
      UniqueTail(box);
      var r := [box[0]] + rest;
      forall i, j | 0 <= i < j < |r| ensures r[i].name != r[j].name {
        if i == 0 {
          var k :| 0 <= k < |box[1..]| && box[1..][k] == rest[j - 1];
          assert box[k + 1] == r[j];
        } else {
          assert r[i] == rest[i - 1] && r[j] == rest[j - 1];
        }
      }
    }
  }

  /** When the name is present exactly once, removing it drops exactly that
      slot and keeps the order of the others. */
  lemma {:induction false} RemoveAtIndex(box: Box, i: nat)
    requires UniqueLabels(box) && i < |box|
    ensures RemoveLens(box, box[i].name) == box[..i] + box[i + 1..]
  {
    UniqueTail(box);
    if i == 0 {
      RemoveFirst(box);
    } else {
      RemoveAtIndex(box[1..], i - 1);
      RemoveLater(box, i);
    }
  }

  lemma RemoveFirst(box: Box)
    requires UniqueLabels(box) && |box| > 0
    ensures RemoveLens(box, box[0].name) == box[..0] + box[1..]
  {
    assert forall k :: 0 <= k < |box[1..]| ==> box[1..][k] == box[k + 1];
    RemoveAbsent(box[1..], box[0].name);
    assert box[..0] + box[1..] == box[1..];
  }

  /** Removing a later slot's label keeps the first lens in front of the tail
      with that slot cut out. */
  lemma RemoveLater(box: Box, i: nat)
    requires 0 < i < |box| && UniqueLabels(box)
    requires RemoveLens(box[1..], box[1..][i - 1].name) == box[1..][..i - 1] + box[1..][i..]
    ensures RemoveLens(box, box[i].name) == box[..i] + box[i + 1..]
  {
    var t := box[1..];
    assert t[i - 1] == box[i];
    assert box[0].name != box[i].name;
    assert RemoveLens(box, box[i].name) == [box[0]] + RemoveLens(t, box[i].name);
    PrefixCons(box, i);
    assert box[i + 1..] == t[i..];
    ConsAppend(box[0], t[..i - 1], t[i..]);
  }

  lemma RemoveAbsent(box: Box, name: string)
    requires forall i :: 0 <= i < |box| ==> box[i].name != name
    ensures RemoveLens(box, name) == box
  {
    RemoveLensSpec(box, name);
  }

  function FindLabel(box: Box, name: string): (i: nat)
    requires HasLabel(box, name)
    ensures i < |box| && box[i].name == name
    ensures forall j :: 0 <= j < i ==> box[j].name != name
  {
    if box[0].name == name then 0
    else
      assert HasLabel(box[1..], name) by {
        var k :| 0 <= k < |box| && box[k].name == name;
        assert box[1..][k - 1] == box[k];
      }
      1 + FindLabel(box[1..], name)
  }

  /** boxes[h][name] = f: replace in place, or append at the end. */
  function Upsert(box: Box, name: string, focal: int): (r: Box)
    ensures HasLabel(box, name) ==> |r| == |box|
    ensures HasLabel(box, name) ==> var i := FindLabel(box, name); r == box[i := Lens(name, focal)]
    ensures !HasLabel(box, name) ==> r == box + [Lens(name, focal)]
    ensures UniqueLabels(box) ==> UniqueLabels(r)
  {
    if HasLabel(box, name) then
      var i := FindLabel(box, name);
      box[i := Lens(name, focal)]
    else
      box + [Lens(name, focal)]
  }

  type Boxes = seq<Box>

  function EmptyBoxes(): (b: Boxes)
    ensures |b| == 256 && forall i :: 0 <= i < 256 ==> b[i] == []
  {
    seq(256, _ => [])
  }

  /** Every lens sits in the box its name hashes to, and keys are distinct. */
  predicate Placed(boxes: Boxes)
  {
    |boxes| == 256
    && (forall b :: 0 <= b < 256 ==> UniqueLabels(boxes[b]))
    && forall b, i :: 0 <= b < 256 && 0 <= i < |boxes[b]| ==> Hash(boxes[b][i].name) == b
  }

  /** One step of part_2 on the boxes. */
  function Apply(boxes: Boxes, op: Op): (r: Boxes)
    requires |boxes| == 256
    ensures |r| == 256
    ensures forall b :: 0 <= b < 256 && b != Hash(op.name) ==> r[b] == boxes[b]
    ensures op.Remove? ==> r[Hash(op.name)] == RemoveLens(boxes[Hash(op.name)], op.name)
    ensures op.Assign? ==> r[Hash(op.name)] == Upsert(boxes[Hash(op.name)], op.name, op.focal)
    ensures Placed(boxes) ==> Placed(r)
  {
    var h := Hash(op.name);
    var box := boxes[h];
    match op
      case Remove(name) =>
        RemoveLensSpec(box, name);
        boxes[h := RemoveLens(box, name)]
      case Assign(name, focal) => boxes[h := Upsert(box, name, focal)]
  }

  /** Applies every step in order; None when a step is not accepted. */
  function Run(boxes: Boxes, steps: seq<string>): (r: Option<Boxes>)
    requires |boxes| == 256
    ensures r.Some? ==> |r.value| == 256
    ensures r.Some? && Placed(boxes) ==> Placed(r.value)
    ensures r.None? <==> exists i :: 0 <= i < |steps| && ParseStep(steps[i]).None?
    decreases |steps|
  {
    if |steps| == 0 then Some(boxes)
    else match ParseStep(steps[0])
      case None => None
      case Some(op) =>
        var rest := Run(Apply(boxes, op), steps[1..]);
        assert forall i :: 1 <= i < |steps| ==> steps[i] == steps[1..][i - 1];
        assert rest.None? ==> exists i :: 1 <= i < |steps| && ParseStep(steps[i]).None? by {
          if rest.None? {
            var k :| 0 <= k < |steps[1..]| && ParseStep(steps[1..][k]).None?;
            assert ParseStep(steps[k + 1]).None?;
          }
        }
        rest
  }

  /** Focusing power of one box: the box number times the sum of
      slot number times focal length, numbers counted from 1. */
  function BoxPower(boxNumber: int, box: Box, firstSlot: int): int
  {
    if |box| == 0 then 0
    else boxNumber * firstSlot * box[0].focal + BoxPower(boxNumber, box[1..], firstSlot + 1)
  }

  function PowerFrom(boxes: Boxes, b: nat): int
    requires b <= |boxes|
    decreases |boxes| - b
  {
    if b == |boxes| then 0 else BoxPower(b + 1, boxes[b], 1) + PowerFrom(boxes, b + 1)
  }

  /** The box power is the explicit sum over slots. */
  lemma {:induction false} BoxPowerIsSlotSum(boxNumber: int, box: Box, firstSlot: int)
    ensures BoxPower(boxNumber, box, firstSlot) ==
      Sum(seq(|box|, i requires 0 <= i < |box| => boxNumber * (firstSlot + i) * box[i].focal))
  {
    var terms := seq(|box|, i requires 0 <= i < |box| => boxNumber * (firstSlot + i) * box[i].focal);
    if |box| > 0 {
      BoxPowerIsSlotSum(boxNumber, box[1..], firstSlot + 1);
      var rest := seq(|box[1..]|, i requires 0 <= i < |box[1..]| => boxNumber * (firstSlot + 1 + i) * box[1..][i].focal);
      assert terms[1..] == rest;
    }
  }

  /** Replacing a lens's focal length changes the power by exactly its own
      slot's difference: the other lenses keep their slots. */
  lemma {:induction false} BoxPowerReplace(boxNumber: int, box: Box, firstSlot: int, i: nat, focal: int)
    requires i < |box|
    ensures BoxPower(boxNumber, box[i := Lens(box[i].name, focal)], firstSlot) ==
      BoxPower(boxNumber, box, firstSlot) + boxNumber * (firstSlot + i) * (focal - box[i].focal)
  {
    var updated := box[i := Lens(box[i].name, focal)];
    if i == 0 {
      assert updated[1..] == box[1..];
      assert boxNumber * firstSlot * focal ==
        boxNumber * firstSlot * box[0].focal + boxNumber * firstSlot * (focal - box[0].focal);
    } else {
      assert updated[1..] == box[1..][i - 1 := Lens(box[i].name, focal)];
      BoxPowerReplace(boxNumber, box[1..], firstSlot + 1, i - 1, focal);
    }
  }

  /** Appending a lens adds the new last slot's term. */
  lemma {:induction false} BoxPowerAppend(boxNumber: int, box: Box, firstSlot: int, lens: Lens)
    ensures BoxPower(boxNumber, box + [lens], firstSlot) ==
      BoxPower(boxNumber, box, firstSlot) + boxNumber * (firstSlot + |box|) * lens.focal
  {
    if |box| > 0 {
      assert (box + [lens])[1..] == box[1..] + [lens];
      BoxPowerAppend(boxNumber, box[1..], firstSlot + 1, lens);
    } else {
      assert box + [lens] == [lens];
      assert [lens][1..] == [];
    }
  }

  /** The terms of box b in the source's double sum: box number times slot
      number times focal length, both counted from 1. */
  function SlotTerms(boxes: Boxes, b: nat): seq<int>
    requires b < |boxes|
  {
    seq(|boxes[b]|, i requires 0 <= i < |boxes[b]| => (b + 1) * (1 + i) * boxes[b][i].focal)
  }

  /** The sum of each box's terms, for the boxes from b on. */
  function BoxTotals(boxes: Boxes, b: nat): seq<int>
    requires b <= |boxes|
  {
    seq(|boxes| - b, k requires 0 <= k < |boxes| - b => Sum(SlotTerms(boxes, b + k)))
  }

  lemma {:induction false} PowerFromIsSum(boxes: Boxes, b: nat)
    requires b <= |boxes|
    ensures PowerFrom(boxes, b) == Sum(BoxTotals(boxes, b))
    decreases |boxes| - b
  {
    if b < |boxes| {
      PowerFromIsSum(boxes, b + 1);
      BoxPowerIsSlotSum(b + 1, boxes[b], 1);
      var box := boxes[b];
      assert SlotTerms(boxes, b) == seq(|box|, i requires 0 <= i < |box| => (b + 1) * (1 + i) * box[i].focal);
      assert BoxTotals(boxes, b)[0] == Sum(SlotTerms(boxes, b));
      assert BoxTotals(boxes, b)[1..] == BoxTotals(boxes, b + 1);
    } else {
      assert BoxTotals(boxes, b) == [];
    }
  }

  /** With every box empty there is nothing to sum. */
  lemma {:induction false} PowerFromEmpty(boxes: Boxes, b: nat)
    requires b <= |boxes| && forall k :: 0 <= k < |boxes| ==> boxes[k] == []
    ensures PowerFrom(boxes, b) == 0
    decreases |boxes| - b
  {
    if b < |boxes| {
      PowerFromEmpty(boxes, b + 1);
    }
  }

  /** The sum over the boxes, numbered from 1, of the sum over their slots,
      numbered from 1, of box number times slot number times focal length. */
  function FocusingPower(boxes: Boxes): (r: int)
    requires |boxes| == 256
    ensures r == Sum(BoxTotals(boxes, 0))
  {
    PowerFromIsSum(boxes, 0);
    PowerFrom(boxes, 0)
  }

  /** Changing one box changes the total power by that box's change only. */
  lemma {:induction false} PowerFromUpdate(boxes: Boxes, b: nat, h: nat, nb: Box)
    requires b <= |boxes| && h < |boxes|
    ensures PowerFrom(boxes[h := nb], b) == PowerFrom(boxes, b)
      + (if b <= h then BoxPower(h + 1, nb, 1) - BoxPower(h + 1, boxes[h], 1) else 0)
    decreases |boxes| - b
  {
    if b < |boxes| {
      PowerFromUpdate(boxes, b + 1, h, nb);
    }
  }

  /** A step changes the focusing power only through the box its label
      hashes to. */
  lemma ApplyPowerChange(boxes: Boxes, op: Op)
    requires |boxes| == 256
    ensures var h := Hash(op.name);
      FocusingPower(Apply(boxes, op)) ==
        FocusingPower(boxes) - BoxPower(h + 1, boxes[h], 1) + BoxPower(h + 1, Apply(boxes, op)[h], 1)
  {
    var h := Hash(op.name);
    var r := Apply(boxes, op);
    assert r == boxes[h := r[h]];
    PowerFromUpdate(boxes, 0, h, r[h]);
  }

  /** part_2: the focusing power after every step, from empty boxes. It
      fails exactly when a step is not accepted, and is 0 with no steps. */
  function Part2(steps: seq<string>): (r: Option<int>)
    ensures r.None? <==> exists i :: 0 <= i < |steps| && ParseStep(steps[i]).None?
    ensures |steps| == 0 ==> r == Some(0)
  {
    PowerFromEmpty(EmptyBoxes(), 0);
    match Run(EmptyBoxes(), steps)
      case None => None
      case Some(boxes) => Some(FocusingPower(boxes))
  }

  lemma ExampleSteps()
    ensures ParseStep("cm-") == Some(Remove("cm"))
    ensures ParseStep("rn=1") == Some(Assign("rn", 1))
    ensures ParseStep("rn") == None
    ensures Hash("rn") == 0 && Hash("cm") == 0 && Hash("qp") == 1
  {
    assert "cm-"[..2] == "cm";
    var s := "rn=1";
    assert s[..|s| - 1] == "rn=";
    assert IndexOf(s, '=') == 2;
    assert s[..2] == "rn" && s[3..] == "1";
    assert DigitsValue("1") == Some(1);
    assert Digits(1) == "1";
  }
}
