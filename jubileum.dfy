/** The jubilee search: from the participants' starting ages (days each was
    alive when the youngest was born), find for each milestone of 50, 100, ...,
    400 combined years the day offset after the youngest's birth at which the
    ages add up to it, and report each participant's age then.  Arithmetic is
    on exact rationals. */
module Jubileum {
  import opened Wrappers
  import opened Strings
  import opened DateMath

  const DAYS_IN_A_YEAR: real := 365.2524

  /** The first milestone, the step between milestones and the bound they stay below. */
  const FIRST_MILESTONE: nat := 50
  const MILESTONE_STEP: nat := 50
  const MILESTONE_BOUND: nat := 450

  /** Reference sum of a list of ages. */
  function Sum(s: seq<real>): real {
    if s == [] then 0.0 else s[0] + Sum(s[1..])
  }

  /** `array.reduce((ageSum, currentAge) => ageSum += currentAge)`: a left
      fold that starts from the first element. */
  function Reduce(acc: real, rest: seq<real>): real
    decreases rest
  {
    if rest == [] then acc else Reduce(acc + rest[0], rest[1..])
  }

  lemma {:induction false} ReduceIsSum(acc: real, rest: seq<real>)
    ensures Reduce(acc, rest) == acc + Sum(rest)
    decreases rest
  {
    if rest != [] {
      ReduceIsSum(acc + rest[0], rest[1..]);
    }
  }

  /** `getArraySum`: the single age itself for one participant, the reduce
      otherwise; either way the sum of the ages. */
  function ArraySum(ages: seq<real>): (r: real)
    requires |ages| >= 1
    ensures r == Sum(ages)
  {
    if |ages| == 1 then ages[0]
    else
      ReduceIsSum(ages[0], ages[1..]);
      Reduce(ages[0], ages[1..])
  }

  /** `getStartingAgesBasedOnYoungest`: for each birthdate, the days from it
      to the youngest participant's birthdate. */
  function StartingAges(birthdays: seq<Date>, youngest: nat): (ages: seq<real>)
    requires youngest < |birthdays|
    requires AllValid(birthdays)
    ensures |ages| == |birthdays|
    ensures ages[youngest] == 0.0
    ensures forall k :: 0 <= k < |birthdays| ==>
      ages[k] == (DaysFromCivil(birthdays[youngest]) - DaysFromCivil(birthdays[k])) as real
  {
    DifferenceProperties(birthdays[youngest], birthdays[youngest]);
    seq(|birthdays|, k requires 0 <= k < |birthdays| =>
      DateDifferenceBetween(birthdays[youngest], birthdays[k]) as real)
  }

  /** When the tracked youngest really has the latest birthdate, nobody's
      starting age is negative. */
  lemma StartingAgesNonNegative(birthdays: seq<Date>, youngest: nat)
    requires youngest < |birthdays|
    requires AllValid(birthdays)
    requires forall k :: 0 <= k < |birthdays| ==> DaysFromCivil(birthdays[k]) <= DaysFromCivil(birthdays[youngest])
    ensures forall k :: 0 <= k < |birthdays| ==> StartingAges(birthdays, youngest)[k] >= 0.0
  {
  }

  /** `tooOld`: older than 105 years of `DAYS_IN_A_YEAR` days. */
  predicate TooOld(age: real) {
    age > 105.0 * DAYS_IN_A_YEAR
  }

  /** Somebody is too old once every starting age is moved on by `offset`. */
  predicate AnyTooOld(startingAges: seq<real>, offset: real) {
    exists k :: 0 <= k < |startingAges| && TooOld(startingAges[k] + offset)
  }

  function Shifted(startingAges: seq<real>, offset: real): seq<real> {
    seq(|startingAges|, k requires 0 <= k < |startingAges| => startingAges[k] + offset)
  }

  /** `getAgesAtNewJubileum`: every starting age moved on by the offset, or
      none at the first age that is too old. */
  method AgesAtNewJubileum(startingAges: seq<real>, offset: real) returns (r: Option<seq<real>>)
    ensures r.None? <==> AnyTooOld(startingAges, offset)
    ensures r.Some? ==> |r.value| == |startingAges|
    ensures r.Some? ==> forall k :: 0 <= k < |startingAges| ==> r.value[k] == startingAges[k] + offset
  {
    var ages: seq<real> := [];
    for i := 0 to |startingAges|
      invariant |ages| == i
      invariant forall k :: 0 <= k < i ==> ages[k] == startingAges[k] + offset && !TooOld(ages[k])
    {
      var newAge := startingAges[i] + offset;
      if TooOld(newAge) {
        return None;
      }
      ages := ages + [newAge];
    }
    return Some(ages);
  }

  /** The day offset per participant at which the ages add up to `milestone` years. */
  function Offset(startingAges: seq<real>, ageSum: real, milestone: int): real
    requires |startingAges| >= 1
  {
    (milestone as real * DAYS_IN_A_YEAR - ageSum) / |startingAges| as real
  }

  /** One emitted milestone: the combined age in years, the day offset after
      the youngest's birthdate, and every participant's age in days then. */
  datatype Jubilee = Jubilee(milestone: nat, offset: real, ages: seq<real>)

  /** What the milestone loop emits from `milestone` on: a milestone with a
      negative offset is skipped, the first one at which somebody is too old
      ends the search. */
  function JubileesFrom(startingAges: seq<real>, ageSum: real, milestone: nat): seq<Jubilee>
    requires |startingAges| >= 1
    decreases MILESTONE_BOUND - milestone
  {
    if milestone >= MILESTONE_BOUND then []
    else
      var offset := Offset(startingAges, ageSum, milestone);
      if offset < 0.0 then JubileesFrom(startingAges, ageSum, milestone + MILESTONE_STEP)
      else if AnyTooOld(startingAges, offset) then []
      else [Jubilee(milestone, offset, Shifted(startingAges, offset))]
           + JubileesFrom(startingAges, ageSum, milestone + MILESTONE_STEP)
  }

  /** The jubilees of the whole milestone series. */
  function Jubilees(startingAges: seq<real>, ageSum: real): seq<Jubilee>
    requires |startingAges| >= 1
  {
    JubileesFrom(startingAges, ageSum, FIRST_MILESTONE)
  }

  // ---------------------------------------------------------------------
  // Rendering of one emitted milestone.

  /** One `name: age` entry; the age in years is `(days - 1) / DAYS_IN_A_YEAR`
      written by `toFixed`, which stays a parameter. */
  function AgeEntries(names: seq<string>, ages: seq<real>, toFixed: real -> string): (entries: seq<string>)
    requires |names| == |ages|
  {
    seq(|names|, k requires 0 <= k < |names| =>
      names[k] + ": " + toFixed((ages[k] - 1.0) / DAYS_IN_A_YEAR))
  }

  /** `createFormattedAgeString`: every entry followed by `", "`, then the
      last two characters cut off. */
  method FormattedAgeString(names: seq<string>, ages: seq<real>, toFixed: real -> string) returns (s: string)
    requires |names| == |ages|
    ensures s == Join(AgeEntries(names, ages, toFixed), ", ")
  {
    ghost var entries := AgeEntries(names, ages, toFixed);
    var ageString := "";
    for i := 0 to |names|
      invariant i == 0 ==> ageString == ""
      invariant i > 0 ==> ageString == Join(entries[..i], ", ") + ", "
    {
      var entry := names[i] + ": " + toFixed((ages[i] - 1.0) / DAYS_IN_A_YEAR);
      assert entry == entries[i];
      if i > 0 {
        JoinSnoc(entries[..i], entry, ", ");
        assert entries[..i + 1] == entries[..i] + [entry];
      } else {
        assert entries[..1] == [entry];
      }
      ageString := ageString + entry + ", ";
    }
    s := if |ageString| >= 2 then ageString[..|ageString| - 2] else "";
    if |names| > 0 {
      assert entries[..|names|] == entries;
    }
  }

  /** The age string has one entry per participant, `name: age`, with the
      two characters of `", "` between consecutive entries and after none
      but those: it ends with the last participant's entry. */
  lemma AgeStringShape(names: seq<string>, ages: seq<real>, toFixed: real -> string)
    requires |names| == |ages| && |names| >= 1
    ensures var entries := AgeEntries(names, ages, toFixed);
      var s := Join(entries, ", ");
      |entries| == |names|
      && (forall k :: 0 <= k < |names| ==> entries[k] == names[k] + ": " + toFixed((ages[k] - 1.0) / DAYS_IN_A_YEAR))
      && |s| == TotalLength(entries) + 2 * (|names| - 1)
      && |entries[|names| - 1]| <= |s|
      && s[|s| - |entries[|names| - 1]|..] == entries[|names| - 1]
  {
    var entries := AgeEntries(names, ages, toFixed);
    JoinLength(entries, ", ");
    var n := |entries|;
    if n > 1 {
      assert entries == entries[..n - 1] + [entries[n - 1]];
      JoinSnoc(entries[..n - 1], entries[n - 1], ", ");
    }
  }

  /** The text of one list item: `<milestone> jaar op <date> (<ages>)`. */
  function JubileeText(j: Jubilee, date: string, ageString: string): string {
    Decimal(j.milestone) + " jaar op " + date + " (" + ageString + ")"
  }

  /** The list items for emitted milestones, dated from the youngest birthdate. */
  function Render(js: seq<Jubilee>, names: seq<string>, youngestBirthday: Date, toFixed: real -> string): (items: seq<string>)
    requires ValidDate(youngestBirthday)
    requires forall k :: 0 <= k < |js| ==> |js[k].ages| == |names|
  {
    seq(|js|, k requires 0 <= k < |js| =>
      JubileeText(js[k], OffsetAndFormatDate(youngestBirthday, js[k].offset),
                  Join(AgeEntries(names, js[k].ages, toFixed), ", ")))
  }

  /** The list items the search appends for the whole milestone series. */
  function JubileeItems(startingAges: seq<real>, ageSum: real, names: seq<string>,
                        youngestBirthday: Date, toFixed: real -> string): seq<string>
    requires |startingAges| >= 1 && |names| == |startingAges| && ValidDate(youngestBirthday)
  {
    JubileesShape(startingAges, ageSum);
    Render(Jubilees(startingAges, ageSum), names, youngestBirthday, toFixed)
  }

  /** `calculateAndAddJubileums`: the loop over the milestones, returning the
      emitted milestones and the list items it appends for them. */
  method CalculateAndAddJubileums(startingAges: seq<real>, ageSum: real, names: seq<string>,
                                  youngestBirthday: Date, toFixed: real -> string)
    returns (js: seq<Jubilee>, items: seq<string>)
    requires |startingAges| >= 1 && |names| == |startingAges| && ValidDate(youngestBirthday)
    ensures js == Jubilees(startingAges, ageSum)
    ensures items == JubileeItems(startingAges, ageSum, names, youngestBirthday, toFixed)
  {
    js, items := [], [];
    var i: nat := FIRST_MILESTONE;
    while i < MILESTONE_BOUND
      invariant FIRST_MILESTONE <= i
      invariant js + JubileesFrom(startingAges, ageSum, i) == Jubilees(startingAges, ageSum)
      invariant forall k :: 0 <= k < |js| ==> |js[k].ages| == |names|
      invariant items == Render(js, names, youngestBirthday, toFixed)
    {
      var offset := (i as real * DAYS_IN_A_YEAR - ageSum) / |startingAges| as real;
      if offset < 0.0 {
        SkipStep(startingAges, ageSum, i);
        i := i + MILESTONE_STEP;
        continue;
      }
      var ages := AgesAtNewJubileum(startingAges, offset);
      if ages.None? {
        StopStep(startingAges, ageSum, i);
        assert js + [] == js;
        return;
      }
      ShiftedIs(startingAges, offset, ages.value);
      var date := OffsetAndFormatDate(youngestBirthday, offset);
      var ageString := FormattedAgeString(names, ages.value, toFixed);
      var j := Jubilee(i, offset, ages.value);
      EmitStep(startingAges, ageSum, i, js);
      RenderSnoc(js, j, names, youngestBirthday, toFixed);
      js := js + [j];
      items := items + [JubileeText(j, date, ageString)];
      i := i + MILESTONE_STEP;
    }
  }

  lemma ShiftedIs(startingAges: seq<real>, offset: real, ages: seq<real>)
    requires |ages| == |startingAges|
    requires forall k :: 0 <= k < |startingAges| ==> ages[k] == startingAges[k] + offset
    ensures ages == Shifted(startingAges, offset)
  {
  }

  /** A milestone with a negative offset is passed over. */
  lemma SkipStep(startingAges: seq<real>, ageSum: real, milestone: nat)
    requires |startingAges| >= 1 && milestone < MILESTONE_BOUND
    requires Offset(startingAges, ageSum, milestone) < 0.0
    ensures JubileesFrom(startingAges, ageSum, milestone) == JubileesFrom(startingAges, ageSum, milestone + MILESTONE_STEP)
  {
  }

  /** A milestone at which somebody is too old ends the search. */
  lemma StopStep(startingAges: seq<real>, ageSum: real, milestone: nat)
    requires |startingAges| >= 1 && milestone < MILESTONE_BOUND
    requires Offset(startingAges, ageSum, milestone) >= 0.0
    requires AnyTooOld(startingAges, Offset(startingAges, ageSum, milestone))
    ensures JubileesFrom(startingAges, ageSum, milestone) == []
  {
  }

  /** Any other milestone is emitted before the ones after it. */
  lemma EmitStep(startingAges: seq<real>, ageSum: real, milestone: nat, js: seq<Jubilee>)
    requires |startingAges| >= 1 && milestone < MILESTONE_BOUND
    requires Offset(startingAges, ageSum, milestone) >= 0.0
    requires !AnyTooOld(startingAges, Offset(startingAges, ageSum, milestone))
    ensures var offset := Offset(startingAges, ageSum, milestone);
      js + JubileesFrom(startingAges, ageSum, milestone) ==
      js + [Jubilee(milestone, offset, Shifted(startingAges, offset))] + JubileesFrom(startingAges, ageSum, milestone + MILESTONE_STEP)
  {
    var offset := Offset(startingAges, ageSum, milestone);
    var rest := JubileesFrom(startingAges, ageSum, milestone + MILESTONE_STEP);
    assert JubileesFrom(startingAges, ageSum, milestone) == [Jubilee(milestone, offset, Shifted(startingAges, offset))] + rest;
    assert js + ([Jubilee(milestone, offset, Shifted(startingAges, offset))] + rest)
        == js + [Jubilee(milestone, offset, Shifted(startingAges, offset))] + rest;
  }

  /** One step of the milestone loop. */
  lemma JubileesFromStep(startingAges: seq<real>, ageSum: real, milestone: nat)
    requires |startingAges| >= 1 && milestone < MILESTONE_BOUND
    ensures var offset := Offset(startingAges, ageSum, milestone);
      var rest := JubileesFrom(startingAges, ageSum, milestone + MILESTONE_STEP);
      JubileesFrom(startingAges, ageSum, milestone) ==
        if offset < 0.0 then rest
        else if AnyTooOld(startingAges, offset) then []
        else [Jubilee(milestone, offset, Shifted(startingAges, offset))] + rest
  {
  }

  lemma RenderSnoc(js: seq<Jubilee>, j: Jubilee, names: seq<string>, youngestBirthday: Date, toFixed: real -> string)
    requires ValidDate(youngestBirthday)
    requires forall k :: 0 <= k < |js| ==> |js[k].ages| == |names|
    requires |j.ages| == |names|
    ensures forall k :: 0 <= k < |js + [j]| ==> |(js + [j])[k].ages| == |names|
    ensures Render(js + [j], names, youngestBirthday, toFixed) ==
      Render(js, names, youngestBirthday, toFixed)
      + [JubileeText(j, OffsetAndFormatDate(youngestBirthday, j.offset), Join(AgeEntries(names, j.ages, toFixed), ", "))]
  {
    var all := js + [j];
    assert forall k :: 0 <= k < |js| ==> all[k] == js[k];
    var r := Render(all, names, youngestBirthday, toFixed);
    var r0 := Render(js, names, youngestBirthday, toFixed);
    forall k | 0 <= k < |js| ensures r[k] == r0[k] {
      assert all[k] == js[k];
    }
    assert all[|js|] == j;
  }

  // ---------------------------------------------------------------------
  // Properties of the milestone search.

  /** The offset grows with the milestone. */
  lemma OffsetMonotone(startingAges: seq<real>, ageSum: real, a: int, b: int)
    requires |startingAges| >= 1 && a <= b
    ensures Offset(startingAges, ageSum, a) <= Offset(startingAges, ageSum, b)
  {
    var n := |startingAges| as real;
    var x := a as real * DAYS_IN_A_YEAR - ageSum;
    var y := b as real * DAYS_IN_A_YEAR - ageSum;
    assert x <= y;
    DivideMonotone(x, y, n);
  }

  lemma DivideMonotone(x: real, y: real, n: real)
    requires x <= y && n > 0.0
    ensures x / n <= y / n
  {
    assert y / n - x / n == (y - x) / n;
  }

  /** Once somebody is too old, a larger offset keeps them too old. */
  lemma TooOldMonotone(startingAges: seq<real>, small: real, large: real)
    requires small <= large && AnyTooOld(startingAges, small)
    ensures AnyTooOld(startingAges, large)
  {
    var k :| 0 <= k < |startingAges| && TooOld(startingAges[k] + small);
    assert TooOld(startingAges[k] + large);
  }

  /** Everything emitted from `milestone` on: multiples of the step, strictly
      increasing, below the bound, no more than the milestones left, each with
      its own non-negative offset and the ages it gives, nobody too old. */
  ghost predicate WellFormedFrom(startingAges: seq<real>, ageSum: real, milestone: nat, js: seq<Jubilee>)
    requires |startingAges| >= 1
  {
    (milestone <= MILESTONE_BOUND ==> |js| <= (MILESTONE_BOUND - milestone) / MILESTONE_STEP)
    && (forall k :: 0 <= k < |js| ==>
          milestone <= js[k].milestone < MILESTONE_BOUND && js[k].milestone % MILESTONE_STEP == 0
          && js[k].offset == Offset(startingAges, ageSum, js[k].milestone) && js[k].offset >= 0.0
          && js[k].ages == Shifted(startingAges, js[k].offset)
          && !AnyTooOld(startingAges, js[k].offset))
    && (forall k, l :: 0 <= k < l < |js| ==> js[k].milestone < js[l].milestone)
  }

  lemma {:induction false} JubileesFromWellFormed(startingAges: seq<real>, ageSum: real, milestone: nat)
    requires |startingAges| >= 1 && milestone % MILESTONE_STEP == 0
    ensures WellFormedFrom(startingAges, ageSum, milestone, JubileesFrom(startingAges, ageSum, milestone))
    decreases MILESTONE_BOUND - milestone
  {
    if milestone < MILESTONE_BOUND {
      var next := milestone + MILESTONE_STEP;
      JubileesFromWellFormed(startingAges, ageSum, next);
      var rest := JubileesFrom(startingAges, ageSum, next);
      var offset := Offset(startingAges, ageSum, milestone);
      JubileesFromStep(startingAges, ageSum, milestone);
      if offset < 0.0 {
        WellFormedLater(startingAges, ageSum, milestone, rest);
      } else if !AnyTooOld(startingAges, offset) {
        WellFormedCons(startingAges, ageSum, milestone, rest);
      }
    }
  }

  lemma WellFormedLater(startingAges: seq<real>, ageSum: real, milestone: nat, js: seq<Jubilee>)
    requires |startingAges| >= 1 && milestone < MILESTONE_BOUND && milestone % MILESTONE_STEP == 0
    requires WellFormedFrom(startingAges, ageSum, milestone + MILESTONE_STEP, js)
    ensures WellFormedFrom(startingAges, ageSum, milestone, js)
  {
  }

  lemma WellFormedCons(startingAges: seq<real>, ageSum: real, milestone: nat, rest: seq<Jubilee>)
    requires |startingAges| >= 1 && milestone < MILESTONE_BOUND && milestone % MILESTONE_STEP == 0
    requires Offset(startingAges, ageSum, milestone) >= 0.0
    requires !AnyTooOld(startingAges, Offset(startingAges, ageSum, milestone))
    requires WellFormedFrom(startingAges, ageSum, milestone + MILESTONE_STEP, rest)
    ensures var offset := Offset(startingAges, ageSum, milestone);
      WellFormedFrom(startingAges, ageSum, milestone, [Jubilee(milestone, offset, Shifted(startingAges, offset))] + rest)
  {
    var offset := Offset(startingAges, ageSum, milestone);
    var js := [Jubilee(milestone, offset, Shifted(startingAges, offset))] + rest;
    assert forall k :: 1 <= k < |js| ==> js[k] == rest[k - 1];
  }

  /** The search emits at most eight milestones, multiples of 50 between 50
      and 400 in strictly increasing order, each at a non-negative offset,
      with every age its starting age plus that offset and nobody too old. */
  lemma JubileesShape(startingAges: seq<real>, ageSum: real)
    requires |startingAges| >= 1
    ensures var js := Jubilees(startingAges, ageSum);
      |js| <= 8
      && (forall k :: 0 <= k < |js| ==>
            50 <= js[k].milestone <= 400 && js[k].milestone % 50 == 0
            && js[k].offset >= 0.0
            && js[k].offset == Offset(startingAges, ageSum, js[k].milestone)
            && |js[k].ages| == |startingAges|
            && (forall i :: 0 <= i < |startingAges| ==>
                  js[k].ages[i] == startingAges[i] + js[k].offset && !TooOld(js[k].ages[i])))
      && (forall k, l :: 0 <= k < l < |js| ==> js[k].milestone < js[l].milestone)
  {
    JubileesFromWellFormed(startingAges, ageSum, FIRST_MILESTONE);
  }

  /** Moving every age on by `offset` adds `offset` once per participant to the sum. */
  lemma {:induction false} SumShifted(startingAges: seq<real>, offset: real)
    ensures Sum(Shifted(startingAges, offset)) == Sum(startingAges) + |startingAges| as real * offset
    decreases |startingAges|
  {
    if startingAges != [] {
      assert Shifted(startingAges, offset)[1..] == Shifted(startingAges[1..], offset);
      SumShifted(startingAges[1..], offset);
    }
  }

  /** When `ageSum` is the sum of the starting ages, the ages at every emitted
      milestone add up to exactly that many years of `DAYS_IN_A_YEAR` days. */
  lemma AgesAddUpToMilestone(startingAges: seq<real>, ageSum: real)
    requires |startingAges| >= 1 && ageSum == Sum(startingAges)
    ensures forall k :: 0 <= k < |Jubilees(startingAges, ageSum)| ==>
      Sum(Jubilees(startingAges, ageSum)[k].ages) == Jubilees(startingAges, ageSum)[k].milestone as real * DAYS_IN_A_YEAR
  {
    var js := Jubilees(startingAges, ageSum);
    JubileesFromWellFormed(startingAges, ageSum, FIRST_MILESTONE);
    forall k | 0 <= k < |js|
      ensures Sum(js[k].ages) == js[k].milestone as real * DAYS_IN_A_YEAR
    {
      MilestoneSum(startingAges, ageSum, js[k].milestone);
    }
  }

  /** The ages moved on by a milestone's offset add up to that milestone. */
  lemma MilestoneSum(startingAges: seq<real>, ageSum: real, milestone: int)
    requires |startingAges| >= 1 && ageSum == Sum(startingAges)
    ensures Sum(Shifted(startingAges, Offset(startingAges, ageSum, milestone))) == milestone as real * DAYS_IN_A_YEAR
  {
    var n := |startingAges| as real;
    var total := milestone as real * DAYS_IN_A_YEAR - ageSum;
    SumShifted(startingAges, Offset(startingAges, ageSum, milestone));
    DivideCancels(total, n);
  }

  lemma DivideCancels(x: real, n: real)
    requires n > 0.0
    ensures n * (x / n) == x
  {
  }

  /** `milestone` is among the emitted ones. */
  predicate Emitted(js: seq<Jubilee>, milestone: int) {
    exists k :: 0 <= k < |js| && js[k].milestone == milestone
  }

  /** The condition under which the search reaches and emits a milestone. */
  predicate Qualifies(startingAges: seq<real>, ageSum: real, milestone: int)
    requires |startingAges| >= 1
  {
    FIRST_MILESTONE <= milestone < MILESTONE_BOUND && milestone % MILESTONE_STEP == 0
    && Offset(startingAges, ageSum, milestone) >= 0.0
    && !AnyTooOld(startingAges, Offset(startingAges, ageSum, milestone))
  }

  lemma {:induction false} EmittedFromIff(startingAges: seq<real>, ageSum: real, from: nat, milestone: int)
    requires |startingAges| >= 1 && from % MILESTONE_STEP == 0 && FIRST_MILESTONE <= from
    ensures Emitted(JubileesFrom(startingAges, ageSum, from), milestone)
            <==> from <= milestone && Qualifies(startingAges, ageSum, milestone)
    decreases MILESTONE_BOUND - from
  {
    if from < MILESTONE_BOUND {
      var next := from + MILESTONE_STEP;
      var rest := JubileesFrom(startingAges, ageSum, next);
      var offset := Offset(startingAges, ageSum, from);
      EmittedFromIff(startingAges, ageSum, next, milestone);
      if offset < 0.0 {
        assert JubileesFrom(startingAges, ageSum, from) == rest;
      } else if AnyTooOld(startingAges, offset) {
        if from <= milestone {
          OffsetMonotone(startingAges, ageSum, from, milestone);
          TooOldMonotone(startingAges, offset, Offset(startingAges, ageSum, milestone));
        }
      } else {
        var j := Jubilee(from, offset, Shifted(startingAges, offset));
        var js := [j] + rest;
        assert js == JubileesFrom(startingAges, ageSum, from);
        if Emitted(js, milestone) && milestone != from {
          var k :| 0 <= k < |js| && js[k].milestone == milestone;
          assert rest[k - 1].milestone == milestone;
        }
        if Emitted(rest, milestone) {
          var k :| 0 <= k < |rest| && rest[k].milestone == milestone;
          assert js[k + 1].milestone == milestone;
        }
        assert js[0].milestone == from;
      }
    }
  }

  /** A milestone is emitted exactly when it is one of 50, 100, ..., 400, its
      offset is not negative, and nobody is older than 105 years at it: a
      negative offset skips only its own milestone, and since ages only grow,
      the first milestone at which somebody is too old ends the search. */
  lemma EmittedIff(startingAges: seq<real>, ageSum: real, milestone: int)
    requires |startingAges| >= 1
    ensures Emitted(Jubilees(startingAges, ageSum), milestone) <==> Qualifies(startingAges, ageSum, milestone)
  {
    EmittedFromIff(startingAges, ageSum, FIRST_MILESTONE, milestone);
  }

  /** No milestone at or after one at which somebody is too old is emitted. */
  lemma TooOldStopsSearch(startingAges: seq<real>, ageSum: real, milestone: int)
    requires |startingAges| >= 1
    requires Offset(startingAges, ageSum, milestone) >= 0.0
    requires AnyTooOld(startingAges, Offset(startingAges, ageSum, milestone))
    ensures forall k :: 0 <= k < |Jubilees(startingAges, ageSum)| ==>
      Jubilees(startingAges, ageSum)[k].milestone < milestone
  {
    var js := Jubilees(startingAges, ageSum);
    forall k | 0 <= k < |js| ensures js[k].milestone < milestone {
      var m := js[k].milestone;
      EmittedIff(startingAges, ageSum, m);
      if milestone <= m {
        OffsetMonotone(startingAges, ageSum, milestone, m);
        TooOldMonotone(startingAges, Offset(startingAges, ageSum, milestone), Offset(startingAges, ageSum, m));
      }
    }
  }

  /** One participant: milestones 50 and 100 are reached at 50 and 100 years
      of age; at 150 the participant would be older than 105. */
  lemma OneParticipant()
    ensures Jubilees([0.0], ArraySum([0.0])) ==
      [Jubilee(50, 50.0 * DAYS_IN_A_YEAR, [50.0 * DAYS_IN_A_YEAR]),
       Jubilee(100, 100.0 * DAYS_IN_A_YEAR, [100.0 * DAYS_IN_A_YEAR])]
  {
    var s := [0.0];
    assert Shifted(s, 50.0 * DAYS_IN_A_YEAR) == [50.0 * DAYS_IN_A_YEAR];
    assert Shifted(s, 100.0 * DAYS_IN_A_YEAR) == [100.0 * DAYS_IN_A_YEAR];
    assert TooOld(s[0] + Offset(s, 0.0, 150));
    assert JubileesFrom(s, 0.0, 150) == [];
  }

  /** Two participants born on the same day share every milestone: the first
      is reached when each is 25 years old, the last emitted one is 200. */
  lemma SameBirthday()
    ensures var js := Jubilees([0.0, 0.0], 0.0);
      |js| == 4 && js[0].milestone == 50 && js[0].offset == 25.0 * DAYS_IN_A_YEAR
      && js[3].milestone == 200
      && forall k :: 0 <= k < 4 ==> |js[k].ages| == 2 && js[k].ages[0] == js[k].ages[1]
  {
    var s := [0.0, 0.0];
    JubileesShape(s, 0.0);
    assert TooOld(s[0] + Offset(s, 0.0, 250));
    assert JubileesFrom(s, 0.0, 250) == [];
    assert |JubileesFrom(s, 0.0, 200)| == 1;
    assert |JubileesFrom(s, 0.0, 150)| == 2;
    assert |JubileesFrom(s, 0.0, 100)| == 3;
  }

  /** Birthdates so far apart that the first milestones are already passed and
      the first reachable one makes the elder older than 105: nothing is emitted. */
  lemma TooFarApart()
    ensures Jubilees([0.0, 40000.0], 40000.0) == []
  {
    var s := [0.0, 40000.0];
    assert Offset(s, 40000.0, 50) < 0.0;
    assert Offset(s, 40000.0, 100) < 0.0;
    assert TooOld(s[1] + Offset(s, 40000.0, 150));
  }
}
