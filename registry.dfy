/** The participant registry: the module state `listOfNames`, `birthDayList`
    and `youngestIndex`, and the three user actions that read or change it
    (submitting the form, resetting the list, calculating the jubilees). */
module Registry {
  import opened Strings
  import opened DateMath
  import opened Validation
  import opened Jubileum

  /** `a < b` on two `Date` objects: their time values are compared. */
  predicate Earlier(a: Date, b: Date)
    requires ValidDate(a) && ValidDate(b)
  {
    DateWithoutTimeZone(a) < DateWithoutTimeZone(b)
  }

  /** The index the online rule of `updateYoungestIndex` has reached after the
      birthdates were added in this order: it moves up by one whenever the new
      birthdate is later than the one it points at. */
  function Youngest(birthdays: seq<Date>): (i: nat)
    requires AllValid(birthdays)
    ensures |birthdays| == 0 ==> i == 0
    ensures |birthdays| > 0 ==> i < |birthdays|
    decreases |birthdays|
  {
    if |birthdays| <= 1 then 0
    else
      var before := birthdays[..|birthdays| - 1];
      AllValidPrefix(birthdays, |birthdays| - 1);
      var y := Youngest(before);
      if Earlier(before[y], birthdays[|birthdays| - 1]) then y + 1 else y
  }

  lemma AllValidPrefix(dates: seq<Date>, n: nat)
    requires AllValid(dates) && n <= |dates|
    ensures AllValid(dates[..n])
  {
    forall k | 0 <= k < n ensures ValidDate(dates[..n][k]) {
      assert dates[..n][k] == dates[k];
    }
  }

  lemma AllValidSnoc(dates: seq<Date>, date: Date)
    requires AllValid(dates) && ValidDate(date)
    ensures AllValid(dates + [date])
  {
    forall k | 0 <= k < |dates| + 1 ensures ValidDate((dates + [date])[k]) {
      if k < |dates| {
        assert (dates + [date])[k] == dates[k];
      }
    }
  }

  /** Adding one birthdate applies the rule once to the birthdates before it. */
  lemma YoungestSnoc(birthdays: seq<Date>, date: Date)
    requires AllValid(birthdays) && ValidDate(date)
    ensures AllValid(birthdays + [date])
    ensures Youngest(birthdays + [date]) ==
      if |birthdays| >= 1 && Earlier(birthdays[Youngest(birthdays)], date)
      then Youngest(birthdays) + 1 else Youngest(birthdays)
  {
    AllValidSnoc(birthdays, date);
    var all := birthdays + [date];
    assert all[..|all| - 1] == birthdays;
  }

  /** When the birthdates are added from earliest to latest, the rule does
      point at the latest one. */
  lemma {:induction false} YoungestOfIncreasing(birthdays: seq<Date>)
    requires AllValid(birthdays) && |birthdays| >= 1
    requires forall i, j :: 0 <= i < j < |birthdays| ==> Earlier(birthdays[i], birthdays[j])
    ensures Youngest(birthdays) == |birthdays| - 1
    decreases |birthdays|
  {
    if |birthdays| > 1 {
      var before := birthdays[..|birthdays| - 1];
      assert forall k :: 0 <= k < |before| ==> before[k] == birthdays[k];
      YoungestOfIncreasing(before);
    }
  }

  /** For the adds 01-01-1990, 05-05-1985, 31-12-2000 the rule ends at
      index 1 (1985), which is earlier than the last birthdate. */
  lemma YoungestIsOnline()
    ensures var dates := [Date(1990, 1, 1), Date(1985, 5, 5), Date(2000, 12, 31)];
      AllValid(dates) && Youngest(dates) == 1 && Earlier(dates[1], dates[2])
  {
    var dates := [Date(1990, 1, 1), Date(1985, 5, 5), Date(2000, 12, 31)];
    assert dates[..2] == [Date(1990, 1, 1), Date(1985, 5, 5)];
    assert dates[..2][..1] == [Date(1990, 1, 1)];
  }

  /** The outcome of the calculate button. */
  datatype Calculation = EmptyRegistry | NoJubileumFound | Found(items: seq<string>)

  class ParticipantRegistry {
    var names: seq<string>
    var birthdays: seq<Date>
    var youngestIndex: nat

    /** One name per birthdate, every birthdate a real date, and the index
        where the online rule has put it. */
    ghost predicate Valid()
      reads this
    {
      |names| == |birthdays| && AllValid(birthdays) && youngestIndex == Youngest(birthdays)
    }

    constructor ()
      ensures Valid() && names == [] && birthdays == [] && youngestIndex == 0
    {
      names, birthdays, youngestIndex := [], [], 0;
    }

    /** `updateLists` followed by `updateYoungestIndex`: parse the validated
        birthdate, append the name and the date, then apply the online rule. */
    method Add(name: string, birthdate: string)
      requires Valid() && DateIsValid(birthdate)
      modifies this
      ensures Valid()
      ensures names == old(names) + [name]
      ensures birthdays == old(birthdays) + [ParseDate(birthdate).value]
      ensures youngestIndex ==
        if |old(birthdays)| >= 1 && Earlier(old(birthdays)[old(youngestIndex)], ParseDate(birthdate).value)
        then old(youngestIndex) + 1 else old(youngestIndex)
      ensures youngestIndex < |birthdays|
    {
      var currentDate := ParseDate(birthdate).value;
      YoungestSnoc(birthdays, currentDate);
      names := names + [name];
      birthdays := birthdays + [currentDate];
      if |birthdays| > 1 && Earlier(birthdays[youngestIndex], currentDate) {
        youngestIndex := youngestIndex + 1;
      }
    }

    /** The reset button: nothing happens on an empty list; otherwise both
        lists are emptied and the index goes back to 0. */
    method Reset()
      requires Valid()
      modifies this
      ensures Valid()
      ensures old(|birthdays|) == 0 ==> unchanged(this)
      ensures names == [] && birthdays == [] && youngestIndex == 0
    {
      if |birthdays| == 0 {
        return;
      }
      birthdays := [];
      names := [];
      youngestIndex := 0;
    }

    /** `retrieveAndUpdateData` on the trimmed form values: validate, and add
        only what is valid. */
    method Submit(name: string, birthdate: string) returns (check: InputCheck)
      requires Valid()
      modifies this
      ensures Valid()
      ensures check == DataInputInvalid(name, birthdate)
      ensures check != Ok ==> unchanged(this)
      ensures check == Ok ==> ParseDate(birthdate).Some? && names == old(names) + [name]
      ensures check == Ok ==> birthdays == old(birthdays) + [ParseDate(birthdate).value]
    {
      check := DataInputInvalid(name, birthdate);
      if check != Ok {
        return;
      }
      Add(name, birthdate);
    }

    /** The calculate button: no data, no jubilee found, or the list items of
        the search from the starting ages relative to the tracked youngest. */
    method Calculate(toFixed: real -> string) returns (outcome: Calculation)
      requires Valid()
      ensures outcome == EmptyRegistry <==> |birthdays| == 0
      ensures |birthdays| > 0 ==>
        var ages := StartingAges(birthdays, youngestIndex);
        (outcome == NoJubileumFound <==> Jubilees(ages, Sum(ages)) == [])
        && (outcome.Found? ==> outcome.items == JubileeItems(ages, Sum(ages), names, birthdays[youngestIndex], toFixed))
    {
      if |birthdays| == 0 {
        return EmptyRegistry;
      }
      var startingAges := StartingAges(birthdays, youngestIndex);
      var ageSum := ArraySum(startingAges);
      var js, items := CalculateAndAddJubileums(startingAges, ageSum, names, birthdays[youngestIndex], toFixed);
      if |items| == 0 {
        return NoJubileumFound;
      }
      return Found(items);
    }
  }

  lemma AnnAccepted()
    ensures DataInputInvalid("Ann", "01-01-2000") == Ok
  {
    AcceptedExample();
    AnnLetters();
  }

  lemma AnnLetters()
    ensures LettersOnly("Ann")
  {
    var name := "Ann";
    forall k | 0 <= k < |name| ensures IsAsciiLetter(name[k]) {
      assert name[k] in {'A', 'n'};
    }
  }

  /** A session: a valid participant is accepted, a reset empties the list,
      and calculating then reports that there is no data. */
  method ResetThenCalculate(toFixed: real -> string) returns (check: InputCheck, outcome: Calculation)
    ensures check == Ok && outcome == EmptyRegistry
  {
    var registry := new ParticipantRegistry();
    AnnAccepted();
    check := registry.Submit("Ann", "01-01-2000");
    assert |registry.birthdays| == 1;
    registry.Reset();
    outcome := registry.Calculate(toFixed);
  }
}
