# Jubileum calculator, modelled in Dafny

JubileumApp.js is a small browser page. The user enters participants (a name
and a `dd-mm-jjjj` birthdate). The page then lists the days on which their
ages add up to 50, 100, ..., 400 years ("jubilea"). This project models
everything in that file except the DOM:

- **Registry** (`registry.dfy`). The module state `listOfNames`,
  `birthDayList` and `youngestIndex` becomes the class
  `ParticipantRegistry`. Its methods mirror the submit, reset and calculate
  buttons. The online rule of `updateYoungestIndex` is kept exactly: the
  index moves up by one when the new birthdate is later than the one it
  points at.
- **Date arithmetic** (`date_math.dfy`). A date is `(year, month, day)` in
  the proleptic Gregorian calendar.
  - `DaysFromCivil` and `CivilFromDays` convert between dates and day
    numbers, and are proved inverse to each other.
  - `Date.UTC`, `getDateWithoutTimeZone`, `dateDifferenceBetween` and
    `offsetAndFormatDate` are stated on top of them. This covers the
    renormalisation of a day number past the end of a month, the truncation
    of a fractional day, and the `toISOString` year form.
- **Validation** (`validation.dfy`). Both regular expressions become
  character predicates, with `\s` being the ECMAScript white-space set.
  - `dateIsValid` is the format check, then the `split/reverse/join`
    reordering and the date parse.
  - `dataInputInvalid` returns `InvalidName | InvalidDate | Ok`.
- **Jubilee search** (`jubileum.dfy`).
  - Starting ages, the age sum (a left fold), `tooOld` and
    `getAgesAtNewJubileum` (a loop with an early exit).
  - The milestone loop, which returns `(milestone, offset, ages)` records and
    the list texts.
  - The age string, built in a loop and then cut with `slice(0, -2)`.
  - All arithmetic uses exact `real`s with `DAYS_IN_A_YEAR = 365.2524`.
- **Digits and separators** (`strings.dfy`). `split`, `reverse` and `join`,
  zero-padded decimal digits, and `String(n)`.

Two behaviours of the code that a reader might not expect. The model keeps
both as the code has them:

- **The tracked youngest.** The comment at JubileumApp.js:110 says the index
  keeps track of the youngest person. The rule at JubileumApp.js:111-113
  only moves it up by one, though. After adding 01-01-1990, 05-05-1985 and
  31-12-2000 the index is 1 (05-05-1985), not the latest birthdate, which
  is at 2. `Registry.YoungestIsOnline` proves this.
- **Two participants born on the same day.** The offset at
  JubileumApp.js:61-62 divides the missing days by the number of
  participants. So milestone 50 comes at an offset of 25 × 365.2524 days,
  when each of them is 25 years old (`Jubileum.SameBirthday`).

## Model

| member | source | states |
|---|---|---|
| Strings.Split | JubileumApp.js:103 | `split("-")` gives at least one piece, and no piece contains the separator |
| Strings.Join | JubileumApp.js:103 | defines `join(sep)`: the pieces with the separator between consecutive ones; JoinSplit and SplitJoin state that it undoes and is undone by `split` |
| Strings.Reverse | JubileumApp.js:103 | defines `reverse()` on an array as a value; ReversePartsTwice uses that reversing twice is the identity |
| Strings.JoinSplit | JubileumApp.js:103 | joining the pieces of a split with the same separator restores the string |
| Strings.SplitJoin | JubileumApp.js:189 | splitting a join of separator-free pieces gives back the pieces |
| Strings.ReversePartsTwice | JubileumApp.js:235 | `split("-").reverse().join("-")` applied twice is the identity on every string |
| Strings.ReversePartsOfThree | JubileumApp.js:235 | on `a-b-c` with separator-free parts the reordering gives `c-b-a` |
| Strings.ReverseParts | JubileumApp.js:235 | defines `split("-").reverse().join("-")` (also at lines 103 and 189); its properties are ReversePartsTwice and ReversePartsOfThree |
| Strings.Digits | JubileumApp.js:186-187 | the zero-padded field has exactly the width asked for and only digits |
| Strings.DigitsValueOfDigits | JubileumApp.js:186-187 | a padded field reads back as its number whenever the number fits the width |
| Strings.DigitsOfDigitsValue | JubileumApp.js:235 | a digit string is the padded form of its own value |
| Strings.Decimal | JubileumApp.js:84 | `${i}` for a natural number: at least one digit, only digits, and no leading zero unless it is the single digit 0 |
| Strings.DecimalValue | JubileumApp.js:84 | the milestone text `${i}` reads back as `i` |
| DateMath.DaysInMonth | JubileumApp.js:236 | month lengths are 28 to 31, and February has 29 days exactly in leap years |
| DateMath.CivilOfDays | JubileumApp.js:183-185 | converting a real date to its day number and back gives the date |
| DateMath.DaysOfCivil | JubileumApp.js:183-185 | every day number converts to a real date whose day number it is |
| DateMath.DateWithoutTimeZone | JubileumApp.js:219-221 | the time value is a whole number of days in milliseconds, and dividing by a day gives the date's day number |
| DateMath.DateWithoutTimeZoneAsWritten | JubileumApp.js:219-221 | the code's time value, a whole number of days: the calendar value from year 100 on; for years 0 to 99 the value of the same day in 1900 plus the year; for 0000-02-29 the value of 1900-03-01 |
| DateMath.TwoDigitYearCollision | JubileumApp.js:219-221 | as written, 01-01-0050 and 01-01-1950 get the same time value; the calendar count keeps them apart |
| DateMath.DateDifferenceBetween | JubileumApp.js:223-228 | the result is the whole-day difference of the two day numbers |
| DateMath.DifferenceProperties | JubileumApp.js:223-228 | a date is 0 days from itself, swapping the arguments negates the difference, and the difference is 0 exactly for equal dates |
| DateMath.Truncate | JubileumApp.js:184 | truncation toward zero: within one below a non-negative argument, within one above a negative one |
| DateMath.UtcDate | JubileumApp.js:184 | `Date.UTC(y, m, d)` gives a real date, `d - 1` days after the first of the month, for any whole `d` |
| DateMath.OffsetDate | JubileumApp.js:183-185 | the offset date is real, and its day number moves by the truncated `getDate() + offset` minus the old day |
| DateMath.OffsetByWholeDays | JubileumApp.js:181-190 | offsetting by a whole `k` moves the date exactly `k` days, and by 0 leaves it unchanged |
| DateMath.OffsetRoundTrip | JubileumApp.js:183-185 | offsetting by `k` and then by `-k` gives back the date |
| DateMath.OffsetIgnoresFraction | JubileumApp.js:184 | a non-negative offset moves the date by its whole part only |
| DateMath.OffsetAndFormatDate | JubileumApp.js:181-190 | for an offset date in years 0 to 9999 the text is its `dd-mm-yyyy` form |
| DateMath.FormatWithoutOffset | JubileumApp.js:181-190 | with offset 0 the formatted text is the date's own `dd-mm-yyyy` form |
| DateMath.IsoYear | JubileumApp.js:186 | defines the year of `toISOString()`: four digits for years 0 to 9999, otherwise a sign and six digits; ReversedIso gives its display form |
| DateMath.IsoDate | JubileumApp.js:186-187 | defines `toISOString().split("T", 1)[0]`, the `yyyy-mm-dd` text; ReversedIso gives its display form |
| DateMath.ReversedIso | JubileumApp.js:186-189 | for a date in years 0 to 9999 the reversed ISO date part is the date's `dd-mm-yyyy` form |
| DateMath.OffsetDateAsWritten | JubileumApp.js:183-185 | as written: from year 100 on it is OffsetDate's date; for a date in years 0 to 99 it is the offset of the same day in 1900 plus the year |
| DateMath.OffsetAndFormatDateAsWritten | JubileumApp.js:181-190 | as written: from year 100 on the text OffsetAndFormatDate gives; for years 0 to 99 the text of the same day in 1900 plus the year |
| DateMath.TwoDigitYearPrinted | JubileumApp.js:184 | as written, a date in years 0 to 99 is printed at offset 0 as the same day in 1900 plus its year, a different text from its own (01-01-0050 comes out as 01-01-1950) |
| Validation.ParseIso | JubileumApp.js:235-236 | whatever the parse of `yyyy-mm-dd` accepts is a real calendar date |
| Validation.LettersOnly | JubileumApp.js:10 | defines `LETTERS_ONLY`: 2 to 26 characters, each an ASCII letter or ECMAScript white space; used through DataInputInvalid and NameRefused |
| Validation.CorrectDateFormat | JubileumApp.js:11 | defines `CORRECT_DATE_FORMAT`: exactly 10 characters, digits at 0-1, 3-4 and 6-9, `-` at 2 and 5; ParseOfWellFormed gives what the reordering makes of such a text |
| Validation.ParseDate | JubileumApp.js:103 | defines `new Date(text.split("-").reverse().join("-"))` (also at line 235): the ISO parse of the reordered text; ParseOfWellFormed, DisplayDateAccepted and AcceptedIsDisplayed state what it gives |
| Validation.DateIsValid | JubileumApp.js:230-240 | defines `dateIsValid`: the format check, then the reordered text parses; ParseOfWellFormed, DisplayDateAccepted and AcceptedIsDisplayed state its meaning |
| Validation.DataInputInvalid | JubileumApp.js:205-217 | `InvalidName` exactly when the name fails `LETTERS_ONLY`; `InvalidDate` exactly when the name passes and the date fails; `Ok` exactly when both pass |
| Validation.ParseOfWellFormed | JubileumApp.js:230-240 | a `dd-mm-yyyy` text is reordered to `yyyy-mm-dd`, and it is accepted exactly when its fields name a real date |
| Validation.DisplayDateAccepted | JubileumApp.js:230-240 | every `dd-mm-yyyy` text the calculator prints is accepted and parses back to the same date |
| Validation.AcceptedIsDisplayed | JubileumApp.js:230-240 | every accepted text is the printed form of the date it parses to |
| Validation.NameRefused | JubileumApp.js:205-210 | a name shorter than 2, longer than 26, or containing a digit is refused whatever the date |
| Validation.AcceptedExample | JubileumApp.js:230-240 | `01-01-2000` is accepted |
| Validation.RefusedDay | JubileumApp.js:230-240 | `31-02-2020` passes the format check but is refused |
| Validation.RefusedMonth | JubileumApp.js:230-240 | `30-13-1990` passes the format check but is refused |
| Jubileum.ReduceIsSum | JubileumApp.js:137 | the left fold from an accumulator adds the sum of the rest to it |
| Jubileum.Reduce | JubileumApp.js:137 | defines `array.reduce((ageSum, currentAge) => ageSum += currentAge)`, a left fold from the first element; ReduceIsSum is its property |
| Jubileum.ArraySum | JubileumApp.js:132-138 | for one participant and for several, the result is the sum of the ages |
| Jubileum.StartingAges | JubileumApp.js:140-144 | one starting age per birthdate, the youngest's is 0, and each is the day difference to the youngest's birthdate |
| Jubileum.StartingAgesNonNegative | JubileumApp.js:140-144 | if the tracked youngest really is born last, no starting age is negative |
| Jubileum.AgesAtNewJubileum | JubileumApp.js:150-161 | null exactly when some age plus the offset exceeds 105 years; otherwise one age per participant, each its starting age plus the offset |
| Jubileum.TooOld | JubileumApp.js:146-148 | defines `tooOld`: an age above 105 × 365.2524 days; TooOldMonotone is its property |
| Jubileum.TooOldMonotone | JubileumApp.js:146-148 | once somebody is too old at an offset, they are too old at every larger offset |
| Jubileum.DAYS_IN_A_YEAR | JubileumApp.js:12 | defines the year length 365.2524 days, used exactly as a rational; MilestoneSum and TooOld are stated with it |
| Jubileum.Offset | JubileumApp.js:61-62 | defines `dayOffsetFromJubileum`: the days still missing to the milestone, shared equally by the participants; OffsetMonotone and MilestoneSum are its properties |
| Jubileum.OffsetMonotone | JubileumApp.js:61-62 | the day offset grows with the milestone |
| Jubileum.FormattedAgeString | JubileumApp.js:163-173 | the loop and the final `slice(0, -2)` give the `name: age` entries joined by `", "` |
| Jubileum.AgeStringShape | JubileumApp.js:163-173 | one entry per participant, `2 * (N - 1)` separator characters, and the string ends with the last entry |
| Jubileum.AgeEntries | JubileumApp.js:166-169 | defines one `name: age` entry, the age in years being `(days - 1) / 365.2524` through `toFixed`; FormattedAgeString and AgeStringShape state the string built from them |
| Jubileum.JubileeText | JubileumApp.js:84 | defines the list-item text `<milestone> jaar op <date> (<ages>)`; Decimal and DecimalValue state its milestone part |
| Jubileum.CalculateAndAddJubileums | JubileumApp.js:58-87 | the loop emits exactly the milestone records of the search and the list texts rendered from them |
| Jubileum.JubileesFrom | JubileumApp.js:58-87 | the reference definition of the loop from a milestone on: a negative offset skips, somebody too old stops, otherwise a record is emitted; EmittedFromIff and JubileesFromWellFormed are its properties |
| Jubileum.JubileesFromWellFormed | JubileumApp.js:58-87 | from any multiple of 50: increasing multiples of 50 below 450, each with its own non-negative offset and ages, nobody too old |
| Jubileum.JubileesShape | JubileumApp.js:58-87 | at most 8 results, strictly increasing multiples of 50 in [50, 400], offsets at least 0, every age its starting age plus the offset and not too old |
| Jubileum.MilestoneSum | JubileumApp.js:61-62 | moving every starting age by a milestone's offset makes the ages add up to that milestone in days |
| Jubileum.AgesAddUpToMilestone | JubileumApp.js:58-62 | at every emitted milestone the ages add up to exactly milestone × 365.2524 days |
| Jubileum.EmittedFromIff | JubileumApp.js:58-87 | from a starting milestone on, a milestone is emitted exactly when it is reached and qualifies |
| Jubileum.EmittedIff | JubileumApp.js:58-87 | a milestone is emitted exactly when it is one of 50..400, its offset is at least 0, and nobody is too old at it |
| Jubileum.TooOldStopsSearch | JubileumApp.js:72-75 | nothing at or after a milestone where somebody is too old is emitted |
| Jubileum.OneParticipant | JubileumApp.js:58-87 | one participant: milestones 50 and 100 at ages of 50 and 100 years, and nothing after |
| Jubileum.SameBirthday | JubileumApp.js:58-87 | two participants born the same day: four milestones, the first at 25 years each, and equal ages throughout |
| Jubileum.TooFarApart | JubileumApp.js:49-56 | starting ages 0 and 40000 days give no milestone, so no list item is shown |
| Registry.Youngest | JubileumApp.js:109-114 | the index the online rule reaches is 0 for no birthdates and inside the list otherwise |
| Registry.YoungestSnoc | JubileumApp.js:109-114 | one unfolding of the rule: one more birthdate raises the index by one exactly when the list was non-empty and the tracked date is earlier than the new one (the proof step behind `ParticipantRegistry.Add`'s contract) |
| Registry.YoungestOfIncreasing | JubileumApp.js:109-114 | when birthdates arrive from earliest to latest, the index ends at the last one |
| Registry.YoungestIsOnline | JubileumApp.js:109-114 | for 01-01-1990, 05-05-1985, 31-12-2000 the index ends at 1, although 31-12-2000 is later |
| Registry.Earlier | JubileumApp.js:111 | defines the `<` between two `Date` objects as the order of their time values |
| Registry.ParticipantRegistry.constructor | JubileumApp.js:14-16 | both lists start empty and the index at 0 |
| Registry.ParticipantRegistry.Add | JubileumApp.js:102-114 | one name and one parsed date are appended, earlier entries stay, lengths stay equal, and the index follows the rule and stays inside the list |
| Registry.ParticipantRegistry.Reset | JubileumApp.js:25-34 | an empty registry is left unchanged; otherwise both lists are emptied and the index is 0 |
| Registry.ParticipantRegistry.Submit | JubileumApp.js:89-100 | the outcome is the validation result; a refused input changes nothing, and an accepted one is appended |
| Registry.ParticipantRegistry.Calculate | JubileumApp.js:36-56 | no data exactly for an empty registry; "too far apart" exactly when the search emits nothing; otherwise the rendered list items |
| Registry.ResetThenCalculate | JubileumApp.js:25-47 | after one accepted participant and a reset, calculating reports that there is no data |

## Left out

- DOM and event wiring. This covers element lookups, listeners, `addDataRow`, clearing the lists, `addJubListElement`, and reading the form fields. The page's error texts become the `InputCheck` and `Calculation` outcomes.
- Registry.ParticipantRegistry.Submit: takes the already trimmed form strings; `trim()` is not modelled.
- Jubileum.FormattedAgeString: `toFixed(2)` is a function parameter, because IEEE-754 rounding is not modelled. All ages and offsets are exact rationals, not doubles.
- Jubileum.ArraySum: for one participant the code returns the array `[array[0]]`, which the later subtraction coerces to the number. The model returns that number.
- Validation.ParseIso: `new Date("yyyy-mm-dd")` is taken to refuse a day past the end of its month. Engines differ on dates such as 2020-02-31, so this is an assumption.
- Validation.ParseIso: only the date-only ISO form is parsed, because the caller never produces another form.
- Local time zones. The host is assumed to run in UTC, so `getFullYear`, `getMonth` and `getDate` of a parsed date are its calendar fields.
- DateMath.UtcDate: takes the year as given. `Date.UTC` reads a year from 0 to 99 as 1900 plus the year; DateWithoutTimeZoneAsWritten and OffsetDateAsWritten model that.
- Jubileum.StartingAges: uses the calendar difference DateDifferenceBetween, not the code's remapped time values. For a birthdate in a year from 0 to 99 the code's starting age is counted from the same day in 1900 plus the year (see Findings).
- Registry.ParticipantRegistry.Calculate: gets its starting ages from StartingAges, so it shares that difference for birthdates in years 0 to 99. Its list items date each milestone with OffsetAndFormatDate, so for a youngest birthdate in years 0 to 99 the printed date is the calendar one, not the code's date in 1900 plus the year.
- Jubileum.CalculateAndAddJubileums: its list texts take their dates from OffsetAndFormatDate, with the same difference for a youngest birthdate in years 0 to 99.
- DateMath.OffsetDate: does not remap years 0 to 99 as `Date.UTC` does. That affects only a youngest participant born before year 100. OffsetDateAsWritten models the code's reading (see Findings).
- DateMath.OffsetAndFormatDate: is stated for OffsetDate. For a base date in years 0 to 99 the code prints a date in 1900 plus the year; OffsetAndFormatDateAsWritten models that.
- DateMath.FormatWithoutOffset: holds for OffsetDate only. The code prints 01-01-0050 at offset 0 as 01-01-1950 (TwoDigitYearPrinted).
- DateMath.OffsetRoundTrip: holds for OffsetDate only. For a date in years 0 to 99 the code's round trip ends on the same day in 1900 plus the year.
- DateMath.OffsetByWholeDays: holds for OffsetDate only. For a date in years 0 to 99 the code's offset by 0 gives the same day in 1900 plus the year.
- DateMath.IsoYear: the ECMAScript time range (±8.64e15 ms) and the `RangeError` of `toISOString` beyond it are not modelled. The accepted years 0000 to 9999, plus at most 105 years of offset, stay far inside the range.
- Registry.Earlier: compares exact day numbers. In the code the `Date` objects' time values are compared, and those agree under the UTC assumption.

## Findings

| source | as written | input that shows it | evidently intended | confidence | as-written member | corrected member |
|---|---|---|---|---|---|---|
| JubileumApp.js:219-221 | `Date.UTC(date.getFullYear(), ...)` reads a year from 0 to 99 as 1900 plus the year; the form accepts such years | birthdates 01-01-0050 and 01-01-1950 get the same time value, so their date difference is 0 | the whole-day difference of the calendar dates | not executed; follows from the ECMAScript definition of `Date.UTC` | DateMath.DateWithoutTimeZoneAsWritten, DateMath.TwoDigitYearCollision | DateMath.DateWithoutTimeZone, DateMath.DifferenceProperties |
| JubileumApp.js:184 | `Date.UTC(date.getFullYear(), ...)` reads a year from 0 to 99 as 1900 plus the year | 01-01-0050 at offset 0 is printed as 01-01-1950 | the date offset in its own year | not executed; follows from the ECMAScript definition of `Date.UTC` | DateMath.OffsetDateAsWritten, DateMath.OffsetAndFormatDateAsWritten, DateMath.TwoDigitYearPrinted | DateMath.OffsetDate, DateMath.FormatWithoutOffset |
