# Day planner time-blocking, and the CSV field codecs

This project models two parts of a personal planner in Dafny.

The first part is the day view's **time-blocking scheduler** in the web client.

- A date holds a list of *time blocks*. A block is a span of the day given to a project, a routine or a task.
- The *resolver* lists the activity cards still to be placed on the date:
  - projects are split into one-hour fragments plus a remainder;
  - routines are due on the date's weekday;
  - tasks are the date's open tasks.
- Dropping a card or an existing block on a half-hour slot creates a block. The drop is refused if the block would end after 23:00 or would overlap another block or a calendar event. Moving a block deletes the old one.
- The forms around the scheduler are also modelled:
  - the weekly hours allocation of a project;
  - the day pickers of routines and workout sheets;
  - the per-date workout log.

The second part is the server's **CSV field codecs**:

- the cell `cast` rule of `parseCSV`;
- the empty-input cases of `parseCSV` and `toCSV`;
- the text encodings of a project's `timeAllocation` (`day:hours|…`) and `completedSessions` (JSON), and of a routine's `days` (`1,3,5`).

The modules follow the source's structure:

| module | file | models |
|---|---|---|
| `Optional` | optional.dfy | an optional value |
| `Text` | text.dfy | decimal text of integers, `trim`, `split`/`join`, `parseInt`/`Number` on integer text |
| `TimeOfDay` | time_of_day.dfy | minutes of the day, `"HH:MM"` text and its reading back, the 34 drop slots |
| `Interval` | interval.dfy | the three-clause overlap test of the source and what it means |
| `Catalog` | catalog.dfy | projects, routines, tasks, weekdays; which of them are due on a date |
| `Blocks` | blocks.dfy | the blocks of a date: delete by id, upsert, conflicts |
| `Resolver` | resolver.dfy | the cards the resolver lists, as specification functions |
| `Placement` | placement.dfy | the drag payloads and the drop decision, as specification functions |
| `DayView` | planner.dfy | class `Planner`, which holds the date-keyed blocks; its handlers are proved against the three modules above |
| `Forms` | forms.dfy | `updateProjectTimeAllocation`, `toggleRoutineDay`, `toggleDaySelection` |
| `WorkoutLog` | workout_log.dfy | `handleLogExercise` |
| `CsvFields` | csv_fields.dfy | `cast`, `parseCSV`/`toCSV` on empty input, and the three field codecs |

Representation choices:

- A time of day is a whole number of minutes. The source keeps it as `"HH:MM"` text; `TimeOfDay` proves that the text it writes reads back as the same minute.
- Hours are whole tenths of an hour, so 25 stands for 2.5 h.
- A date is a day number. Its weekday is `(d + 4) % 7`, with day 0 a Thursday and 0 = Sunday as in `getDay()`.
- Block ids are numbers. `Date.now()` becomes a parameter `now`.
- The drag payload is a typed record. A payload that did not parse is `None`.

## Model

| member | source | states |
|---|---|---|
| DayView.Planner.TimeBlocksForDate | client/src/App.jsx:319-322 | a date without an entry has no blocks; otherwise its stored blocks |
| DayView.Planner.SaveTimeBlock | client/src/App.jsx:324-337 | the saved block keeps its id, or takes `now` when it has none; afterwards the date holds exactly one block with that id, which is the saved block; every other block of the date stays; other dates are unchanged |
| DayView.Planner.DeleteTimeBlock | client/src/App.jsx:339-345 | no block with the id remains on the date; the number of blocks with any other id is unchanged; other dates are unchanged |
| DayView.Planner.CheckTimeOverlap | client/src/App.jsx:347-387 | true exactly when the interval meets a block of the date other than the excluded one, or a calendar event, under the three-clause test |
| DayView.Planner.GetAvailableActivityCards | client/src/App.jsx:416-457 | the cards equal the resolver's specification `Resolver.AvailableCards` on the date's blocks |
| DayView.CollectOneProject | client/src/App.jsx:425-435 | one project's cards equal `Resolver.ProjectCards`: full-hour cards from the placed count up to the whole hours, then the remainder card unless every fragment is placed |
| DayView.CollectProjectCards | client/src/App.jsx:422-436 | the project section equals `Resolver.ProjectSection` over the date's projects, in order |
| DayView.CollectRoutineCards | client/src/App.jsx:439-445 | the routine section equals `Resolver.RoutineSection`: one one-hour card per due routine that has no routine block |
| DayView.CollectTaskCards | client/src/App.jsx:448-454 | the section of tasks equals `Resolver.TaskSection`: one half-hour card per open task without a task block |
| DayView.Planner.HandleTimeBlockDrop | client/src/App.jsx:459-495 | the outcome is `Placement.DropOutcomeOf` for the slot's start minute; a placed drop leaves the date as `Placement.Drop`; a rejected or unparsable drop changes nothing; a drop of positive length on a date free of conflicts leaves it free of conflicts |
| Interval.OverlapsIff | client/src/App.jsx:367-369 | for non-empty intervals the three-clause test holds iff each starts before the other ends |
| Interval.OverlapsIffSharedMinute | client/src/App.jsx:367-369 | for non-empty intervals the test holds iff the two half-open intervals share a minute |
| Interval.OverlapsSymmetric | client/src/App.jsx:379-381 | for non-empty intervals the test gives the same answer with the two intervals swapped |
| Interval.BackToBackDoNotOverlap | client/src/App.jsx:367-369 | an interval ending where the next starts does not overlap it, either way round |
| TimeOfDay.ToMinutesOfFormatTime | client/src/App.jsx:470-472 | the `"HH:MM"` text written for a minute reads back, by the split-and-Number conversion, as that minute |
| TimeOfDay.SlotTimeReadsBack | client/src/App.jsx:1781-1784 | slot i's label is the text of minute 360 + 30·i and reads back as that minute |
| TimeOfDay.ToMinutesOfHalves | client/src/App.jsx:352-355 | `toMinutes` is hours·60 + minutes of the two colon-separated parts, NaN if either is not a number |
| Blocks.WithoutIdRemovesAll | client/src/App.jsx:343 | filtering by id removes every block with the id and only those |
| Blocks.WithoutIdOtherId | client/src/App.jsx:343 | filtering by one id keeps the count of every other id |
| Blocks.WithoutIdIdempotent | client/src/App.jsx:343 | deleting the same id twice is deleting it once |
| Blocks.UpsertExactlyOne | client/src/App.jsx:333 | after the upsert the id occurs once, as the new block; other blocks are kept and other ids keep their counts |
| Blocks.UpsertKeepsUniqueIds | client/src/App.jsx:333 | the upsert keeps a date's ids unique |
| Blocks.CountIdUnique | client/src/App.jsx:333 | with unique ids, a present block's id occurs exactly once |
| Blocks.NoConflictsUpsert | client/src/App.jsx:475-491 | saving a well-formed block that passed the overlap check, with its own id excluded, keeps the date free of conflicts |
| Blocks.NoConflictsWithoutId | client/src/App.jsx:479-481 | deleting blocks keeps the date free of conflicts |
| Blocks.NoConflictsPairwise | client/src/App.jsx:475-477 | on a conflict-free date, the blocks at any two different positions do not overlap, so even two copies of one block would break the invariant |
| Placement.CardDragData | client/src/App.jsx:1644 | a card's payload has no source block and lasts 60 minutes per hour of the card |
| Placement.BlockDragData | client/src/App.jsx:1745-1754 | a block's payload names the block, carries its notes, and lasts as long as the block |
| Placement.ExcludedId | client/src/App.jsx:474 | the source block's id is excluded unless it is missing or 0 |
| Placement.NewBlock | client/src/App.jsx:483-491 | the new block starts at the slot, lasts the payload's duration, copies type, activity and title, and has empty notes when the payload has none |
| Placement.DropOutcomeOf | client/src/App.jsx:464-477 | a drop is placed iff the payload parsed, the block ends by 23:00 and it meets nothing but its own source block; it is out of bounds iff it ends after 23:00 |
| Placement.DropBoundary | client/src/App.jsx:469 | ending after 23:00 is refused and changes nothing; ending exactly at 23:00 is allowed |
| Placement.DropRejectedUnchanged | client/src/App.jsx:475-477 | a refused drop leaves the date's blocks as they were |
| Placement.PlacedEndTime | client/src/App.jsx:465-472 | a placed block lies between 06:00 and 23:00, and its start and end texts read back as its minutes |
| Placement.WithoutSourceChecked | client/src/App.jsx:474-481 | a block that passed the check excluding its source meets nothing once the source is deleted |
| Placement.DropPreservesNoConflicts | client/src/App.jsx:474-491 | a drop of a payload with positive duration keeps a conflict-free date conflict-free |
| Placement.CardDropAddsOne | client/src/App.jsx:483-491 | a placed card drop appends one block lasting the card's duration and keeps the earlier blocks in order |
| Placement.MoveBlock | client/src/App.jsx:479-491 | a placed move keeps the number of blocks, removes the old block, adds one block with the new id at the slot with the same duration, activity, title and notes, and keeps every other block |
| Placement.DropExamples | client/src/App.jsx:469-477 | a one-hour card on 09:30 over a 09:00–10:00 block is refused; at 10:00 it is placed; at 22:00 it fits; at 22:30 it ends after 23:00 |
| Resolver.Remainder | client/src/App.jsx:425-426 | the hours split into whole hours and a remainder of 0 to 9 tenths that add back up to the hours |
| Resolver.ProjectCardsShape | client/src/App.jsx:425-435 | a project has max(0, total − placed) cards, where total counts the whole hours plus one for a non-zero remainder; they are full-hour cards indexed from the placed count, then the remainder card last |
| Resolver.ProjectCardsComplement | client/src/App.jsx:428-435 | while not all fragments are placed, placed plus listed cards equals the fragment total |
| Resolver.TwoAndAHalfHours | client/src/App.jsx:425-435 | 2.5 h gives two 1 h cards and a 0.5 h card; one placed leaves 1 h and 0.5 h; three placed leave none |
| Resolver.ProjectCardsIdentity | client/src/App.jsx:431-434 | every project card is of type project and carries the project's id |
| Resolver.FullCardsShape | client/src/App.jsx:430-432 | the loop from lo to hi yields hi − lo full-hour cards indexed lo, lo+1, … |
| Resolver.AvailableCardsLayout | client/src/App.jsx:421-454 | the cards are the project cards, then the routine cards, then the cards of tasks |
| Resolver.ProjectCardCount | client/src/App.jsx:422-435 | a listed project has max(0, total − placed) cards if due on the date and none otherwise |
| Resolver.RoutineCardCount | client/src/App.jsx:439-445 | a routine has one card iff due on the weekday and not placed, otherwise none |
| Resolver.TaskCardCount | client/src/App.jsx:448-454 | a task of the date has one card iff open and not placed, otherwise none |
| Resolver.ProjectSectionCount | client/src/App.jsx:423-436 | within the project section, a project contributes its own cards and no other project's |
| Resolver.RoutineSectionCount | client/src/App.jsx:440-445 | within the routine section, a routine has one card iff present and not placed |
| Resolver.TaskSectionCount | client/src/App.jsx:449-454 | within the section of tasks, a task has one card iff present, open and not placed |
| Catalog.ProjectsForDateMembers | client/src/App.jsx:692-706 | a project is listed for a date iff it is not completed, the date lies in its start–end window and it has an allocation for the weekday |
| Catalog.FirstAllocationSpec | client/src/App.jsx:710 | the first allocation for a day, absent iff there is none |
| Catalog.ProjectHoursForDateSpec | client/src/App.jsx:708-712 | the hours of the first allocation for the weekday, or 0 without one |
| Catalog.CustomRoutinesForDayMembers | client/src/App.jsx:633-636 | a routine is due iff its days include the weekday |
| Catalog.Weekday | client/src/App.jsx:634 | the weekday is 0..6 |
| Forms.UpdateSetsDay | client/src/App.jsx:665-690 | afterwards the day has the given hours, or no entry when the hours are 0, or when it had none and the hours are negative |
| Forms.UpdateKeepsOtherDays | client/src/App.jsx:665-690 | entries of other days are unchanged, in order |
| Forms.UpdateKeepsUniqueDays | client/src/App.jsx:665-690 | one entry per day is kept |
| Forms.UpdateNeverStoresZero | client/src/App.jsx:669-688 | an allocation never gains an entry of 0 hours |
| Forms.ToggleRoutineDayMembers | client/src/App.jsx:624-631 | the toggled day is present iff it was absent; other days are unchanged |
| Forms.ToggleRoutineDayTwice | client/src/App.jsx:624-631 | toggling an absent day twice restores the list; toggling keeps days distinct |
| Forms.SortAscendingSpec | client/src/App.jsx:847 | the sort yields a sorted permutation |
| Forms.ToggleDaySelectionSpec | client/src/App.jsx:842-849 | the toggled day is present iff it was absent; adding yields a sorted list of the old days plus the day; a sorted list stays sorted |
| WorkoutLog.FindLog | client/src/App.jsx:767-769 | the index of the first entry for the exercise, or −1 if none |
| WorkoutLog.LogExerciseUpserts | client/src/App.jsx:762-794 | the date ends with an entry for the exercise, a new one only if it had none; its first entry holds the value in the logged field; other exercises' entries keep their places; other dates are untouched |
| WorkoutLog.LogExerciseTwice | client/src/App.jsx:762-794 | logging the same exercise again adds no entry |
| CsvFields.CastKeepsText | server/src/utils/csvParser.js:21-29 | exactly `true` and `false` become booleans; a cell that stays text, or becomes a boolean, reads back as the same text |
| CsvFields.CastKeepsIntText | server/src/utils/csvParser.js:25-26 | an integer the encoders write reads back unchanged through the cast and `String()`; it is a number cell iff it is not 0 |
| CsvFields.CastOfLeadingZero | server/src/utils/csvParser.js:25 | text starting with `0` stays text |
| CsvFields.CastExamples | server/src/utils/csvParser.js:19-29 | `true` and `false` become booleans; empty, `0.5` and `05` stay text |
| CsvFields.CastOfWord | server/src/utils/csvParser.js:25-29 | a word that is not a number stays text |
| CsvFields.IntTextCast | server/src/utils/csvParser.js:25-27 | the text of a non-zero integer becomes a truthy number; `0` stays text |
| CsvFields.IntThenSeparatorStaysText | server/src/utils/csvParser.js:25 | integer text followed by a comma, colon or bar separator and more text stays text |
| CsvFields.ParseCsv | server/src/utils/csvParser.js:9-38 | missing or blank input gives no rows; otherwise one row per record, with the record's columns, each cell the cast of the raw cell |
| CsvFields.ParseCsvOfWhiteSpace | server/src/utils/csvParser.js:11-13 | input of white space only, such as a lone form feed, gives no rows |
| CsvFields.ToCsv | server/src/utils/csvParser.js:46-64 | missing or empty data gives the empty string; otherwise the writer's output |
| CsvFields.ParseDayListOfEncodeDays | server/src/utils/csvParser.js:112 | splitting a non-empty joined day list and parsing each part gives the days back |
| CsvFields.CastOfEncodeDays | server/src/utils/csvParser.js:123 | the cell of two or more days stays text; the cell of one day is that day's number text |
| CsvFields.DaysRoundTripAsWritten | server/src/utils/csvParser.js:110-113 | decoding an encoded day list as written fails for exactly the lists of one non-zero day, and gives the days back otherwise |
| CsvFields.SingleDayRoundTripFails | server/src/utils/csvParser.js:110-113 | `[3]` is written as `3`, read back as the number 3, and `.split` on it fails |
| CsvFields.DaysRoundTrip | server/src/utils/csvParser.js:121-124 | the corrected decoder gives every encoded day list back |
| CsvFields.DaysEmpty | server/src/utils/csvParser.js:111-113 | an empty list is written as an empty cell, and a missing or empty cell reads as no days |
| CsvFields.ParseTenthsOfTenthsToString | server/src/utils/csvParser.js:78 | `parseFloat` of the text written for an hours value gives the value back |
| CsvFields.ParseEntryOfEntryText | server/src/utils/csvParser.js:77-78 | one `day:hours` entry reads back as its day and hours |
| CsvFields.AllocationRoundTrip | server/src/utils/csvParser.js:75-80 | decoding the encoded `timeAllocation` gives every entry's day and hours back, in order |
| CsvFields.CastOfEncodeAllocation | server/src/utils/csvParser.js:93-95 | the cell of a non-empty allocation is non-empty and stays text |
| CsvFields.AllocationEmpty | server/src/utils/csvParser.js:75-80 | an empty allocation is written as an empty cell, and a missing or empty cell reads as no entries |
| CsvFields.SessionsRoundTrip | server/src/utils/csvParser.js:81-83 | the encoded sessions JSON reaches `JSON.parse` unchanged; missing sessions are written as `{}` |
| CsvFields.SessionsMissing | server/src/utils/csvParser.js:81-83 | a missing or empty sessions cell reads as an empty object |

## Left out

- Browser and network I/O, React state updates and autosave are left out. Each handler is a method on `Planner`, or a function on the state it updates.
- Date objects, `toISOString` date keys and time zones are left out. A date is a day number, and calendar events are given as minute intervals of that day, where the source reads them with `getHours()`/`getMinutes()`.
- Floating point is left out. Hours are whole tenths. `toFixed(1)` rounding and hours finer than a tenth are not modelled.
- A card or block duration that is not a whole number of minutes, or is negative, is not modelled. The payload's duration is a `nat` of minutes.
- JSON (`JSON.parse` of drag payloads and of `completedSessions`, and `JSON.stringify`) is not modelled. A payload that fails to parse is `None`, and sessions JSON is carried as text.
- The `csv-parse` tokenizer and `csv-stringify` writer are not modelled: quoting, column selection and `skip_empty_lines`. Both are parameters of `ParseCsv`/`ToCsv`, and the errors they raise (rethrown by the source) are not modelled.
- `createBlockFromActivity` (client/src/App.jsx:389-414) is not modelled: nothing in the client calls it.
- `getEventsForDate` and the calendar sync are not part of this model. Events are an input.
- `parseSchedeCSV`/`schedeToCSV` are not modelled: they carry the exercises as JSON.
- The "1h default" comment at client/src/App.jsx:447 is not followed. Task cards are half an hour, as the code at line 452 has them.
- `plannedHours > 0` is not required for a project to be listed. The code at client/src/App.jsx:704 lists a project with any allocation for the weekday, including one of 0 hours, so the model does too.
- DayView.Planner.HandleTimeBlockDrop: works on minutes rather than on the `"HH:MM"` text. The text round trips it relies on are proved separately, by TimeOfDay.SlotTimeReadsBack, TimeOfDay.ToMinutesOfFormatTime and Placement.PlacedEndTime.
- DayView.Planner.GetAvailableActivityCards: its three loops are in the helper methods `CollectProjectCards`, `CollectOneProject`, `CollectRoutineCards` and `CollectTaskCards`.
- Text.NumberOf: reads only unsigned decimal digit text ("" is 0); any other text, signed text included, is NaN. `Number` also accepts a sign, white space, decimals, exponents and hexadecimal, but no input the encoders write needs them.
- CsvFields.ParseTenths: reads the whole part and the first decimal digit only. Exponents, `Infinity` and further decimals are not read.
- CsvFields.CellText: gives a number cell's literal, not `String(Number(literal))`. `Number` loses the text of `1.50`, `+5` or `1e3`, so the model does not promise that a number cell reads back as its text. The two agree on every cell the encoders write, which is what CsvFields.CastKeepsIntText states.
- Integer width: integers are unbounded. JavaScript numbers lose precision beyond 2^53, so the round trips of integer text are stated for all integers where the source only keeps them within that range.
- Text.IsSpace: white space is the ECMAScript set (WhiteSpace and LineTerminator) with Unicode 15's space separators. It is shared by Text.Trim, CsvFields.ParseCsv, Text.ParseInt and CsvFields.IsNumeric. Space separators added by later Unicode versions are not modelled.
- Text.ParseInt and CsvFields.Truthy: two JavaScript behaviours are dropped; no text the encoders write reaches either.
  - `parseInt("0x1A")` gives 26 in JavaScript, while the model reads decimal only and gives 0.
  - `Number("1e-400")` underflows to 0 and is falsy in JavaScript, while the model counts such a literal as non-zero and truthy.
- WorkoutLog.LogExercise: the logged value is an integer, not a float. A field other than the two modelled ones adds no property to the entry.
- Block ids compare with `===` on numbers. Activity ids compare as strings, as the resolver's `String(id)` does.

## Findings

| source | as written | input that shows it | evidently intended | confidence | as-written member | corrected member |
|---|---|---|---|---|---|---|
| server/src/utils/csvParser.js:110-113 | `routineToCSV` writes a one-day list as a bare integer. The `cast` rule at lines 19-29 turns that cell into a Number, and `record.days.split(',')` then throws a TypeError, so the routines file no longer loads. | a routine with `days = [3]`; the cell is `3` | every day list reads back, e.g. by reading the cell as text (`String(record.days)`) before splitting | not executed | CsvFields.DaysRoundTripAsWritten | CsvFields.DaysRoundTrip |
