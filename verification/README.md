# timetable-maker in Dafny

timetable-maker is a React application for planning a weekly university
timetable. A timetable holds five weekday lists (`mon` to `fri`) of blocks.
Each block has a name, a start and an end time, a colour, and sometimes a
room and an id. The screens share one active timetable. This project models
the logic behind those screens:

- **Combination search** (`generateAllValidTimetables`): include/exclude
  backtracking over the selected lectures. It pushes each accepted lecture's
  slots onto one shared working timetable, snapshots it at every leaf, and
  pops the slots again.
- **Reduction** (`handleGenerate` of the automatic-timetable screen):
  - drops the empty results;
  - sorts the rest by block count, largest first;
  - removes every timetable whose names are contained, day by day, in
    another one's;
  - sorts every day by start time.
- **Manual editing**, all with the half-open overlap test:
  - the input dialog adds, edits and deletes a block;
  - the catalog dialog appends a section to a chosen day.
- **Saved timetables**: a list keyed by name. Saving overwrites an entry of
  the same name; the list screen looks entries up and deletes them by name.
- **Catalog search**: a case-insensitive, de-duplicated name search, and the
  reading of a time text such as `월09:00-10:30` into a day and two times.

Times are integer minutes since midnight (`h*60 + m`). The source uses the
decimal `h + m/60`, which is this value divided by 60, so every comparison
the code makes comes out the same.

Modules, one per source file plus shared ones:

| module | file | models |
|---|---|---|
| `Wrappers`, `Seqs` | seqs.dfy | Option; filter, count, distinct (`new Set`), stable sort (`Array.prototype.sort`) |
| `Text`, `Clock` | text.dfy, clock.dfy | `trim`, `toLowerCase`, `includes`, `split`; `parseTimeToDecimal` and "HH:mm" text |
| `Schedule` | schedule.dfy | days, blocks, timetables, the overlap test, the two stores |
| `TimeTableGenerator` | generator.dfy | src/utils/TimeTableGenerator.js |
| `AutoTimeTable` | auto_timetable.dfy | src/Timetable/AutoTimeTable.jsx |
| `InputModal` | input_modal.dfy | src/InputModal/InputModal.jsx |
| `TimeTable` | timetable.dfy | src/Timetable/TimeTable.jsx |
| `SavedTimeTable` | saved_timetable.dfy | src/Timetable/SavedTimeTable.jsx |
| `LectureSelector` | lecture_selector.dfy | src/LectureSelector/LectureSelector.jsx |

The generator takes the source's imperative form:

- `Workspace` is a class holding the working timetable and the results.
- `Backtrack` is a recursive method that pushes and pops through two loop
  methods.
- It is proved against the specification function `Enumerate`, and the
  lemmas state what `Enumerate` yields.

The dominance pruning is a pair of loop methods (`PruneDominated`,
`FindSuperset`) proved against the function `Kept`.

State held by a screen is a class whose methods replace fields:
`TimetableStore`, `SavedStore`, `AutoTimeTablePage`, `SavedPage`. Each
handler's method is proved equal to a function of the old state (`AfterSubmit`,
`AfterEdit`, `AfterDelete`, `AfterSelect`, `AfterSave`). Lemmas then state
what those functions do.

Some edge cases, as the code handles them:

- A lecture with no slots is placed, adding nothing. It is not rejected
  (`CanPlaceLectureIff`).
- A lecture whose own slots overlap is placed, so its result has an overlap
  (`SelfOverlapNotChecked`). Results are conflict-free only for lectures
  whose slots are disjoint (`EnumerateConflictFree`).
- A time that does not parse becomes `NaN` (`None` here). Only on the main
  screen does an empty or missing time become 0. No error is raised.
- Two results with the same names on every day remove each other. Nothing
  breaks the tie (`SameNamesBothRemoved`). Two sections of one course give
  such results, so generating from them shows nothing
  (`TwoSectionsLeaveNothing`).
- With no lecture selected, `generated` is left as it was; it is not emptied.

## Model

| member | source | states |
|---|---|---|
| Clock.FormatRoundTrip | src/utils/TimeTableGenerator.js:3-6 | a zero-padded "HH:mm" text is read back as `h*60 + m` minutes, by both time parsers |
| TimeTableGenerator.CanPlaceLectureIff | src/utils/TimeTableGenerator.js:12-23 | a lecture can be placed iff, for each of its slots, every block on that slot's day ends at or before the slot's start or starts at or after its end; touching endpoints are allowed; a lecture without slots can always be placed |
| TimeTableGenerator.SelfOverlapNotChecked | src/utils/TimeTableGenerator.js:12-23 | the test never compares a lecture's slots with each other: a lecture with two identical Monday slots is accepted and its placement overlaps itself |
| TimeTableGenerator.PlacedGet | src/utils/TimeTableGenerator.js:45-52 | after the slots are pushed, each day is its old list followed by that lecture's blocks for the day, in slot order, with the lecture's name and the slot's times |
| TimeTableGenerator.PlacedIsPlus | src/utils/TimeTableGenerator.js:45-52 | pushing a lecture's slots appends, day by day, the lecture's whole block set: all slots or none |
| TimeTableGenerator.Workspace.constructor | src/utils/TimeTableGenerator.js:63 | the search starts from five empty days and no results |
| TimeTableGenerator.Workspace.PushSlots | src/utils/TimeTableGenerator.js:45-52 | the push loop leaves the timetable with the lecture placed, and the results untouched |
| TimeTableGenerator.Workspace.PopSlots | src/utils/TimeTableGenerator.js:56-59 | the pop loop restores the timetable to exactly its state before the pushes |
| TimeTableGenerator.Workspace.Backtrack | src/utils/TimeTableGenerator.js:29-61 | `backtrack(index)` appends exactly `Enumerate`'s results after the earlier ones, which stay as they were; it returns the working timetable unchanged |
| TimeTableGenerator.GenerateAllValidTimetables | src/utils/TimeTableGenerator.js:25-66 | the results are `Enumerate` from the empty timetable; they are never empty; the first is the empty timetable; if no lecture overlaps itself, no result has two overlapping blocks on a day |
| TimeTableGenerator.EnumerateFirst | src/utils/TimeTableGenerator.js:30-41 | because the exclude branch runs first, the first result is the timetable the call started from, even with no lectures |
| TimeTableGenerator.EnumerateBound | src/utils/TimeTableGenerator.js:29-60 | at most `2^n` results for `n` lectures |
| TimeTableGenerator.EnumerateCountAllCompatible | src/utils/TimeTableGenerator.js:29-60 | exactly `2^n` results when every lecture fits and no two lectures clash |
| TimeTableGenerator.PlacedConflictFree | src/utils/TimeTableGenerator.js:44-54 | placing a lecture that fits, and whose slots are disjoint, into a timetable without overlaps keeps it without overlaps |
| TimeTableGenerator.EnumerateConflictFree | src/utils/TimeTableGenerator.js:44-54 | every result is free of overlaps when the start is and every lecture's own slots are disjoint |
| TimeTableGenerator.PlacedFits | src/utils/TimeTableGenerator.js:44-54 | a lecture fits after another has been placed iff it fit before and no slot of the two overlaps on a shared day |
| TimeTableGenerator.EnumerateByMasks | src/utils/TimeTableGenerator.js:29-60 | result `t` is the starting timetable followed, on every day, by all blocks of exactly the lectures that choice `t` takes, in ascending lecture order |
| TimeTableGenerator.MasksNoDuplicates | src/utils/TimeTableGenerator.js:29-60 | no choice of lectures is produced twice |
| TimeTableGenerator.MasksAreAdmissible | src/utils/TimeTableGenerator.js:29-60 | a choice is produced iff every chosen lecture fits the starting timetable and no two chosen lectures clash |
| TimeTableGenerator.ResultsAreAdmissibleChoices | src/utils/TimeTableGenerator.js:29-60 | from the empty timetable, the results correspond one-to-one, in order, to the choices of lectures no two of which clash; each result is made of the blocks its choice takes |
| AutoTimeTable.AutoTimeTablePage.constructor | src/Timetable/AutoTimeTable.jsx:20-21 | the screen opens with no selected lectures and no generated timetables |
| AutoTimeTable.AutoTimeTablePage.SelectLecture | src/Timetable/AutoTimeTable.jsx:28-36 | a lecture without a name or a day is refused and changes nothing; otherwise it is appended last with the given id |
| AutoTimeTable.RemoveById | src/Timetable/AutoTimeTable.jsx:205-209 | the list keeps exactly the lectures with another id, in their order and each as often as before; it shrinks by the number of lectures with that id |
| AutoTimeTable.AutoTimeTablePage.RemoveSelected | src/Timetable/AutoTimeTable.jsx:205-209 | the remove button leaves the selected list filtered by id and `generated` unchanged |
| AutoTimeTable.AutoTimeTablePage.HandleGenerate | src/Timetable/AutoTimeTable.jsx:39-114 | with nothing selected, or nothing non-empty generated, `generated` is unchanged; otherwise it becomes the reduced results; the selection never changes |
| Seqs.SortBySorted | src/Timetable/AutoTimeTable.jsx:62-72 | the sort orders the list by its key and is a permutation of it |
| Seqs.SortByStable | src/Timetable/AutoTimeTable.jsx:62-72 | the sort is stable: elements with equal keys keep their order, as `Array.prototype.sort` guarantees |
| AutoTimeTable.IsSubsetIff | src/Timetable/AutoTimeTable.jsx:75-85 | `isSubset(small, large)` holds iff every block of `small` has a block of the same name on the same day of `large` |
| AutoTimeTable.IsSubsetReflexive | src/Timetable/AutoTimeTable.jsx:75-85 | every timetable is a subset of itself |
| AutoTimeTable.IsSubsetTransitive | src/Timetable/AutoTimeTable.jsx:75-85 | `isSubset` is transitive |
| AutoTimeTable.FindSuperset | src/Timetable/AutoTimeTable.jsx:91-96 | the inner loop finds a match iff some other position holds a value that the containment (`isSubset` on the screen) puts position `i` in |
| AutoTimeTable.PruneDominated | src/Timetable/AutoTimeTable.jsx:88-98 | the nested loops compute `Kept`: position `i` is kept iff no other position `j` has `sub(results[i], results[j])`; `handleGenerate` runs them with `isSubset` |
| AutoTimeTable.KeptMembers | src/Timetable/AutoTimeTable.jsx:88-98 | a value survives iff it sits at a position that is not dominated |
| AutoTimeTable.KeptSubsequence | src/Timetable/AutoTimeTable.jsx:88-98 | the survivors are a subsequence of the input, in input order |
| AutoTimeTable.KeptSorted | src/Timetable/AutoTimeTable.jsx:88-98 | a sorted input gives sorted survivors |
| AutoTimeTable.KeptAntichain | src/Timetable/AutoTimeTable.jsx:88-98 | no survivor is contained in another survivor |
| AutoTimeTable.EqualBothRemoved | src/Timetable/AutoTimeTable.jsx:88-98 | for a reflexive containment, a value held at two positions survives at neither |
| AutoTimeTable.MutualBothRemoved | src/Timetable/AutoTimeTable.jsx:88-98 | two positions whose values contain each other both lose, since `i !== j` is the only tie-break |
| AutoTimeTable.SameNamesBothRemoved | src/Timetable/AutoTimeTable.jsx:88-98 | two different results with the same names on every day, though their blocks may differ, remove each other |
| AutoTimeTable.SameNamesLeaveNothing | src/Timetable/AutoTimeTable.jsx:47-110 | when at least two results are non-empty and all of them have the same names day by day, the reduction leaves an empty list, not `None` |
| AutoTimeTable.TwoSectionsLeaveNothing | src/Timetable/AutoTimeTable.jsx:39-114 | with two Monday sections of one course selected, the generator gives the empty timetable, each section alone and both together, and `handleGenerate` replaces `generated` with an empty list |
| AutoTimeTable.PruneIdempotent | src/Timetable/AutoTimeTable.jsx:88-98 | running the pruning again on its output keeps everything |
| AutoTimeTable.SortDaysProperties | src/Timetable/AutoTimeTable.jsx:101-110 | sorting a timetable's days orders each day by start minute; it keeps each day's blocks as a multiset, the block count and the name sets |
| AutoTimeTable.SortDaysIsSubset | src/Timetable/AutoTimeTable.jsx:101-110 | sorting the days does not change which timetables contain which |
| AutoTimeTable.SortAllAntichain | src/Timetable/AutoTimeTable.jsx:101-110 | sorting every timetable's days keeps the survivors pairwise incomparable |
| AutoTimeTable.SortAllBySize | src/Timetable/AutoTimeTable.jsx:101-110 | sorting the days keeps the list ordered by block count |
| AutoTimeTable.SortEveryDay | src/Timetable/AutoTimeTable.jsx:101-110 | the `forEach` loop gives every timetable of the list with its days sorted |
| AutoTimeTable.SurvivorsFromResults | src/Timetable/AutoTimeTable.jsx:48-59 | every survivor is a non-empty generator result |
| AutoTimeTable.ReduceFromResults | src/Timetable/AutoTimeTable.jsx:47-110 | every timetable shown is non-empty and is a generator result with its days sorted |
| AutoTimeTable.ReduceBySize | src/Timetable/AutoTimeTable.jsx:61-72 | the timetables shown run from most to fewest blocks |
| AutoTimeTable.ReduceAntichain | src/Timetable/AutoTimeTable.jsx:87-98 | no timetable shown has its names, day by day, inside those of another one shown |
| AutoTimeTable.ReduceDaysSorted | src/Timetable/AutoTimeTable.jsx:100-110 | every day of every timetable shown runs by start minute |
| InputModal.Minutes | src/InputModal/InputModal.jsx:22-25 | the minutes of a time input are what `parseTimeToDecimal` reads from its text |
| InputModal.OverlapsSymmetric | src/InputModal/InputModal.jsx:28-35 | `checkOverLap` gives the same answer in both argument orders |
| InputModal.TouchingDoesNotOverlap | src/InputModal/InputModal.jsx:28-35 | intervals that only share an endpoint do not overlap |
| InputModal.FormatLexLess | src/InputModal/InputModal.jsx:209 | comparing two "HH:mm" texts as strings compares hours first, then minutes |
| InputModal.EndTimeValidIff | src/InputModal/InputModal.jsx:207-209 | for valid times of day, the string rule `value > startTime` holds iff the end is later in minutes |
| InputModal.SubmitClashIff | src/InputModal/InputModal.jsx:74-76 | `Submit` finds a clash iff the new interval does not fit the chosen day |
| InputModal.SubmitProperties | src/InputModal/InputModal.jsx:71-99 | on a clash nothing changes; otherwise exactly one block, with the form's fields and the fresh id, is appended last on the chosen day; no other day changes; a timetable without overlaps keeps none |
| InputModal.Submit | src/InputModal/InputModal.jsx:71-99 | the handler leaves the store holding `AfterSubmit` of the old timetable |
| InputModal.EditClashIgnoresSelf | src/InputModal/InputModal.jsx:104-107 | `Edit`'s check is the overlap test against the chosen day with block `idNum` taken out |
| InputModal.EditSameDay | src/InputModal/InputModal.jsx:102-137 | on the same day: the edit is refused iff it overlaps another block; otherwise block `idNum` is replaced by the edited block, placed last; the other blocks keep their order; exactly one block has that id; no other day changes; a timetable without overlaps keeps none |
| InputModal.EditAcrossDays | src/InputModal/InputModal.jsx:114-132 | when the day is changed, the opening day keeps the edited block, and the chosen day's blocks are replaced by the opening day's other blocks plus the edited block |
| InputModal.Edit | src/InputModal/InputModal.jsx:102-137 | the handler leaves the store holding `AfterEdit` of the old timetable |
| InputModal.DeleteProperties | src/InputModal/InputModal.jsx:139-145 | every block with id `idNum` leaves the opening day and nothing else does; the rest keep their order; the day shrinks by the number of such blocks; other days are unchanged; a timetable without overlaps keeps none |
| InputModal.HandleDelete | src/InputModal/InputModal.jsx:139-145 | the handler leaves the store holding `AfterDelete` of the old timetable |
| InputModal.OnSubmit | src/InputModal/InputModal.jsx:149 | an empty name, or an end not after the start, changes nothing; otherwise a truthy `idNum` edits and anything else adds |
| TimeTable.TimeOrZeroMissing | src/Timetable/TimeTable.jsx:29-33 | a missing or empty time reads as 0 |
| TimeTable.TimeOrZeroFormat | src/Timetable/TimeTable.jsx:29-33 | a formatted time reads as its minute count |
| Clock.EmptyTime | src/Timetable/TimeTable.jsx:29-33 | the main screen's parser reads "" as 0, where the other parsers give `NaN` |
| TimeTable.HasConflictIff | src/Timetable/TimeTable.jsx:271-276 | the section conflicts iff it does not fit the day |
| TimeTable.SelectProperties | src/Timetable/TimeTable.jsx:266-295 | on a conflict nothing changes; otherwise exactly one block, with the section's fields, its room and the id, is appended last on that day; no other day changes; a timetable without overlaps keeps none |
| TimeTable.SelectWithoutEndTime | src/Timetable/TimeTable.jsx:267-268 | a section without an end time reads as ending at 0 and is added to any day whose blocks start at or after midnight |
| TimeTable.OnSelect | src/Timetable/TimeTable.jsx:266-295 | the handler leaves the store holding `AfterSelect` of the old timetable |
| Schedule.DropNamed | src/Timetable/TimeTable.jsx:246 | filtering by name keeps exactly the entries with another name, in order, and drops as many entries as carry the name |
| TimeTable.SaveProperties | src/Timetable/TimeTable.jsx:238-253 | a name that is blank after trimming changes nothing; otherwise the new entry goes last, it is the only entry with that name, the others keep their order, and the length is the old length minus the duplicates plus one |
| TimeTable.Save | src/Timetable/TimeTable.jsx:238-253 | the save button leaves the saved list as `AfterSave` of the old one |
| SavedTimeTable.SavedPage.constructor | src/Timetable/SavedTimeTable.jsx:13-16 | the screen opens with the stored list and no selection |
| SavedTimeTable.FindFirst | src/Timetable/SavedTimeTable.jsx:26 | `find` answers the first entry with the name, and nothing exactly when no entry has it |
| SavedTimeTable.SavedPage.SelectedTable | src/Timetable/SavedTimeTable.jsx:26 | the selected table is the first entry of the list carrying the selected name, and is absent iff no entry carries it |
| SavedTimeTable.SavedPage.Select | src/Timetable/SavedTimeTable.jsx:52 | choosing a name sets the selection and leaves the list alone |
| SavedTimeTable.SavedPage.HandleDelete | src/Timetable/SavedTimeTable.jsx:18-24 | with no selection nothing changes; otherwise every entry with the selected name is dropped from the list and from the store; the selection is cleared; the name is no longer found |
| SavedTimeTable.DroppedNotFound | src/Timetable/SavedTimeTable.jsx:20-26 | after the entries with a name are dropped, looking that name up finds nothing |
| LectureSelector.FilteredNamesDistinct | src/LectureSelector/LectureSelector.jsx:50-58 | no name is listed twice |
| LectureSelector.FilteredNamesMembers | src/LectureSelector/LectureSelector.jsx:52-56 | a name is listed iff some catalog entry has it and its lower-case form contains the lower-case search text |
| LectureSelector.FilteredNamesEmptySearch | src/LectureSelector/LectureSelector.jsx:52-56 | an empty search lists every catalog name |
| LectureSelector.FilteredNamesOrder | src/LectureSelector/LectureSelector.jsx:50-58 | names are listed in the order of their first occurrence in the catalog |
| Text.IncludesIff | src/LectureSelector/LectureSelector.jsx:55 | `includes` holds iff the text occurs at some position |
| LectureSelector.FilteredLecturesProperties | src/LectureSelector/LectureSelector.jsx:61 | the sections shown are exactly the catalog entries with the chosen name, in catalog order, as many as carry the name |
| LectureSelector.DayMapIff | src/LectureSelector/LectureSelector.jsx:69-75 | `dayMap` maps exactly the five characters 월 화 수 목 금, each to its own weekday |
| LectureSelector.SelectFinalDay | src/LectureSelector/LectureSelector.jsx:64-89 | the day is `dayMap` of the first character; name, room, colour and id are copied |
| LectureSelector.SelectFinalTimes | src/LectureSelector/LectureSelector.jsx:65-67 | the times are the trimmed first and second `-`-separated pieces after the day; anything after a second `-` is ignored |
| LectureSelector.SelectFinalNoDash | src/LectureSelector/LectureSelector.jsx:66-67 | a time text without `-` gives no end time and its whole trimmed rest as the start time |
| Text.SplitJoin | src/LectureSelector/LectureSelector.jsx:67 | `split` undoes joining pieces that do not contain the separator |
| Text.JoinSplit | src/LectureSelector/LectureSelector.jsx:67 | joining the pieces of `split` gives back the text |
| LectureSelector.SelectFinalRoundTrip | src/LectureSelector/LectureSelector.jsx:64-89 | a well-formed time text "<day>HH:mm-HH:mm" reads back as that day and as times that parse to the written minute counts |

## Left out

- Rendering, layout and navigation are not modelled: the grid, the previews, the dialogs' open/close state, `alert`, and `applyToTimeTable`. Neither is the Korean IME composition handling of the search box.
- Host effects become parameters:
  - `localStorage` and JSON are the `SavedStore` class;
  - Recoil's shared timetable is the `TimetableStore` class;
  - ids (`uuid`, `Date.now()`) are caller-supplied values;
  - the random colour (src/utils/colors.js) is one caller-supplied colour, used for every block the generator pushes.
- Times are integer minutes, not floating-point `h + m/60`; the two orderings agree for every comparison the code makes.
- TimeTableGenerator.Slot: the generator's slots carry times already read as minutes; the parse of their "HH:mm" text is modelled once, in `Clock.ParseTime`, but not applied to the slots. A slot whose text does not parse (`NaN`, which makes every comparison false) is not modelled.
- TimeTable.OnSelect: requires both times of the section to parse. A section whose time text is not digits:digits (`NaN` in the code, or a text `Number` reads in ways `Clock.Number` does not) is not modelled.
- Clock.Number: reads only a run of decimal digits (the empty text is 0, as in JavaScript). The rest of what JavaScript's `Number` accepts is not read: surrounding whitespace, a sign, a decimal point, an exponent, hexadecimal, binary and octal prefixes, and `Infinity`. Such a time text gives `None` here where the code gets a number.
- TimeTable.OnSelect: the catalog dialog calls `onSelect(mappedLecture)` (src/LectureSelector/LectureSelector.jsx:87), but the main screen's handler is `(day, lecture) => …`. In the code `lecture` is therefore undefined, `lecture.startTime` (src/Timetable/TimeTable.jsx:267) throws a TypeError, nothing is added and the dialog stays open. `OnSelect` and `AfterSelect` model the repaired wiring, taking the day and the section separately.
- AutoTimeTable.AutoTimeTablePage.HandleGenerate: the automatic screen stores flat lectures (one day and one time range each, src/Timetable/AutoTimeTable.jsx:28-36), but the generator reads `lecture.slots` (src/utils/TimeTableGenerator.js:44), which such a lecture does not have. In the code, `slots.every` (src/utils/TimeTableGenerator.js:13) on `undefined` throws a TypeError as soon as a lecture is tried, so `generateAllValidTimetables` (src/Timetable/AutoTimeTable.jsx:45) never returns and `generated` never changes. `HandleGenerate` and `AsLecture` model the repaired wiring: each selected lecture becomes a lecture with one slot. `Candidate` takes the selector's day and times already in minutes.
- TimeTable.SelectWithoutEndTime: a section without an end time is stored here with end 0. The code stores `endTime: undefined` (src/Timetable/TimeTable.jsx:284-289). The input dialog's parser calls `timeStr.split` (src/InputModal/InputModal.jsx:23), so a later add or edit on that day throws in `checkOverLap`, where `AfterSubmit` and `AfterEdit` here compare against end 0. That failure is not modelled.
- Text.ToLower: lower-cases only the ASCII letters A-Z; the case folding `toLowerCase` does beyond ASCII is not modelled. Strings are sequences of code points: splitting a surrogate pair with `slice(0, 1)` is not modelled.
- Seqs.SortBy: `results.sort` and `table[day].sort` sort arrays in place. Here they are a stable sort on values (`SortBy`, `SortEveryDay`); the aliasing of sorting in place is not modelled.
- The save dialog's own state (`setTimetableName("")`, `setSaveDialog(false)`) is not modelled.
- InputModal.EditAcrossDays: editing a block into a different day is modelled as written. It is not repaired: the block stays on its old day and the chosen day is overwritten.
- AutoTimeTable.Kept: the pruning may remove every timetable, since results with the same names day by day remove each other (`SameNamesBothRemoved`, `TwoSectionsLeaveNothing`). `HandleGenerate` then shows an empty list, as the code does.
