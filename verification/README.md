# SvS preparation scripts, modelled in Dafny

The SvS preparation scripts are Google Apps Scripts that run behind an alliance's
preparation spreadsheet. Each core script is modelled here on values.

- **The slot scheduler** (`ScheduleOld.js`):
  - It reads player rows: name, cleaned availability, the start time of the slot on that row,
    contribution and speedups.
  - It builds a pool holding the first row of every name.
  - It ranks the pool stably, counts each slot's candidates once, and orders the slots
    from scarcest to most plentiful.
  - It gives every slot the first candidate who has no slot yet.
  - There are four strategies: `scheduleBasedOnSort`, `scheduleBasedOnLimitedAvailability`,
    `scheduleAllSlots` and `scheduleBasedOnSpeedups`. The last one keeps only the top 48
    players.
  - The four are one method, `Schedule.RunStrategy`, run with four `Strategy` values.
  - `Schedule()` runs them all, then runs the duplicate-name check.
- **The availability parser** (the five `clean*AvailabilityColumn` copies, which are the same
  code):
  - A free-text cell is split on commas.
  - Parts that start with `<1-2 digits>-<1-2 digits> UTC` are hour ranges; every other part
    is dropped.
  - Every hour of a range becomes the two half-hour labels `HH:00` and `HH:30`.
  - The labels are joined with `", "`.
  - The regular expression is modelled by a small recogniser, `Availability.MatchClause`.
    `Availability.CleanCell` models the per-cell `map` callback.
- **The form-response generators** (`getConstructionData`, `getResearchData`, `getTroopData`
  and their older copies):
  - They drop the header row and keep the responses whose opt-in column is exactly `"Yes"`.
  - They sort those responses stably by a numeric column, highest first.
  - They project a fixed list of columns. The troop generator also composes a troop string.
  - `combineTroopLevels` builds the same troop list with the troop name first.
- **The layout sheet** (`Layout.js`):
  - The bijective base-26 column-letter conversion.
  - The 48 half-hour slots of the three tracks and the cells they fill.

Cells are `Cells.Cell`: blank, text, or an integer number. Strings are `seq<char>`. JavaScript's
stable `Array.prototype.sort` with a difference comparator is modelled as `Sorting.SortBy`, an
insertion sort on lexicographic integer keys. Its permutation, ordering and stability are
proved.

Cleaning availability is not idempotent. The cleaned text holds only labels such as `00:00`,
and none of them matches the range pattern, so cleaning a cleaned cell gives the empty string
(`Slots.CleanTwice`).

## Model

A row whose last column starts with "defines:" names a function whose `ensures` restate its
definition (a `map`, a slice or a lookup). Such a row documents the definition and claims no proved property.

| member | source | states |
|---|---|---|
| Slots.StripLeadingZero | ScheduleOld.js:5 | `replace(/^0/, '')`: the text changes exactly when it starts with '0', and then loses only that character |
| Slots.NormalizeTimePadded | ScheduleOld.js:3-6 | normalizeTime of a padded label `HH:00`/`HH:30` is the hour without padding followed by the same minutes ("00:00" to "0:00", "09:30" to "9:30", "10:00" unchanged) |
| Slots.NormalizeAll | ScheduleOld.js:11 | defines: `.map(normalizeTime)`: one normalised time per cell, position by position |
| Slots.SplitJoinedLabels | ScheduleOld.js:25 | a non-empty list of parser labels joined with ", " is non-empty and splits on ", " back into the same list |
| Slots.SlotsOfClean | ScheduleOld.js:25 | the scheduler's slot list for a cleaned cell is the parser's own label list, each label normalised: parser and scheduler agree on the `", "` format |
| Slots.CleanTwice | ConstructionMonday.js:125-149 | cleaning an already cleaned cell gives the empty string, because no label is a range clause |
| Pool.BuildPool | ScheduleOld.js:20-28 | the pool loop with its `seenNames` set computes the pool of the rows |
| Pool.NamesSnoc | ScheduleOld.js:23 | adding a player to the pool adds exactly its name to the seen names |
| Pool.PoolEntries | ScheduleOld.js:20-28 | every player is built from its own row (name, slots, metric), has a non-empty name, and players appear in increasing row order |
| Pool.PoolComplete | ScheduleOld.js:20-28 | every non-empty name of the rows is in the pool |
| Pool.PoolFirstOccurrence | ScheduleOld.js:21-23 | each player's index is the first row that carries its name |
| Pool.PoolDistinct | ScheduleOld.js:21-23 | no two players share a name |
| Pool.RankedFacts | ScheduleOld.js:33-36 | ranking permutes the pool and keeps names distinct; a sorting strategy orders by slot count, then by descending contribution or speedup, and players with equal keys keep their order |
| Pool.Cap | ScheduleOld.js:225 | `slice(0, 48)`: the first min(cap, size) players of the ranked pool |
| Sorting.StableSort | ScheduleOld.js:33-36 | the in-place sort of a sequence computes the insertion-sort specification |
| Sorting.InsertAt | ScheduleOld.js:33-36 | one insertion step places the element before the first element with a strictly later key |
| Sorting.SortByPermutes | ScheduleOld.js:45 | sorting is a permutation |
| Sorting.SortBySorted | ScheduleOld.js:45 | the sorted sequence is non-decreasing by key |
| Sorting.SortByStable | ScheduleOld.js:45 | within each key class the original order is kept (the sort is stable) |
| Sorting.SortByDistinct | ScheduleOld.js:33-36 | elements that differ on a field still differ after sorting |
| Assignment.Available | ScheduleOld.js:40 | the candidates of a time are exactly the pool players whose slots include it and who are not assigned |
| Assignment.AvailableInOrder | ScheduleOld.js:40 | `filter` keeps pool order: of two candidates, the earlier one comes from an earlier position of the pool |
| Assignment.CandidatesRanked | ScheduleOld.js:40-49 | in a pool with distinct names, a player ranked ahead of candidate f and free at the time is listed before f, so it is assigned whenever every candidate ahead of f is |
| Assignment.EarlierCandidate | ScheduleOld.js:40 | of two candidates from a pool with distinct names, the one ranked first is listed first |
| Assignment.SlotEntries | ScheduleOld.js:39-42 | defines: one entry per slot row, with its time, its row and its candidates counted while nobody is assigned |
| Assignment.FirstFree | ScheduleOld.js:49 | `find`: the first candidate not assigned yet, or none exactly when every candidate is assigned |
| Assignment.Greedy | ScheduleOld.js:48-57 | the greedy state has one pick per processed slot and one schedule cell per slot row |
| Assignment.AssignSlots | ScheduleOld.js:48-57 | the assignment loop writes the greedy schedule and leaves `assignedPlayers` equal to the greedy set of assigned names |
| Assignment.PickedSnoc | ScheduleOld.js:52-53 | one more pick adds exactly its name to the assigned names |
| Assignment.GreedyTaken | ScheduleOld.js:52-53 | `assignedPlayers` holds exactly the names that received a slot |
| Assignment.GreedyPrefix | ScheduleOld.js:48-57 | running a prefix of the slot order gives a prefix of the picks and a subset of the assigned names |
| Assignment.GreedyStep | ScheduleOld.js:49-50 | slot k receives the first candidate not assigned by the slots before it |
| Assignment.GreedyPicks | ScheduleOld.js:49-56 | a slot's pick is one of its candidates, unassigned until then, and every candidate listed ahead of it was already assigned; a slot without a pick has every candidate already assigned |
| Assignment.GreedyInjective | ScheduleOld.js:48-57 | no player receives two slots |
| Assignment.GreedySchedule | ScheduleOld.js:51 | the row of each processed slot shows that slot's pick, and rows of unprocessed slots stay empty |
| Assignment.SlotOf | ScheduleOld.js:45-51 | every slot row is processed once in the scarcity order, and its cell shows that slot's pick |
| Assignment.TakenScheduled | ScheduleOld.js:51-53 | the assigned names are exactly the names written into the schedule column |
| Assignment.ScheduleInjective | ScheduleOld.js:48-57 | two different rows never show the same name |
| Assignment.ScheduleEligible | ScheduleOld.js:40-51 | a name in row i belongs to a candidate of row i |
| Assignment.ScheduleExhausted | ScheduleOld.js:49-56 | a row left blank has every candidate assigned elsewhere |
| Assignment.SchedulePriority | ScheduleOld.js:48-53 | the name in row i is a candidate of row i, and every candidate listed ahead of it was assigned by a slot processed earlier; those names all end up in the column |
| Assignment.RowPriority | ScheduleOld.js:40-53 | when row i shows player m, every player ranked ahead of m and free at row i's time was assigned before row i's slot was processed, and holds a slot |
| Schedule.Times | ScheduleOld.js:11 | defines: the start-time column, each time normalised |
| Schedule.Unassigned | ScheduleOld.js:60-64 | the highlighted players are exactly the pool players not assigned |
| Schedule.CollectUnassigned | ScheduleOld.js:60-64 | the highlighting loop collects the unassigned players in pool order |
| Schedule.OrderFacts | ScheduleOld.js:45 | the sorted slot order lists every slot row exactly once, fewest available players first, slots with equally many in row order |
| Schedule.RunStrategy | ScheduleOld.js:8-261 | each of the four schedule* functions computes its strategy's outcome: schedule, unassigned players, colour and the assigned and considered counts, which three of them log (lines 66, 130 and 260; scheduleAllSlots logs nothing) (scheduleBasedOnSort at lines 8-67, scheduleBasedOnLimitedAvailability at 70-131 by slot count only, scheduleAllSlots at 134-190 in first-seen order, scheduleBasedOnSpeedups at 192-261 with the top 48) |
| Schedule.RunInjective | ScheduleOld.js:48-57 | nobody is scheduled twice |
| Schedule.RunEligible | ScheduleOld.js:40-51 | a scheduled player is a considered player whose slot list includes the row's time |
| Schedule.RunPicksFirst | ScheduleOld.js:40-53 | the priority rule: when row i gets considered player m, every considered player ranked ahead of m and free at row i's time was assigned by an earlier slot of the order, and so has a slot |
| Schedule.ConsideredSorted | ScheduleOld.js:30-36 | under a sorting strategy the considered players are ordered by slot count, then by descending contribution or speedup |
| Schedule.RunPrefersScarcer | ScheduleOld.js:30-53 | under a sorting strategy, of two players free at a row's time, the one with fewer slots (or as many and a higher contribution or speedup) is never passed over for the other without getting a slot itself |
| Schedule.RunExhausted | ScheduleOld.js:49-56 | a slot stays blank only when every considered player available at its time already has a slot |
| Schedule.RunUnassigned | ScheduleOld.js:60-66 | the highlighted players are exactly the considered players without a slot, and the logged count is the number of scheduled names, at most the number of considered players and at most the number of slot rows |
| Schedule.RunFillsAll | ScheduleOld.js:47-63 | with as many considered players as slot rows, each available at every row's time, every row gets a player and nobody is highlighted |
| Schedule.RunCap | ScheduleOld.js:225-229 | under a cap, only the first `cap` players of the ranked pool can be scheduled or highlighted |
| Schedule.Window | ScheduleOld.js:9 | defines: a fixed range reads the sheet's rows and blank rows below the data |
| Schedule.NameColumn | ScheduleOld.js:264-265 | defines: the names of the rows, position by position |
| Schedule.ScheduleAll | ScheduleOld.js:285-299 | Schedule(): the three fixed-range strategies on rows 7 to 54, the speedup strategy on all rows, and the duplicate flags of rows 7 to 107, counted with the corrected name count (see Findings) |
| Schedule.SkippedRowIsDuplicate | ScheduleOld.js:22 | a named row the pool builder skips because its name was seen is flagged as a duplicate |
| Schedule.DuplicateOfFirstIsSkipped | ScheduleOld.js:269-277 | the first row of a duplicated name has a later row with that name, which the pool builder skips |
| Duplicates.HighlightDuplicateNames | ScheduleOld.js:263-282 | a row is flagged exactly when its name is non-empty and occurs more than once (counts kept in a map) |
| Duplicates.DuplicatedIffOther | ScheduleOld.js:269-281 | flagged exactly when some other row carries the same non-empty name |
| Duplicates.StoredCountAsWritten | ScheduleOld.js:266-270 | defines: the plain object holds a usable count for every ordinary name, and no count for an inherited property name |
| Duplicates.FlaggedAsWrittenAgrees | ScheduleOld.js:274-276 | for every ordinary name the plain object flags the same rows as the map |
| Duplicates.InheritedNameNeverFlagged | ScheduleOld.js:266-277 | two rows named "constructor" are duplicates, but the plain object does not flag them |
| Availability.HourThen | ConstructionMonday.js:132 | a match of one or two digits and a literal yields a number below 100 and a position inside the text |
| Availability.MatchClause | ConstructionMonday.js:132 | a recognised clause has both hours below 100 |
| Availability.HourThenAt | ConstructionMonday.js:132 | a digit run of one or two digits followed by the literal is read with its decimal value |
| Availability.HourThenShape | ConstructionMonday.js:132 | what is read is a run of one or two digits followed by the literal |
| Availability.MatchClauseShapes | ConstructionMonday.js:132 | the recogniser matches exactly the four shapes of `^\d{1,2}-\d{1,2} UTC` and returns the values of the two digit runs |
| Availability.MatchRenderedClause | ConstructionMonday.js:132-141 | every hour range below 100, written "s-e UTC" and followed by any text, is recognised with its own hours |
| Availability.ExpandLength | ConstructionMonday.js:142-145 | a range s-e contributes 2·max(0, e−s) labels |
| Availability.ExpandAt | ConstructionMonday.js:142-145 | the labels of hour s+k are at positions 2k (":00") and 2k+1 (":30") |
| Availability.ExpandSnoc | ConstructionMonday.js:142-145 | extending a range by one hour appends that hour's two labels |
| Availability.ClauseLabelsSnoc | ConstructionMonday.js:139-146 | each part adds its labels after those of the parts before it |
| Availability.PushRange | ConstructionMonday.js:142-145 | the hour loop appends exactly the range's labels |
| Availability.CleanCell | ConstructionMonday.js:125-149 | the per-cell callback of the availability cleaners: '' for an empty cell, otherwise the labels of the recognised parts, in order, joined with ", " (the same code is at TroopsThursday.js lines 143-167, ResearchTuesday.js 125-149, ConstructionMondayOld.js 122-146 and TroopsThursdayOld.js 121-145) |
| Slots.HourLabelsAreLabels | ConstructionMonday.js:143-144 | the two labels of an hour below 100 are two digits, ':', and "00" or "30" |
| Slots.ExpandLabels | ConstructionMonday.js:142-145 | every label of a range is well formed |
| Slots.IntervalsAreLabels | ConstructionMonday.js:139-146 | every label the parser emits is well formed |
| Slots.IntervalsOfEmpty | ConstructionMonday.js:130-133 | splitting the empty text gives no labels |
| Slots.LabelSeparable | ConstructionMonday.js:148 | no label contains a comma |
| Slots.PartLabelsNoDash | ConstructionMonday.js:130-133 | a part without a dash adds no labels |
| Strings.TrimIsInfix | ConstructionMonday.js:132 | `trim` removes exactly a whitespace prefix and a whitespace suffix |
| Strings.TrimEnds | ConstructionMonday.js:132 | trimmed text neither starts nor ends with whitespace |
| Strings.TrimUnchanged | ScheduleOld.js:5 | text without surrounding whitespace is left alone by `trim` |
| Strings.JoinSplit | ConstructionMonday.js:131 | joining the pieces of a split gives the text back |
| Strings.SplitJoin | ScheduleOld.js:25 | splitting a join recovers the parts when no part contains the separator's first character |
| Strings.DecimalValueOfNatToString | ConstructionMonday.js:140-141 | `parseInt` of a number's decimal text is the number |
| Strings.NatToStringLength | ConstructionMonday.js:137 | a number below 100 has one or two digits |
| Strings.PadStart2Shape | ConstructionMonday.js:137 | `padStart(2, '0')` prefixes one '0' to a one-digit text and leaves longer text alone |
| Strings.Pad2Digits | ConstructionMonday.js:137 | a padded hour below 100 is exactly two digits |
| Cells.TruthyDisplay | TroopsThursday.js:110-112 | a truthy cell prints as non-empty text |
| Responses.Body | ConstructionMonday.js:95 | defines: `slice(1)`: every row but the header, in order |
| Responses.Filter | ConstructionMonday.js:100 | the kept rows are all opted in, and there are no more of them than rows |
| Responses.FilterCounts | ConstructionMonday.js:100 | every opted-in row is kept as often as it occurs, and nothing else is |
| Responses.SortDescendingFacts | ConstructionMonday.js:102-106 | the sort permutes the rows, orders them by the sort column (non-numeric as 0), highest first, and keeps ties in response order |
| Responses.Project | ConstructionMonday.js:111 | defines: one output cell per field, each the field's value |
| Responses.Extract | ConstructionMonday.js:93-114 | defines: one projected row per selected response, in output order |
| Responses.ExtractFacts | ConstructionMonday.js:93-114 | the output rows come from the opted-in responses below the header, each as often as it occurs, with one cell per field, in non-increasing order of the sort column, rows with equal values in response order |
| Responses.ExtractSortedBy | ConstructionMonday.js:102-111 | when the sort column is also an output field, that output column is non-increasing |
| Responses.NonEmpty | TroopsThursday.js:114 | `filter(Boolean)` keeps only non-empty strings |
| Responses.TroopParts | TroopsThursday.js:109-114 | the troop parts are non-empty, at most one per troop cell |
| Responses.NameFirstParts | TroopsThursday.js:223-225 | the name-first parts of three cells are "Infantry n", "Lancer n", "Marksman n" for the truthy cells, in that order |
| Responses.TroopPartsStep | TroopsThursday.js:223-225 | each truthy troop cell adds its part after the parts of the cells before it |
| Responses.TroopPartsEmpty | TroopsThursday.js:109-114 | there are no parts exactly when no troop cell is truthy |
| Responses.TroopPartsOrders | TroopsThursday.js:221-227 | count-first and name-first lists have the same number of parts, and part k of each labels the same troop cell |
| Responses.TroopPartsIndexed | TroopsThursday.js:221-227 | part k of a troop list is the label of the k-th truthy troop cell, so the parts follow column order and skip exactly the falsy cells |
| Responses.TroopCells | TroopsThursday.js:110-112 | the troop cells are columns K, L and M |
| Responses.NonEmptyTroops | TroopsThursday.js:110-114 | filtering the three count-first strings leaves exactly the parts of the truthy cells |
| Responses.TroopStringParts | TroopsThursday.js:109-114 | the troop string lists one "n troop" part per truthy troop cell, in column order, joined with ", " |
| Responses.TroopStringEmpty | TroopsThursday.js:109-114 | the troop string is empty exactly when none of the three troop cells is truthy |
| TroopsThursday.ProjectTroopRow | TroopsThursday.js:117-128 | the field list projects a response to alliance, name, furnace, troop string, then columns 13, 17, 14, 18, 20, 19 |
| TroopsThursday.GetTroopData | TroopsThursday.js:93-132 | one 10-cell row per response opted in by column G, highest column N first |
| TroopsThursday.CombineRow | TroopsThursday.js:221-228 | one row's name-first parts of the truthy cells, joined with ", " |
| TroopsThursday.CombineTroopLevels | TroopsThursday.js:211-232 | one combined string per row, built from the same row's three cells |
| TroopsThursday.CombinedAgreesWithTroopString | TroopsThursday.js:109-114 | combineTroopLevels and the troop string have the same number of parts, and one is empty exactly when the other is |
| ConstructionMonday.ProjectConstructionRow | ConstructionMonday.js:111 | the field list projects columns 1, 2, 3, 7, 8, 15, 14, 18, 20, 19 |
| ConstructionMonday.GetConstructionData | ConstructionMonday.js:93-114 | one 10-cell row per response opted in by column E, highest column I first |
| ResearchTuesday.ProjectResearchRow | ResearchTuesday.js:111 | the field list projects columns 1, 2, 3, 7, 9, 16, 14, 18, 20, 19 |
| ResearchTuesday.GetResearchData | ResearchTuesday.js:93-114 | one 10-cell row per response opted in by column F, highest column J first |
| ConstructionMondayOld.ProjectConstructionRow | ConstructionMondayOld.js:108 | the field list projects columns 1, 2, 3, 7, 10, 9, 15, 16, 14 |
| ConstructionMondayOld.GetConstructionData | ConstructionMondayOld.js:91-111 | one 9-cell row per response opted in by column E, highest column H first |
| TroopsThursdayOld.ProjectTroopRow | TroopsThursdayOld.js:107 | the field list projects columns 1, 2, 3, 13, 12, 9, 15, 16, 14 |
| TroopsThursdayOld.GetTroopData | TroopsThursdayOld.js:90-110 | one 9-cell row per response opted in by column G, highest column N first |
| Layout.ColumnLetterToIndex | Layout.js:142-149 | the Horner loop computes the base-26 value of the letters, read left to right |
| Layout.Letter | Layout.js:146 | the letter of digit d is upper case and has letter value d |
| Layout.ColumnLetters | Layout.js:142-149 | the inverse conversion always yields a column name |
| Layout.ColumnIndexPositive | Layout.js:142-149 | every column name has an index of at least 1 |
| Layout.IndexOfLetters | Layout.js:142-149 | the index of the name of n is n |
| Layout.LettersOfIndex | Layout.js:142-149 | the name of the index of a column name is that name |
| Layout.ColumnIndexInjective | Layout.js:142-149 | two column names with the same index are equal |
| Layout.BorderColumnIndices | Layout.js:128-139 | the border columns "A", "G", "M" and "S" are columns 1, 7, 13 and 19 |
| Layout.EndTime | Layout.js:83-85 | slot i ends 30 minutes after its start, at `endHour`:`endMinute`, with `endMinute` 0 or 30 |
| Layout.HalfHours | Layout.js:83-85 | k half hours are k/2 hours, plus 30 minutes when k is odd |
| Layout.PopulateTimeAndMessages | Layout.js:70-109 | 48 slots × 3 tracks of cells, in loop order: slot i of track j goes on row 4+i, with its track's time and message columns and role |
| Layout.SlotsContiguous | Layout.js:82-86 | a slot ends when the next one starts, the message repeats the start time, and the last slot ends at 24:00 |
| Layout.SlotsInsideFrame | Layout.js:113-120 | every slot cell lies strictly inside the grey frame: below the top row 1 and above the bottom row 52, between the border columns around its track |
| Layout.SlotCellsDistinct | Layout.js:88-94 | different slots or tracks never write the same cell |

## Left out

- Every spreadsheet call is left out: reading ranges, `setValue`, backgrounds, borders,
  checkboxes, merges, fonts, column widths, sheet creation and header copying. Outputs are data
  instead: the name per slot row, the unassigned players, the colour string and the logged
  counts.
- The check that reads a slot column back to find blank cells (ScheduleOld.js:121-128,
  ScheduleOld.js:246-251) is sheet I/O. In the model a blank slot is a row with no assignment.
- Colours are layered on column B: each strategy's highlight covers the previous one. The model
  keeps each strategy's set of highlighted players and not the final colours.
- Schedule.ScheduleAll: when the sheet has no row below row 6, the source's `getRange` with
  zero rows throws an error. The model then runs the speedup strategy on no rows.
- Schedule.ScheduleAll: the duplicate flags use the corrected count
  (`Duplicates.HighlightDuplicateNames`). For the twelve names inherited from
  `Object.prototype`, such as "constructor", the script as written never flags them; see the
  Findings row for `Duplicates.InheritedNameNeverFlagged`.
- `Utilities.formatDate` with the script time zone is a parameter of
  Layout.PopulateTimeAndMessages. It maps minutes after midnight to text. The message template's
  fixed wording is not modelled; only its role, start and end are.
- The total-speedup functions (`add*TotalSpeedups`) add floating-point numbers and are not
  modelled.
- Cells.NumericValue: `parseFloat` and `Number` of a text cell are taken as 0, and number cells
  hold integers. In JavaScript `parseFloat("12 abc")` is 12 and cells can hold fractions.
- Name, availability and start-time cells are modelled as text. The script treats other
  cell values differently in each column, and the model does not capture this:
  - Start time (ScheduleOld.js:4-5): `normalizeTime` applies `String` before `trim`. A number
    or date is accepted and becomes text such as "9" or a full date string. That text matches
    no slot label, so the row stays blank.
  - Name (ScheduleOld.js:21-23, 269-276): names are never trimmed or split. A number is
    accepted as a name. `seenNames` tells the number 5 and the text "5" apart, but the keys of
    `nameCounts` do not.
  - Availability (ScheduleOld.js:25, and the cleaner's `cell.split(',')` at
    ConstructionMonday.js:130-131, ResearchTuesday.js:130-131, TroopsThursday.js:148-149,
    ConstructionMondayOld.js:127-128 and TroopsThursdayOld.js:126-127): a number or date has no
    `split` method, so the script stops with an error.
- Schedule.RunStrategy: the outcome of the all-slots strategy carries `assignedCount` and
  `poolSize`, but scheduleAllSlots (ScheduleOld.js:134-190) logs nothing. For that strategy
  the two counts stand for nothing the script outputs.
- `charCodeAt` returns UTF-16 code units. The model uses Dafny characters, which agree on the
  letters used.
- Dynamic sizing with `getLastRow` is modelled by the length of the input. The `+ 7` row
  offsets are dropped: the model's row i is sheet row i + 7.
- The sheet-level loops that map CleanCell over a column and write the result back are left
  out: only the per-cell callback is modelled.
- The worked examples of normalizeTime's comment ("00:00" to "0:00") are covered only by
  Slots.NormalizeTimePadded, which is general over hours. No lemma evaluates the literal strings.
- The monthly sheet generators' template and header copying code is sheet I/O.

## Findings

| source | as written | input that shows it | evidently intended | confidence | as-written member | corrected member |
|---|---|---|---|---|---|---|
| ScheduleOld.js:266-277 | `nameCounts` is a plain object, so a lookup of a name such as "constructor" starts from the inherited `Object.prototype` property. `(f \|\| 0) + 1` then yields a string, and `> 1` on that string is false. | two rows named "constructor" | every non-empty name that occurs more than once is greyed out | not executed | Duplicates.InheritedNameNeverFlagged | Duplicates.HighlightDuplicateNames |
