# Hatim page planner — allocation and schedule engine

A model of the page-allocation engine of the hatim planner's single-page app
(`legacy_v1/js/script.js`). A hatim is one complete reading of a 604-page book
shared among an ordered list of participants. Each participant has a quota of
pages and reads one contiguous block of the book. Blocks follow the list order,
so a participant's first page is 1 plus the quotas of everyone before them.
For every day of a chosen date range, the schedule gives each participant the
page range `start = startPage + day * quota`, `end = start + quota - 1`. The
export turns the list and the range into a spreadsheet matrix.

Modules, one per concern of the script:

- `Results` (`results.dfy`): `Option` and `Result`.
- `Text` (`text.dfy`): JavaScript `trim`, `String(n)` for integers, `padStart`,
  and single-character global replace, with their reading-back lemmas.
- `Html` (`html.dfy`): `escHtml`.
- `Allocation` (`allocation.dfy`): the participant list. This covers totals,
  start pages, day ranges, add, inline edit, delete, move up and move down.
  It also has a command step function and the list invariant it keeps.
- `Migration` (`migration.dfy`): the legacy `firstName`/`lastName` upgrade run
  on load.
- `Calendar` (`calendar.dfy`): Gregorian dates, the next-day step,
  `getDatesInRange` and `formatDate`.
- `Export` (`export.dfy`): the guards, matrix, sheet name and file name of
  `exportExcel`.

The list is an immutable `seq<Participant>`. Add and edit return
`Result<seq<Participant>, AllocError>`; on `Err` the caller keeps the list it
had, which is what the script's early `return` does. The invariant `Valid`
says every quota is at least 1, every name is non-empty, ids are distinct and
the total is at most 604. `StepPreservesValid` and `RunPreservesValid` show
that every list reachable from the empty list satisfies it.

What the script does, as modelled:

- The sheet name is the first 31 characters of the hatim name, or of `Hatim`
  when the name is empty. It is not sanitized; unsafe characters are replaced
  only in the file name.
- The header cells are `#`, `İSİM SOYİSİM` and `SAYFA SAYISI`.
- Each day cell reads `Sf: start-end`.
- Edit, delete and the moves take a row index from the rendered table, and the
  model requires that index to be in range. Out of range, `deleteParticipant`
  throws reading `fullName`; `moveUp` and `moveDown` assign past the end and
  grow the array; `saveEdit` throws only once the name and page checks pass
  (with an empty name or a bad page count it shows its message and returns).

## Model

| member | source | states |
|---|---|---|
| Allocation.ComputeStartPage | legacy_v1/js/script.js:43-49 | the loop returns 1 plus the sum of the quotas before `index`; with positive quotas that is at least `index + 1` |
| Allocation.StartPageRecurrence | legacy_v1/js/script.js:43-49 | the first participant starts on page 1; participant `i+1` starts right after participant `i`'s block |
| Allocation.BlockWithinBook | legacy_v1/js/script.js:4-49 | in a valid list, every block, including the last, starts on page 1 or later and ends on page 604 or earlier |
| Allocation.DayRange | legacy_v1/js/script.js:51-57 | every day range covers exactly the participant's quota; day 0 starts at the participant's start page |
| Allocation.DayRangesContiguous | legacy_v1/js/script.js:51-57 | day `d+1` starts on the page after day `d` ends |
| Allocation.DayRangesDisjoint | legacy_v1/js/script.js:51-57 | with a positive quota, an earlier day ends before any later day starts |
| Allocation.DayRangeLeavesOwnBlock | legacy_v1/js/script.js:51-57 | ranges are not clamped: day 0 is the participant's whole block, every later day lies past it, and day 1 starts where the next participant's block starts |
| Allocation.TotalAtLeastLength | legacy_v1/js/script.js:59-61 | with positive quotas, the total of the list is at least the number of participants |
| Allocation.Remaining | legacy_v1/js/script.js:63-65 | the remaining count is non-negative exactly when the total is within 604, and at most 604 exactly when the total is not negative |
| Allocation.TotalConcat | legacy_v1/js/script.js:59-61 | the running total of a concatenation is the sum of the two totals |
| Allocation.RemainingBounds | legacy_v1/js/script.js:59-65 | in a valid list the remaining count is between 0 and 604 minus the number of participants |
| Allocation.Add | legacy_v1/js/script.js:159-175 | refused with the matching error, in the order `addParticipant` checks them, when the trimmed name is empty, the page count is NaN or below 1, or the total would pass 604 (the error reports the remaining pages); otherwise exactly one entry with the trimmed name is appended, earlier entries are untouched, and the new total is at most 604 |
| Allocation.Edit | legacy_v1/js/script.js:270-284 | same name and page checks as add; the capacity check leaves out the edited entry's own quota; on success only that entry's name and quota change, its id and position and every other entry stay, and the total moves by the quota difference |
| Allocation.EditNeverBlocksKeepingOrLowering | legacy_v1/js/script.js:277-282 | with a valid name, keeping or lowering one's own quota is never refused |
| Allocation.Delete | legacy_v1/js/script.js:189-196 | exactly the entry at `index` is removed, the others keep their order, and the total drops by its quota |
| Allocation.DeleteShiftsStartPages | legacy_v1/js/script.js:189-196 | after a delete, earlier participants keep their start page and later ones start earlier by the removed quota |
| Allocation.SwapAdjacent | legacy_v1/js/script.js:203-204 | the two adjacent entries trade places, nothing else moves, and the result is a permutation with the same total |
| Allocation.MoveUp | legacy_v1/js/script.js:201-207 | a no-op for the first entry; otherwise it swaps the entry with the one above; the result is a permutation with the same total |
| Allocation.MoveDown | legacy_v1/js/script.js:209-215 | a no-op for the last entry; otherwise it swaps the entry with the one below; the result is a permutation with the same total |
| Allocation.MoveUpThenDownRestores | legacy_v1/js/script.js:201-215 | moving up then down, or down then up, restores the list |
| Allocation.SwapKeepsOtherStartPages | legacy_v1/js/script.js:201-215 | a swap changes the start pages of the two swapped entries only |
| Allocation.StepPreservesValid | legacy_v1/js/script.js:159-284 | every add, edit, delete, move up and move down keeps the invariant, when an add gets a fresh id |
| Allocation.RunPreservesValid | legacy_v1/js/script.js:159-284 | every list reachable by a sequence of user actions keeps the invariant, so the total never passes 604 |
| Text.Trim | legacy_v1/js/script.js:160 | the trimmed text is a slice of the input with only whitespace cut from each end, and it neither starts nor ends with whitespace |
| Text.TrimEmptyIff | legacy_v1/js/script.js:160-163 | a name is refused as empty exactly when it consists only of whitespace |
| Text.TrimIdempotent | legacy_v1/js/script.js:271 | trimming a stored, already trimmed name changes nothing |
| Text.TwoDigits | legacy_v1/js/script.js:342-343 | a day or month padded with `padStart(2,'0')` has two digits that read back as the number |
| Text.NatToStringRoundTrip | legacy_v1/js/script.js:345 | the printed form of a number reads back as the number |
| Html.EscHtml | legacy_v1/js/script.js:148-154 | the escaped text is the concatenation of the per-character escapes of the input, and it contains no `<`, `>` or `"` |
| Html.EscHtmlIsPerCharacter | legacy_v1/js/script.js:148-154 | the four chained global replaces equal escaping each character on its own, because no later replace rewrites an earlier entity |
| Html.EscHtmlRoundTrip | legacy_v1/js/script.js:148-154 | decoding the four entities gives back the original name |
| Migration.Migrate | legacy_v1/js/script.js:26-35 | a record with a non-empty `fullName`, or with neither legacy field, comes back unchanged; otherwise it is rebuilt with `fullName` set to trim(first + " " + last), id and pages kept, and no `firstName` or `lastName`; the result is always in the current format |
| Migration.MigrateIdempotent | legacy_v1/js/script.js:26-35 | upgrading a record twice equals upgrading it once |
| Migration.MigratedNameShape | legacy_v1/js/script.js:30 | clean legacy parts are joined by one space, and a single part is kept alone |
| Migration.MigrateAll | legacy_v1/js/script.js:26-35 | the list keeps its length and order, and each record is upgraded on its own |
| Migration.MigrateAllIdempotent | legacy_v1/js/script.js:26-35 | loading an already upgraded list changes nothing |
| Calendar.NextDay | legacy_v1/js/script.js:336 | stepping one day gives a valid date one place further on the day axis |
| Calendar.DayNumberInjective | legacy_v1/js/script.js:332 | two dates at the same place on the day axis are the same date |
| Calendar.DaysFrom | legacy_v1/js/script.js:333-337 | the run is empty when start is after end; otherwise it has `end - start + 1` days, starts at the start date, and each day follows the previous one |
| Calendar.DatesInRange | legacy_v1/js/script.js:328-339 | an unparsable start or end gives no days; otherwise the inclusive run from start to end |
| Calendar.DaysFromEndsAtEnd | legacy_v1/js/script.js:333-337 | the last day of a non-empty run is the end date |
| Calendar.DaysFromComplete | legacy_v1/js/script.js:333-337 | every date between start and end appears in the run, at its offset from the start |
| Calendar.FormatDate | legacy_v1/js/script.js:341-346 | the label is two day digits, a dot, two month digits, a dot and the unpadded year |
| Calendar.FormatDateRoundTrip | legacy_v1/js/script.js:341-346 | a `DD.MM.YYYY` label reads back as the date it came from |
| Calendar.FormatDateInjective | legacy_v1/js/script.js:341-346 | two different days never get the same label |
| Export.HeaderRow | legacy_v1/js/script.js:375-377 | the header is `#`, `İSİM SOYİSİM`, `SAYFA SAYISI`, then one formatted date per day |
| Export.ParticipantRow | legacy_v1/js/script.js:380-386 | a participant row is ordinal `i+1`, name and quota, then one `Sf: start-end` cell per day |
| Export.Matrix | legacy_v1/js/script.js:372-387 | the matrix has one header row plus one row per participant in list order, each with `3 + days` columns |
| Export.DisplayName | legacy_v1/js/script.js:441 | the name used is the hatim name when it is non-empty and `Hatim` otherwise, never empty |
| Export.SheetName | legacy_v1/js/script.js:441-442 | the sheet name is the longest prefix of at most 31 characters of the hatim name, or of `Hatim` when the name is empty |
| Export.Sanitize | legacy_v1/js/script.js:444 | each of the characters backslash, slash, colon, star, question mark, double quote, less-than, greater-than and bar becomes `_`; every other character and the length are kept |
| Export.FileName | legacy_v1/js/script.js:441-444 | the file name is as long as the (defaulted) hatim name plus `_hatim.xlsx` and ends in that suffix; each unsafe character of the name becomes `_`, every other character is kept, and no unsafe character remains |
| Export.ExportWorkbook | legacy_v1/js/script.js:351-369 | the export is refused, in this order, for an empty list, a missing date, a range without days and a range of more than 365 days; otherwise it yields the matrix, sheet name and file name |
| Export.ExportShape | legacy_v1/js/script.js:361-387 | a successful export has `n+1` rows of between 4 and 368 columns, and one day column per day from start to end |
| Export.InvertedRangeRefused | legacy_v1/js/script.js:332 | a start date after the end date is refused as an empty range |
| Export.ExportCellsAreDayRanges | legacy_v1/js/script.js:382-385 | the cell for participant `i` and day `d` is the label of `getDayRange(i, d)` |
| Export.RangeLabel | legacy_v1/js/script.js:384 | a cell text is `Sf: `, the printed start page, a dash and the printed end page, with the lengths and positions of each part fixed; with a non-negative start the part before the dash is all digits, so that dash is the separator |
| Export.RangeLabelRoundTrip | legacy_v1/js/script.js:384 | a `Sf: start-end` cell with non-negative pages reads back as its range |
| Export.ValidListDayRangesPositive | legacy_v1/js/script.js:51-57 | in a valid list every day range starts on page 1 or later and does not run backwards |

## Left out

- The DOM and event handling are not modelled: `render`, `editRow`, `makeInlineInput`, `bindHeaderInputs`, `restoreHeaderInputs`, `bindFormEnter`, `showToast`, the disabled state of the move buttons, and the form reset after an add. They are presentation only; error kinds stand in for the toasts.
- The `confirm()` dialog in `deleteParticipant` is not modelled. `Delete` is the path where the user confirmed; the other path changes nothing.
- Storage is not modelled: `saveState`, the `localStorage` read and the `JSON.parse` in `loadState`, and the swallowed parse error. Only the per-record upgrade map is modelled.
- The progress bar and badge colours (`render`, lines 89-101) are left out. They are floating-point presentation.
- Spreadsheet styling, column widths, row heights, `aoa_to_sheet`, `book_append_sheet` and `writeFile` are left out. They are calls into the spreadsheet library.
- `parseInt` on the page input is left out. Its outcome is an `Option<int>`, where `None` is NaN.
- Date parsing is left out: `new Date(string)`, time zones and daylight saving. A date field is blank, unparsable, or a valid proleptic Gregorian date with year 1 or later. The model assumes the local time zone is UTC. In a zone behind UTC, the script's `getDate()` of a date-only string shows the previous day.
- `Date.now()` ids are left out. Ids are opaque integers chosen by the caller. The invariant assumes an added id is fresh.
- Stored name fields that are not strings are left out. `StoredRecord` has each name field either as a string or as `None`; a truthy non-string value such as a number counts as present in the script, which then prints it into the joined name.
- Stored participant records whose `pages` is not an integer are left out. `Total` sums integer quotas, which equals the script's `parseInt(p.pages) || 0` on integers.
- Export.SheetName: counts Unicode characters, while `substring` counts UTF-16 code units; the two differ only for names with characters outside the Basic Multilingual Plane.
- Export.RangeLabelRoundTrip: covers non-negative page numbers only. A negative number prints with a leading `-`, so a label like `Sf: 1--3` is not read back; a valid list never produces one (`ValidListDayRangesPositive`).
- The other files are not part of this model: `src/composables/useAuth.js` (network calls), `src/composables/useTheme.js` and `src/composables/useToast.js` (browser UI), `src/router/index.js` and `vite.config.js` (configuration).
