# Order calendar — a Dafny model

This project models the logic of the order calendar's single React component,
`src/App.js`. The component shows a horizon of seven day records. Each record
has a date (the `YYYY-MM-DD` text of a day) and one order quantity for each menu
of a fixed three-item catalog. The user picks quantities 0 to 10 from a selector
for each (day, menu) cell. The model covers the two operations behind that view:

- **Horizon generation** (`getNext7Days`). Record *i* gets the date of today
  plus *i* days, and a zero quantity for every menu. The date comes from
  `setDate(today.getDate() + i)`, which lets a day-of-month past the end of the
  month roll over into the next month and year. Its text is the date part of
  `toISOString()`.
- **Cell edit** (`handleChange`). This maps over the day list. A day whose date
  text equals the target gets a copy of its quantities with one menu
  overwritten. Every other day is passed through unchanged.

The modules follow that structure:

- `CivilDate` (`civil_date.dfy`) covers proleptic Gregorian dates.
  `DayNumber` counts days from 0001-01-01 and is the reference for every date
  operation: `NextDay`, `PrevDay`, `AddDays`, and `SetDate` (the roll-over of
  `setDate`). `Weekday` is the index `getDay()` yields.
- `IsoDate` (`iso_date.dfy`) covers the date text. It writes `YYYY-MM-DD` for
  years 0 to 9999 and the expanded `±YYYYYY-MM-DD` form otherwise. `Parse` is
  its exact inverse.
- `OrderCalendar` (`order_calendar.dfy`) holds the menu catalog, the `Day`
  record, the zero-filling fold, and `GetNext7Days` together with its horizon
  lemmas.
- `CellEdit` (`cell_edit.dfy`) holds the selector's 0..10 domain,
  `UpdateCell` (the edit), `Lookup` (reading one cell), and the edit's algebra:
  last write wins, idempotence, commutation, read-after-write, and
  preservation of key sets and ranges.
- `Wrappers` (`wrappers.dfy`) holds the `Option` type.

"Today" is a parameter: the model reads no clock.

The loop starts at `i = 0`, so the horizon starts today. The horizon length
is fixed at 7.

## Model

| member | source | states |
|---|---|---|
| CivilDate.NextDay | src/App.js:11 | rolling one day forward gives a valid date exactly one day number later, across month and year ends and in leap years |
| CivilDate.DaysBeforeYearClosedForm | src/App.js:11 | the year-by-year day count agrees with the closed Gregorian formula 365(y-1) + ⌊(y-1)/4⌋ - ⌊(y-1)/100⌋ + ⌊(y-1)/400⌋ |
| CivilDate.AddDays | src/App.js:10-11 | the date `n` days away from a valid date is valid and lies exactly `n` day numbers away, for any integer `n` |
| CivilDate.AddDaysCompose | src/App.js:11 | moving `a` days and then `b` days equals moving `a + b` days |
| CivilDate.AddDaysOrder | src/App.js:9-13 | the date at offset `i + 1` is the day after the date at offset `i`, and a larger offset gives a strictly later date in (year, month, day) order, in both directions |
| CivilDate.BeforeIsDayNumberOrder | src/App.js:9-13 | (year, month, day) order on valid dates is exactly the order of their day numbers |
| CivilDate.DayNumberInjective | src/App.js:9-13 | two valid dates have the same day number exactly when they are equal |
| CivilDate.PrevNextInverse | src/App.js:11 | the day before the day after a date, and the day after the day before it, are the date itself |
| CivilDate.SetDate | src/App.js:11 | setting the day-of-month to `n` moves the date by `n` minus its current day-of-month, and gives day `n` of the same month when `n` lies inside the month |
| CivilDate.SetDatePastMonthEnd | src/App.js:11 | setting a day-of-month `k` days past the month's last day gives day `k` of the next month, and of January of the next year in December |
| CivilDate.SetDateAdvances | src/App.js:10-11 | setting the day-of-month to today's day plus `i` lands exactly `i` days after today, including when that passes a month or year end |
| CivilDate.AddDaysYearBound | src/App.js:9-11 | going forward by 0 to 365 days moves the year by at most one |
| CivilDate.Weekday | src/App.js:92 | the weekday index is always within 0..6, the range of the seven-entry weekday table |
| CivilDate.WeekdayNext | src/App.js:92 | the weekday index of the next day is one more, modulo 7 |
| CivilDate.WeekdayPeriod | src/App.js:92 | the weekday index repeats every seven days, backwards and forwards |
| CivilDate.WeekdayOfNewYear2025 | src/App.js:92 | the 0 = Sunday numbering is calibrated: 2025-01-01 gets index 3 (Wednesday) |
| IsoDate.Digits | src/App.js:13 | a number below 10^width is written as exactly `width` decimal digits |
| IsoDate.DigitsThenValue | src/App.js:13 | reading back a zero-padded decimal text gives the number it was written from |
| IsoDate.ValueThenDigits | src/App.js:13 | rewriting the number a digit string denotes, at the string's width, gives the string back |
| IsoDate.Format | src/App.js:13 | the date text is 10 characters (13 for an expanded year), with a dash before the month and before the day |
| IsoDate.FormatThenParse | src/App.js:13 | parsing the date text of a date gives that date back |
| IsoDate.ParseThenFormat | src/App.js:13 | every text that parses is exactly the date text of the date it parses to |
| IsoDate.FormatInjective | src/App.js:13 | two dates have the same date text exactly when they are the same date |
| OrderCalendar.ZeroFill | src/App.js:14-17 | the fold over the catalog gives a map whose keys are the starting keys plus every catalog menu, with every catalog menu at 0 and every other key unchanged |
| OrderCalendar.GetNext7Days | src/App.js:7-21 | the horizon has exactly 7 days; day `i`'s date text parses to today plus `i` days; each day has exactly the catalog menus as keys, all at 0 |
| OrderCalendar.HorizonStartsToday | src/App.js:9-13 | the first day's date text reads back as today, not tomorrow |
| OrderCalendar.HorizonConsecutive | src/App.js:9-13 | day `i`'s date text reads back as today plus `i` days, day `i + 1`'s as the day after that, and a later index is a strictly later date |
| OrderCalendar.HorizonDistinctDates | src/App.js:9-13 | no two days of a horizon share a date text |
| CellEdit.QuantityOptions | src/App.js:65-69 | the selector offers 11 options, and option `i` is the number `i` |
| CellEdit.SelectorOffersZeroToTen | src/App.js:65-69 | a quantity is on offer exactly when it lies in 0..10 |
| CellEdit.UpdateCell | src/App.js:26-40 | the edit keeps the list's length, order and dates, and returns every day with another date unchanged; on a day with the target date the menu maps to the new quantity, the key set grows by that menu at most, and every other menu keeps its quantity |
| CellEdit.Lookup | src/App.js:57-61 | a by-date reader of the cell that the view reads per day (there by index), used to state the edit's properties: the first day with the date decides, giving that day's quantity of the menu or nothing when the menu is missing; a date absent from the list reads as nothing |
| CellEdit.UpdateAbsentDate | src/App.js:27-39 | editing a date absent from the list returns the list unchanged |
| CellEdit.LastWriteWins | src/App.js:26-39 | two successive edits of the same cell equal the second edit alone |
| CellEdit.UpdateIdempotent | src/App.js:26-39 | repeating the same edit changes nothing |
| CellEdit.UpdatesCommute | src/App.js:26-39 | edits of two different cells give the same list in either order |
| CellEdit.ReadAfterWrite | src/App.js:28-34 | after an edit of a date in the list, the edited cell reads as the new quantity |
| CellEdit.ReadOtherCell | src/App.js:28-37 | after an edit, every other (date, menu) cell reads as it did before |
| CellEdit.UpdateCatalogKeys | src/App.js:28-34 | an edited day still has exactly the catalog menus as keys when the edited menu is in the catalog; a menu outside the catalog adds an extra key |
| CellEdit.UpdateStaysInRange | src/App.js:57-69 | if every quantity lies in 0..10 and the new one is a selector option, every quantity still lies in 0..10 |
| CellEdit.UpdateHorizonDay | src/App.js:27-38 | on a horizon, editing day `k`'s date changes day `k` alone, and the result is still a horizon from the same day |

## Left out

- React state and rendering (`useState`, the JSX markup, CSS classes): presentation, not logic. The list an edit produces is what `setOrderData` would store.
- `handleSubmit`: it only logs the data and shows an alert.
- Clock reads (`new Date()`): "today" is a parameter. The source reads the clock once at module load (`today`) and once more per loop iteration (`date`). The model assumes both fall on the same calendar day. A run that crosses midnight between the two reads is not modelled.
- Time of day and time zones: `toISOString()` prints the UTC date, not the local one. When local time is ahead of UTC, early in the local day that is the previous day. When local time is behind UTC, late in the local day that is the next day. A daylight-saving change inside the horizon also changes the local-to-UTC shift from one day to the next. For example, in Europe/Berlin at local 01:30 on 2025-03-28, days 2 and 3 both print "2025-03-30", and the horizon ends on 2025-04-02. Because `handleChange` matches days by their date text (src/App.js:28), one selection then edits two cards. The model takes the date text of the local civil date instead.
- OrderCalendar.GetNext7Days, OrderCalendar.HorizonStartsToday, OrderCalendar.HorizonConsecutive, OrderCalendar.HorizonDistinctDates, CellEdit.UpdateHorizonDay: these hold for the local-date abstraction above, not for the UTC text when the time of day and the time zone shift it.
- `parseInt` on the selected option's text: the new quantity is taken as an already-parsed natural number.
- `formatJapaneseDate`: its month/day text comes from the locale-dependent `toLocaleDateString`, and its parse of the date text is time-zone dependent. Only the weekday index into the seven-entry table is modelled (`CivilDate.Weekday`).
- JavaScript's own date range (about ±275,000 years): `IsoDate.Formattable` admits the wider range that six expanded digits can hold.
- Key order inside a day's quantities: JavaScript objects keep insertion order, but a Dafny `map` is unordered. The display order comes from the catalog sequence `Menus`.
