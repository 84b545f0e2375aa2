# Assignment Tracker: the assignment store and its views

This project models the data path of the `AssignmentManager` class of the Assignment
Tracker web app (`app-simple.js`), and proves properties of the model:

- the collection of assignment records and the operations that change it:
  - loading from storage and `init`;
  - `addAssignment` and `addSampleAssignments`;
  - `updateAssignment`, `deleteAssignment` and `toggleAssignmentComplete`;
- the lists the dashboard and the "all assignments" tab compute from it (filter, stable sort, take the first five);
- the 42-cell month grid of the calendar tab;
- the due-date label of an assignment card and the card's "overdue" test.

The modules are:

- `Civil`: local calendar arithmetic. Instants are milliseconds since 1970-01-01 local
  time. Days are numbered from that date. A date has the fields `getFullYear`,
  `getMonth` (0..11) and `getDate` report. `DayNumber` numbers a date, and carries a day
  outside its month over the way the `Date` constructor and `setDate` do. `DateOfDay` is the one
  valid date with a given day number; the Gregorian closed form `CivilFromDays` shows that one exists.
- `Decimal`: the decimal numeral `Date.now().toString()` gives, which is a new record's id.
- `Sequences`: `filter`, a stable sort by an integer key (`sort` with a comparator
  `key(a) - key(b)`), and `slice(0, n)`.
- `Assignments`: the record, the form data, the sample records, and stored records
  with their load-time timestamp backfill.
- `Store`: each operation as a function of the old collection, the lemmas about those
  functions, and the class `AssignmentManager`. Its methods change the `assignments`
  field and are proved equal to those functions.
- `Views`: the overdue and upcoming lists of the dashboard, and the pending and
  completed lists.
- `Calendar`: `GenerateCalendarDays`, the loop that walks the grid one date at a time.
- `DueLabels`: `formatDueDate` as a label datatype, and its relation to the card's overdue test.

Every clock reading (`Date.now()`, `new Date()`) is the parameter `now`. One
operation reads the clock once. The original reads it several times within a few
milliseconds.

Where the code and the app's stated intent differ, the model follows the code:

- Ids are `Date.now().toString()`, so two records added within the same millisecond share an id (`Store.SameClockIdsCollide`).
- `updateAssignment` and `toggleAssignmentComplete` change only the first record with the id. `deleteAssignment` removes every one.
- An absent id is a silent no-op, not an error.
- Nothing validates the form: an empty title is stored as given.
- The upcoming list is cut after five records. So overdue and upcoming together cover
  every incomplete record with a valid due date only up to that cut. `Views.DashboardPartition` states it that
  way: an incomplete record in neither list is due no earlier than the fifth upcoming one.

## Model

| member | source | states |
|---|---|---|
| Civil.DayOf | app-simple.js:390-391 | the day number of an instant is the day whose 24 hours contain it, as the local date `getFullYear`/`getMonth`/`getDate` read |
| Civil.Midnight | app-simple.js:390-391 | the midnight a date is truncated to is at most one day before the instant and is a whole number of days |
| Civil.Weekday | app-simple.js:359 | `getDay` is a weekday 0 (Sunday) .. 6 |
| Civil.WeekdayStep | app-simple.js:359 | each day's weekday is the previous day's plus one, Saturday wrapping to Sunday |
| Civil.BackToSunday | app-simple.js:359 | moving back from a date by its weekday lands on a Sunday |
| Civil.TimeOf | app-simple.js:398 | the hour and minute shown are a valid time and the instant lies within that minute of its day |
| Civil.DaysInMonth | app-simple.js:357 | a month has 28 to 31 days; 29 exactly for February of a leap year |
| Civil.DayNumber | app-simple.js:356-359 | `new Date(y, m, d)` and `setDate(d)` as a day count from 1970-01-01; stated by EpochDay, DayNumberShift and MonthStep |
| Civil.EpochDay | app-simple.js:356-359 | day 0 is 1970-01-01, a Thursday, and 2024-01-07 is a Sunday, which fixes the offsets the weekday and day count rest on |
| Civil.DayNumberShift | app-simple.js:382 | `setDate(d)` with any d lands d - 1 days after the month's 1st |
| Civil.InstantRoundTrip | app-simple.js:54 | the instant built from a date and a time reads back as that date's day and that time |
| Civil.MonthStep | app-simple.js:357 | the 1st of the next month comes DaysInMonth days after the 1st of this one |
| Civil.CivilFromDays | app-simple.js:366-367 | every day number, however far from 1970, is the day number of some valid date (the Gregorian calendar has no gaps) |
| Civil.DateOfDay | app-simple.js:366-367 | the date of a day number is a valid date whose day number is that day |
| Civil.DayNumberInjective | app-simple.js:367 | distinct valid dates have distinct day numbers |
| Civil.OneDatePerDay | app-simple.js:367 | at most one valid date carries a given day number |
| Civil.DateOfDayNumber | app-simple.js:370 | a valid date is recovered from its day number, so equal date strings mean equal days |
| Decimal.NatToString | app-simple.js:50 | the numeral is non-empty, all digits, without a leading zero |
| Decimal.NatToStringRoundTrip | app-simple.js:50 | reading the numeral back gives the number |
| Decimal.NatToStringInjective | app-simple.js:50 | distinct numbers have distinct numerals |
| Decimal.IntToString | app-simple.js:50 | a minus sign exactly for negative numbers, followed by the magnitude's numeral |
| Decimal.IntToStringInjective | app-simple.js:50 | two clock readings give the same id string exactly when they are equal |
| Sequences.Filter | app-simple.js:131 | the result keeps exactly the elements satisfying the condition, with their multiplicities |
| Sequences.FilterAppend | app-simple.js:131 | filtering keeps the original relative order |
| Sequences.FilterKeepsAll | app-simple.js:131 | a filter every element passes changes nothing |
| Sequences.FilterIdempotent | app-simple.js:131 | filtering twice by one condition is filtering once |
| Sequences.FilterCongruent | app-simple.js:365-368 | conditions that agree on every element filter alike |
| Sequences.FilterSplit | app-simple.js:204-207 | the elements passing a condition and those failing it make up the whole, by count and multiset |
| Sequences.Insert | app-simple.js:163 | inserting into a sorted sequence keeps it sorted and adds exactly the element |
| Sequences.SortBy | app-simple.js:163 | the sort result is sorted by the key and a permutation of its input |
| Sequences.InsertKeepsEqualKeyOrder | app-simple.js:163 | an insertion puts the element before the elements with its key |
| Sequences.TakeSorted | app-simple.js:163-164 | a prefix of a sorted sequence is sorted and takes its elements from it |
| Sequences.SortByIsStable | app-simple.js:163 | elements with equal keys keep their original order (a stable `sort`) |
| Sequences.Take | app-simple.js:164 | `slice(0, n)` is a prefix of at most n elements, all of them when fewer, a sub-multiset |
| Sequences.TakeSortedLeavesLater | app-simple.js:163-164 | whatever a prefix of a sorted sequence leaves out sorts no earlier than its last element |
| Assignments.DueDateOf | app-simple.js:54 | the due instant of the form's date and time; DueDateOfRoundTrip reads both back from it |
| Assignments.DescriptionOf | app-simple.js:53 | a missing description becomes the empty string, a given one is kept |
| Assignments.DueDateOfRoundTrip | app-simple.js:54 | the due date of a form reads back as the form's date and time |
| Assignments.SampleAssignments | app-simple.js:73-107 | three sample records with distinct ids, created now, due after now |
| Assignments.StoredAll | app-simple.js:42-45 | saving writes one stored record per record, in order |
| Assignments.Revive | app-simple.js:29-34 | a loaded record keeps every stored field; a missing createdAt or updatedAt becomes now |
| Assignments.ReviveAll | app-simple.js:29-34 | loading revives every stored record, in order |
| Assignments.Loaded | app-simple.js:25-40 | no stored entry keeps the collection, an unparseable one empties it, and stored records come back one by one with their fields, a missing createdAt or updatedAt becoming now |
| Assignments.LoadSavedRoundTrip | app-simple.js:25-43 | loading what was saved gives the saved collection back |
| Store.FirstMatch | app-simple.js:114 | `findIndex`: -1 exactly when no record has the id, else the first index with it |
| Store.FirstMatchFollowsIds | app-simple.js:114 | collections with the same ids in the same places have the same first match |
| Store.FindIndex | app-simple.js:114 | the search loop returns the first matching index, or -1 |
| Store.NewAssignment | app-simple.js:49-59 | the record addAssignment builds; Store.Added states its fields and DistinctClocksDistinctIds and SameClockIdsCollide its id |
| Store.Added | app-simple.js:48-70 | old records untouched; the new manual, incomplete record at the old length; the samples after it exactly when the collection was empty |
| Store.Updated | app-simple.js:113-127 | only the first match changes, taking the form's fields and updatedAt, keeping id, source, completion and createdAt; absent id is a no-op |
| Store.Deleted | app-simple.js:130-131 | every record with the id is gone and every other record is kept, with its multiplicity |
| Store.Toggled | app-simple.js:136-143 | only the first match changes: completion negated, updatedAt set, all else equal; absent id is a no-op |
| Store.DeletedKeepsOrder | app-simple.js:131 | deletion keeps the survivors in their original relative order |
| Store.DeletedAbsentIsNoOp | app-simple.js:131 | deleting an absent id changes nothing |
| Store.DeletedIdempotent | app-simple.js:131 | deleting twice is deleting once |
| Store.ToggledTwice | app-simple.js:136-143 | toggling twice restores every completion flag; only updatedAt of the first match differs |
| Store.UpdatedKeepsIds | app-simple.js:113-128 | updating keeps every id, so later operations find the same record |
| Store.UpdatedIdempotent | app-simple.js:113-128 | the same update applied twice is applied once |
| Store.DeleteUndoesAdd | app-simple.js:48-70 | deleting a just-added record's id restores a non-empty collection whose ids differ from it |
| Store.SameClockIdsCollide | app-simple.js:50 | two adds at one clock reading share an id, and a toggle reaches only the earlier |
| Store.DistinctClocksDistinctIds | app-simple.js:50 | adds at different clock readings get different ids |
| Store.Initialized | app-simple.js:10-17 | after init the collection is never empty: a non-empty loaded collection is kept as loaded, and an empty one becomes exactly the three sample records |
| Store.AssignmentManager.constructor | app-simple.js:3-8 | the manager starts with no records |
| Store.AssignmentManager.LoadAssignments | app-simple.js:25-40 | absent storage keeps the collection, malformed storage empties it, records are revived |
| Store.AssignmentManager.Init | app-simple.js:10-17 | the collection becomes Initialized of the old one and is non-empty |
| Store.AssignmentManager.AddSampleAssignments | app-simple.js:72-111 | the three samples are appended |
| Store.AssignmentManager.AddAssignment | app-simple.js:48-70 | the collection becomes Added of the old one |
| Store.AssignmentManager.UpdateAssignment | app-simple.js:113-128 | the collection becomes Updated of the old one |
| Store.AssignmentManager.DeleteAssignment | app-simple.js:130-134 | the collection becomes Deleted of the old one |
| Store.AssignmentManager.ToggleAssignmentComplete | app-simple.js:136-143 | the collection becomes Toggled of the old one |
| Views.IsOverdue | app-simple.js:239 | the card's overdue test: incomplete and due before now; DashboardPartition and OverdueCardLabel state what it selects |
| Views.IsUpcoming | app-simple.js:162 | the upcoming filter: incomplete and due now or later, so no record is both overdue and upcoming (DashboardPartition) |
| Views.OverdueList | app-simple.js:161 | exactly the incomplete records due before now, with their multiplicities |
| Views.UpcomingList | app-simple.js:162-164 | min(count, 5) incomplete records due now or later, earliest first, a sub-multiset of them; any left out is due no earlier than the fifth |
| Views.DashboardPartition | app-simple.js:160-164 | overdue and upcoming are disjoint, hold only incomplete records, and cover every incomplete record up to the five-record cut |
| Views.PendingList | app-simple.js:204-205 | the incomplete records, a permutation of them, sorted by due date |
| Views.CompletedList | app-simple.js:206-207 | the completed records, a permutation of them, most recently updated first |
| Views.ListViewPartition | app-simple.js:204-207 | pending and completed together are the whole collection, by length and multiset |
| Views.PendingListKeepsTies | app-simple.js:204-205 | pending records due at the same instant keep their collection order |
| Calendar.GridStart | app-simple.js:356-359 | the grid starts on a Sunday at most six days before the 1st and reaches past the month's last day |
| Calendar.GridStartOctober2026 | app-simple.js:356-359 | October 2026 starts on a Thursday and its grid on Sunday, September 27 |
| Calendar.GridMonth | app-simple.js:371 | a grid date has the displayed month number exactly when it is a day of the displayed month |
| Calendar.BeforeMonth | app-simple.js:359 | the up to six leading days of the grid, before the 1st, are not in the displayed month |
| Calendar.InMonth | app-simple.js:371 | each of the month's own days lies in the displayed month |
| Calendar.AfterMonth | app-simple.js:381-383 | the trailing days of the grid, after the month's last day, are not in the displayed month |
| Calendar.SameDate | app-simple.js:367 | two dates compare equal exactly when their day numbers do |
| Calendar.CellForDate | app-simple.js:365-371 | the cell built from a date has the described day, month flag, today flag and bucket |
| Calendar.NextDate | app-simple.js:382 | `setDate(getDate() + 1)` advances the day number by one |
| Calendar.GenerateCalendarDays | app-simple.js:353-386 | 42 cells of consecutive days from GridStart; the month flag exactly for the month's days; the today flag exactly for now's day; each bucket the records due that day, in collection order |
| DueLabels.DayOffset | app-simple.js:390-393 | the offset is the due midnight minus today's midnight, in whole days |
| DueLabels.FormatDueDate | app-simple.js:388-406 | exactly one label per day offset: overdue by the days missed when negative, today at 0, tomorrow at 1, a weekday at 2..7, month and day after 7; the due time on every non-overdue label |
| DueLabels.OverdueText | app-simple.js:396 | the text starts "Overdue by " and ends in "s" exactly when the count is not 1 |
| DueLabels.OverdueTextInjective | app-simple.js:396 | different day counts give different overdue texts |
| DueLabels.OverdueCardLabel | app-simple.js:239 | an incomplete card is overdue exactly when its label says overdue, or today at a time already past |
| DueLabels.LabelShowsFormInput | app-simple.js:398-404 | a form-entered due date's label shows back the entered time, weekday, or month and day |

## Left out

- DOM rendering and HTML templating: card markup, the calendar cell HTML, tab switching, the modal, and form pre-fill for editing. The model keeps the cell data (date, flags, bucket) and the label kind.
- Persistence I/O: `localStorage` and JSON are replaced by a stored-payload datatype (absent, malformed, records). Saving is the function that produces the records. Settings storage is not part of this model.
- Notifications, touch and swipe handling, themes and dark mode: these are browser side effects.
- Locale text: `toLocaleTimeString`, `toLocaleDateString` and weekday or month names are represented by the values they print (time of day, weekday number, month and day). Only the overdue sentence is modelled as text.
- Time zones and daylight saving time: local time is a uniform 86 400 000 ms per day. So `Math.ceil` of the midnight difference is always exact. Across a 25-hour day the original would round a "Tomorrow" up to 2 days; that case is not modelled.
- Date parsing: `new Date(\`${date}T${time}\`)` is modelled from an already parsed date and time (`FormData`). An unparseable input ("Invalid Date", NaN) is not modelled.
- Assignments.DueDateOf: requires month 0..11 (`WellFormedForm`), which a date input always delivers.
- DueLabels.FormatDueDate: the multi-argument `new Date(y, m, d)` at app-simple.js:390-391 reads a year 0..99 as 1900..1999; the model keeps the year as given. For a due date in years 0..99 the app counts days from the 1900s date (0050-06-01 seen on 2026-10-15 shows "Overdue by 27895 days"), the model from the date itself (`OverdueBy(721855)`).
- Calendar.GenerateCalendarDays: the same two-digit-year mapping at app-simple.js:356 is not modelled; for a displayed year 0..99 the app draws the grid of the 1900s year.
- Invalid due dates: the model's due date is always an instant. In the app an unparseable date is NaN, and such a record fails both `a.dueDate < now` and `a.dueDate >= now` (app-simple.js:161-162), so it is in neither dashboard list whatever the collection's size; it lands in no calendar cell (app-simple.js:367) and its label reads "Invalid Date".
- Views.DashboardPartition: its coverage clause holds for records with a valid due date only; a NaN-dated record is in neither list.
- Assignments.LoadSavedRoundTrip: holds for records with a valid due date only; saving writes a NaN date as `null`, which loads back as 1970-01-01 (app-simple.js:31 and 43).
- Store.NewAssignment: the id is `IntToString(now)` of the model's local-time `now`; the app writes `Date.now()`, which counts milliseconds since the epoch in UTC. The two agree only where the local offset is 0: the model takes local time to be UTC for ids. Ordering and day arithmetic do not depend on it.
- Dates are stored as `Date` objects in the original and compared with `<`. The model keeps their millisecond value.
- Object identity: `toggleAssignmentComplete` writes the found object in place. The model replaces the record at its index, which gives the same collection since the array holds each object once.
- Calendar month navigation (`setMonth` at app-simple.js:342-349) and the `lastDay` value computed but not used in `generateCalendarDays` are not part of this model. `GenerateCalendarDays` takes the displayed year and month as parameters.
- Store.AssignmentManager: the `currentTab`, `currentDate` and `editingAssignment` fields are UI state and are not part of this model.
- `config.example.js` holds configuration only and is not part of this model.
