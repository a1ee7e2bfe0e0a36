# Office attendance planner — a Dafny model of its ledger and click rule

The planner keeps, per employee and workday, one attendance status:
absent, present, or present with a dog. It lives in browser storage.
This project models the logic under the views:

- **Ledger.** The attendance list is keyed by the cell `(employeeId, date)`.
  `addAttendanceEntry` overwrites the cell's first entry or appends a new one.
  A retention sweep keeps only entries dated on or after a cutoff. The cutoff
  is the Monday of the previous week, and dates are compared as strings.
  Every read runs the sweep and writes back only when it removed something.
  There are two queries: by date, and by employee within inclusive bounds.
- **Storage.** Employees and departments fall back to five seed records, and
  persist them, when nothing usable is stored. The older storage file has the
  same logic but throws on unparsable text.
- **Cell click.** An existing entry cycles absent → present → present with dog
  → absent. The dog step is skipped when two *other* employees already bring a
  dog that day. A new cell starts at present with dog if fewer than two dogs
  are booked that day, otherwise at present.
- **Employee and department panels.** Submit edits by id or appends. Delete
  filters by id after confirmation. Cancel resets the form. There is also a
  department-colour lookup with a fallback colour and the avatar initials.
- **Device id.** Get-or-create over the key/value store.

Modules: `Wrappers` (Option), `Seqs` (order-preserving `Filter`, `MapWhere`),
`Strings` (JavaScript string order, `trim`, `split`/`join`), `Types`, `Ledger`,
`Storage` (src/utils/storage.ts), `LegacyStorage` (utils/storage.ts),
`Calendar`, `Avatar`, `Roster` (employee panel), `Settings`, `Identity`.

Storage is modelled per key as a `Slot`:
- `Empty` is a missing key or the empty string.
- `Garbled` is text that does not parse.
- `Holds(v)` is text that parses to `v`.

Randomness, the clock and the user are parameters:
- Ids from `Date.now()` and `crypto.randomUUID` are passed in. Nothing assumes they are unique.
- The retention cutoff is passed in.
- The `yyyy-MM-dd` date string of a clicked cell is passed in.
- The answer to `window.confirm` is a boolean.

Points of the code's behaviour worth knowing when reading the model:
- A new cell starts at present-with-dog when fewer than two dogs are booked that day, otherwise at present.
- `ownerId` is carried on entries and employees but never read.
- Deleting an employee leaves their attendance entries in place. `Roster.Delete`
  proves that the attendance slot is untouched.
- The dog quota is enforced only against the calendar's own snapshot.
  `Calendar.HandleCellClickKeepsQuota` therefore assumes the snapshot is what
  the store reads as. A stale snapshot (a write from another tab of the same browser) can exceed it.

## Model

| member | source | states |
|---|---|---|
| Ledger.FindCell | src/utils/storage.ts:142-144 | the index found holds the cell and no earlier index does; none is found exactly when no entry holds the cell |
| Ledger.Lookup | src/components/AttendanceCalendar.tsx:93-98 | the entry found is the first one matching both employee id and date; nothing is found exactly when no entry matches |
| Ledger.Upsert | src/utils/storage.ts:140-153 | the entry ends up in the ledger; a new cell is appended at the end; an existing cell keeps the length; entries of other cells stay at their index |
| Ledger.UpsertReplacesFirst | src/utils/storage.ts:146-147 | with the cell first at index i, the result is the ledger with index i overwritten and nothing else changed |
| Ledger.UpsertThenLookup | src/utils/storage.ts:140-153 | after an upsert, the cell looks up to the upserted entry and every other cell looks up as before |
| Ledger.UpsertIdempotent | src/utils/storage.ts:140-153 | upserting the same entry twice equals upserting it once |
| Ledger.UpsertKeepsCellsUnique | src/utils/storage.ts:142-150 | a ledger with at most one entry per cell keeps that property under upsert |
| Ledger.Clean | src/utils/storage.ts:171-176 | an entry survives the sweep exactly when it was there and its date is not before the cutoff in string order |
| Ledger.CleanConcat | src/utils/storage.ts:175 | the sweep distributes over concatenation, so survivors keep their relative order |
| Ledger.CleanIdempotent | src/utils/storage.ts:171-176 | sweeping twice with one cutoff equals sweeping once |
| Ledger.CleanLaterCutoff | src/utils/storage.ts:172-175 | a sweep with an earlier cutoff followed by one with a later cutoff equals the later sweep alone |
| Ledger.CleanShrinksIffStale | src/utils/storage.ts:127-130 | the sweep changes the length exactly when some entry predates the cutoff, and keeping the length means returning the list unchanged |
| Ledger.ForDate | src/utils/storage.ts:155-158 | returns exactly the entries with that date |
| Ledger.ForEmployee | src/utils/storage.ts:160-168 | returns exactly the entries of that employee with start <= date <= end, each bound applying only when present and non-empty |
| Ledger.ForDateConcat | src/utils/storage.ts:157 | the date query distributes over concatenation, so it keeps the ledger's order and repeated entries |
| Ledger.ForEmployeeConcat | src/utils/storage.ts:162-167 | the employee range query distributes over concatenation, so it keeps the ledger's order and repeated entries |
| Ledger.ForEmployeeEmptyBound | src/utils/storage.ts:164-165 | an empty-string bound gives the same result as a missing bound |
| Storage.GetDepartments | src/utils/storage.ts:75-87 | a parsed list is returned with no write; a missing, empty or unparsable value gives the five seed departments, which are persisted |
| Storage.SetEmployees | src/utils/storage.ts:108-110 | persisting an employee list leaves departments and attendance alone, and the next read returns that list without writing |
| Storage.SetDepartments | src/utils/storage.ts:89-91 | persisting a department list leaves employees and attendance alone, and the next read returns that list without writing |
| Storage.GetEmployees | src/utils/storage.ts:94-106 | a parsed list is returned with no write; a missing, empty or unparsable value gives the five seed employees, which are persisted |
| Storage.GetAttendance | src/utils/storage.ts:113-133 | returns the retention sweep of the stored list (the entries not before the cutoff, in stored order, duplicates kept); the store is unchanged exactly when no stored entry is stale, and otherwise holds the swept list |
| Storage.AddAttendanceEntry | src/utils/storage.ts:140-153 | the stored attendance becomes the upsert of the entry into the swept stored list; employees and departments are untouched |
| Storage.GetAttendanceForDate | src/utils/storage.ts:155-158 | returns the date query of the swept stored list (its order and repeated entries kept) and performs the same write-back as a plain read |
| Storage.GetAttendanceForEmployee | src/utils/storage.ts:160-168 | returns the employee range query of the swept stored list (its order and repeated entries kept) and performs the same write-back as a plain read |
| Storage.ResetData | src/utils/storage.ts:179-183 | all three keys are removed |
| Storage.ReadsSettle | src/utils/storage.ts:75-106 | after one read of departments or employees, a second read returns the same list and writes nothing |
| Storage.ResetReseeds | src/utils/storage.ts:178-183 | after a reset the next reads give the seed departments and employees and an empty attendance with no write |
| Storage.GetAttendanceSettles | src/utils/storage.ts:113-133 | a second attendance read with the same cutoff returns the same list and writes nothing |
| Storage.GarbledAttendanceReadsEmpty | src/utils/storage.ts:117-124 | unparsable attendance text reads as the empty list and is left in place |
| Storage.AddThenRead | src/utils/storage.ts:140-153 | after adding an entry not before the cutoff, the next read is the upserted swept list and its cell looks up to that entry |
| Storage.AddKeepsCellsUnique | src/utils/storage.ts:140-153 | a stored ledger with one entry per cell still has one entry per cell after an add |
| LegacyStorage.GetDepartments | utils/storage.ts:30-38 | the read fails exactly when the stored text is unparsable |
| LegacyStorage.GetEmployees | utils/storage.ts:45-53 | the read fails exactly when the stored text is unparsable |
| LegacyStorage.GetAttendance | utils/storage.ts:60-71 | fails exactly on unparsable text; otherwise returns the retention sweep of the stored list (order and duplicates kept) and writes only when the sweep changed the list |
| LegacyStorage.AddAttendanceEntry | utils/storage.ts:78-91 | fails exactly on unparsable text; otherwise stores the upsert of the entry into the swept list |
| LegacyStorage.GetAttendanceForDate | utils/storage.ts:93-96 | fails exactly on unparsable text; otherwise returns the date query of the swept stored list, order and repeated entries kept |
| LegacyStorage.GetAttendanceForEmployee | utils/storage.ts:98-106 | fails exactly on unparsable text; otherwise returns the employee range query of the swept stored list, order and repeated entries kept, empty bounds meaning none |
| LegacyStorage.AgreesWithStorage | utils/storage.ts:30-114 | wherever the stored text is not unparsable, every older read and the add return what the guarded layer returns |
| LegacyStorage.DiffersOnGarbledText | utils/storage.ts:30-68 | on unparsable text the older reads fail, while the guarded layer falls back to the seeds or to an empty attendance |
| Calendar.NextStatus | src/components/AttendanceCalendar.tsx:121-145 | absent goes to present; present goes to present with dog exactly when fewer than two other dogs are booked, else to absent; present with dog goes to absent |
| Calendar.InitialStatus | src/components/AttendanceCalendar.tsx:154-165 | a new cell is never absent, and is present with dog exactly when fewer than two dogs are booked that day |
| Calendar.Click | src/components/AttendanceCalendar.tsx:107-176 | the entry written is for the clicked cell; an existing entry keeps every field except status and moves to the next status in the cycle, counted against the other employees' dogs that day; a new entry carries the fresh id and no optional fields, and starts with a dog exactly when fewer than two dogs are booked that day |
| Calendar.DogCount | src/components/AttendanceCalendar.tsx:100-105 | the day's dog count is at most the ledger length |
| Calendar.DogCountZeroIff | src/components/AttendanceCalendar.tsx:100-105 | the day's dog count is zero exactly when no entry that day is present with a dog |
| Calendar.OtherDogCount | src/components/AttendanceCalendar.tsx:129-133 | the other employees' dog count is at most the ledger length |
| Calendar.OtherDogCountZeroIff | src/components/AttendanceCalendar.tsx:129-133 | the other employees' dog count is zero exactly when no other employee's entry that day is present with a dog |
| Calendar.OtherDogsAtMostDogs | src/components/AttendanceCalendar.tsx:100-133 | the count the cycle checks (other employees' dogs) never exceeds the count a new cell checks (all dogs of the day) |
| Calendar.ClickAt | src/components/AttendanceCalendar.tsx:121-152 | clicking a cell whose status alone has been changed gives the original ledger with the cell at the next status, counted against the original ledger's other dogs |
| Calendar.ClickFresh | src/components/AttendanceCalendar.tsx:153-176 | clicking a cell the ledger lacks appends one entry with the fresh id and the quota-dependent initial status, and that entry becomes the cell's first |
| Calendar.DogCountSplit | src/components/AttendanceCalendar.tsx:100-133 | the day's dog count is the other employees' dogs plus the clicking employee's own |
| Calendar.OwnDogs | src/components/AttendanceCalendar.tsx:129-133 | with one entry per cell, the day's dog count is the other employees' count plus one exactly when the employee's own entry has a dog |
| Calendar.OtherDogsUnchanged | src/components/AttendanceCalendar.tsx:129-133 | rewriting the clicking employee's own entry leaves the other employees' dog count unchanged |
| Calendar.ClickRespectsDogQuota | src/components/AttendanceCalendar.tsx:129-165 | with one entry per cell, the day's dog count after a click and upsert is at most its old value or 2, so a ledger within the quota stays within it |
| Calendar.ClickLeavesOtherDates | src/components/AttendanceCalendar.tsx:147-175 | a click leaves the dog count of every other date unchanged |
| Calendar.ClickExisting | src/components/AttendanceCalendar.tsx:147-152 | clicking an existing cell rewrites exactly that entry in place with its next status |
| Calendar.ThreeClicksRestoreLedger | src/components/AttendanceCalendar.tsx:122-152 | with the quota open, three clicks on an existing cell return the whole ledger to its starting value |
| Calendar.FreshCellClicks | src/components/AttendanceCalendar.tsx:121-176 | on a fresh cell with fewer than two dogs booked, three clicks append an entry with a dog, then turn it absent, then present, keeping the first click's id |
| Calendar.StatusCycle | src/components/AttendanceCalendar.tsx:122-145 | with the quota open the cycle has period three; with it full, absent and present alternate; a dog is entered only from present with the quota open |
| Calendar.HandleCellClick | src/components/AttendanceCalendar.tsx:107-180 | the reloaded snapshot is the sweep of the upsert of the clicked entry into the swept stored list, and the store afterwards holds exactly that snapshot with nothing else changed |
| Calendar.HandleCellClickKeepsQuota | src/components/AttendanceCalendar.tsx:152-179 | when the snapshot is what the store reads as, the reloaded snapshot equals the click's upsert into it and stays within the dog quota |
| Avatar.Initials | src/components/AttendanceCalendar.tsx:283 | the initials contain no space |
| Avatar.InitialsAreWordStarts | src/components/EmployeeManagement.tsx:153 | the initials are exactly the non-space characters that begin the name or follow a space, in order |
| Strings.Split | src/components/EmployeeManagement.tsx:153 | splitting gives at least one part, and no part contains the separator |
| Strings.SplitJoin | src/components/AttendanceCalendar.tsx:283 | joining the parts of a split with the separator gives back the original string |
| Strings.TrimEmptyIffAllSpace | src/utils/identity.ts:4 | a string trims to empty exactly when every character is ECMAScript white space or a line terminator |
| Roster.Load | src/components/EmployeeManagement.tsx:20-23 | the panel shows the employees read first and then the departments read from the store that read left; a stored list is shown as stored; the attendance slot is untouched |
| Roster.ApplyEdit | src/components/EmployeeManagement.tsx:30-34 | employees with the edited id take the form's name and department and keep id, avatar and owner; the others are unchanged; the length is kept |
| Roster.AppendNew | src/components/EmployeeManagement.tsx:40-44 | the old list is kept as a prefix, and exactly one employee built from the fresh id and the form follows it |
| Roster.RemoveById | src/components/EmployeeManagement.tsx:64 | an employee remains exactly when it was listed and has a different id |
| Roster.Submit | src/components/EmployeeManagement.tsx:25-51 | while editing, the new list is the old one with the edited id's name and department replaced; otherwise it is the old list with a new employee appended under the fresh id; the stored employees become that list and nothing else in the store changes; the form is reset and the dialog closed |
| Roster.Edit | src/components/EmployeeManagement.tsx:53-60 | the dialog opens on the employee with the form filled from its name and department |
| Roster.Delete | src/components/EmployeeManagement.tsx:62-68 | unconfirmed, nothing changes; confirmed, the panel is unchanged except that its list is the order-preserving removal of the id, which is also stored; attendance and departments are never touched |
| Roster.Cancel | src/components/EmployeeManagement.tsx:70-74 | the dialog closes, the edit is forgotten, the form is blank, and the lists are unchanged |
| Roster.DepartmentColor | src/components/EmployeeManagement.tsx:76-79 | the result is the colour of the first department with that name, or '#6b7280' when there is none or its colour is empty; never empty |
| Roster.DeleteProperties | src/components/EmployeeManagement.tsx:64 | no remaining employee has the id; deleting twice equals deleting once; deletion distributes over concatenation; a list without the id is unchanged |
| Roster.EditKeepsIds | src/components/EmployeeManagement.tsx:30-34 | an edit keeps the id at every position |
| Roster.EditUnchangedIsIdentity | src/components/EmployeeManagement.tsx:25-60 | with unique ids, opening an employee and submitting the untouched form leaves the list unchanged |
| Settings.Load | src/components/Settings.tsx:19-21 | the panel shows the departments as storage reads them, a stored list as stored; employees and attendance are untouched |
| Settings.ApplyEdit | src/components/Settings.tsx:28-32 | departments with the edited id become the form's name and colour under the same id; the others are unchanged; the length is kept |
| Settings.AppendNew | src/components/Settings.tsx:38-42 | the old list is kept as a prefix, and exactly one department built from the fresh id and the form follows it |
| Settings.RemoveById | src/components/Settings.tsx:62 | a department remains exactly when it was listed and has a different id |
| Settings.Submit | src/components/Settings.tsx:23-49 | while editing, the new list is the old one with the edited id's name and colour replaced; otherwise it is the old list with a new department appended under the fresh id; the stored departments become that list and nothing else changes; the form goes back to its defaults |
| Settings.Edit | src/components/Settings.tsx:51-58 | the dialog opens on the department with the form filled from its name and colour |
| Settings.Delete | src/components/Settings.tsx:60-66 | unconfirmed, nothing changes; confirmed, the panel is unchanged except that its list is the order-preserving removal of the id, which is also stored; employees and attendance are never touched |
| Settings.Cancel | src/components/Settings.tsx:68-72 | the dialog closes, the edit is forgotten, and the form goes back to name '' and colour '#3b82f6' |
| Settings.DeleteProperties | src/components/Settings.tsx:62 | no remaining department has the id; deleting twice equals deleting once; deletion distributes over concatenation |
| Settings.FormResets | src/components/Settings.tsx:47-71 | submit and cancel both leave the default form, so the next add appends a department named '' coloured '#3b82f6' |
| Identity.GetDeviceId | src/utils/identity.ts:1-8 | the returned id is what the store holds under device_id afterwards; a usable stored id is returned with no write; otherwise the generated id is stored; other keys are untouched |
| Identity.UsableIffNotAllSpace | src/utils/identity.ts:4 | a stored id is kept exactly when it has a character that is not white space |
| Identity.SecondCallStable | src/utils/identity.ts:3-7 | when the generated id is not blank, a second call returns the first call's id and writes nothing |
| Identity.BlankGeneratedNotKept | src/utils/identity.ts:4-6 | a blank generated id is stored but replaced on the next call |

## Left out

- Rendering: React state, effects, JSX, the status icon, colour and label lookups, week navigation and the dog-limit badge. These are presentation only.
- `console.log` diagnostics. They have no effect on data.
- `localStorage` itself and JSON encoding: each key is an abstract `Slot`. Stored text that parses to something other than a list is not modelled.
- The storage-unavailable branches of the guarded wrapper (src/utils/storage.ts:31-72): reads giving null and writes dropped when `window.localStorage` is missing. The model assumes storage is present.
- Date arithmetic (`startOfWeek`, `subWeeks`, `addDays`, `format`, `isToday`) and the clock. The cutoff and the cell's date string are parameters.
- Id generation (`Date.now()`, `crypto.randomUUID`, `Math.random`). Ids are parameters and are not assumed unique.
- Strings.Before: compares by Unicode scalar value. JavaScript compares UTF-16 code units. The two orders differ only for characters above U+FFFF, and `yyyy-MM-dd` dates are ASCII.
- Stored status values outside the three statuses: the source's fallback branch (src/components/AttendanceCalendar.tsx:143-145) cannot occur for the typed `Status`.
- The REST client (src/utils/api.ts), the static server (server.js), the version rewriter (update-version.js), both headers and the view switch in src/App.tsx. They are transport and UI, not ledger logic.
- Avatar.Initials: takes the first Unicode scalar value of each part. The source's `n[0]` takes the first UTF-16 code unit, so for a part starting above U+FFFF the source yields a lone surrogate where the model yields the whole character. Strings here are sequences of scalar values.
- The device id and the three lists share one browser storage under different keys (`device_id`; `office_plan_employees`, `office_plan_departments`, `office_plan_attendance`). `Identity` views it as a key/value map and `Storage` as a record of the three list slots. No operation touches both views, and `ResetData` does not remove `device_id`.
