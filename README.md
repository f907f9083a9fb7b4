# Reservas: a verified model of the room-booking core

The system books coworking rooms in 15-minute slots. A reservation has:
- an owner (`usuarioId`);
- a room, given by a catalogue id (`salaId`) or by a free-text name (`salaNombre`), or both;
- a date (`fecha`, `YYYY-MM-DD`), a time (`hora`, `HH:MM`), notes, and creation and update timestamps.

This project models the booking core in Dafny and proves what it promises.

The backend side:
- **The time grid.** `normalizeToStep` rounds a time to the nearest quarter hour. The backend, the creation form and the card each have an identical copy; module `TimeGrid` defines it once.
- **The endpoints** (`ReservasController`). List, read, create, update and delete. They check in a fixed order and answer 200/201/400/403/404/409. Before a create or update is stored, a conflict search runs over the stored reservations. It matches a room by id when both sides have one, and otherwise by trimmed, lower-cased name.
- **The store** (`ReservaModel`). The reservations table is a class over a map from id to reservation. It checks ownership on update and delete, merges updates with JavaScript's `??`, and lists the newest bookings first.

The client side:
- **The creation form** (`ReservaForm`). It works out which times and dates are already taken for the chosen room, validates the form and builds the payload it submits.
- **The reservation card** (`ReservaCard`). It edits one booking in place and excludes that booking from its own "taken" times.
- **The slot picker** (`TimeSlotsPicker`). It offers the 49 quarter-hour slots from 08:00 to 20:00, and disables and counts the past and taken ones.
- **The month calendar** (`CalendarAvailability`). It shows a 42-cell month grid with past and occupied days, and a select toggle.
- **The reservations page** (`ReservasPage`). It keeps the client-side list in step with the server's replies and maps a 409 to a fixed message.

Two support modules model the JavaScript semantics the code relies on:
- `JsValues`: truthiness, `||`, `??`, and sets built by `add`.
- `JsStrings`: `trim`, `toLowerCase`, string `<`, `split`, `Number()`, `String(n)` and `padStart`.

`ClientTime` holds the date helpers the client components share.

## Main results

- **No double booking.**
  - `ReservasController.RunNeverDoubleBooks`: any sequence of creates, deletes, and updates that send a date, a time and a catalogue room id leaves the table with no two rows on the same date, in matching rooms, whose times normalise to the same grid point. This holds when requests are served one at a time.
  - Slots are compared after normalisation, as the search does: a stored `"9:07"` and a stored `"09:00"` hold the same slot (`GridSlot`, `SearchFindsExactlyClashes`).
  - A stored time that normalises to no grid point holds no slot. These are `"NaN:NaN"` and negative times with minutes, which drift on every normalisation.
  - The endpoint methods are proved equal to declarative descriptions (`CreateSpec`, `UpdateSpec`, `DeleteSpec`), and the invariant is proved about those descriptions.
- **Where double booking does get through.** Concrete lemmas show the code's own gaps:
  - an update without a date, without a time, or without a room (neither `salaId` nor `salaNombre`) skips the search;
  - a rename by bare name keeps the old room id;
  - a time without `:` is stored as `"NaN:NaN"`, which never matches anything.
- **The client agrees with the server.**
  - The form's and the card's "taken" sets are exactly the slots the backend's conflict search would refuse.
  - The card's `sameSala` is the backend room rule.
- **One defect.** The slot picker's "available" counter subtracts twice a slot that is both past and taken (see "## Findings").

## Where the code and its description disagree (the model follows the code)

- **A non-owner's update.** A non-owner is not always refused with 403. An update's 400s and its 409 are decided before the store checks the owner, and so is the 404 for a missing row. See `OwnerCheckedLast` and `MissingRowCheckedLast`.
- **Normalisation is not idempotent on every result.**
  - A time without `:` gives `"NaN:NaN"`, which normalises to nothing (`NoColonNotIdempotent`).
  - A negative total with non-zero minutes gives a text such as `"-1:-15"`, which keeps drifting (`NegativeDrifts`, `NegativeDriftsAgain`, `GridPointNormalizes`).
  - A negative whole hour is fixed: `"-1:00"` normalises to itself (`MinusOneHourIsFixed`).
  - It is idempotent on every non-negative result (`NormalizeIdempotent`).
- **No double booking over every sequence of creates and updates.** This does not hold. Updates that omit the date, omit the time or name no room skip the search, and a rename by bare name searches for the wrong room (the counterexample lemmas in `ReservasController`). The invariant is proved for creates, deletes and catalogue-id updates.
- **No clamp at midnight.** 23:53 and later round to `"24:00"` (`MidnightIsNotClamped`).

## Model

| member | source | states |
|---|---|---|
| TimeGrid.RoundToStep | backend/controllers/reservasController.js:11-12 | the rounded total is a multiple of 15 within half a step of the input, ties rounding up as `Math.round` does |
| TimeGrid.Rem60 | backend/controllers/reservasController.js:15 | `%` truncates toward zero: the remainder has the dividend's sign and lies strictly between -60 and 60 |
| TimeGrid.Rem60Euclid | backend/controllers/reservasController.js:15 | the truncating remainder is the Euclidean one, less 60 exactly when the count is negative and not a whole hour |
| TimeGrid.PartAt | backend/controllers/reservasController.js:8 | a missing destructured part is `undefined`, exactly when the split produced too few pieces |
| TimeGrid.RoundIsNearest | backend/controllers/reservasController.js:11-12 | the rounded total is at least as close to the input as any multiple of 15, hence at most 7 minutes away |
| TimeGrid.RoundOfMultiple | backend/controllers/reservasController.js:11-12 | a multiple of 15 rounds to itself |
| TimeGrid.SplitClock | backend/controllers/reservasController.js:8 | splitting `H:M` on `:` yields exactly the hour text and the minute text |
| TimeGrid.NormalizeOfParts | backend/controllers/reservasController.js:6-17 | when both parts read as integers h and m, the result is the zero-padded clock text of h*60+m rounded to the grid |
| TimeGrid.FromNumbers | backend/controllers/reservasController.js:9-16 | numeric parts always give the padded text of the rounded total |
| TimeGrid.NormalizeOfDigits | backend/controllers/reservasController.js:6-17 | a digit string `hs:ms` normalises to the clock text of the rounded decimal values |
| TimeGrid.NormalizeOfInts | backend/controllers/reservasController.js:6-17 | any pair of integers written as text, negative ones included, normalises to the rounded total's text |
| TimeGrid.NumberWithoutColon | backend/controllers/reservasController.js:8-9 | a time without `:` leaves the minute `undefined`, which is not NaN, so the result is the text `"NaN:NaN"` and not null |
| TimeGrid.NullCases | backend/controllers/reservasController.js:7-9 | the empty time and `"NaN:NaN"` both normalise to null |
| TimeGrid.ClockTextReadsBack | backend/controllers/reservasController.js:14-16 | re-normalising the text of a non-negative total gives the text of that total rounded to the grid |
| TimeGrid.ClockTextOfNatural | backend/controllers/reservasController.js:14-16 | for a non-negative total the text is the padded hours, `:`, then the padded minutes |
| TimeGrid.ClockTextParts | backend/controllers/reservasController.js:14-16 | splitting the text of a non-negative total reads back the hours and the minutes as numbers |
| TimeGrid.ClockOrder | backend/controllers/reservasController.js:14-16 | for totals below 100 hours, string order of the clock texts is numeric order of the totals |
| TimeGrid.GridPointIsFixed | backend/controllers/reservasController.js:6-17 | the text of a non-negative multiple of 15 normalises to itself |
| TimeGrid.NegativeClockText | backend/controllers/reservasController.js:14 | a negative rounded total prints with a leading minus sign |
| TimeGrid.NormalizeIdempotent | backend/controllers/reservasController.js:6-17 | normalising a result again returns it unchanged, unless the result is `"NaN:NaN"` or negative |
| TimeGrid.IntTextReads | backend/controllers/reservasController.js:8 | `Number(String(i))` is i and the text holds no colon |
| TimeGrid.NoColonNotIdempotent | backend/controllers/reservasController.js:6-17 | `"930"` normalises to `"NaN:NaN"`, which normalises to null |
| TimeGrid.NegativeDrifts | backend/controllers/reservasController.js:11-16 | `"-1:50"` normalises to `"-1:-15"` |
| TimeGrid.NegativeDriftsAgain | backend/controllers/reservasController.js:11-16 | `"-1:-15"` normalises to `"-2:-15"`, so a negative result is not a fixed point |
| TimeGrid.QuarterHourExamples | backend/controllers/reservasController.js:6-17 | 09:07 gives 09:00, 09:08 gives 09:15, and 09:53 gives 10:00 |
| TimeGrid.MidnightIsNotClamped | backend/controllers/reservasController.js:11-16 | 23:53 and 23:59 give `"24:00"` |
| TimeGrid.ReadBack | backend/controllers/reservasController.js:14-15 | a printed total reads back as itself when it is non-negative or a whole hour, and as one hour less when it is negative with minutes (floored hour, truncated minutes) |
| TimeGrid.NormalizeClockText | frontend/src/components/ReservaForm.jsx:43-54 | normalising the printed clock of any total, negative ones included, gives the clock of what it reads back as, rounded to the grid |
| TimeGrid.ClockTextInjective | backend/controllers/reservasController.js:14-16 | different totals print as different clocks |
| TimeGrid.ReadBackSettles | backend/controllers/reservasController.js:14-15 | when what a total reads back as reads back as itself, the total already read back as itself: a negative total with minutes never settles |
| TimeGrid.GridPointNormalizes | frontend/src/components/ReservaCard.jsx:42-53 | the clock of a grid point normalises to itself when the point is non-negative or a whole hour; a negative point with minutes normalises to the clock one hour earlier, a different text |
| TimeGrid.GridReadBack | backend/controllers/reservasController.js:6-17 | the clock of a grid point normalises to the clock of another grid point, the one it reads back as |
| TimeGrid.MinusOneHourIsFixed | backend/controllers/reservasController.js:6-17 | `"-1:00"` normalises to itself |
| TimeGrid.ResultReachesGridOnlyIfFixed | backend/controllers/reservasController.js:6-17 | if normalising a result gives a fixed point, that fixed point is the result itself |
| TimeGrid.Example | backend/controllers/reservasController.js:6-17 | two-digit hour and minute texts normalise to the padded text of their rounded total |
| ClientTime.ISODateFormat | frontend/src/components/CalendarAvailability.jsx:3-8 | the date text is the ten-character extended calendar date of ISO 8601:2004 section 4.1.2.2, YYYY-MM-DD, whose fields read back as the year, month and day |
| ClientTime.ISODateOrder | frontend/src/components/ReservaForm.jsx:7-12 | two padded dates are equal exactly when their fields are, and sort as strings exactly in calendar order |
| ClientTime.PastDateIsEarlierDay | frontend/src/components/ReservaForm.jsx:18-21 | no date is never past; a printed date is past exactly when its day comes before today's in the calendar |
| ClientTime.PastClockTime | frontend/src/components/ReservaForm.jsx:23-40 | a clock time on today's date is past exactly when its minute is before the current one |
| ClientTime.OnlyTodayIsPast | frontend/src/components/ReservaForm.jsx:23-27 | with no date, no time or a date other than today, no time counts as past |
| ReservaModel.StoredRow | backend/models/reservaModel.js:23-41 | the stored row keeps every field of the new reservation, stores `salaId \|\| null`, and has no update time |
| ReservaModel.MergeFields | backend/models/reservaModel.js:54-61 | each of room id, room name, date, time and notes takes the change unless it is null or undefined; an empty string overwrites; id, owner and creation time never change; the update time is set |
| ReservaModel.MergeIdempotent | backend/models/reservaModel.js:54-61 | applying the same changes twice is the same as applying them once at the later time |
| ReservaModel.NullNeverClears | backend/models/reservaModel.js:54-61 | changes of only null or undefined values leave every field but the update time as it was |
| ReservaModel.InsertNewestFirst | backend/models/reservaModel.js:3-11 | inserting into a newest-first list keeps it newest-first and adds exactly that row |
| ReservaModel.NewestFirstCons | backend/models/reservaModel.js:3-11 | a row no older than everything after it can head a newest-first list |
| ReservaModel.CountsAfterInsert | backend/models/reservaModel.js:3-11 | adding one more row to a listing that holds each listed row exactly once keeps that so |
| ReservaModel.ReservaTable.constructor | backend/models/reservaModel.js:1-11 | the table starts empty |
| ReservaModel.ReservaTable.FindById | backend/models/reservaModel.js:13-21 | returns the row stored under the id, and nothing exactly when there is none |
| ReservaModel.ReservaTable.Create | backend/models/reservaModel.js:23-41 | adds exactly the stored row under its new id and returns it; nothing else changes |
| ReservaModel.ReservaTable.Update | backend/models/reservaModel.js:43-79 | missing id gives not found, another owner gives 403, and neither writes; the owner's update stores and returns the merged row |
| ReservaModel.ReservaTable.Remove | backend/models/reservaModel.js:81-94 | missing id reports not found, another owner gives 403, and neither deletes; the owner's delete removes exactly that row |
| ReservaModel.ReservaTable.ListAll | backend/models/reservaModel.js:3-11 | lists every stored row exactly once, newest first |
| ReservasController.RoomMatchTwoTier | backend/controllers/reservasController.js:75-99 | the three room tests mean: ids decide when both sides have one, otherwise equal non-empty trimmed lower-cased names decide |
| ReservasController.RoomMatchSymmetric | backend/controllers/reservasController.js:75-99 | the room test does not depend on which side is the request |
| ReservasController.DifferentIdsNeverMatch | backend/controllers/reservasController.js:82-85 | two different room ids never match, whatever the names |
| ReservasController.FirstConflict | backend/controllers/reservasController.js:75-99 | `find` returns a colliding row of the list, and nothing exactly when no row collides |
| ReservasController.ScanSeesEveryRow | backend/controllers/reservasController.js:71-99 | searching the full listing finds a conflict exactly when some stored row collides |
| ReservasController.GetReservas | backend/controllers/reservasController.js:19-26 | answers 200 with every stored row once, newest first |
| ReservasController.GetReservaById | backend/controllers/reservasController.js:28-36 | answers the stored row, or 404 with its message |
| ReservasController.CreateReserva | backend/controllers/reservasController.js:38-134 | answers as the create description says, stores the new row only on 201, and keeps the table well keyed |
| ReservasController.UpdateReserva | backend/controllers/reservasController.js:137-235 | answers as the update description says, stores the merged row only on 200, and changes nothing otherwise |
| ReservasController.DeleteReserva | backend/controllers/reservasController.js:238-250 | answers as the delete description says and removes exactly that row only on success |
| ReservasController.GridSlot | backend/controllers/reservasController.js:79-80 | the slot of a stored time is the grid point it normalises to, and there is none when it does not normalise or normalises off the grid |
| ReservasController.GridSlotOfWrittenTime | backend/controllers/reservasController.js:62-80 | the slot of a time the endpoint wrote is that time itself, or none |
| ReservasController.SearchFindsExactlyClashes | backend/controllers/reservasController.js:75-99 | for a grid time, a stored row collides with the create's probe exactly when the row to be written would clash with it |
| ReservasController.WrittenRowDoesNotClash | backend/controllers/reservasController.js:75-125 | a row written with the searched date, normalised time and room clashes, slot against slot, with no row the search let through |
| ReservasController.CreatePreserves | backend/controllers/reservasController.js:101-130 | a successful create keeps the table free of double bookings |
| ReservasController.UpdatePreserves | backend/controllers/reservasController.js:173-224 | an update that sends a date, a time and a catalogue id, or renames a row without an id, keeps the table free of double bookings |
| ReservasController.DeletePreserves | backend/controllers/reservasController.js:238-250 | a delete never creates a double booking |
| ReservasController.ApplyPreserves | backend/controllers/reservasController.js:38-250 | one create, delete or catalogue-id update keeps the table well keyed and free of double bookings |
| ReservasController.CreateKeepsKeys | backend/controllers/reservasController.js:113-125 | a create stores its row under the row's own non-empty id |
| ReservasController.UpdateKeepsKeys | backend/controllers/reservasController.js:220-224 | an update stores the merged row under its unchanged id |
| ReservasController.RunNeverDoubleBooks | backend/controllers/reservasController.js:38-250 | any sequence of such requests, served one at a time, never leaves two rows on the same date, slot and room |
| ReservasController.CreateBadRequests | backend/controllers/reservasController.js:43-66 | the four 400s of a create in their order (date or time missing, unknown room id, no room name, time that does not normalise), none depending on the table |
| ReservasController.CreateConflicts | backend/controllers/reservasController.js:75-111 | a valid create is refused with 409 exactly when a stored row collides; the 409 carries the date, the normalised time and the room |
| ReservasController.CreatedRow | backend/controllers/reservasController.js:47-60 | the created row has the fresh id, the caller as owner, the normalised time, the catalogue name for a catalogue id and the given name otherwise, and `notas \|\| ''`; it clashes with no stored row |
| ReservasController.RepeatedRequestConflicts | backend/controllers/reservasController.js:75-111 | sending the same booking again, by anyone, is refused with 409 when the room has an id or a non-blank name and the time is a real clock time |
| ReservasController.NoColonTimeIsBookedTwice | backend/controllers/reservasController.js:62-111 | a time without `:` is stored as `"NaN:NaN"`, so the same booking succeeds twice |
| ReservasController.CreateBesideUnreadableTimes | backend/controllers/reservasController.js:62-111 | a stored time that does not normalise never collides, so a request whose time normalises to such a text is created |
| ReservasController.NameOnlyRowBlocksCatalogueRoom | backend/controllers/reservasController.js:87-91 | a row booked by name only blocks the catalogue room of that name, whatever its case and spacing, in the same slot |
| ReservasController.OwnerCheckedLast | backend/controllers/reservasController.js:146-224 | a non-owner gets a 400 or a 409 before the 403; an unknown room id is always reported as such |
| ReservasController.MissingRowCheckedLast | backend/controllers/reservasController.js:146-226 | a missing row gets a 400 or a 409 before the 404 |
| ReservasController.NotesOnlyUpdate | backend/controllers/reservasController.js:137-235 | the owner's notes-only update changes the notes and the update time and nothing else |
| ReservasController.UpdateRoomFields | backend/controllers/reservasController.js:146-158 | a catalogue id sets the id and the catalogue name; a bare name sets the name and keeps the stored id; no room keeps both |
| ReservasController.TwoRowsNoDoubleBooking | backend/controllers/reservasController.js:75-99 | two rows that do not clash form a table without double booking |
| ReservasController.ClashIsDoubleBooking | backend/controllers/reservasController.js:75-99 | a clashing pair is a double booking |
| ReservasController.UpdateWithoutDateCanDoubleBook | backend/controllers/reservasController.js:173-176 | an update sending a time but no date skips the search and can move a row onto a taken slot |
| ReservasController.UpdateWithoutRoomCanDoubleBook | backend/controllers/reservasController.js:173-176 | an update sending a date and a time but no room skips the search and can move a row onto a taken slot |
| ReservasController.UpdateWithoutTimeCanDoubleBook | backend/controllers/reservasController.js:173-176 | an update sending a date but no time skips the search and can move a row onto a taken slot |
| ReservasController.RenameKeepsRoomIdAndCanDoubleBook | backend/controllers/reservasController.js:146-224 | a rename by bare name is searched as a room without id but keeps the old id, and can double-book it |
| ReservasController.RenameIsNotSearchedById | backend/controllers/reservasController.js:146-224 | that rename is stored as the merge with a null room id |
| ReservasController.UpdateAccepted | backend/controllers/reservasController.js:146-224 | with a known room id, a time that normalises, no colliding row and the owner calling, the update answers 200 with the merged row |
| ReservasController.RenameSearchFindsNothing | backend/controllers/reservasController.js:182-205 | the search for that rename finds no row |
| ReservaForm.FindSala | frontend/src/components/ReservaForm.jsx:107-110 | returns a listed room with that id, and nothing exactly when no listed room has it |
| ReservaForm.FindFirst | frontend/src/components/ReservaForm.jsx:107-110 | `find` returns the first listed room with the id |
| ReservaForm.SelectedSalaNombre | frontend/src/components/ReservaForm.jsx:107-110 | with no id chosen, or one not listed, the selected name is empty |
| ReservaForm.SelectedListedName | frontend/src/components/ReservaForm.jsx:107-110 | the selected name of a listed room is the first room with that id, trimmed |
| ReservaForm.MatchesChosenRoom | frontend/src/components/ReservaForm.jsx:124-144 | the loop's room test is the room rule for the chosen mode |
| ReservaForm.OccupiedTimesMembers | frontend/src/components/ReservaForm.jsx:113-147 | a time is taken exactly when some reservation on that date, with a time, in the chosen room normalises to it |
| ReservaForm.OccupiedTimes | frontend/src/components/ReservaForm.jsx:113-147 | the loop's set is exactly the taken times, and empty with no date; it is the memoised set `HandleSubmit` receives |
| ReservaForm.OccupiedDatesMembers | frontend/src/components/ReservaForm.jsx:158-189 | a date is marked exactly when some reservation on it is in the chosen room, or any reservation is when no room is chosen |
| ReservaForm.OccupiedDates | frontend/src/components/ReservaForm.jsx:158-189 | the loop's set is exactly the marked dates |
| ReservaForm.Payload | frontend/src/components/ReservaForm.jsx:246-249 | sends the date, time and notes, with the room id in list mode and the trimmed name in manual mode, never both |
| ReservaForm.InChosenRoomIsRoomMatch | frontend/src/components/ReservaForm.jsx:124-144 | the form's room test is the backend's room rule applied to the payload the form would send |
| ReservaForm.ListedRoomIsRoomMatch | frontend/src/components/ReservaForm.jsx:128-136 | list mode's id-or-name test is the backend rule for the listed room |
| ReservaForm.TypedRoomIsRoomMatch | frontend/src/components/ReservaForm.jsx:137-142 | manual mode's name test is the backend rule for a room without id |
| ReservaForm.OccupiedTimesAgreeWithBackend | frontend/src/components/ReservaForm.jsx:113-147 | a grid time is taken exactly when the backend's search would find a conflict for the form's payload |
| ReservaForm.OccupiedDatesAgreeWithBackend | frontend/src/components/ReservaForm.jsx:158-189 | a date is marked exactly when a reservation that day is in a room the backend would match |
| ReservaForm.NoRoomMarksEveryDate | frontend/src/components/ReservaForm.jsx:184-186 | with no room chosen, every booked date is marked |
| ReservaForm.FreeSlotIsNotAConflict | frontend/src/components/ReservaForm.jsx:113-147 | submitting a time the form shows as free never gets a 409 |
| ReservaForm.PayloadConflicts | frontend/src/components/ReservaForm.jsx:246-251 | a 409 for the form's payload means some stored row collides with it |
| ReservaForm.NoDateTakesNoTime | frontend/src/components/ReservaForm.jsx:113-116 | without a date no time is taken |
| ReservaForm.FormErrorsFields | frontend/src/components/ReservaForm.jsx:198-225 | the error object has an entry for the date, the time and the room exactly when that check fails, holding the failing check's message; a taken time is reported as taken even when it is also past |
| ReservaForm.FormErrorsEmptyIffOk | frontend/src/components/ReservaForm.jsx:198-225 | the error object is empty exactly when the date is set and not past, the time is set, not past and not taken, and a room is chosen |
| ReservaForm.CheckSala | frontend/src/components/ReservaForm.jsx:210-215 | list mode without a selected id records "Seleccioná una sala", manual mode with a blank name "Ingresá una sala", and nothing else changes |
| ReservaForm.Validate | frontend/src/components/ReservaForm.jsx:198-225 | leaves exactly the error object described by the two rows above and accepts exactly when it is empty |
| ReservaForm.FormState.constructor | frontend/src/components/ReservaForm.jsx:57-73 | the form starts empty, in list mode, with no errors |
| ReservaForm.FormState.HandleSubmit | frontend/src/components/ReservaForm.jsx:242-259 | stores the error object of `validate` for the submitted fields; submits the payload exactly when that object is empty; after a successful create clears the date, time, notes, errors and (in manual mode) the typed name; otherwise keeps every field |
| ReservaCard.SameSalaIsRoomMatch | frontend/src/components/ReservaCard.jsx:55-65 | `sameSala` is the backend room rule and is symmetric |
| ReservaCard.OccupiedTimes | frontend/src/components/ReservaCard.jsx:100-115 | the loop's set is exactly the normalised times of other reservations on that date in the same room |
| ReservaCard.CardOccupiedMembers | frontend/src/components/ReservaCard.jsx:100-115 | a time is taken exactly when some other reservation yields it; the card's own reservation never does |
| ReservaCard.StartHora | frontend/src/components/ReservaCard.jsx:82-88 | the edit time starts as the normalised stored time, or empty when it does not normalise |
| ReservaCard.StartHoraOfGridTime | frontend/src/components/ReservaCard.jsx:82-88 | a stored grid time is the edit time unchanged |
| ReservaCard.HoraLabel | frontend/src/components/ReservaCard.jsx:162 | the shown time is never empty: the normalised time, else the raw time, else `--` |
| ReservaCard.SafeHora | frontend/src/components/ReservaCard.jsx:151 | a grid time or a time that does not normalise is sent as typed |
| ReservaCard.CardPayload | frontend/src/components/ReservaCard.jsx:150-156 | sends the edited date, time and notes with the original room: its id if it has one, else its name, never both |
| ReservaCard.SameSalaIsProbeMatch | frontend/src/components/ReservaCard.jsx:55-65 | `sameSala` with the card's reservation is the backend rule for the payload the card sends |
| ReservaCard.CardOccupiedAgreesWithBackend | frontend/src/components/ReservaCard.jsx:100-115 | a grid time is taken exactly when the backend's update search would find a conflict |
| ReservaCard.CardErrorsFields | frontend/src/components/ReservaCard.jsx:119-136 | the card's error object has an entry for the date and the time exactly when that check fails, holding the failing check's message; a taken time is reported with the card's own message even when it is also past |
| ReservaCard.CardErrorsEmptyIffOk | frontend/src/components/ReservaCard.jsx:119-136 | the card's error object is empty exactly when the date is set and not past and the time is set, not past and not taken |
| ReservaCard.Validate | frontend/src/components/ReservaCard.jsx:119-136 | leaves exactly the card's error object and accepts exactly when it is empty |
| ReservaCard.CardState.constructor | frontend/src/components/ReservaCard.jsx:82-88 | the fields start from the stored date, the normalised time and the notes, not editing |
| ReservaCard.CardState.Sync | frontend/src/components/ReservaCard.jsx:91-96 | a new reservation resets the fields to its values |
| ReservaCard.CardState.HandleCancel | frontend/src/components/ReservaCard.jsx:138-144 | cancel restores exactly the starting values and leaves edit mode |
| ReservaCard.CardState.StartEditing | frontend/src/components/ReservaCard.jsx:202-209 | only the owner enters edit mode; nothing else changes |
| ReservaCard.CardState.ChangeFecha | frontend/src/components/ReservaCard.jsx:246-249 | a new date clears the chosen time |
| ReservaCard.CardState.HandleSave | frontend/src/components/ReservaCard.jsx:146-160 | stores the card's error object for the edited fields against the times taken in its room; sends the reservation's id and the card payload exactly when that object is empty and a handler exists; leaves edit mode only after a successful update; the reservation and the edit fields stay as they were |
| TimeSlotsPicker.BuildSlots | frontend/src/components/TimeSlotsPicker.jsx:18-29 | 49 slots, the i-th the clock text of 08:00 plus 15*i minutes |
| TimeSlotsPicker.SlotIsGridPoint | frontend/src/components/TimeSlotsPicker.jsx:18-29 | every slot is a fixed point of the normaliser |
| TimeSlotsPicker.SlotsIncrease | frontend/src/components/TimeSlotsPicker.jsx:18-29 | the slots are strictly increasing as strings |
| TimeSlotsPicker.SlotEnds | frontend/src/components/TimeSlotsPicker.jsx:18-29 | the first slot is 08:00 and the last 20:00 |
| TimeSlotsPicker.IsBeforeIsChronological | frontend/src/components/TimeSlotsPicker.jsx:11-16 | string `<` between a slot and the current time is chronological order |
| TimeSlotsPicker.OfferedSlots | frontend/src/components/TimeSlotsPicker.jsx:93-104 | with no date no slot is offered; with a date every slot of the grid is offered |
| TimeSlotsPicker.DisabledSlot | frontend/src/components/TimeSlotsPicker.jsx:151-155 | a slot is disabled exactly when it is taken, or the date is today and the slot is before now |
| TimeSlotsPicker.CountSlots | frontend/src/components/TimeSlotsPicker.jsx:109-117 | the counters are the number of past slots and the number of taken slots |
| TimeSlotsPicker.AvailableCount | frontend/src/components/TimeSlotsPicker.jsx:119 | the shown count is never negative: the difference, or 0 |
| TimeSlotsPicker.InclusionExclusion | frontend/src/components/TimeSlotsPicker.jsx:109-119 | disabled slots plus slots both past and taken equal past slots plus taken slots |
| TimeSlotsPicker.AvailableCountUndercounts | frontend/src/components/TimeSlotsPicker.jsx:119 | the shown count never exceeds the number of enabled slots, equals it when no slot is both past and taken, and falls short of it when some slot is both while some slot is enabled |
| TimeSlotsPicker.EnabledCount | frontend/src/components/TimeSlotsPicker.jsx:109-119 | the corrected count never exceeds the number of slots |
| TimeSlotsPicker.EnabledCountCountsEnabledSlots | frontend/src/components/TimeSlotsPicker.jsx:151-155 | the corrected count is exactly the number of enabled slots |
| CalendarAvailability.GetMonthGrid | frontend/src/components/CalendarAvailability.jsx:21-36 | startDay empty cells, the days 1 to daysInMonth in order, then empty cells; exactly 42 cells for a real month |
| CalendarAvailability.ClassifyIsChronological | frontend/src/components/CalendarAvailability.jsx:139-161 | a day is disabled exactly when it is before today, marked today exactly on today's date, occupied exactly when its date is booked |
| CalendarAvailability.TodayIsSelectable | frontend/src/components/CalendarAvailability.jsx:139-161 | empty cells and today's cell are never disabled |
| CalendarAvailability.SelectToggles | frontend/src/components/CalendarAvailability.jsx:90-99 | clicking the selected day clears it, clicking another selects it, and a second click undoes the first |
| CalendarAvailability.NoCallbackNoCall | frontend/src/components/CalendarAvailability.jsx:90-99 | with no callback, a click does nothing |
| ReservasPage.Prepend | frontend/src/pages/ReservasPage.jsx:52-56 | the created reservation comes first and the rest follows in order |
| ReservasPage.UpdatedId | frontend/src/pages/ReservasPage.jsx:81-90 | the key is the returned id, or the requested id when the reply has none |
| ReservasPage.ReplaceById | frontend/src/pages/ReservasPage.jsx:81-90 | the list keeps its length; its positions and members are stated in the rows below |
| ReservasPage.ReplaceByIdPositions | frontend/src/pages/ReservasPage.jsx:81-90 | every element with the key is replaced and every other stays, with length and order kept |
| ReservasPage.ReplaceByIdMembers | frontend/src/pages/ReservasPage.jsx:81-90 | an element of the new list is the update (if the key was present) or an old element without the key, and conversely |
| ReservasPage.ReplaceByIdMissing | frontend/src/pages/ReservasPage.jsx:81-90 | with the key absent, the list is unchanged |
| ReservasPage.ReplaceByIdIdempotent | frontend/src/pages/ReservasPage.jsx:81-90 | replacing twice is replacing once |
| ReservasPage.RemoveById | frontend/src/pages/ReservasPage.jsx:117 | the list never grows; its members and order are stated in the rows below |
| ReservasPage.RemoveByIdMembers | frontend/src/pages/ReservasPage.jsx:117 | the filtered list holds exactly the old elements without the key |
| ReservasPage.RemoveByIdOfConcat | frontend/src/pages/ReservasPage.jsx:117 | filtering keeps order: it distributes over concatenation |
| ReservasPage.RemoveByIdMissing | frontend/src/pages/ReservasPage.jsx:117 | with the key absent, the list is unchanged |
| ReservasPage.RemoveUndoesPrepend | frontend/src/pages/ReservasPage.jsx:52-56 | deleting a freshly created reservation restores the list |
| ReservasPage.RemoveAfterReplace | frontend/src/pages/ReservasPage.jsx:81-117 | deleting after an update is deleting the original |
| ReservasPage.RemoveByIdRemovesAll | frontend/src/pages/ReservasPage.jsx:117 | no element with the key survives |
| ReservasPage.ListOrEmpty | frontend/src/pages/ReservasPage.jsx:31 | an array reply is kept; anything else becomes the empty list |
| ReservasPage.ErrorStatus | frontend/src/pages/ReservasPage.jsx:60-69 | the error's own non-zero status, otherwise the response's status |
| ReservasPage.MessageOr | frontend/src/pages/ReservasPage.jsx:60-69 | the error's message, or the fallback when it is empty |
| ReservasPage.WriteFailureMessage | frontend/src/pages/ReservasPage.jsx:60-69 | a 409 shows the fixed slot-taken message; anything else shows the error's message or the fallback |
| ReservasPage.ConflictMessage | frontend/src/pages/ReservasPage.jsx:94-102 | a 409 on either status field gives the slot-taken message; a missing session gives the session message |
| ReservasPage.Failure | frontend/src/pages/ReservasPage.jsx:45-47 | no token fails before any request; otherwise the request's own failure |
| ReservasPage.PageState.constructor | frontend/src/pages/ReservasPage.jsx:16-20 | the page starts loading with an empty list and no message |
| ReservasPage.PageState.LoadReservas | frontend/src/pages/ReservasPage.jsx:27-37 | a reply replaces the list (non-arrays by empty); a failure keeps it and shows the error; loading ends |
| ReservasPage.PageState.HandleCreate | frontend/src/pages/ReservasPage.jsx:43-71 | success prepends the created reservation (or reloads) and shows success; failure keeps the list, shows the mapped message and rethrows |
| ReservasPage.PageState.HandleUpdate | frontend/src/pages/ReservasPage.jsx:73-104 | success replaces by id (or reloads) and shows success; failure keeps the list, shows the mapped message and rethrows |
| ReservasPage.PageState.HandleDelete | frontend/src/pages/ReservasPage.jsx:106-123 | without confirmation nothing changes; success filters the id out; errors are shown and not rethrown |

## Left out

- Step: every caller passes a step of 15, so the grid step is fixed at 15 and the `step` parameter is not modelled.
- Numbers: `Number()` is modelled on integer numerals (trimmed, optional sign, decimal digits, empty text reads as 0). Decimals, exponents, hexadecimal and `Infinity` read as NaN.
- Case folding: `toLowerCase` folds only ASCII and Latin-1 capitals.
- String order: strings are sequences of characters, compared by code point rather than by UTF-16 code unit. The two orders agree on the texts compared here: digits, `-` and `:`.
- HTTP plumbing: Express routing, request validation middleware and the error handler are not modelled. Endpoint outcomes are responses with a status code.
- SQLite: the database is a map from id to reservation. The SQL text, the schema and the JOIN that adds the owner's name and e-mail to listings are not modelled.
- Concurrency: every request is one atomic step. The window between the listing and the insert, in which two concurrent creates can both pass the search, is not modelled.
- Authentication: the caller id is a trusted input. Tokens, passwords and the session store are not modelled; the page only sees whether a token exists.
- Clocks and ids: today's date, the current time and the fresh `randomUUID` ids are parameters.
- Dates: JavaScript `Date` arithmetic is not modelled. The month's first weekday and its length are parameters of the month grid.
- Calendar navigation: moving between months, and syncing the calendar to the selected date, are not modelled.
- Room catalogue: loading the room list and switching between list and manual mode (`handleSalaModeChange`) are not modelled. The other input handlers are plain field assignments and are not modelled either, except the card's date change, which clears the time.
- Presentation: class names, titles, banners and other rendering are not modelled.
- Confirm dialog: the delete confirmation is a boolean parameter.
- Network: `fetch` replies are parameters. A reply is data or an error with a status and a message.
- ReservasController.UpdatePreserves: it is proved only for updates that send a date, a time and either a catalogue id or a rename of a row without an id. Updates without a date, without a time or without a room can double-book (`UpdateWithoutDateCanDoubleBook`, `UpdateWithoutTimeCanDoubleBook`, `UpdateWithoutRoomCanDoubleBook`), and so can a bare-name rename of a row that has an id (`RenameKeepsRoomIdAndCanDoubleBook`).
- ReservasController.RunNeverDoubleBooks: a stored time that normalises to no grid point (`"NaN:NaN"`, or a negative time with minutes) holds no slot, so such rows never count as a double booking. The search never matches them either (`CreateBesideUnreadableTimes`).
- TimeGrid.NormalizeIdempotent: it is stated only for results that are not `"NaN:NaN"` and do not start with `-`. `"NaN:NaN"` normalises to null (`NoColonNotIdempotent`). A negative result with non-zero minutes drifts (`NegativeDrifts`). A negative whole hour such as `"-1:00"` is fixed (`MinusOneHourIsFixed`). `GridPointNormalizes` states the negative case in full.

## Findings

| source | as written | input that shows it | evidently intended | confidence | as-written member | corrected member |
|---|---|---|---|---|---|---|
| frontend/src/components/TimeSlotsPicker.jsx:119 | `Math.max(slots.length - occupiedCount - pastCount, 0)` subtracts a slot that is both past and taken twice | today at 10:00 with 08:00 taken: 8 past slots and 1 taken slot, so it shows 49 - 1 - 8 = 40, while 41 slots are enabled | the number of enabled slots | not executed | TimeSlotsPicker.AvailableCountUndercounts | TimeSlotsPicker.EnabledCountCountsEnabledSlots |
