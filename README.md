# Student assistant: a Dafny model of its core

The student assistant is a desktop application for university students. It has six tools. **Room booking** lets a student book a study room for a group, see the rooms' availability on a grid, and list upcoming, past and cancelled bookings. **Timetable** keeps a per-user list of dated events. **Appointments** book a meeting between two users into both timetables. **Reminders** ring at a chosen minute and may repeat daily or weekly. **Notes** are stored one per line, with category and tag suggestions. **Login** keeps a users file with generated student ids.

The project models the rules behind those windows and proves what they promise. The window code itself is not modelled.

- **Files are values.** Every file is the sequence of records it holds. A missing file is the empty sequence. Where the source keeps a file in memory and writes it back, it becomes the field of a class (`RoomHelpers.Table`, `StudentTimetable.EventStore`, `SimpleReminder.ReminderFile`, `Login.UserFile`, `NotesOrganizer.Notebook`, `NotesSuggestions.SuggestionWindow`). The operations are methods with `modifies`, each proved against a function of the old contents.
- **The clock is a parameter.** `today` is a day number and `now` is a number of minutes (a minute of the day for bookings; absolute seconds for the reminder check). The `%Y-%m-%d` and `%I:%M %p` texts of dates are their values. The 12-hour and 24-hour time texts that the source compares as strings are modelled as text, and the string comparisons are proved equal to minute comparisons where the source relies on that (`StudentTimetable.HhmmOrder`).
- **Text is `seq<char>`.** Python's `strip`, `split`, `partition`, `replace`, `upper`, `lower`, `zfill` and string `<` are written out in the module `Text`. `Seqs` holds the generic filter and position-list helpers.
- **Loops stay loops.** Where the source loops (generating time labels, checking member rows, the reminder check pass, the search and delete loops, the file reading and writing loops), the model is a method with a `while` loop proved equal to a recursive function.

One module per source file: `RoomHelpers` (helpers.py), `BookRoom`, `UpcomingBookings`, `PastBookings`, `CancelledBookings`, `ViewAvailability`, `RoomsData`, `StudentTimetable`, `MakeAppointment`, `SimpleReminder`, `Login`. The notes window is split into three modules: `NotesFormat` (the line format), `NotesSuggestions` (the suggestion files) and `NotesOrganizer` (the notes list and the window's state).

## Model

| member | source | states |
|---|---|---|
| RoomHelpers.AnySegmentMatchesExists | Python/py/room_booking/helpers.py:12-20 | the early-return loop over the `;` segments returns true exactly when some segment matches, and false when none does |
| RoomHelpers.UserInBookingIff | Python/py/room_booking/helpers.py:3-20 | a user sees a booking exactly when the trimmed owner name equals the user ignoring case, or the trimmed owner id equals the trimmed user, or some non-blank segment of the trimmed members text split on `;` has its id (the text before its first bar) equal to the user or its name equal ignoring case |
| RoomHelpers.OwnerIdCaseSensitive | Python/py/room_booking/helpers.py:8 | the owner id is compared exactly: owner id "ab" does not match user "AB" |
| RoomHelpers.SegmentWithoutBar | Python/py/room_booking/helpers.py:17-18 | a segment with no bar character is compared as an id only, with an empty name |
| BookRoom.PutLookup | Python/room_booking/BookRoom.py:25 | after `students[sid] = username`, `sid` maps to the new name and every other id keeps its entry |
| BookRoom.PutIds | Python/room_booking/BookRoom.py:25 | a new id is added after the existing ones; an existing id keeps its place |
| BookRoom.PutKeepsIdsUnique | Python/room_booking/BookRoom.py:25 | the roster never holds an id twice |
| BookRoom.StudentsOfLastWins | Python/room_booking/BookRoom.py:14-26 | the roster maps each id to the upper-cased name of the last three-field line with that id (reference `LastNameFor`), and ids are unique |
| BookRoom.LoadStudents | Python/room_booking/BookRoom.py:14-26 | the loop over the lines builds exactly `StudentsOf(lines)`: unique ids, each mapped to its last three-field line's name |
| BookRoom.FindByName | Python/room_booking/BookRoom.py:125-128 | a found entry is the first in roster order whose name equals the user ignoring case; when none is found no entry's name does |
| BookRoom.ResolveOwner | Python/room_booking/BookRoom.py:124-130 | the owner name is the upper-cased user; when the first entry whose name matches has an id, the owner id is that id, when its id is empty "N/A"; with no such entry the owner is ("N/A", USER) |
| BookRoom.ResolveOwnerFirstMatch | Python/room_booking/BookRoom.py:124-130 | for any roster position k whose name matches the user ignoring case with no match before it, the owner is (its id, or "N/A" when that is empty; USER), whatever later entries hold |
| BookRoom.Hour12 | Python/room_booking/BookRoom.py:42 | `%I` gives an hour from 1 to 12 equal to the 24-hour hour modulo 12 |
| BookRoom.MeridiemOf | Python/room_booking/BookRoom.py:268 | `%p` reads exactly "AM" and "PM", "AM" as before noon |
| BookRoom.ParseTimeLabel | Python/room_booking/BookRoom.py:268 | a label that parses denotes a minute of the day (below 1440) |
| BookRoom.LStripHour | Python/room_booking/BookRoom.py:42 | `lstrip("0")` on the zero-padded hour 1-12 leaves `str(hour)` and the rest of the label |
| BookRoom.Label12RoundTrip | Python/room_booking/BookRoom.py:268 | `strptime(label, "%I:%M %p")` reads back the hour, minute and meridiem that `strftime(...).lstrip("0")` wrote |
| BookRoom.ClockOfMinute | Python/room_booking/BookRoom.py:42 | the 12-hour hour, minute and meridiem of a minute of the day give back that minute |
| BookRoom.TimeLabelRoundTrip | Python/room_booking/BookRoom.py:268 | parsing the label of minute `m` gives `m` |
| BookRoom.TimeLabelInjective | Python/room_booking/BookRoom.py:42 | distinct minutes of the day have distinct labels |
| BookRoom.StepMinuteIsLinear | Python/room_booking/BookRoom.py:39-43 | after `i` passes of the loop, `current` is the start plus `i` steps |
| BookRoom.StepLabelsAt | Python/room_booking/BookRoom.py:41-43 | label `i` of the loop's list is the label of the minute reached after `i` steps |
| BookRoom.GenerateTimes | Python/room_booking/BookRoom.py:38-44 | the loop returns the labels of every step from the start hour up to and including the end hour, and no more |
| BookRoom.DefaultTimesCount | Python/room_booking/BookRoom.py:38-47 | `generate_times()` returns 27 labels |
| BookRoom.DefaultTimesAt | Python/room_booking/BookRoom.py:38-47 | label `i` of `TIMES` is the label of minute 480 + 30·i and parses back to it |
| BookRoom.DefaultTimesDistinct | Python/room_booking/BookRoom.py:47 | the labels of `TIMES` are pairwise distinct, so `TIMES.index` finds the chosen slot |
| BookRoom.DefaultTimesEnds | Python/room_booking/BookRoom.py:38-47 | `TIMES` has 27 labels, from "8:00 AM" to "9:00 PM" |
| BookRoom.IdsBeforeIff | Python/room_booking/BookRoom.py:302-319 | before row `i`, `seen_ids` holds exactly the ids of the earlier rows |
| BookRoom.CheckRowsFromFirstBad | Python/room_booking/BookRoom.py:304-320 | from row `i` on, the loop stops at the first failing row with that row's error, or collects every row as a member |
| BookRoom.RowErrorRow | Python/room_booking/BookRoom.py:304-318 | the error of row `k` names row `k + 1` (rows are counted from one) |
| BookRoom.CheckMembersSpec | Python/room_booking/BookRoom.py:300-320 | the member rows pass exactly when every row has an id and a name, is not the owner, matches the roster and repeats no earlier id; on success the members are the rows in order; a failure names the first failing row |
| BookRoom.FirstConflictSpec | Python/room_booking/BookRoom.py:273-297 | the availability loop passes exactly when no booking on the date overlaps with the same owner or in the same venue and room; "double booking" needs an overlapping booking of the same owner, "room occupied" one of another owner in the same room |
| BookRoom.DecideSpec | Python/room_booking/BookRoom.py:239-337 | a booking is accepted exactly when venue, room and numeric pax are given, it spans 1 to 6 slots, the date is not past, a start today is after now, nothing clashes, every member row passes and there are pax − 1 rows; the row written is the form with the owner name upper-cased and members written as id, bar, NAME, joined by "; " |
| BookRoom.AcceptedDuration | Python/room_booking/BookRoom.py:251-258 | an accepted booking lasts 30 to 180 minutes, in whole half-hours |
| BookRoom.ConfirmKeepsNoClashes | Python/room_booking/BookRoom.py:273-297 | appending an accepted booking keeps the table free of two overlapping bookings on one date with the same owner or the same room |
| BookRoom.OwnerSeesOwnBooking | Python/room_booking/BookRoom.py:124-130 | the user the owner was resolved for sees every booking they confirm |
| BookRoom.SaveBooking | Python/room_booking/BookRoom.py:361-368 | appends exactly one row; earlier rows are untouched |
| BookRoom.ConfirmBooking | Python/room_booking/BookRoom.py:239-337 | the outcome is `Decide` on the table as it was; on success the table gains exactly that row, on an error it is unchanged |
| BookRoom.FetchUpcomingBookings | Python/room_booking/BookRoom.py:378-389 | every returned row is in the table and dated today or later, and every such row is returned; rows whose date does not parse are skipped |
| BookRoom.ParseClock | Python/room_booking/BookRoom.py:268 | a parsed `%I:%M %p` label always denotes a minute of the day |
| BookRoom.FirstBadRowPassed | Python/room_booking/BookRoom.py:304-318 | every member row before the first bad one passes the row checks |
| BookRoom.FirstBadRowFails | Python/room_booking/BookRoom.py:304-318 | the first bad row, when there is one, fails the row checks |
| UpcomingBookings.WithoutKey | Python/py/room_booking/UpcomingBookings.py:26-33 | the rewritten table holds exactly the rows whose venue, room, date, start, end or owner id differ from the cancelled booking's |
| UpcomingBookings.MoveToCancelled | Python/py/room_booking/UpcomingBookings.py:12-37 | the cancelled table gains the booking at its end; the active table becomes the old one without the rows that carry its key, the others in their order; a missing active table stays empty |
| UpcomingBookings.KeyIgnoresDetails | Python/py/room_booking/UpcomingBookings.py:26-33 | pax, owner name and members play no part in which rows are removed |
| UpcomingBookings.CancelledRowLeaves | Python/py/room_booking/UpcomingBookings.py:26-33 | the cancelled booking and every row with its key leave the active table, which does not grow |
| UpcomingBookings.UpcomingViewIsFilter | Python/py/room_booking/UpcomingBookings.py:71-78 | the page lists, in table order, exactly the rows the user takes part in that are dated after today or today and ending after now; the `fetch_upcoming_bookings` prefilter removes nothing more |
| UpcomingBookings.CanCancelSees | Python/py/room_booking/UpcomingBookings.py:110-111 | whoever is offered Cancel also sees the booking |
| UpcomingBookings.MemberCannotCancel | Python/py/room_booking/UpcomingBookings.py:110-111 | for every booking and user: the user sees it without being offered Cancel exactly when they do not match the owner and some member segment names them |
| UpcomingBookings.CancelledLeavesUpcoming | Python/py/room_booking/UpcomingBookings.py:72-114 | after a cancellation no row with the cancelled key is listed as upcoming |
| PastBookings.PastViewSpec | Python/py/room_booking/PastBookings.py:42-49 | with the rows `fetch` reads (lines 9-13), the page fails exactly when a row the user takes part in has a date that does not parse; otherwise it lists, in table order, exactly those rows dated before today or today and ended at or before now |
| PastBookings.PastOrUpcoming | Python/py/room_booking/PastBookings.py:48 | a booking with a date is either past or upcoming (Python/py/room_booking/UpcomingBookings.py:77) and never both |
| PastBookings.PastAndUpcomingSplitVisible | Python/py/room_booking/PastBookings.py:42-49 | the past and upcoming pages together list every row the user takes part in exactly once |
| PastBookings.EndedLeavesUpcoming | Python/py/room_booking/PastBookings.py:42-49 | a listed past booking is a visible row of the active table and is not listed as upcoming |
| CancelledBookings.CancelledViewIff | Python/room_booking/CancelledBookings.py:39 | a cancelled row is listed exactly when the user takes part in it, with no date or time filter |
| CancelledBookings.CancelledViewAppend | Python/room_booking/CancelledBookings.py:9-39 | a newly cancelled row is listed after the rows already listed, for every user it concerns, and the earlier rows stay listed |
| CancelledBookings.CancellerSeesCancelled | Python/room_booking/CancelledBookings.py:39 | the owner who cancels a booking (Python/py/room_booking/UpcomingBookings.py:110-114) finds it at the end of this page |
| ViewAvailability.Next5Days | Python/py/room_booking/ViewAvailability.py:13-15 | five dates: today, then each the day after the one before |
| ViewAvailability.Next5DaysAscending | Python/py/room_booking/ViewAvailability.py:13-15 | the offered dates are distinct, increasing, and lie between today and today + 4 |
| ViewAvailability.GridSlots | Python/py/room_booking/ViewAvailability.py:179-187 | with the default labels (the same `generate_times` as Python/room_booking/BookRoom.py:38-44, modelled once by `BookRoom.GenerateTimes`) the grid has 26 slots, slot `i` running from minute 480 + 30·i to 30 minutes later, the last ending at 9:00 PM |
| ViewAvailability.SlotTakenIff | Python/py/room_booking/ViewAvailability.py:193-205 | the search over the bookings finds one exactly when some booking of the same venue, room and date overlaps the slot |
| ViewAvailability.CellStatusSpec | Python/py/room_booking/ViewAvailability.py:189-209 | a cell is Booked exactly when some booking of its venue, room and date overlaps the slot; Past exactly when it is not booked, the date is today and the slot has ended by now; Available otherwise |
| ViewAvailability.OnlySameCellCounts | Python/py/room_booking/ViewAvailability.py:194-198 | the search gives the same answer on the bookings of the cell's own venue, room and date alone |
| ViewAvailability.OtherBookingIgnored | Python/py/room_booking/ViewAvailability.py:194-198 | adding a booking of another venue, room or date leaves every cell as it was |
| ViewAvailability.TouchingStaysFree | Python/py/room_booking/ViewAvailability.py:190-203 | a booking that only touches the slot's boundary leaves the cell Available |
| RoomsData.LibraryWellFormed | Python/py/room_booking/rooms_data.py:2-35 | the Library has rooms, with unique names, each with a non-empty run of consecutive capacities starting at one or more |
| RoomsData.CyberCenterWellFormed | Python/py/room_booking/rooms_data.py:37-62 | likewise for the Cyber Center |
| RoomsData.FacultyBlockAWellFormed | Python/py/room_booking/rooms_data.py:64-89 | likewise for Faculty Block A |
| RoomsData.FacultyBlockBWellFormed | Python/py/room_booking/rooms_data.py:91-108 | likewise for Faculty Block B |
| RoomsData.StudentHubWellFormed | Python/py/room_booking/rooms_data.py:110-127 | likewise for the Student Hub |
| RoomsData.ResearchCenterWellFormed | Python/py/room_booking/rooms_data.py:129-146 | likewise for the Research Center |
| RoomsData.CatalogueVenues | Python/py/room_booking/rooms_data.py:1-147 | the catalogue lists its six venues in order |
| RoomsData.CatalogueWellFormed | Python/py/room_booking/rooms_data.py:1-147 | every venue has rooms, room names are unique within a venue (as lookup by name at Python/room_booking/BookRoom.py:184 assumes), and every capacity list is a non-empty run of consecutive sizes, so `min`/`max` at Python/py/room_booking/ViewAvailability.py:71 exist |
| RoomsData.FindRoom | Python/room_booking/BookRoom.py:184-185 | a room found is a room of that venue with that name; none found means the venue has no room of that name |
| RoomsData.FindRoomIn | Python/room_booking/BookRoom.py:184-185 | the first room with the name is a room of the list with that name; none found means none has it |
| RoomsData.PaxChoices | Python/room_booking/BookRoom.py:200 | one `pax` choice per capacity |
| RoomsData.PaxChoiceValue | Python/room_booking/BookRoom.py:200 | each choice is the decimal text of the capacity at its position |
| RoomsData.MemberRowCount | Python/room_booking/BookRoom.py:147-153 | a numeric pax of at least one offers pax − 1 member rows; anything else offers none |
| RoomsData.PaxChoiceBounds | Python/room_booking/BookRoom.py:147-153 | a chosen pax lies between the room's smallest and largest capacity and offers capacity − 1 member rows |
| RoomsData.IndividualStudyRoomHasNoMembers | Python/py/room_booking/rooms_data.py:27-33 | the Individual Study Room is found in the Library with capacity [1], offers only "1", and so no member rows (Python/room_booking/BookRoom.py:149-151) |
| RoomsData.FindIn | Python/room_booking/BookRoom.py:184-185 | a room found is a room of that name in a venue of that name; none is found exactly when no such room exists |
| RoomsData.FindIndividualStudyRoom | Python/py/room_booking/rooms_data.py:27-33 | the Library's "Individual Study Room" is found and holds exactly one person |
| RoomsData.OnlyOnePax | Python/room_booking/BookRoom.py:147-153 | a room for one person offers only "1" and no member rows |
| StudentTimetable.OnDate | Python/student_timetable.py:49-50 | the events of a date are exactly the loaded events with that date, each one taken from the loaded list |
| StudentTimetable.ReadStartConverts | Python/student_timetable.py:32-34 | a start of two comma-separated parts without ':' becomes `f"{int(h):02d}:{int(m):02d}"` when `int()` accepts both parts (whitespace, a sign and single underscores allowed), and raises otherwise |
| StudentTimetable.ReadStartConvertsDigits | Python/student_timetable.py:32-34 | an `H,M` start of plain digits becomes the zero-padded `HH:MM` |
| StudentTimetable.ReadStartSpaced | Python/student_timetable.py:32-34 | spaces around either number are ignored: " 9 , 30 " becomes "09:30" |
| StudentTimetable.ReadStartSigned | Python/student_timetable.py:32-34 | a negative hour keeps its sign: "-1,5" becomes "-1:05" |
| StudentTimetable.ReadStartRaises | Python/student_timetable.py:32-34 | a start with three comma-separated parts and no ':' raises in the two-way unpacking |
| Text.PyIntOfDigits | Python/student_timetable.py:34 | `int()` reads a string of ASCII digits as its decimal value |
| Text.PyIntStrips | Python/student_timetable.py:34 | `int()` ignores the whitespace around its argument |
| Text.PyIntSigned | Python/student_timetable.py:34 | for any numeral (digits with single underscores between them), a leading '-' negates its value and a leading '+' keeps it |
| Text.PyIntUnderscored | Python/student_timetable.py:34 | a single underscore between digits is skipped: "1_0" reads as 10 |
| Text.PyIntRejects | Python/student_timetable.py:34 | the empty text, a lone sign, a doubled underscore and a trailing underscore do not read as numbers |
| StudentTimetable.ReadStartKeeps | Python/student_timetable.py:30-36 | a start is kept as it is exactly when it holds `:`, and its row is skipped exactly when it holds neither `:` nor `,` |
| StudentTimetable.ReadStartSettles | Python/student_timetable.py:30-34 | a rewritten start contains `:`, so the next load keeps it |
| StudentTimetable.LoadAllFails | Python/student_timetable.py:26-36 | loading raises exactly when some stored start without ':' holds a `,` but does not split into two parts `int()` accepts |
| StudentTimetable.LoadAllKept | Python/student_timetable.py:26-47 | after a load every start contains `:`, and every row whose start had a `:` is loaded unchanged |
| StudentTimetable.LoadAllOfKept | Python/student_timetable.py:26-47 | rows whose starts all contain `:` load exactly as stored |
| StudentTimetable.LoadAllSettles | Python/student_timetable.py:17-51 | loading what was loaded gives the same events again |
| StudentTimetable.NewEventFresh | Python/student_timetable.py:65-78 | a new event's id is above every stored id (1 in an empty store) and its reminder flag is "0", so unique ids stay unique |
| StudentTimetable.AddInSpec | Python/student_timetable.py:65-78 | adding appends exactly one event with the given fields, a fresh id and flag "0" after the loaded events, and leaves every other user's store alone |
| StudentTimetable.FirstWithId | Python/student_timetable.py:82-89 | the update loop stops at the first event with the id, or runs past the end when there is none |
| StudentTimetable.UpdatedSpec | Python/student_timetable.py:80-90 | only the first event with the id changes, and in it only title, start, end, category and description; an unknown id changes nothing |
| StudentTimetable.WithoutIdSpec | Python/student_timetable.py:92-95 | deleting keeps exactly the events whose id differs |
| StudentTimetable.FirstReciprocal | Python/student_timetable.py:111-120 | the search stops at the first event of the other party with the same date, start, end and the title naming the user |
| StudentTimetable.FirstReciprocalOnDate | Python/student_timetable.py:111-120 | searching only the events of the appointment's date finds the same first copy as searching the whole file |
| StudentTimetable.RemoveReciprocalOthers | Python/student_timetable.py:108-120 | removing the other party's copy touches no other user's store |
| StudentTimetable.RemoveReciprocalSpec | Python/student_timetable.py:108-120 | the first copy goes and every other event of the other party stays; with no copy the store is unchanged |
| StudentTimetable.DeleteAppointmentOwnSide | Python/student_timetable.py:100-106 | the user's own event goes; no store changes except the user's and, for an appointment, the other party's |
| StudentTimetable.DeleteAppointmentOtherSide | Python/student_timetable.py:108-120 | for an appointment, the other party loses exactly the first matching copy |
| StudentTimetable.EventStore.AddEvent | Python/student_timetable.py:65-78 | the store becomes the old store with the event appended as `AddIn` describes |
| StudentTimetable.EventStore.UpdateEvent | Python/student_timetable.py:80-90 | the loop leaves the store as `Updated` of the loaded events; a store that does not load is unchanged |
| StudentTimetable.EventStore.DeleteEvent | Python/student_timetable.py:92-95 | the store becomes the loaded events without the id |
| StudentTimetable.EventStore.DeleteAppointment | Python/student_timetable.py:100-120 | the store after both deletions is `DeleteAppointmentResult`, whose properties the two lemmas above state |
| StudentTimetable.EventStore.ToggleReminder | Python/student_timetable.py:177-199 | the corrected click: the reminder list becomes `Toggle`'s and only the clicked event's flag changes in the stored file |
| StudentTimetable.To24hIsHhmm | Python/student_timetable.py:204-211 | every hour, minute and AM or PM the editor offers denotes a minute of the day and is written as its `HH:MM` |
| StudentTimetable.To12hOfHhmm | Python/student_timetable.py:213-222 | every `HH:MM` text is read back as an offered choice denoting the same minute |
| StudentTimetable.Hhmm24RoundTrip | Python/student_timetable.py:204-222 | `to_24h(*to_12h(s)) == s` for every `HH:MM` text |
| StudentTimetable.Clock12RoundTrip | Python/student_timetable.py:204-222 | `to_12h(to_24h(c)) == c` for every offered choice |
| StudentTimetable.HhmmOrder | Python/student_timetable.py:489-491 | comparing `HH:MM` texts as strings is comparing the minutes they denote |
| StudentTimetable.FirstClash | Python/student_timetable.py:494-507 | a reported clash is an event of the day, not the one being edited, whose times overlap the new ones |
| StudentTimetable.FirstClashNone | Python/student_timetable.py:494-507 | no clash is reported exactly when no other event of the day overlaps |
| StudentTimetable.CheckSaveSpec | Python/student_timetable.py:476-516 | saving goes ahead exactly when the title is not blank, both times are chosen, start is before end and nothing of the day overlaps, and then writes the two 24-hour texts |
| StudentTimetable.TextTestsAreMinuteTests | Python/student_timetable.py:489-502 | for offered choices and stored `HH:MM` times the string tests are the minute tests; touching intervals do not clash |
| StudentTimetable.DropRepeats | Python/student_timetable.py:150-156 | the timetable's own writer keeps every reminder but sets its repeat to none |
| StudentTimetable.ToggleKeepsFlagInStep | Python/student_timetable.py:186-196 | when the flag says whether a reminder exists, a click flips it and it still says so; other reminders stay |
| StudentTimetable.ToggleTwice | Python/student_timetable.py:186-196 | ticking and unticking gives back the reminder list and flag "0" |
| StudentTimetable.ToggleAsWrittenLosesEvents | Python/student_timetable.py:376-384 | as written, ticking while one date is shown writes only that date's events back: another date's event is lost |
| StudentTimetable.ToggleAsWrittenDropsRepeat | Python/student_timetable.py:150-156 | as written, any click strips the repeat of another task's weekly reminder |
| StudentTimetable.ToggleCorrectedKeeps | Python/student_timetable.py:177-199 | the corrected click keeps every event of every date, changes only the clicked event's flag and keeps other reminders with their repeats |
| MakeAppointment.ToMinutesOfHhmm | Python/make_appointment.py:16-18 | `to_minutes` reads an `HH:MM` text back as the minute of the day it was written for |
| StudentTimetable.TimePartsOfHhmm | Python/make_appointment.py:17 | `map(int, hhmm.split(":"))` of an `HH:MM` text gives back its hour and minute |
| MakeAppointment.ToMinutesOfChoice | Python/make_appointment.py:145-150 | a choice from the boxes, converted to 24-hour text, counts as its own minute of the day |
| MakeAppointment.To12hStrAgrees | Python/make_appointment.py:21-31 | this window's `to_12h_str` renders every text as the timetable's does and fails on the same texts |
| MakeAppointment.To12hStrHours | Python/make_appointment.py:21-31 | hour 0 shows as 12 AM, hour 12 as 12 PM, 13 to 23 as the hour less 12 with PM, 1 to 11 as themselves with AM; minutes keep two digits |
| MakeAppointment.To12hStrIsTimeLabel | Python/make_appointment.py:21-31 | the 12-hour text of an `HH:MM` time is the booking page's "%I:%M %p" label without the hour's leading zero |
| MakeAppointment.UnpaddedRendersPadded | Python/make_appointment.py:21-31 | a stored "9:00" with a one-digit hour renders like "09:00" |
| MakeAppointment.OverlapsFacts | Python/make_appointment.py:131 | the overlap test is symmetric and intervals that only touch do not overlap |
| MakeAppointment.HasConflictSpec | Python/make_appointment.py:127-133 | on events whose times read as minutes, a conflict is reported exactly when some event overlaps; no events means no conflict |
| MakeAppointment.ConflictMatchesEditor | Python/make_appointment.py:127-133 | on `HH:MM` texts this minute test agrees with the event editor's string test |
| MakeAppointment.RejectsStartNotBefore | Python/make_appointment.py:145-153 | a start at or after the end is refused as an invalid time before any store is read |
| MakeAppointment.CheckAppointmentSpec | Python/make_appointment.py:135-162 | with valid inputs and readable stores the appointment is accepted exactly when it overlaps nothing that day in either store, and the chosen times are written; a refusal names one of the two conflicts |
| MakeAppointment.CheckBothFreeSpec | Python/make_appointment.py:155-162 | the times go through exactly when neither party's events of the date overlap them |
| MakeAppointment.LoadsOnDate | Python/make_appointment.py:155-168 | a store that loads for one date also loads whole, so the later write reads it |
| MakeAppointment.MakeAppointmentAdds | Python/make_appointment.py:164-168 | success appends exactly one "appointment" event to each party's store, with the chosen date and times and each titled with the other's name; every other store is unchanged |
| MakeAppointment.MakeAppointment | Python/make_appointment.py:135-171 | the method refuses with the first failing check and writes nothing, or leaves the stores as `MakeAppointmentResult` |
| MakeAppointment.FirstListed | Python/make_appointment.py:187-191 | the search stops at the first event of the day with the line's title, start and end |
| MakeAppointment.FirstListedIsReciprocal | Python/make_appointment.py:201-205 | among events of one date, the title-and-times search finds the timetable's reciprocal copy |
| MakeAppointment.RemoveOnDateIsRemoveReciprocal | Python/make_appointment.py:199-205 | for a real date, the other party's side reads their events exactly when the timetable's `delete_appointment` can, and then removes the same event |
| MakeAppointment.CancelOwnSide | Python/make_appointment.py:186-205 | a found event is deleted with every event sharing its id from the user's store, the rest stay and no other store changes; that delete is kept whatever follows: the outcome is the own delete alone for a plain event, the other party's side after it for an appointment, or the own delete with `OtherUnreadable` when the other party's events do not load |
| MakeAppointment.CancelOtherSide | Python/make_appointment.py:199-205 | after a cancellation that completes, for an appointment with someone else, at most the first reciprocal copy leaves the other party's store and third parties are untouched |
| MakeAppointment.CancelOtherUnreadable | Python/make_appointment.py:197-208 | when the other party's events file does not load, the user's found event is deleted and stays deleted, the other party's store is as it was, and the call stops with `OtherUnreadable` before the success message and the refresh |
| MakeAppointment.CancelAppointment | Python/make_appointment.py:173-207 | with no selected line, a line that does not split or parse (the source raises), an unreadable events file or no matching event, the method reports it and writes nothing; when the other party's events do not load (the source raises after deleting the user's event), it reports `OtherUnreadable` and the stores keep the own delete; otherwise the stores become the completed `CancelResult` of the date, 24-hour times and title read from the line |
| Text.SplitOnce | Python/make_appointment.py:180 | when `sep` occurs, the line is the text before its first occurrence, `sep` and the rest |
| MakeAppointment.HistoryLineReadsBack | Python/make_appointment.py:180-215 | a history line of an event with `HH:MM` times and a date without a bar character reads back (split, strip, strptime, strftime) to the event's date, start, end and title |
| MakeAppointment.CancelOfHistoryLine | Python/make_appointment.py:173-216 | cancelling such a line looks for exactly the event it was made from |
| MakeAppointment.UnpaddedStartNotFound | Python/make_appointment.py:173-216 | an event stored with start "9:00" is listed, but its line reads back "09:00", so cancelling it reports "not found" when it is the day's only event |
| MakeAppointment.FindListed | Python/make_appointment.py:188-191 | the loop with its `break` returns the index `FirstListed` names |
| MakeAppointment.RemoveCopy | Python/make_appointment.py:201-205 | the other party's loop reports whether their events loaded and leaves the stores as `RemoveOnDate`, unchanged when they did not |
| MakeAppointment.KeyLessAsymmetric | Python/make_appointment.py:214 | the (date, start) order is strict: no two events sort before each other |
| MakeAppointment.Insert | Python/make_appointment.py:214 | inserting adds exactly the one event to the list's multiset |
| MakeAppointment.SortByKey | Python/make_appointment.py:214 | sorting is a permutation |
| MakeAppointment.InsertSorted | Python/make_appointment.py:214 | inserting into a sorted list keeps it sorted |
| MakeAppointment.SortByKeySorted | Python/make_appointment.py:214 | the sort's result is sorted by (date, start) |
| MakeAppointment.SortByKeyStable | Python/make_appointment.py:214 | the sort is stable: for every key, the elements with that key appear in their input order |
| MakeAppointment.HistorySpec | Python/make_appointment.py:210-216 | the history holds exactly the appointments of the store, each as often as stored, ordered by date and then start; appointments with the same date and start keep their order in the store |
| MakeAppointment.LoadUsers | Python/make_appointment.py:105-125 | the user box never offers the current user |
| MakeAppointment.NameOnLineParsed | Python/make_appointment.py:112-121 | this window and the login screen take the same username from a line of the users file |
| MakeAppointment.LoadUsersIsReadUsers | Python/make_appointment.py:105-125 | the user box lists the login screen's users by name, without the current one, in file order |
| SimpleReminder.FirstWithId | Python/simple_reminder.py:71-74 | the status loop stops at the first reminder with the id, or runs past the end |
| SimpleReminder.WithStatusSpec | Python/simple_reminder.py:68-75 | only the status of the first reminder with the id changes; ids, order and every other field stay; an unknown id changes nothing |
| SimpleReminder.DueIff | Python/simple_reminder.py:292-311 | the check's two tests together pick exactly the Pending reminders due at or before the current minute |
| SimpleReminder.CheckPassRings | Python/simple_reminder.py:283-311 | with unique ids one pass moves exactly the due Pending reminders to Ringing and leaves every other reminder as it was |
| SimpleReminder.AlertResult | Python/simple_reminder.py:331-358 | an alert adds at most one reminder |
| SimpleReminder.AlertSpec | Python/simple_reminder.py:331-358 | the alerted reminder ends Rang; a new one appears exactly when it still exists with the same Daily or Weekly repeat, and then it is a Pending copy with a fresh id a day after the alert or a week after the old time |
| SimpleReminder.StatusOnlyAdvances | Python/simple_reminder.py:298-337 | neither the check pass nor an alert ever moves a status back from Ringing or Rang |
| SimpleReminder.ClearRang | Python/simple_reminder.py:479-485 | nothing Rang survives clearing the history |
| SimpleReminder.ClearRangSpec | Python/simple_reminder.py:479-485 | clearing removes exactly the Rang reminders: what is kept and what was Rang make up the reminders there were |
| SimpleReminder.CancelRepeatStops | Python/simple_reminder.py:403-418 | afterwards no reminder for that task repeats daily into the future and the selected reminder does not repeat at all |
| SimpleReminder.CancelRepeatKeeps | Python/simple_reminder.py:403-418 | reminders of other tasks all stay, and nothing appears but the selected ones without their repeat |
| SimpleReminder.WithoutReminderSpec | Python/simple_reminder.py:466-470 | deleting removes exactly the reminders of the selected time and task |
| SimpleReminder.WithoutAdded | Python/simple_reminder.py:466-470 | deleting a reminder just added, when no other matched, gives back the list before |
| SimpleReminder.AcceptedIsFuture | Python/simple_reminder.py:241-262 | an accepted reminder has a task and lies strictly after the current minute, so the check at that moment does not ring it |
| SimpleReminder.RejectedInputs | Python/simple_reminder.py:241-262 | a blank task, a date and time that do not parse, and a time not after the current minute are each refused with their own error |
| SimpleReminder.ReminderFile.AddToCsv | Python/simple_reminder.py:54-65 | the file gains exactly one Pending reminder at the end with the next id, counting from 0 |
| SimpleReminder.ReminderFile.UpdateStatus | Python/simple_reminder.py:68-75 | the file becomes `WithStatus` of the old rows |
| SimpleReminder.ReminderFile.CheckReminders | Python/simple_reminder.py:283-311 | one pass leaves the file as `CheckPass`, which `CheckPassRings` describes |
| SimpleReminder.ReminderFile.Alert | Python/simple_reminder.py:331-358 | the file becomes `AlertResult` of the old rows |
| SimpleReminder.ReminderFile.ClearHistory | Python/simple_reminder.py:362-368 | when the user confirms, the file becomes `ClearRang` of the old rows; when not, it is unchanged |
| SimpleReminder.ReminderFile.CancelRepeat | Python/simple_reminder.py:373-421 | the file becomes `CancelRepeatResult` of the old rows |
| SimpleReminder.ReminderFile.Delete | Python/simple_reminder.py:430-470 | when the user confirms, the file becomes the old rows without the selected reminders; when not, it is unchanged |
| SimpleReminder.ReminderFile.AddReminder | Python/simple_reminder.py:230-264 | the form's answer is `CheckNewReminder`'s; a refusal writes nothing and an acceptance appends one Pending reminder |
| Login.ReadUsers | Python/login.py:22-33 | reading never yields more users than there are lines |
| Login.ReadUsersAppend | Python/login.py:26-32 | a line appended to the file adds its user, if it parses, after the others and nothing else |
| Login.ParseUserLine | Python/login.py:28-30 | a written line reads back as the user it was written for, when its fields hold no comma and no surrounding space |
| Login.ParseLegacyLine | Python/login.py:31-32 | an old two-field line reads back with the id "0000000" |
| Login.ParseUserDropsLongLine | Python/login.py:28-32 | a line with three or more commas is dropped |
| Login.NumericIds | Python/login.py:39 | every all-digit id contributes its value, and none are collected exactly when no id is all digits |
| Login.GenerateStudentIdFresh | Python/login.py:36-42 | the new id is all digits, at least seven long, above every numeric id in the file and so unlike every existing id; "1000001" when none is numeric |
| Login.LegacyIdCountsAsZero | Python/login.py:39-42 | the legacy id "0000000" counts as 0, so a file of old-format users gets "0000001" next |
| Login.RegisterCheck | Python/login.py:79-87 | the corrected checks refuse everything the written checks refuse, with the same error, and also a comma in either field |
| Login.FirstMatchSpec | Python/login.py:107-120 | login fails exactly when no entry has both the username and the password, and otherwise signs in with the first that does |
| Login.FirstMatchAppend | Python/login.py:108-117 | entries after the ones that do not match decide the result alone |
| Login.RegisteredCanLogIn | Python/login.py:74-117 | after a registration that passes the checks the file reads back as before plus the new user, and logging in with the same inputs finds that user |
| Login.RegisteredLineParses | Python/login.py:45-50 | the line a passing registration writes reads back as the new user |
| Login.CommaNameIsLost | Python/login.py:79-89 | as written, the username "a,b" is accepted, but its line splits into four fields and is dropped on reading: the user can never log in |
| Login.CommaNameRejected | Python/login.py:79-89 | the corrected checks turn the same registration away |
| Login.UserFile.WriteUser | Python/login.py:45-50 | one line with a freshly generated id is appended and that id returned |
| Login.UserFile.Register | Python/login.py:74-92 | the corrected registration (`RegisterCheck`, which also refuses a comma): a refusal writes nothing; an acceptance appends the trimmed user's line with the generated id and returns it |
| Login.UserFile.LogIn | Python/login.py:101-121 | the result is the first entry matching the trimmed inputs, which becomes the signed-in user; the file never changes |
| NotesFormat.EncodeField | Python/py/notes_organizer_app.py:28-31 | a present field is escaped by the three replace passes; a missing one is the empty text |
| NotesFormat.DecodeField | Python/py/notes_organizer_app.py:33-36 | a present field is unescaped by the three replace passes; a missing one is the empty text |
| NotesFormat.MissingFieldIsEmpty | Python/py/notes_organizer_app.py:28-36 | a missing or empty field encodes and decodes to the empty text |
| NotesFormat.EncodeIsEscape | Python/py/notes_organizer_app.py:28-31 | the three replace passes of `encode_field` equal one left-to-right escaping pass |
| NotesFormat.DecodeIsUnescape | Python/py/notes_organizer_app.py:33-36 | the three replace passes of `decode_field` equal one left-to-right unescaping pass |
| NotesFormat.UnescapeEscape | Python/py/notes_organizer_app.py:28-36 | unescaping undoes escaping for a text without literal tokens |
| NotesFormat.DecodeEncode | Python/py/notes_organizer_app.py:28-36 | `decode_field(encode_field(s)) == s` for every text that holds none of the three tokens literally |
| NotesFormat.LiteralTokenIsLost | Python/py/notes_organizer_app.py:28-36 | a text holding "<NL>" literally does not come back: it decodes to a newline |
| NotesFormat.EscapeNoNewline | Python/py/notes_organizer_app.py:31 | an encoded field holds no newline, so a note stays on one line |
| NotesFormat.EscapeNoFieldSep | Python/py/notes_organizer_app.py:31 | an encoded field holds no double bar, so the separator cannot occur inside a field |
| NotesFormat.EscapeEndsWith | Python/py/notes_organizer_app.py:31 | an encoded field ends in a bar only if the field itself did |
| NotesFormat.PadFields | Python/py/notes_organizer_app.py:375-377 | the split fields are kept and empty fields are added until there are six |
| NotesFormat.ParseNoteLine | Python/py/notes_organizer_app.py:374-385 | the loop that pads the fields gives the note `NoteOfLine` describes |
| NotesFormat.ShortLineFields | Python/py/notes_organizer_app.py:374-385 | fields missing from a short line read as empty, with no attachments |
| NotesFormat.Fields | Python/py/notes_organizer_app.py:365-371 | a note has six stored fields, the attachments joined by ";;" |
| NotesFormat.EncodeAll | Python/py/notes_organizer_app.py:366-371 | every field is escaped, in place |
| NotesFormat.BuildNoteLine | Python/py/notes_organizer_app.py:365-372 | a built line ends in a newline |
| NotesFormat.EncodedField | Python/py/notes_organizer_app.py:365-372 | an encoded field holds no newline and no double bar, and ends in a bar only if the field did |
| NotesFormat.AttachmentsRoundTrip | Python/py/notes_organizer_app.py:384 | the joined attachments split back into the list they were joined from, when it is not one empty name and no name holds ";;" or, but for the last, ends in ';' |
| NotesFormat.SplitEncoded | Python/py/notes_organizer_app.py:372-375 | escaped fields joined by the double bar split back into the same fields when none but the last ends in a bar |
| NotesFormat.ParseBuild | Python/py/notes_organizer_app.py:365-385 | `parse_note_line(build_note_line(n)) == n` for every storable note |
| NotesSuggestions.ItemsOfLines | Python/py/notes_organizer_app.py:304 | the suggestions are the stripped non-blank lines, never more than there are lines |
| NotesSuggestions.Items | Python/py/notes_organizer_app.py:303-304 | every suggestion read from a file is stripped, not blank and on one line |
| NotesSuggestions.ReadWritten | Python/py/notes_organizer_app.py:314-316 | a file written one suggestion per line reads back as the same suggestions |
| NotesSuggestions.ReadJoined | Python/py/notes_organizer_app.py:301-302 | a file written as the suggestions joined by newlines reads back as the same suggestions |
| NotesSuggestions.LoadSuggestions | Python/py/notes_organizer_app.py:298-309 | the list returned is what the file reads as or the defaults, and a file holding a suggestion is returned and kept as it is |
| NotesSuggestions.LoadSuggestionsSpec | Python/py/notes_organizer_app.py:298-309 | with defaults that are suggestions the list is what the file now reads as, empty only for empty defaults; a file without suggestions is rewritten with the defaults |
| NotesSuggestions.DefaultsAreItems | Python/py/notes_organizer_app.py:21-22 | the built-in categories and tags are each stripped, not blank and on one line |
| NotesSuggestions.SortLines | Python/py/notes_organizer_app.py:271 | `sorted` keeps exactly the strings, each as often |
| NotesSuggestions.SortLinesSorted | Python/py/notes_organizer_app.py:271 | `sorted`'s result is in order |
| NotesSuggestions.SortSet | Python/py/notes_organizer_app.py:312-315 | `sorted(set(...))` holds exactly the strings it was given |
| NotesSuggestions.SortSetStrict | Python/py/notes_organizer_app.py:312-315 | `sorted(set(...))` is increasing, so it holds no repeats |
| NotesSuggestions.LoadWithoutDefaults | Python/py/notes_organizer_app.py:312 | loaded without defaults, a file gives its own suggestions and a missing one none |
| NotesSuggestions.SaveThenLoad | Python/py/notes_organizer_app.py:311-316 | after saving, the file reads as the suggestions it held and the stripped new one, each once, in increasing order |
| NotesSuggestions.AddedItems | Python/py/notes_organizer_app.py:312-316 | one more suggestion, sorted in with the others, reads back exactly, once each and in order |
| NotesSuggestions.RemoveFirst | Python/py/notes_organizer_app.py:264 | `items.remove(d)` drops exactly one occurrence of a present string and changes nothing otherwise |
| NotesSuggestions.RemoveSelectedCount | Python/py/notes_organizer_app.py:262-265 | the count of removals plus what is left is the number of suggestions, and only suggestions that were there are left |
| NotesSuggestions.RemoveSelectedKeeps | Python/py/notes_organizer_app.py:262-265 | no protected default is ever removed, and only selected suggestions are |
| NotesSuggestions.RemoveEach | Python/py/notes_organizer_app.py:259-265 | the loop's list and count are those of `RemoveSelected` |
| NotesSuggestions.SuggestionWindow.DeleteSelected | Python/py/notes_organizer_app.py:254-277 | an empty selection changes nothing; otherwise the list loses the removable selected entries and, when any went, the file is rewritten with the rest sorted |
| NotesSuggestions.SuggestionWindow.DeleteAll | Python/py/notes_organizer_app.py:279-289 | when confirmed the file holds just the protected defaults, one per line; the list itself is not reset |
| NotesSuggestions.DeletedFileReadsBack | Python/py/notes_organizer_app.py:262-277 | after removing suggestions the file reads as the remaining list sorted and still holds every protected default it held |
| NotesOrganizer.PlaceholderCheckIsDead | Python/py/notes_organizer_app.py:515-519 | as written, the query is always the lower-cased stripped text: the placeholder comparison never fires |
| NotesOrganizer.PlaceholderIsSearched | Python/py/notes_organizer_app.py:515-519 | as written, searching while the placeholder shows looks for "search notes..." instead of listing every note |
| NotesOrganizer.Query | Python/py/notes_organizer_app.py:516-519 | the corrected query is empty or the lower-cased stripped text |
| NotesOrganizer.PlaceholderIgnored | Python/py/notes_organizer_app.py:516-519 | with the comparison corrected, the placeholder, with or without blanks around it, gives the empty query, which selects every note of any notebook |
| NotesOrganizer.Hits | Python/py/notes_organizer_app.py:524-532 | the positions listed are increasing and are exactly those of the notes whose title, tags, category and content, lower-cased, hold the query |
| NotesOrganizer.Matches | Python/py/notes_organizer_app.py:520-532 | a blank query shows every note in order, any other exactly the hits |
| NotesOrganizer.FindHits | Python/py/notes_organizer_app.py:524-532 | the loop appends exactly the positions `Hits` lists |
| NotesOrganizer.Built | Python/py/notes_organizer_app.py:405-409 | one built line per note, in order |
| NotesOrganizer.FileLinesConcat | Python/py/notes_organizer_app.py:392-393 | reading a file line by line loses and adds no character |
| NotesOrganizer.FileLinesOfLines | Python/py/notes_organizer_app.py:392-393 | lines that each end in their only newline read back as themselves |
| NotesOrganizer.NotesOfLines | Python/py/notes_organizer_app.py:392-399 | no more notes are read than there are lines |
| NotesOrganizer.BuiltLineShape | Python/py/notes_organizer_app.py:365-372 | a built line holds no newline but its last character and is never blank, so reloading parses it |
| NotesOrganizer.NotesOfBuilt | Python/py/notes_organizer_app.py:392-409 | reading back the lines written for storable notes gives those notes |
| NotesOrganizer.ReloadAfterSave | Python/py/notes_organizer_app.py:388-409 | saving then reloading keeps the notes when every one is storable |
| NotesOrganizer.WriteNotes | Python/py/notes_organizer_app.py:405-409 | the writing loop leaves the built lines one after another |
| NotesOrganizer.ReadNotes | Python/py/notes_organizer_app.py:388-399 | the reading loop gives the notes of the file's non-blank lines |
| NotesOrganizer.Upsert | Python/py/notes_organizer_app.py:444-455 | with no selection the note is appended; with a selected row it replaces the note that row shows, or nothing when the row is out of range; every other note stays |
| NotesOrganizer.TagNames | Python/py/notes_organizer_app.py:461 | each tag name is stripped, not blank, and on one line when the tags were |
| NotesOrganizer.SaveEachLoads | Python/py/notes_organizer_app.py:460-462 | saving the tag names one by one leaves a sorted file whose suggestions are the old ones and the names |
| NotesOrganizer.SaveEachThenLoad | Python/py/notes_organizer_app.py:460-465 | once a tag is saved, loading the file changes nothing and gives what it reads as |
| NotesOrganizer.SaveTags | Python/py/notes_organizer_app.py:460-462 | the loop's file is `SaveEach`'s |
| NotesOrganizer.Picked | Python/py/notes_organizer_app.py:477-478 | one note position per selected row, increasing when the rows and the shown positions are |
| NotesOrganizer.CategoryOf | Python/py/notes_organizer_app.py:434 | the stored category is never empty and is stripped |
| NotesOrganizer.Edited | Python/py/notes_organizer_app.py:433-442 | the saved note has a stripped title, a category, and content without trailing newlines |
| NotesOrganizer.SavedLoads | Python/py/notes_organizer_app.py:311-321 | after a suggestion is saved, reloading its box keeps the file and shows the old suggestions and the new one, sorted, without repeats |
| NotesOrganizer.Notebook.Reload | Python/py/notes_organizer_app.py:388-403 | the notes are those of the file's non-blank lines, both suggestion files are loaded and every note is shown |
| NotesOrganizer.Notebook.ShowAll | Python/py/notes_organizer_app.py:412-414 | every note is shown, in order |
| NotesOrganizer.Notebook.SaveAll | Python/py/notes_organizer_app.py:405-409 | the notes file becomes one built line per note |
| NotesOrganizer.Notebook.NewNote | Python/py/notes_organizer_app.py:423-430 | the attachments are cleared and no note is loaded |
| NotesOrganizer.Notebook.Search | Python/py/notes_organizer_app.py:515-535 | the rows show `Matches` for the corrected query, and "not found" is reported exactly when a non-blank query finds nothing |
| NotesOrganizer.Notebook.LoadSelected | Python/py/notes_organizer_app.py:486-505 | the first selected row's note fills the editor and becomes the loaded one; no selection changes nothing |
| NotesOrganizer.Notebook.AttachFile | Python/py/notes_organizer_app.py:330-333 | a chosen path is appended to the attachments |
| NotesOrganizer.Notebook.AttachLink | Python/py/notes_organizer_app.py:335-338 | a URL that is not blank is appended, stripped |
| NotesOrganizer.Notebook.RemoveAttachments | Python/py/notes_organizer_app.py:340-355 | the selected attachments go; a loaded note takes the remaining list and the notes are saved at once; no selection changes nothing |
| NotesOrganizer.Notebook.AddSuggestion | Python/py/notes_organizer_app.py:323-327 | a non-blank answer is saved, stripped, to the chosen file and that box reloads; a blank one changes nothing |
| NotesOrganizer.Notebook.DeleteNote | Python/py/notes_organizer_app.py:469-484 | with a selection and a confirmation the selected notes go, the rest are saved and read again and the editor is cleared; otherwise nothing changes |
| NotesOrganizer.Notebook.SaveNote | Python/py/notes_organizer_app.py:432-467 | a note without a title changes nothing; otherwise the edited note is placed by `Upsert`, its category and tags saved as suggestions, the notes saved and read again and the editor cleared |
| NotesSuggestions.SuggestionWindow.constructor | Python/py/notes_organizer_app.py:243-252 | the window lists the file's suggestions, or the defaults, and protects the defaults |
| NotesOrganizer.Notebook.constructor | Python/py/notes_organizer_app.py:61-77 | missing files are created empty, nothing is loaded into the editor and the notes are read and all shown |

## Left out

- Tkinter layout, message boxes, list box text and navigation (homepage.py, main.py and the page, popup and `__init__` bodies) are not modelled. A message box becomes an error value or a boolean result; a list box selection becomes a list of row positions.
- File I/O (`open`, the CSV reader and writer, `os.path.exists`, `makedirs`) is not modelled. Each file is the sequence of its records and a missing file is empty. CSV quoting, the header row, the `utf-8-sig` byte-order mark and `'\r'` line endings are not modelled.
- `datetime.now()`, `date.today()` and `time.strftime` are parameters. `strptime` and `strftime` on dates are not modelled beyond "this text is a date, with this day number" (`DateText`) and "this text does not parse".
- `root.after` polling, `winsound.Beep`, the on-screen clock and `open_path` (browser and subprocess calls) are timers, devices and foreign calls, left out. So is PIL image loading.
- Concurrent sessions writing the same file are not modelled; nothing in the source guards against lost updates.
- Python/py/room_booking/UpcomingBookings.py imports a `BookRoom` from its own directory; that copy is not part of this model, and Python/room_booking/BookRoom.py stands in for it.
- `ViewAvailability`'s own `generate_times` (ViewAvailability.py:18-24) has the same body as BookRoom.py:38-44 and is modelled once, as `BookRoom.GenerateTimes`.
- `upper` and `lower` map ASCII letters only; Unicode case mapping is not modelled.
- The timetable's `update_reminder_status` (student_timetable.py:169-175) is never called and is not modelled. Its `load_reminders` id fallback (`row.get("id", i)`) and simple_reminder.py's (`len(events)`) are not modelled: stored rows carry their id.
- `NotesOrganizer`: `refresh_listbox`'s display text, `open_selected_attachment`, `open_attachment` and the editor widgets are left out. `save_note`'s in-memory `currently_loaded_idx` is not modelled, because the reload and `new_note` that end `save_note` reset it.
- `simple_reminder.refresh_list`'s text layout is not modelled; `cancel_repeat` and `delete_reminder` take the (time, task) their selected line names.
- `SimpleReminder.CheckPassRings` is stated for files whose ids are unique. With repeated ids, `update_reminder_status` marks the first reminder with the id; `CheckPass` models that, but no lemma describes it.
- `StudentTimetable.RemoveReciprocalSpec`, `StudentTimetable.DeleteAppointmentOtherSide` and `MakeAppointment.CancelOtherSide` are stated for a store whose ids are unique. With repeated ids the deletion by id also removes the other events sharing it, which `DeleteIn` models.
- The events file's `id` column is an integer in the model. A row whose id `int()` cannot read makes `load_events` raise in the source; the model does not represent such a row. The other cause of a raising load, a start that does not convert, is modelled.
- StudentTimetable.EventStore.DeleteAppointment leaves the stores as after the user's own delete when the other party's events do not load, as the source does, but does not report the exception the source raises there.
- `MakeAppointment.HasConflictSpec` and `MakeAppointment.CheckAppointmentSpec` are stated for stores whose times read as minutes. Otherwise `to_minutes` raises, which `HasConflict` returns as `None` and the make method reports as `Unreadable`.
- Text.PyInt and Text.IsDigits accept ASCII digits only. Python's `int()` also reads other Unicode decimal digits, and `isdigit()` also accepts superscripts and other digit characters. The same narrowing holds wherever these are used: `StudentTimetable.ReadStart`, `StudentTimetable.To12h`, `MakeAppointment.ToMinutes`, `MakeAppointment.To12hStr`, the pax and member-id checks of `BookRoom` and the numeric ids of `Login`.
- MakeAppointment.ReadHistoryLine parses a time with `BookRoom.ParseTimeLabel`: one or two hour digits from 1 to 12, ':', two minute digits, a space, then "AM" or "PM". `strptime("%I:%M %p")` also takes one-digit minutes and a lower-case "am" or "pm". `refresh_history` never writes such a label, so they arise only from hand-made lines.
- `refresh_history` is modelled one line at a time (`MakeAppointment.HistoryLine` over `MakeAppointment.History`). A time that `to_12h_str` cannot read stops the source part-way through filling the list box; that partial list is not modelled.

## Findings

| source | as written | input that shows it | evidently intended | confidence | as-written member | corrected member |
|---|---|---|---|---|---|---|
| Python/student_timetable.py:381-383 | the reminder box passes the shown day's events to `toggle_reminder`, which writes them as the user's whole events file (line 199) | events 1 on day "1" and 2 on day "2"; tick the reminder of event 1 while day "1" is shown | only the clicked event's flag changes, in the whole stored file | not executed | StudentTimetable.ToggleAsWrittenLosesEvents | StudentTimetable.ToggleCorrectedKeeps |
| Python/student_timetable.py:150-156 | the timetable's `save_reminders` writes id, task, datetime and status, dropping the `repeat` column that simple_reminder.py reads and writes | a weekly reminder of task "B"; tick any event's reminder box | every other reminder keeps its repeat | not executed | StudentTimetable.ToggleAsWrittenDropsRepeat | StudentTimetable.ToggleKeepsFlagInStep |
| Python/py/notes_organizer_app.py:516-519 | the query is lower-cased before it is compared with the placeholder "Search notes...", so the comparison never holds | search while the box shows the placeholder | the placeholder selects every note | not executed | NotesOrganizer.PlaceholderIsSearched | NotesOrganizer.PlaceholderIgnored |
| Python/login.py:79-89 | a username or password holding a comma is accepted and written as a line of four or more fields, which `read_users` drops | register "a,b" with password "c" in an empty file, then log in | the registration is refused | not executed | Login.CommaNameIsLost | Login.CommaNameRejected |
