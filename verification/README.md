# ChronoMate appointment rules in Dafny

ChronoMate is a desktop scheduling application. Its users book appointments between customers and contacts. This project models the rules that decide which appointments may be stored, how they are stored and read back, and how they are shown. It covers:

- **Appointment record** (`appointment.dfy`, module `Appointments`). A class in which only the id and the contact display name can change after construction.
- **Time** (`zoned_time.dfy`, module `ZonedTime`).
  - Wall-clock date-times are whole seconds since 1970-01-01T00:00.
  - Dates are day counts, and clock times are seconds since midnight.
  - The ISO week is computed from the day count, and the Gregorian month and year by the usual civil-from-days computation.
  - A time zone is a pair of offset rules: the offset chosen for a wall-clock time, and the offset in force at an instant.
- **Appointments table** (`appointment_dao.dfy`, module `AppointmentDao`).
  - A class holding the rows, with times in UTC, and the next auto-increment key.
  - Insert, update and the two deletes.
  - The three per-row readers, which convert UTC back to the system zone.
  - The contact-schedule report, which hands out the stored UTC times unconverted.
  - The contacts table is a map from Contact_ID to Contact_Name. The inner join drops rows whose contact is missing from it.
- **Add/update form** (`add_update_appointment.dfy`, module `AddUpdateAppointment`).
  - The 96 quarter-hour time choices.
  - The business-hours rule: 08:00 to 22:00 New York clock time, checked on clock time only.
  - The half-open overlap rule over the customer's other appointments.
  - The save sequence. Its checks run in a fixed order, the first failure decides the message, and on success it inserts (id 0) or updates (any other id).
  - Deletion of the appointment being edited.
- **Upcoming-appointment alert** (`appointment_alert.dfy`, module `AppointmentAlert`). At login, a scan picks the soonest appointment whose start is 0 to 15 whole minutes away, with minutes truncated toward zero.
- **Overview screen** (`appointment_overview.dfy`, module `AppointmentOverview`).
  - The loaded list is sorted by start.
  - The week view keeps appointments starting Monday to Sunday of today's ISO week.
  - The month view keeps appointments starting in today's month and year.
  - Deleting acts on the selection of the current tab.

Two behaviours of the rules as written are proved rather than hidden:

- **Overnight spans pass the business-hours rule.** The rule compares clock times only, so an appointment from 21:00 one day to 09:00 the next, New York time, is accepted (`OvernightSpanAccepted`).
- **The alert's window is wider than it reads.** Minutes are truncated toward zero, so a start up to 59 seconds in the past and one up to 15 minutes 59 seconds ahead both count as upcoming (`UpcomingWindow`).

The order part of the business-hours rule compares the two New York date-times as instants (`ZonedDateTime.isBefore`). The model therefore compares the two UTC instants.

## Model

| member | source | states |
|---|---|---|
| Appointments.Appointment.constructor | src/Model/Appointment.java:65-75 | every argument is stored unchanged in its field |
| Appointments.Appointment.SetId | src/Model/Appointment.java:104 | the id becomes the argument; the frame lets no other field change |
| Appointments.Appointment.SetContactName | src/Model/Appointment.java:106 | the contact name becomes the argument; the frame lets no other field change |
| ZonedTime.TimeOfDay | src/Controller/AddUpdateAppointmentController.java:235-236 | the clock time of a date-time lies in [00:00, 24:00) |
| ZonedTime.DateTimeSplit | src/Controller/AddUpdateAppointmentController.java:114-117 | splitting a date-time into date and clock time and joining them again loses nothing |
| ZonedTime.DateTimeJoin | src/Controller/AddUpdateAppointmentController.java:161-162 | a date-time built from a date and a clock time (LocalDateTime.of) gives back that date and that clock time |
| ZonedTime.WeekBounds | src/Controller/AppointmentOverviewController.java:166-168 | the week adjusters yield a Monday and a Sunday six days apart that enclose today |
| ZonedTime.DayOfWeek | src/Controller/AppointmentOverviewController.java:167-168 | the ISO day of the week of a date, 1 (Monday) to 7 (Sunday), counted from 1970-01-01, a Thursday |
| ZonedTime.WeekMonday | src/Controller/AppointmentOverviewController.java:167 | today.with(MONDAY): the date moved back to the Monday of its week (WeekBounds: a Monday, at most six days earlier) |
| ZonedTime.WeekSunday | src/Controller/AppointmentOverviewController.java:168 | today.with(SUNDAY): the date moved forward to the Sunday of its week (WeekBounds: a Sunday, six days after that Monday) |
| ZonedTime.SameWeekIff | src/Controller/AppointmentOverviewController.java:170-175 | a date lies between the Monday and the Sunday of today's week exactly when it has the same Monday as today |
| ZonedTime.CivilFromDaysCorrect | src/Controller/AppointmentOverviewController.java:179-185 | the date computed for a day count exists in the Gregorian calendar (month 1 to 12, day within that month's length, 29 February only in leap years) and its day count is that number |
| ZonedTime.CivilFromDays | src/Controller/AppointmentOverviewController.java:179-185 | the year, month and day of a day count (toLocalDate, getMonth, getYear) by the 400-year-cycle computation; the month is always 1 to 12, and CivilFromDaysCorrect and DaysFromCivilRoundTrip tie the date to the Gregorian calendar |
| ZonedTime.DateInEra | src/Controller/AppointmentOverviewController.java:179-185 | the date a given number of days into a 400-year cycle that starts on 1 March; its month is 1 to 12 for every day of the cycle |
| ZonedTime.DateInYear | src/Controller/AppointmentOverviewController.java:179-185 | the date a given number of days after 1 March of a year; its month is 1 to 12 for every day of that March-based year |
| ZonedTime.FourYearSplit | src/Controller/AppointmentOverviewController.java:179-185 | a day of a century lies in one of its 25 four-year blocks, at a day from 0 to 1460, and the last block is one day short |
| ZonedTime.DaysFromCivilInjective | src/Controller/AppointmentOverviewController.java:179-185 | two existing dates with the same day count are the same date, so month and year are determined by the day |
| ZonedTime.DaysFromCivilRoundTrip | src/Controller/AppointmentOverviewController.java:179-185 | every existing date is the date computed for its own day count |
| ZonedTime.EpochDate | src/Controller/AppointmentOverviewController.java:179-185 | day 0 is 1 January 1970 |
| ZonedTime.CalendarSteps | src/Controller/AppointmentOverviewController.java:179-185 | each year starts where the previous one ends, each month where the previous one ends, January at day 0 of its year, and December ends the year |
| ZonedTime.LocalRoundTrip | src/DAO/AppointmentDAO.java:108-111 | converting a wall-clock time to UTC and back restores it exactly when the offset picked for it is the one in force at the instant it names; under the earlier-offset rule for overlaps that is every time outside a daylight-saving gap |
| ZonedTime.ToUtc | src/DAO/AppointmentDAO.java:38-39 | atZone(system).withZoneSameInstant(UTC): the wall-clock time minus the offset the zone picks for it |
| ZonedTime.FromUtc | src/DAO/AppointmentDAO.java:108-111 | atZone(UTC).withZoneSameInstant(system): the UTC time plus the offset in force at that instant; LocalRoundTrip and FixedRoundTrip relate it to ToUtc |
| ZonedTime.Convert | src/Controller/AddUpdateAppointmentController.java:231-232 | atZone(from).withZoneSameInstant(to): FromUtc after ToUtc; FixedConvertShifts states what it keeps |
| ZonedTime.FixedOffsetInForce | src/DAO/AppointmentDAO.java:108-111 | in a fixed-offset zone the offset picked for every wall-clock time is the one in force |
| ZonedTime.OverlapRoundTrips | src/DAO/AppointmentDAO.java:38-39 | a wall-clock time that occurs twice at a fall-back transition gets the earlier offset and survives the trip to UTC and back |
| ZonedTime.GapShiftsForward | src/DAO/AppointmentDAO.java:38-39 | a wall-clock time inside a spring-forward gap does not survive the trip: it comes back one hour later |
| ZonedTime.FixedRoundTrip | src/DAO/AppointmentDAO.java:38-39 | in a fixed-offset zone, local to UTC to local and UTC to local to UTC are both the identity |
| ZonedTime.FixedConvertShifts | src/Controller/AddUpdateAppointmentController.java:231-232 | a conversion between fixed-offset zones keeps the distance between two times and their order |
| AppointmentDao.RetainContents | src/DAO/AppointmentDAO.java:84-90 | a DELETE or WHERE keeps exactly the rows satisfying its condition, and no others |
| AppointmentDao.Retain | src/DAO/AppointmentDAO.java:84-90 | the rows passing a condition, in table order, as a WHERE clause selects them or a DELETE leaves them; RetainContents states which rows, RetainAppend and RetainStep the order |
| AppointmentDao.RetainStep | src/DAO/AppointmentDAO.java:84-90 | one more row of a prefix joins the kept rows, at the end, exactly when it passes the condition |
| AppointmentDao.Joined | src/DAO/AppointmentDAO.java:96-104 | the rows of the inner join with contacts under a WHERE condition: the rows passing it whose contact exists, in table order |
| AppointmentDao.RetainIdsIncreasing | src/DAO/AppointmentDAO.java:133-139 | deleting rows keeps the auto-increment ids strictly increasing in table order |
| AppointmentDao.Replaced | src/DAO/AppointmentDAO.java:57-79 | an update keeps the row count and every row's id, rewrites each row with the given id, and leaves the others alone |
| AppointmentDao.ReplacedAtMostOne | src/DAO/AppointmentDAO.java:57-79 | because auto-increment ids are unique, an update by id rewrites at most one row |
| AppointmentDao.ReadInvertsWrite | src/DAO/AppointmentDAO.java:108-111 | reading back a stored appointment restores its local start and end whenever the offsets picked for them are the ones in force, that is, outside daylight-saving gaps |
| AppointmentDao.StoredRow | src/DAO/AppointmentDAO.java:33-44 | the row an insert or update writes for a model: every field, with start and end moved from the system zone to UTC |
| AppointmentDao.LoadedFrom | src/DAO/AppointmentDAO.java:112-124 | a model is what a reader builds from a row: every column copied, start and end moved from UTC to the system zone, and the contact name from the joined contacts table |
| AppointmentDao.ReportedFrom | src/DAO/AppointmentDAO.java:255-266 | a report line is built from a row: the joined contact name, the row's columns, and the stored UTC start and end unconverted |
| AppointmentDao.FixedZoneReadInvertsWrite | src/DAO/AppointmentDAO.java:108-111 | in a fixed-offset system zone, reading back a stored appointment always restores its local start and end |
| AppointmentDao.WriteKeepsDuration | src/DAO/AppointmentDAO.java:38-41 | in a fixed-offset system zone, storing as UTC keeps the duration and the order of start and end |
| AppointmentDao.AppointmentTable.AddAppointment | src/DAO/AppointmentDAO.java:25-52 | appends one row holding every field with start and end converted to UTC; the model's id, and no other field of it, becomes the new key, which is at least 1 and used by no earlier row; ids stay unique and increasing |
| AppointmentDao.AppointmentTable.UpdateAppointment | src/DAO/AppointmentDAO.java:57-79 | rewrites every column of the row keyed by the model's id, with the same UTC conversion as an insert; the key itself is not written, and at most one row changes |
| AppointmentDao.AppointmentTable.DeleteAppointment | src/DAO/AppointmentDAO.java:84-90 | the table loses the row with that id and keeps all the others in order |
| AppointmentDao.AppointmentTable.DeleteByCustomerId | src/DAO/AppointmentDAO.java:133-139 | the table loses every row of that customer and keeps all the others in order |
| AppointmentDao.AppointmentTable.ReadAppointments | src/DAO/AppointmentDAO.java:105-127 | one fresh model per joined row, in table order, with every column copied and start and end converted from UTC to the system zone |
| AppointmentDao.AppointmentTable.GetAllAppointments | src/DAO/AppointmentDAO.java:96-128 | one converted model for each row whose contact exists |
| AppointmentDao.AppointmentTable.GetAppointmentsByCustomer | src/DAO/AppointmentDAO.java:144-177 | the converted models of exactly that customer's rows whose contact exists, each carrying that customer id |
| AppointmentDao.AppointmentTable.GetAppointmentsByUser | src/DAO/AppointmentDAO.java:182-215 | the converted models of exactly that user's rows whose contact exists, each carrying that user id |
| AppointmentDao.AppointmentTable.GetContactSchedules | src/DAO/AppointmentDAO.java:239-271 | one report line per joined row, with the contact name and the stored UTC start and end, unconverted |
| AppointmentDao.AddThenReload | src/DAO/AppointmentDAO.java:38-49 | an insert gives the model the next key, appends exactly its row and advances the key; the last model read back afterwards has that id and the original local start and end |
| AddUpdateAppointment.TrimStartDropsBlanks | src/Controller/AddUpdateAppointmentController.java:141-144 | trimming the front removes exactly the leading characters at or below U+0020 |
| AddUpdateAppointment.TrimStart | src/Controller/AddUpdateAppointmentController.java:141-144 | the front half of String.trim; TrimStartDropsBlanks states that exactly the leading characters at or below U+0020 are removed |
| AddUpdateAppointment.TrimEnd | src/Controller/AddUpdateAppointmentController.java:141-144 | the back half of String.trim; TrimEndDropsBlanks states that exactly the trailing characters at or below U+0020 are removed |
| AddUpdateAppointment.Trim | src/Controller/AddUpdateAppointmentController.java:141-144 | String.trim, both ends trimmed; TrimEmptyIff states when the result is empty |
| AddUpdateAppointment.TrimEndDropsBlanks | src/Controller/AddUpdateAppointmentController.java:141-144 | trimming the back removes exactly the trailing characters at or below U+0020 |
| AddUpdateAppointment.TrimEmptyIff | src/Controller/AddUpdateAppointmentController.java:141-144 | a trimmed field is empty exactly when every character is at or below U+0020 |
| AddUpdateAppointment.SlotsFrom | src/Controller/AddUpdateAppointmentController.java:92-96 | from a given hour there are four choices per remaining hour, the k-th at hour + k/4 and minute 15·(k mod 4) |
| AddUpdateAppointment.QuarterHourSlotsShape | src/Controller/AddUpdateAppointmentController.java:92-96 | there are 96 time choices, strictly increasing, each in one day with minute 0, 15, 30 or 45 |
| AddUpdateAppointment.QuarterHourSlots | src/Controller/AddUpdateAppointmentController.java:92-96 | the time choices of both combo boxes, from 00:00 in steps of 15 minutes; QuarterHourSlotsShape states their number, order and values |
| AddUpdateAppointment.BusinessHoursFixedZones | src/Controller/AddUpdateAppointmentController.java:228-238 | with fixed offsets the rule holds exactly when both New York clock times lie in [08:00, 22:00] and the start is not after the end |
| AddUpdateAppointment.InBusinessWindow | src/Controller/AddUpdateAppointmentController.java:233-236 | the clock time of a date-time lies in [08:00, 22:00], both ends included |
| AddUpdateAppointment.IsWithinBusinessHours | src/Controller/AddUpdateAppointmentController.java:228-238 | both endpoints, converted from the system zone to New York, have clock times in the window, and the end instant is not before the start instant |
| AddUpdateAppointment.OutsideWindowFails | src/Controller/AddUpdateAppointmentController.java:235-237 | an endpoint whose New York clock time is before 08:00 or after 22:00 fails the rule |
| AddUpdateAppointment.OvernightSpanAccepted | src/Controller/AddUpdateAppointmentController.java:235-237 | 21:00 to 09:00 the next day, New York time, passes, because only clock times are compared |
| AddUpdateAppointment.EarlyUtcMorningRefused | src/Controller/AddUpdateAppointmentController.java:228-238 | 09:00 to 10:00 on a UTC system is 05:00 in New York at UTC-4 and is refused |
| AddUpdateAppointment.ConflictsSymmetric | src/Controller/AddUpdateAppointmentController.java:192 | the overlap test is symmetric, and back-to-back appointments do not conflict |
| AddUpdateAppointment.Conflicts | src/Controller/AddUpdateAppointmentController.java:192 | the candidate starts before the other ends and ends after the other starts |
| AddUpdateAppointment.Skipped | src/Controller/AddUpdateAppointmentController.java:188 | an existing appointment is skipped when the form edits a stored record (id not 0) with that id |
| AddUpdateAppointment.HasOverlap | src/Controller/AddUpdateAppointmentController.java:186-196 | some appointment of the customer that is not skipped conflicts with the candidate; FindOverlap computes it |
| AddUpdateAppointment.ConflictsIffShareInstant | src/Controller/AddUpdateAppointmentController.java:192 | for proper intervals the test holds exactly when the half-open intervals share an instant |
| AddUpdateAppointment.FindOverlap | src/Controller/AddUpdateAppointmentController.java:186-196 | the loop reports a conflict exactly when some appointment other than the one being edited conflicts |
| AddUpdateAppointment.NewAppointmentChecksAll | src/Controller/AddUpdateAppointmentController.java:188 | with id 0 no appointment is skipped |
| AddUpdateAppointment.EditIgnoresOwnRecord | src/Controller/AddUpdateAppointmentController.java:188 | with a non-zero id, only records with that id are skipped, so an edit never conflicts with its own stored version |
| AddUpdateAppointment.RejectionOrder | src/Controller/AddUpdateAppointmentController.java:154-196 | each refusal (missing fields, end not after start, outside hours, unknown contact, overlap) happens exactly when its own check fails and every earlier one passed; the contact is unknown when its name is missing from the contacts table or stored under id -1, the lookup's not-found value |
| AddUpdateAppointment.MissingField | src/Controller/AddUpdateAppointmentController.java:154-155 | the title or type is blank after trimming, or the contact, a date, a time, the customer or the user is unselected; description and location are optional |
| AddUpdateAppointment.Validate | src/Controller/AddUpdateAppointmentController.java:153-196 | a missing field refuses first, and otherwise CheckTimes decides on the joined date-times; RejectionOrder and AcceptedIsSound state its meaning |
| AddUpdateAppointment.CheckTimes | src/Controller/AddUpdateAppointmentController.java:164-196 | the checks after the input check, in order: end after start, business hours, contact id not -1, no overlap; acceptance carries the times and the contact id |
| AddUpdateAppointment.ContactIdByName | src/DAO/ContactDAO.java:66-77 | the Contact_ID stored under the name, or -1 when no contact has that name |
| AddUpdateAppointment.CheckTimesAccepted | src/Controller/AddUpdateAppointmentController.java:164-196 | passing the time, contact and overlap checks means a proper interval inside business hours, a contact id looked up by name that is not -1, and no overlap |
| AddUpdateAppointment.AcceptedIsSound | src/Controller/AddUpdateAppointmentController.java:154-196 | an accepted appointment is a proper interval inside business hours with a known contact whose id is not -1, sharing no instant with any other appointment of the customer |
| AddUpdateAppointment.OptionalFieldsIgnored | src/Controller/AddUpdateAppointmentController.java:141-158 | description and location, even when empty, never change the verdict |
| AddUpdateAppointment.RunChecks | src/Controller/AddUpdateAppointmentController.java:141-196 | the early-return sequence of checks yields the verdict of the ordered rule chain |
| AddUpdateAppointment.Store | src/Controller/AddUpdateAppointmentController.java:199-209 | with id 0 one row built from the trimmed inputs and the checked times is appended under the next key, which is at least 1 and held by no existing row; otherwise the row with that id is rewritten and the key counter is untouched |
| AddUpdateAppointment.Message | src/Controller/AddUpdateAppointmentController.java:156-208 | the exact text the form shows for each refusal reason and for an insert or an update |
| AddUpdateAppointment.CurrentId | src/Controller/AddUpdateAppointmentController.java:177 | an empty id field reads as 0, which means the record is not stored yet; otherwise the id it holds |
| AddUpdateAppointment.CandidateRow | src/Controller/AddUpdateAppointmentController.java:199-203 | the row a save writes: the trimmed texts, the checked times moved to UTC, the selected customer and user, and the looked-up contact id |
| AddUpdateAppointment.SelectById | src/Controller/AddUpdateAppointmentController.java:119-124 | a combo box of ids selects the entry equal to the id, or nothing when no entry has it |
| AddUpdateAppointment.AppointmentForm.constructor | src/Controller/AddUpdateAppointmentController.java:92-98 | a new form is empty and offers the quarter-hour choices |
| AddUpdateAppointment.AppointmentForm.SetAppointment | src/Controller/AddUpdateAppointmentController.java:106-125 | every input is filled from the appointment (dates and clock times split, customer and user selected by id when offered), and it becomes the record being edited |
| AddUpdateAppointment.AppointmentForm.OnSave | src/Controller/AddUpdateAppointmentController.java:137-219 | a refusal reports the first failing check and leaves the table unchanged; acceptance inserts (id 0) or updates (other ids) the row for the trimmed inputs with UTC times |
| AddUpdateAppointment.AppointmentForm.OnDelete | src/Controller/AddUpdateAppointmentController.java:247-258 | with a record being edited its row, and only it, is deleted; otherwise nothing changes |
| AppointmentAlert.UpcomingWindow | src/Controller/AppointmentAlertUtil.java:37-40 | the 0-to-15-minute test accepts exactly the starts from 59 seconds past to 15 minutes 59 seconds ahead |
| AppointmentAlert.MinutesUntil | src/Controller/AppointmentAlertUtil.java:37 | Duration.between(now, start).toMinutes(): whole minutes, truncated toward zero |
| AppointmentAlert.Upcoming | src/Controller/AppointmentAlertUtil.java:40 | the start is 0 to 15 whole minutes away; UpcomingWindow gives the window in seconds |
| AppointmentAlert.IsSoonest | src/Controller/AppointmentAlertUtil.java:41-43 | an index the scan can end on: upcoming, starting no later than any upcoming appointment and strictly earlier than every upcoming one before it |
| AppointmentAlert.SoonestIsUnique | src/Controller/AppointmentAlertUtil.java:41-43 | at most one position is the soonest upcoming one, so the scan's answer is determined |
| AppointmentAlert.FindUpcoming | src/Controller/AppointmentAlertUtil.java:31-46 | null exactly when no appointment is upcoming; otherwise an element of the list that is upcoming, starts no later than every upcoming one, and is the first in list order among equal starts |
| AppointmentAlert.FiveTenTwenty | src/Controller/AppointmentAlertUtil.java:35-46 | of starts 5, 10 and 20 minutes ahead, the 5-minute one is chosen and the 20-minute one does not qualify |
| AppointmentOverview.Insert | src/Controller/AppointmentOverviewController.java:137 | placing one appointment into a start-sorted list keeps it sorted and adds exactly that element |
| AppointmentOverview.StartsNoEarlier | src/Controller/AppointmentOverviewController.java:137 | after an insertion, every element drawn from a sorted tail and the inserted one starts no earlier than a head that starts before the inserted one |
| AppointmentOverview.SortByStart | src/Controller/AppointmentOverviewController.java:137 | the result is sorted by start and is a permutation of the input |
| AppointmentOverview.KeptExactly | src/Controller/AppointmentOverviewController.java:170-188 | a filtered list holds exactly the elements satisfying the filter, each as often as in its source, and is sorted when its source is |
| AppointmentOverview.KeepByStart | src/Controller/AppointmentOverviewController.java:170-188 | a FilteredList on the start: the elements whose start passes, in their order; KeptExactly and KeepByStartAppend state this |
| AppointmentOverview.InWeekOf | src/Controller/AppointmentOverviewController.java:170-175 | the start date lies from the Monday to the Sunday of today's week; SameWeekIff shows this means having today's Monday |
| AppointmentOverview.InMonthOf | src/Controller/AppointmentOverviewController.java:179-185 | the start date has today's month and year |
| AppointmentOverview.WeeklyView | src/Controller/AppointmentOverviewController.java:165-176 | the weekly table's items: the loaded list filtered by InWeekOf |
| AppointmentOverview.MonthlyView | src/Controller/AppointmentOverviewController.java:178-188 | the monthly table's items: the loaded list filtered by InMonthOf |
| AppointmentOverview.KeepByStartAppend | src/Controller/AppointmentOverviewController.java:170-188 | filtering a concatenation filters each part and concatenates, and a one-element list keeps its element exactly when it passes, so the filter is an order-preserving sub-list |
| AppointmentOverview.WeeklyViewContents | src/Controller/AppointmentOverviewController.java:165-176 | the week view holds exactly the appointments whose start date lies in today's ISO week, each as often as in the list, and is sorted |
| AppointmentOverview.MonthlyViewContents | src/Controller/AppointmentOverviewController.java:178-188 | the month view holds exactly the appointments whose start date has today's month and year, each as often as in the list, and is sorted |
| AppointmentOverview.RemoveFirst | src/Controller/AppointmentOverviewController.java:246 | List.remove takes out exactly the first occurrence and keeps the order of the rest; without an occurrence the list is unchanged |
| AppointmentOverview.Selected | src/Controller/AppointmentOverviewController.java:235-236 | Update and Delete act on the weekly table's selection on tab 0 and on the monthly table's otherwise |
| AppointmentOverview.AppointmentOverviewScreen.LoadAndShowAppointments | src/Controller/AppointmentOverviewController.java:133-195 | the loaded list is a permutation of what the reader returned, sorted by start, and both tables show their filtered views of it |
| AppointmentOverview.AppointmentOverviewScreen.Show | src/Controller/AppointmentOverviewController.java:137-188 | the list is sorted into place and the two tables are filled for today |
| AppointmentOverview.AppointmentOverviewScreen.OnDeleteAppointment | src/Controller/AppointmentOverviewController.java:233-253 | the selection of the current tab (weekly on tab 0) is used; without one nothing changes; otherwise exactly the row with its id is deleted, the list is reloaded from the remaining joined rows (a sorted permutation of one fresh model per row, each read as the reader reads it) and holds no appointment with that id |

## Left out

- JavaFX presentation is not modelled: windows, alerts, labels, table column factories and date formatting. Messages are returned as values (`AddUpdateAppointment.Message` holds the exact texts).
- The reflection-based `setAppointment` call and the reload after the dialog closes (src/Controller/AppointmentOverviewController.java:262-293) are not modelled. Neither is the Update button's opening of that dialog (213-225), beyond the shared selection rule `Selected`.
- JDBC, `DBConnection` and the SQL text are not modelled. The appointments table is a class over a sequence of rows, and the contacts table is a map.
  - `ContactDAO`, `CustomerDAO` and `UserDAO` are not part of this model, except for the contact lookup by name. It is a map from name to id read through `ContactIdByName`, which gives -1 for a missing name as `getContactIdByName` does (src/DAO/ContactDAO.java:66-77).
  - Customers and users appear only as ids.
- Exceptions (`SQLException`, parse errors) and their messages are not modelled.
- The reporting queries `getCountByTypeAndMonth` and `getCountByCustomer` (src/DAO/AppointmentDAO.java:219-237, 273-291) are SQL GROUP BY reads and are not modelled.
- Real time-zone rules (IANA America/New_York, the system default zone, daylight-saving gaps and overlaps) are not modelled. A zone is an arbitrary pair of offset functions, and the exact round trip is proved wherever the offset picked for a time is the one in force (everywhere outside a daylight-saving gap) and for every fixed offset.
- `LocalDateTime.now()` and `LocalDate.now()` are parameters (`now`, `today`). Sub-second precision is not modelled.
- Java's 32-bit `int` ids and 64-bit `long` minutes are unbounded integers; overflow is not modelled.
- AddUpdateAppointment.AppointmentForm.OnSave takes the customer's stored appointments as a parameter (`existing`) instead of fetching them through `getAppointmentsByCustomer`. That read is modelled separately by `AppointmentTable.GetAppointmentsByCustomer`.
- AddUpdateAppointment.AppointmentForm.OnSave does not model the window closing after a successful save.
- AppointmentOverview.SortByStart does not state that the sort is stable, as `List.sort` is. Only sortedness and permutation are proved.
- AppointmentOverview.AppointmentOverviewScreen.Show: the in-place sort and `FilteredList` views are modelled as reassignment of sequence fields.
- AppointmentDao.AppointmentTable.GetContactSchedules returns rows in table order; the `ORDER BY Contact_Name, Start` of the query is not modelled.
- AppointmentDao.AppointmentTable.ReadAppointments and the other readers return rows in table order, the order the queries (which have no ORDER BY) are taken to return.
- AppointmentAlert.FindUpcoming keeps the `soonestMinutes` accumulator as the source does, but its contract does not mention it, because the source never reads it after the loop.
- Login, customer forms, the remaining model classes and concurrency between validation and insert are outside this model.
