# care-plus scheduling core in Dafny

care-plus is a clinic booking application. It has an Express/Prisma backend and a React frontend. This project models its scheduling logic:

- which hours a doctor can still be booked;
- how appointment records are created, rescheduled, cancelled and listed;
- how the controllers validate requests and choose a status code;
- how the frontend forms and lists turn times into "HH:mm" texts and back.

Time is an integer number of milliseconds since 1970-01-01T00:00:00Z, as in a JavaScript `Date`. The browser's local clock is read as UTC.

Modules, one per source file, plus shared support modules:

| module | models |
|---|---|
| `UtcTime` | the `Date` getters and setters the code uses: `setUTCHours`/`setHours` with 1 to 4 arguments, `getUTCHours`, `getUTCMinutes`, `getDay` |
| `Text` | `toString`, `padStart`, `split`, `parseInt`, and the "HH:mm" text |
| `CivilDate` | Gregorian dates and the `YYYY-MM-DD` prefix of `toISOString` |
| `Seqs` | `findFirst`/`findUnique`, `filter`, and a stable `orderBy` on datetime |
| `Records` | the `Appointment`, `Doctor` and `Patient` records; status is `SCHEDULED`, `COMPLETED` or `CANCELLED` |
| `Storage` | the database as one class `Db` holding the three tables and their autoincrement counters; ids ascend and unique columns stay unique (`Db.Valid`) |
| `Http` | request parameters, JavaScript falsiness, and controller replies: status, JSON body or error text |
| `DoctorRepository` | `getAvailableTimeSlots` as a method with the source's `while` loop, proved against the function `AvailableSlots`; also `findById` and `create` |
| `AppointmentRepository` | `checkDoctorAvailability`, `findByDate`, `findByPatientId`, `findAll`; `create`, `update` and `delete` on the table |
| `PatientRepository` | `create`, with the unique column the store reports for a repeated email or phone, and `findByPhone` |
| `AppointmentController`, `DoctorController`, `PatientController` | each endpoint as a method of a `Controller` class that holds the database, with its status-code decisions |
| `FrontendTime` | "HH:mm" formatting, setting a date's clock from such a text, and the date-picker rules |
| `AppointmentList` | the doctor filter, the list updates after reschedule and cancel, `generateTimeSlots` as a loop, and the reschedule dialog |
| `AppointmentForm` | slot formatting, the submitted instant, the field schema, the phone lookup trigger, and the doctor and date handlers as a class |

The backend slot grid and the frontend slot grid differ, and both are modelled as written:

- the backend grid is hourly from 08:00 UTC, nine slots;
- the frontend reschedule grid is half-hourly from 09:00 local time, sixteen slots.

## Model

| member | source | states |
|---|---|---|
| DoctorRepository.GetAvailableTimeSlots | backend/src/repositories/doctorRepository.ts:33-74 | the loop from 08:00 to 17:00 of the UTC day returns exactly `AvailableSlots`: the hourly grid minus the instants of the doctor's SCHEDULED bookings in the window |
| DoctorRepository.WorkingHours | backend/src/repositories/doctorRepository.ts:39-43 | the grid has nine instants; the k-th is UTC midnight of the day plus 8+k hours |
| DoctorRepository.SlotsInWorkingDay | backend/src/repositories/doctorRepository.ts:35-71 | at most nine slots; each is 08:00 plus a whole number of hours, lies in [08:00, 17:00) of the requested UTC day, and is hour-aligned |
| DoctorRepository.SlotsAscending | backend/src/repositories/doctorRepository.ts:62-71 | the slots are strictly ascending |
| DoctorRepository.BookedTimes | backend/src/repositories/doctorRepository.ts:45-60 | the set of start instants of the doctor's SCHEDULED appointments in [08:00, 17:00) of the day |
| DoctorRepository.AvailableSlots | backend/src/repositories/doctorRepository.ts:33-74 | the specification of the loop: the hourly grid without the booked instants |
| DoctorRepository.UnbookedMembers | backend/src/repositories/doctorRepository.ts:66-70 | `Unbooked`, the function the loop is proved against, keeps exactly the grid instants not in the booked set, never more than the grid |
| DoctorRepository.UnbookedAscending | backend/src/repositories/doctorRepository.ts:66-70 | dropping booked instants keeps an ascending list ascending |
| DoctorRepository.NoBookingsAllSlots | backend/src/repositories/doctorRepository.ts:45-71 | without a SCHEDULED booking of the doctor that day, the answer is the nine slots 08:00 to 16:00 |
| DoctorRepository.SlotOmittedIffBooked | backend/src/repositories/doctorRepository.ts:56-60 | grid hour k is missing from the answer exactly when a SCHEDULED appointment of that doctor starts at that exact millisecond |
| DoctorRepository.OffGridIgnored | backend/src/repositories/doctorRepository.ts:45-54 | adding a cancelled or completed appointment, another doctor's, or one off the hourly grid (such as 09:30) removes no slot |
| DoctorRepository.DayOnly | backend/src/repositories/doctorRepository.ts:35-36 | two dates on the same UTC day give the same answer, whatever their time of day |
| DoctorRepository.SlotCount | backend/src/repositories/doctorRepository.ts:56-71 | the number of slots is nine minus the number of distinct booked instants that fall on the grid |
| DoctorRepository.MondayExample | backend/src/repositories/doctorRepository.ts:33-74 | with bookings at 09:00 and 13:00 on 2024-11-18, the answer is 08, 10, 11, 12, 14, 15 and 16 o'clock |
| DoctorRepository.FindById | backend/src/repositories/doctorRepository.ts:20-31 | a doctor is found exactly when one has that id, and it is a stored one |
| DoctorRepository.Create | backend/src/repositories/doctorRepository.ts:6-10 | a taken email is a unique violation and changes nothing; otherwise a doctor with the next id is appended |
| AppointmentRepository.CheckDoctorAvailability | backend/src/repositories/appointmentRepository.ts:25-42 | available exactly when no SCHEDULED appointment of the doctor starts in [t, t + 1h) |
| AppointmentRepository.Blocks | backend/src/repositories/appointmentRepository.ts:30-39 | the `where` of the `findFirst`: the doctor's SCHEDULED appointment starting in [t, t + 1h) |
| AppointmentRepository.WindowEdges | backend/src/repositories/appointmentRepository.ts:33-36 | a booking that starts exactly at t blocks; one that starts exactly at t + 1h does not |
| AppointmentRepository.EarlierOverlapAdmitted | backend/src/repositories/appointmentRepository.ts:33-36 | the window runs one way: a booking that started 30 minutes before t, and so still runs at t, does not block |
| AppointmentRepository.NonBlockingIgnored | backend/src/repositories/appointmentRepository.ts:30-39 | an appointment that starts before t or from t + 1h, is not SCHEDULED, or belongs to another doctor never changes the answer |
| AppointmentRepository.FindByDate | backend/src/repositories/appointmentRepository.ts:44-68 | every appointment of any status on the requested UTC day, each as often as stored, ascending by datetime |
| AppointmentRepository.SameDay | backend/src/repositories/appointmentRepository.ts:46-51 | the window [midnight, 23:59:59.999] holds exactly the instants of that UTC day |
| AppointmentRepository.FindByPatientId | backend/src/repositories/appointmentRepository.ts:87-97 | exactly that patient's appointments, descending by datetime |
| AppointmentRepository.FindAll | backend/src/repositories/appointmentRepository.ts:98-108 | every appointment once per stored copy, ascending by datetime |
| AppointmentRepository.UpdateRows | backend/src/repositories/appointmentRepository.ts:70-79 | the table keeps its length and every row keeps its id |
| AppointmentRepository.UpdateTouchesOnlyTarget | backend/src/repositories/appointmentRepository.ts:70-79 | rows with another id are unchanged; the row with the id takes only the supplied fields |
| AppointmentRepository.FindById | backend/src/repositories/appointmentRepository.ts:15-23 | a row is found exactly when one has that id |
| AppointmentRepository.Create | backend/src/repositories/appointmentRepository.ts:5-13 | fails exactly when the doctor or the patient does not exist, changing nothing; otherwise appends a row with the next id |
| AppointmentRepository.Update | backend/src/repositories/appointmentRepository.ts:70-79 | a missing id fails and changes nothing; otherwise the table becomes `UpdateRows` and the patched row is returned |
| AppointmentRepository.Delete | backend/src/repositories/appointmentRepository.ts:81-85 | a missing id fails and changes nothing; otherwise exactly the rows with that id are removed, the rest kept in order |
| AppointmentController.Controller.Create | backend/src/controllers/appointmentController.ts:16-37 | 400 "Doctor is not available at this time" when blocked; 201 with a new SCHEDULED record for the given doctor, patient and datetime exactly when the datetime parses, the check passes and both exist; an unparsable datetime, or a missing doctor or patient after a passing check, is 500 "Failed to create appointment"; nothing is stored unless 201 |
| AppointmentController.CreateKeepsNoDoubleBooking | backend/src/controllers/appointmentController.ts:21-33 | a record inserted after a passing check never gives a doctor two SCHEDULED bookings at one instant |
| AppointmentController.Controller.Reschedule | backend/src/controllers/appointmentController.ts:39-52 | overwrites only the datetime, with no check, and keeps the status; a missing id or an Invalid Date is a 500 |
| AppointmentController.RescheduleCanDoubleBook | backend/src/controllers/appointmentController.ts:44-46 | moving a doctor's 10:00 booking onto their 09:00 one leaves two SCHEDULED bookings at 09:00 |
| AppointmentController.Controller.Cancel | backend/src/controllers/appointmentController.ts:54-66 | sets the status to CANCELLED, whatever it was, and nothing else; a missing id is a 500 |
| AppointmentController.CancelKeepsNoDoubleBooking | backend/src/controllers/appointmentController.ts:58-60 | cancelling never creates a double booking |
| AppointmentController.Controller.GetByDate | backend/src/controllers/appointmentController.ts:68-87 | 400 when the date is absent or empty; 500 when it does not parse; otherwise the query text, `findByDate` and a total equal to its length |
| AppointmentController.Controller.GetAll | backend/src/controllers/appointmentController.ts:88-96 | every stored appointment, ascending by datetime |
| DoctorController.CreateFailure | backend/src/controllers/doctorController.ts:29-37 | a unique violation is 400 "A doctor with this email already exists"; any other failure is 500 |
| DoctorController.Controller.Create | backend/src/controllers/doctorController.ts:11-38 | 400 and nothing stored when a name or the email is falsy; 400 on a taken email; else 201 with the appended doctor |
| DoctorController.Controller.GetById | backend/src/controllers/doctorController.ts:49-62 | 404 "Doctor not found" exactly when no doctor has the id; else that doctor |
| DoctorController.Controller.GetAvailableSlots | backend/src/controllers/doctorController.ts:64-99 | 400 when doctorId or date is missing, checked before the lookup; then 404 "Doctor not found"; then 500 "Failed to fetch available slots" for an unparsable date of a known doctor; else 200 with the slots, the ISO date, "UTC", "08:00" and "17:00" |
| DoctorController.SlotsOnNamedDay | backend/src/controllers/doctorController.ts:80-87 | every slot lies on the day the `date` field names |
| CivilDate.IsoDate | backend/src/controllers/doctorController.ts:87 | `toISOString().split('T')[0]`: the UTC calendar date of the instant as year, two-digit month and two-digit day |
| CivilDate.IsoDateNamesDay | backend/src/controllers/doctorController.ts:87 | for years 0 to 9999 the date text has the shape YYYY-MM-DD and reads back as the instant's UTC day |
| PatientController.MissingFields | backend/src/controllers/patientController.ts:35-41 | the missing list is empty exactly when no field is falsy |
| PatientController.MissingNamesFalsy | backend/src/controllers/patientController.ts:38-40 | each field name appears in the list exactly when that field is falsy |
| PatientController.MissingInOrder | backend/src/controllers/patientController.ts:38-40 | the list keeps the order firstName, lastName, email, phone, dateOfBirth |
| PatientController.CreateFailure | backend/src/controllers/patientController.ts:53-69 | a unique violation is a 400 naming the first conflicting field; any other failure is a 500 |
| PatientController.Controller.Create | backend/src/controllers/patientController.ts:30-70 | 400 "All fields are required" with the missing list; 201 with the appended patient exactly when all fields are present, the birth date parses and neither email nor phone is taken; with every field present, an Invalid Date of birth is 500 "Failed to create patient" and a taken email or phone is 400 naming the taken field |
| PatientController.Controller.FindByPhone | backend/src/controllers/patientController.ts:15-28 | 404 "Patient not found" when no patient has the phone; 200 with the patient holding it otherwise; no phone makes the query fail, a 500 |
| PatientRepository.FindByPhone | backend/src/repositories/patientRepository.ts:30-41 | finds a stored patient with that phone exactly when one exists |
| PatientRepository.FindByPhoneFindsStored | backend/src/repositories/patientRepository.ts:30-41 | since phones are unique, each stored patient is found by its own phone |
| PatientRepository.Conflict | backend/src/repositories/patientRepository.ts:17-29 | the target of the unique violation: "email" when the email is taken (an assumed order, see Left out), else "phone" when the phone is taken, else nothing |
| PatientRepository.Create | backend/src/repositories/patientRepository.ts:17-29 | an Invalid Date of birth fails; a taken email or phone is a unique violation naming it; otherwise a patient with the next id is appended |
| AppointmentList.Visible | frontend/care-plus-frontend/src/components/appointments/AppointmentList.tsx:158-165 | a non-array answer gives []; no selected doctor keeps every entry; otherwise exactly that doctor's entries, in order, each as often as in the answer |
| AppointmentList.Rescheduled | frontend/care-plus-frontend/src/components/appointments/AppointmentList.tsx:192-202 | same length; entries with another `_id` are unchanged; the matching entry gets the new datetime and status SCHEDULED |
| AppointmentList.RescheduledIdempotent | frontend/care-plus-frontend/src/components/appointments/AppointmentList.tsx:192-202 | applying the same reschedule twice equals applying it once |
| AppointmentList.WithoutCancelled | frontend/care-plus-frontend/src/components/appointments/AppointmentList.tsx:223-225 | removes exactly the entries with that `_id` and keeps the rest, in order and with their counts |
| AppointmentList.GenerateTimeSlots | frontend/care-plus-frontend/src/components/appointments/AppointmentList.tsx:241-256 | the loop returns exactly `HalfHourGrid` for any date |
| AppointmentList.HalfHourGridShape | frontend/care-plus-frontend/src/components/appointments/AppointmentList.tsx:241-256 | 16 slots, all available; slot k reads as 9 + k/2 hours and 30·(k mod 2) minutes, i.e. 09:00 + 30k minutes, never before 09:00 nor at or after 17:00 |
| AppointmentList.HalfHourFields | frontend/care-plus-frontend/src/components/appointments/AppointmentList.tsx:243-252 | k half-hour steps after 09:00 of the day, the clock shows hour 9 + k/2 and minute 30·(k mod 2) |
| AppointmentList.DialogSlots | frontend/care-plus-frontend/src/components/appointments/AppointmentList.tsx:423-432 | keeps a slot exactly when it is available or shows the appointment's current HH:mm, in grid order and as often as in the grid |
| AppointmentList.KeptInDialog | frontend/care-plus-frontend/src/components/appointments/AppointmentList.tsx:423-431 | the filter's test: the slot is available, or its time set on the new date formats as the appointment's current HH:mm |
| AppointmentList.DialogKeepsWholeGrid | frontend/care-plus-frontend/src/components/appointments/AppointmentList.tsx:423-432 | since every generated slot is available, the dialog offers the whole grid |
| AppointmentList.ConfirmedDateTime | frontend/care-plus-frontend/src/components/appointments/AppointmentList.tsx:444-452 | no move without a chosen time; a move lands on the chosen date's seconds and milliseconds |
| AppointmentList.ConfirmGridSlot | frontend/care-plus-frontend/src/components/appointments/AppointmentList.tsx:444-452 | confirming a grid slot moves the appointment to that hour and minute of the chosen day, keeping the chosen date's seconds and milliseconds |
| FrontendTime.HourMinute | frontend/care-plus-frontend/src/components/appointments/AppointmentForm.tsx:138-144 | five characters with ':' at index 2, and splitting and parsing it gives back the UTC hour and minute |
| FrontendTime.AtClock | frontend/care-plus-frontend/src/components/appointments/AppointmentForm.tsx:166-170 | `split(":")` then `setHours(parseInt(h), parseInt(m), 0, 0)`: an instant exactly when both parts parse, and then a whole minute |
| FrontendTime.AtClockKeepingSeconds | frontend/care-plus-frontend/src/components/appointments/AppointmentList.tsx:446-449 | the same with `setHours(parseInt(h), parseInt(m))`: an instant exactly when both parts parse, with the seconds and milliseconds of the date |
| FrontendTime.SetHmsFields | frontend/care-plus-frontend/src/components/appointments/AppointmentForm.tsx:169-170 | `setHours(h, m, 0, 0)` stays on the day, shows h and m, and has zero seconds and milliseconds |
| FrontendTime.SetHourMinuteFields | frontend/care-plus-frontend/src/components/appointments/AppointmentList.tsx:447-449 | `setHours(h, m)` stays on the day, shows h and m, and keeps the seconds and milliseconds |
| FrontendTime.AtClockOfSlot | frontend/care-plus-frontend/src/components/appointments/AppointmentForm.tsx:163-170 | an "HH:mm" text lands on the chosen day at that hour and minute, with zero seconds |
| FrontendTime.AtClockOfFormatted | frontend/care-plus-frontend/src/components/appointments/AppointmentForm.tsx:166-170 | formatting a whole-minute instant and setting a date of the same day to that text gives the instant back |
| FrontendTime.EmptyTimeInvalid | frontend/care-plus-frontend/src/components/appointments/AppointmentForm.tsx:166-170 | an empty time text parses to NaN and gives an Invalid Date |
| FrontendTime.BookingDateDisabled | frontend/care-plus-frontend/src/components/appointments/AppointmentForm.tsx:432-436 | the appointment pickers disable a day before now, a Sunday or a Saturday |
| FrontendTime.BookableDay | frontend/care-plus-frontend/src/components/appointments/AppointmentList.tsx:469-473 | given a day's midnight, the picker allows it exactly when it is Monday to Friday and lies after the current day, or now is that very midnight: once its midnight has passed a day can no longer be booked |
| FrontendTime.DateOfBirthDisabled | frontend/care-plus-frontend/src/components/appointments/AppointmentForm.tsx:359-361 | the birth-date picker disables a day after now or before 1900-01-01 |
| FrontendTime.BookingWeekExample | frontend/care-plus-frontend/src/components/appointments/AppointmentList.tsx:469-473 | Monday 2024-11-18 is bookable from the evening before (Sunday 23:00 UTC) but not once its midnight has passed (it is disabled at 01:00 that Monday); Saturday 16 and Sunday 17 are disabled |
| FrontendTime.Year1900IsNewYear | frontend/care-plus-frontend/src/components/appointments/AppointmentForm.tsx:360 | the lower bound of the birth-date picker is midnight of 1900-01-01 |
| FrontendTime.BirthDateInRange | frontend/care-plus-frontend/src/components/appointments/AppointmentForm.tsx:359-361 | a birth date the picker allows is no later than now and falls in 1900 or after |
| AppointmentForm.FormatSlots | frontend/care-plus-frontend/src/components/appointments/AppointmentForm.tsx:138-144 | one text per slot, in order, each the slot's UTC "HH:mm" |
| AppointmentForm.GridHourText | frontend/care-plus-frontend/src/components/appointments/AppointmentForm.tsx:138-144 | the backend's k-th hour shows as `Clock(8 + k, 0)` and setting the day to that text gives the hour back |
| AppointmentForm.BackendSlotTexts | frontend/care-plus-frontend/src/components/appointments/AppointmentForm.tsx:132-146 | every slot text shown is a whole hour from "08:00" to "16:00", and submitting it on the requested day sends exactly the backend's slot instant |
| AppointmentForm.SchemaIssues | frontend/care-plus-frontend/src/components/appointments/AppointmentForm.tsx:41-58 | no issue exactly when the phone has at least 10 characters, the email is valid, both names have at least 2, and birth date, doctor and appointment date are set |
| AppointmentForm.ShouldSearchPatient | frontend/care-plus-frontend/src/components/appointments/AppointmentForm.tsx:84 | the patient lookup starts once the phone has at least ten characters |
| AppointmentForm.AcceptedPhoneStartsLookup | frontend/care-plus-frontend/src/components/appointments/AppointmentForm.tsx:84 | every phone the schema accepts also starts the patient lookup |
| AppointmentForm.SubmittedDateTime | frontend/care-plus-frontend/src/components/appointments/AppointmentForm.tsx:158-170 | the instant submitted: an empty time gives an Invalid Date, and any instant sent is a whole minute |
| AppointmentForm.SubmitsChosenTime | frontend/care-plus-frontend/src/components/appointments/AppointmentForm.tsx:158-170 | the submitted instant is the appointment day at the chosen hour and minute, with zero seconds and milliseconds |
| AppointmentForm.ClearedTimePassesSchema | frontend/care-plus-frontend/src/components/appointments/AppointmentForm.tsx:55-57 | an otherwise valid form with a cleared time passes the schema and submits an Invalid Date |
| AppointmentForm.BookingForm.constructor | frontend/care-plus-frontend/src/components/appointments/AppointmentForm.tsx:70-80 | no doctor, no date, an empty time and no slot request |
| AppointmentForm.BookingForm.HandleDoctorSelect | frontend/care-plus-frontend/src/components/appointments/AppointmentForm.tsx:203-210 | stores the doctor and clears the time; requests slots exactly when a date was already set |
| AppointmentForm.BookingForm.HandleDateSelect | frontend/care-plus-frontend/src/components/appointments/AppointmentForm.tsx:212-221 | an unset date changes nothing; otherwise stores the date, clears the time, and requests slots exactly when a non-empty doctor is set |
| AppointmentForm.ChooseDoctorThenDate | frontend/care-plus-frontend/src/components/appointments/AppointmentForm.tsx:203-221 | choosing a doctor before any date requests nothing; choosing the date then requests exactly that pair when the doctor id is non-empty |
| Text.ClockRoundTrip | frontend/care-plus-frontend/src/components/appointments/AppointmentForm.tsx:166-170 | splitting a padded "HH:mm" on ':' and parsing both parts gives back the hour and minute |
| Text.Padded | frontend/care-plus-frontend/src/components/appointments/AppointmentForm.tsx:141-142 | `toString().padStart(2, "0")` is digits whose value is the number, exactly two long below 100 |
| Text.ParseIntOfDigits | frontend/care-plus-frontend/src/components/appointments/AppointmentForm.tsx:170 | `parseInt` of a non-empty digit string is its decimal value |
| Text.SplitOnce | frontend/care-plus-frontend/src/components/appointments/AppointmentForm.tsx:166 | splitting a text with one separator gives the two sides |
| UtcTime.Midnight | backend/src/repositories/appointmentRepository.ts:46-47 | `setUTCHours(0, 0, 0, 0)` gives the start of the instant's UTC day, no later than it and less than a day before |
| UtcTime.Hours | backend/src/repositories/doctorRepository.ts:70 | `getUTCHours` is in 0..23 and the instant lies within that hour of its day |
| Seqs.SortBy | backend/src/repositories/appointmentRepository.ts:64-66 | `orderBy` on datetime gives a sorted permutation of the rows |

## Left out

- HTTP plumbing is not part of this model: routes, Express request and response objects, JSON encoding. A request arrives as already-read parameters (`Http.Param`); a reply is a status with a body or an error text.
- Turning request text into values is not modelled. Numbers become `nat` ids and dates arrive parsed, with `None` standing for an Invalid Date. Repeated query parameters (arrays) and non-string JSON values are not modelled.
- PatientRepository.Conflict: when both the email and the phone are taken, the database decides which column the unique violation's target names first. The model assumes the email is reported first; the controller forwards whichever comes first.
- The ORM's `include` of related records is left out. Returned rows carry ids, not the joined doctor or patient.
- Console logging and toasts are left out. So are the `details` and `code` fields of the patient 500 reply.
- The race between the availability check and the insert is out of scope. Operations run one at a time.
- Local time zones and daylight saving time are not modelled. Every `setHours`/`getHours` is read as UTC, so the one-hour window is +3,600,000 ms.
- AppointmentRepository.CheckDoctorAvailability: the window end is t + 3,600,000 ms. A local clock that changes offset inside that hour is not modelled.
- The id mismatch is not modelled: the frontend uses `_id` and string ids, the backend numeric `id`. The list keeps the screen's own `uid` field.
- AppointmentForm.SchemaIssues: the zod email check enters as a boolean. The appointment-time rule sets only `z.string()`, so its required message never appears and is left out.
- date-fns `format` is taken as the "HH:mm" text of the instant. In the dialog, a slot whose time does not parse is not kept, because `format` of an Invalid Date would throw.
- The doctor and patient listing endpoints (`getAll` of doctors and patients) are left out, and so are the repository `findAll`, `update` and `findById` of doctors and patients that only they use.
- The patient lookup's autofill of the form (names, email, birth date), its 500 ms debounce and its loading flags are left out.
- The reschedule dialog's own date handler (it stores the date and clears the time) is left out, and so is the rendering of the slot lists.
- CivilDate.IsoDateNamesDay: the round trip is stated for years 0 to 9999, where `toISOString` writes four-digit years. Expanded years are not modelled.
