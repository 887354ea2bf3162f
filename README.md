# Face recognition attendance — a Dafny model of its core

This project models the decision logic of the attendance system in `app.py`:
the `employees` and `attendance` tables of `DatabaseManager`, the
once-per-day check-in/check-out ledger of `mark_attendance`, the in-memory
gallery of known faces of `FaceRecognitionSystem` and its match decision,
the enrollment checks, the employee delete route, and the dashboard and
attendance-page arithmetic.

SQLite is replaced by two sequences held in a class and updated in place;
the face-recognition library is replaced by its results, which become
inputs: the encodings of the faces found in an enrollment image, and the
list of distances from each probe face to the known encodings. The clock is
an input too: `today` is a day number and `now` a timestamp in
microseconds.

Modules, one per part of the program:

- `Common`: `Option`, `Result`, `Filter` (what a `DELETE ... WHERE` leaves),
  `DistinctKeys` (a UNIQUE constraint) and their lemmas.
- `Records`: the table rows `Employee` and `AttendanceRecord`, the reply
  dictionaries, and the alignment predicate of the three gallery lists.
- `Ledger`: `Mark`, one call of `mark_attendance` as a function on the
  table, and the state machine NO_RECORD → CHECKED_IN → CHECKED_OUT proved
  about it, including the invariant over any series of calls.
- `Reports`: `get_attendance_summary` and the hours/minutes duration of the
  attendance page.
- `Matcher`: `compare_faces` with tolerance 0.6, `np.argmin`, and the
  accept-or-"Unknown" decision for one face.
- `Validation`: `allowed_file`, `str.strip`, the ordered form checks of the
  enrollment route and the ordered image checks of `add_new_employee`.
- `Database`: class `DatabaseManager`.
- `Recognition`: class `FaceRecognitionSystem`.
- `Routes`: `delete_employee`, the POST branch of `add_employee`,
  `mark_attendance` and the duration loop of `attendance`.

Behaviour of the code that the model keeps as it is:

- A check-out earlier than the check-in is accepted; the attendance page
  then shows the `timedelta` seconds of the negative stay, so one second
  early reads "23h 59m" (`Reports.NegativeStayWrapsAround`).
- The weekly average divides the check-in rows in the window by the number
  of days that have at least one of them; days without a check-in do not
  enter the average (`Reports.AverageAttendance`).
- The window is `date >= today - 7`, which spans eight calendar days.
- `mark_attendance` does not check that the employee exists, so attendance
  for an unregistered id can make `absent_today` negative
  (`Reports.AbsentNegativeForUnregisteredId`).
- Only the nearest known face decides a match; ties go to the first index.

## Model

| member | source | states |
|---|---|---|
| `Ledger.FindRecord` | app.py:105-106 | the row `fetchone` yields: the first row with that employee id and date; none exactly when no row matches |
| `Ledger.Mark` | app.py:100-121 | only "check_in" and "check_out" can succeed, success iff one of the two success messages, a refusal leaves the table unchanged, and the table grows by one row exactly on a recorded check-in |
| `Ledger.NewRecord` | app.py:117 | the inserted row belongs to (employee, today), is stamped `now`, and puts that day in the checked-in state |
| `Ledger.SetCheckOut` | app.py:110 | every row of (employee, date) is the same row with check-out `now` and nothing else changed, other rows are unchanged, no row changes its key or check-in, and the lookup of the day finds the same row |
| `Ledger.MarkFollowsStateMachine` | app.py:100-121 | a call succeeds iff it is check_in with no record or check_out on an open record; success moves the day to the next state with the matching message; a refusal changes nothing and says "Must check-in first" with no record, "Attendance already recorded for today" otherwise |
| `Ledger.CheckInOnOpenDay` | app.py:115-121 | with no record for (employee, today), check_in appends exactly one row stamped `now`, not checked out, status "present", and succeeds; any other type fails with "Must check-in first" and inserts nothing |
| `Ledger.CheckOutOnRecordedDay` | app.py:108-114 | with a record for (employee, today), check_out on an open record sets its check-out to `now` and changes no other row; every other call fails with "Attendance already recorded for today" and leaves the table as it was |
| `Ledger.OnlyMatch` | app.py:105-110 | under the one-record-per-day invariant the matching row is the only one, so the UPDATE by (employee_id, date) touches just the row that was looked up |
| `Ledger.FindRecordStable` | app.py:105-106 | the lookup gives the same row in two tables that agree on the rows of that (employee, date) |
| `Ledger.MarkPreservesOneRecordPerDay` | app.py:105-121 | after any call there is still at most one record per (employee_id, date) |
| `Ledger.MarkTouchesOnlyItsDay` | app.py:108-121 | a call only appends or updates rows of its own (employee, today); rows keep their key and check-in time; a checked-out row is never changed; at most one row is added, and a row added is the new check-in record of (employee, today) stamped `now` |
| `Ledger.SecondCheckInRefused` | app.py:105-119 | of two check-ins on the same day, the first succeeds and the second is refused with "Attendance already recorded for today" and changes nothing |
| `Ledger.ReplayKeepsLedgerInvariant` | app.py:100-121 | over any series of calls the table keeps at most one record per (employee_id, date), and a record never changes after its check-out is set |
| `Database.DatabaseManager.constructor` | app.py:35-63 | a new database has both tables empty |
| `Database.DatabaseManager.AddEmployee` | app.py:65-76 | returns false and leaves the table unchanged when the employee id exists; otherwise appends exactly that one row and returns true; attendance is untouched |
| `Database.DatabaseManager.GetEmployeeEncodings` | app.py:83-98 | the three lists have one entry per employee row, and index i of each comes from row i |
| `Database.DatabaseManager.MarkAttendance` | app.py:100-121 | the new attendance table and the reply are those of `Ledger.Mark`; employees are untouched; the invariants are kept |
| `Reports.TodayRows` | app.py:139-140 | the rows counted as present today: each record dated today with a check-in, as often as it occurs, and no other row |
| `Reports.WindowRows` | app.py:145-152 | the rows averaged: each record dated on or after today − 7 with a check-in, as often as it occurs, and no other row |
| `Reports.AverageAttendance` | app.py:145-156 | the average is 0 exactly when no row has a check-in since today − 7; otherwise it is those rows ÷ the days that have one, and at least 1 |
| `Reports.Summarize` | app.py:135-163 | present_today is the number of today's rows with a check-in; total is the number of employees; present + absent = total; the average is `AverageAttendance`; present ≤ the number of records, and with anyone present today the average is at least 1 |
| `Reports.Days` | app.py:149-152 | the groups of `GROUP BY DATE(date)`: each date of the rows exactly once, no more groups than rows |
| `Reports.SumCountsCoversRows` | app.py:147-152 | the daily counts of those groups add up to the number of rows |
| `Reports.AbsentNotNegative` | app.py:139-161 | when every record belongs to a registered employee and the ledger invariant holds, present_today ≤ total, so absent_today = total − present_today ≥ 0 |
| `Reports.AbsentNegativeForUnregisteredId` | app.py:139-161 | with no employees and one check-in today for an unknown id, absent_today is −1 |
| `Reports.DurationSeconds` | app.py:416-418 | `timedelta.seconds` of the stay: a value in [0, 86400) that differs from the stay by whole days (of either sign) plus less than a second |
| `Reports.DurationSecondsOfNormalForm` | app.py:416-418 | a stay of d days, s seconds and µ microseconds in `timedelta` normal form (0 ≤ s < 86400, 0 ≤ µ < 10⁶) shows exactly s, also for negative d |
| `Reports.NegativeStayWrapsAround` | app.py:413-419 | a check-out one second before the check-in is shown as 23h 59m |
| `Reports.SplitDuration` | app.py:418-419 | the two `divmod`s give minutes < 60, hours < 24 within a day, and h·3600 + m·60 ≤ seconds < h·3600 + m·60 + 60 |
| `Reports.SplitDurationUnique` | app.py:418-419 | any h, m with m < 60 that satisfy those bounds are the result of the split |
| `Reports.DivModUnique` | app.py:418-419 | the quotient and remainder of `divmod` are the only pair that rebuilds the dividend |
| `Reports.RecordDurationOfSameDayStay` | app.py:413-420 | for a stay shorter than a day, hours·60 + minutes is the number of whole minutes elapsed |
| `Reports.RecordDuration` | app.py:413-420 | a duration is shown iff both the check-in and the check-out are set, and it is always below 24 hours with minutes below 60 |
| `Matcher.CompareFaces` | app.py:246 | one flag per known face, true iff its distance is ≤ the tolerance; a face at least as near as a matching face also matches, so the flag at the nearest face is set iff some flag is set |
| `Matcher.ArgMin` | app.py:252 | an index of a smallest distance, and the first such index |
| `Matcher.Identify` | app.py:241-258 | an id is returned iff some known face is within 0.6; otherwise, and for an empty gallery, the result is ("Unknown", None) |
| `Matcher.IdentifyPicksFirstNearest` | app.py:250-255 | an accepted match is the name and id at the first index of the smallest distance, and that distance is ≤ 0.6 |
| `Matcher.IdentifyReturnsKnownId` | app.py:252-255 | a returned id is one of the known employee ids and the name one of the known names |
| `Matcher.ToleranceBoundary` | app.py:246-253 | a distance exactly 0.6 is accepted; any greater distance to the only known face gives "Unknown" |
| `Recognition.FaceRecognitionSystem.constructor` | app.py:167-172 | the gallery lists are loaded from the table and aligned with it; the tables are untouched |
| `Recognition.FaceRecognitionSystem.LoadKnownFaces` | app.py:177-181 | after a reload the three lists are index-aligned with the employee rows |
| `Recognition.FaceRecognitionSystem.AddNewEmployee` | app.py:184-218 | succeeds iff the image checks pass and the id is new; then exactly one employee with the face's encoding is appended and the gallery reloaded; otherwise nothing changes; the message is the one of the failing check |
| `Recognition.FaceRecognitionSystem.RecognizeFaces` | app.py:236-260 | one name and one id per probe face, each the `Matcher.Identify` decision for that face; every id returned is a known id |
| `Validation.Strip` | app.py:339-342 | the result neither begins nor ends with white space and is what remains of the input once leading and trailing white space are cut |
| `Validation.IsAlnum` | app.py:349 | `isalnum` holds iff the id is non-empty and every character is a letter or digit; such an id has no white space, '@' or '.', and stripping leaves it unchanged |
| `Validation.LowerChar` | app.py:305 | an upper-case ASCII letter becomes its lower-case partner, every other character stays, and the result is never upper case |
| `Validation.Lower` | app.py:305 | `lower()` works character by character: same length, each character lower-cased as `LowerChar` does, and no upper-case letter left |
| `Validation.LastDot` | app.py:303-305 | the position of a '.' with no '.' after it; none exactly when there is no '.' |
| `Validation.AllowedFile` | app.py:303-305 | an allowed name ends in '.' followed by png or jpg, or '.' followed by jpeg, in any mix of case |
| `Validation.AllowedFileMeans` | app.py:303-305 | `allowed_file(f)` iff f is a stem, a '.', and a dot-free extension whose lower case is png, jpg or jpeg |
| `Validation.AllowedFileSplits` | app.py:303-305 | an allowed name splits at its last '.' into a stem and an allowed extension |
| `Validation.SplitAtLastDot` | app.py:305 | `rsplit('.', 1)` at the last '.' gives the stem, the '.' and a rest without a '.' |
| `Validation.SplitIsAllowed` | app.py:303-305 | any stem, '.', allowed dot-free extension is an allowed name |
| `Validation.CheckFields` | app.py:344-369 | an accepted form is returned unchanged; a refusal names a check that the form fails |
| `Validation.ValidateForm` | app.py:339-369 | the fields are stripped first; an accepted form is the stripped form, and a refusal names a check the stripped form fails |
| `Validation.CheckFieldsInOrder` | app.py:344-369 | on stripped fields, the form is accepted iff it passes every check, and a refusal names the first failing check in the order fields, id, email, photo, file type |
| `Validation.ValidateFormReportsFirstFailure` | app.py:339-369 | the same for the raw fields, which are stripped first |
| `Validation.CheckImage` | app.py:186-218 | a missing file gives "Image file not found", a load failure "Error processing image: " and its reason, an empty image "Invalid or corrupt image file", zero and several faces their own errors; accepted iff the file exists, loads, is non-empty and shows exactly one face, yielding that face's encoding |
| `Routes.DeleteEmployee` | app.py:306-323 | removes every attendance row and the employee row with that id and leaves all other rows in place; success and status 200 iff an employee row was removed, else 404; the id can no longer be matched |
| `Routes.RemovesRowIffRegistered` | app.py:315-323 | the employee DELETE removes a row (`rowcount > 0`) exactly when the id is registered, and otherwise leaves the table as it was |
| `Routes.SubmitEnrollment` | app.py:328-389 | a form that fails a check returns that check's message and changes nothing; the enrollment succeeds iff the form, the image and the stripped id's novelty all pass, and then appends exactly one employee with the stripped fields; after a passing form the message is the image check's, or "Employee added successfully" / "Employee ID already exists" |
| `Routes.MarkAttendanceRoute` | app.py:427-433 | marks attendance with the given type, or "check_in" when none is given, as `Ledger.Mark` does |
| `Routes.RecordDurations` | app.py:404-425 | one duration per record, present iff both times are set, with minutes < 60 and hours < 24 |
| `Common.Filter` | app.py:313-315 | what a `DELETE ... WHERE` leaves: no more rows than before, every row left was in the table and is kept, and every row that is kept is left |
| `Common.FilterMultiset` | app.py:313-315 | each kept row is left as often as it occurred and no other row is left |
| `Common.FilterPreservesDistinct` | app.py:311-316 | deleting rows keeps a unique key unique |
| `Common.FilterKeepsAll` | app.py:315-318 | a DELETE removes no row iff no row matches, and then leaves the table as it was |
| `Common.KeySetSize` | app.py:139-143 | a table has at least as many rows as distinct keys, exactly as many when the key is unique |

## Left out

- SQLite itself: connections, schema DDL, the autoincrement `id` and `created_at` columns, and the `FOREIGN KEY` clause, which SQLite does not enforce by default. Tables are sequences in insertion order.
- `get_all_employees`: a read-only listing sorted by name for display.
- `get_attendance_records`: its date window `a.date >= today - days` and its inner JOIN with `employees` are not modelled. The JOIN drops attendance rows whose id has no employee row. `Routes.RecordDurations` takes the rows this query selects as its input.
- Face detection, face encoding and `face_distance`: library calls over floating point. The encodings found in an image and the distance lists are inputs, and distances are real numbers.
- `gen_frames`, the camera, JPEG streaming and rectangle drawing: I/O. The frame downscale by `1024.0 / width` and the `int(x / scale)` rescale are left out as floating-point numerics.
- `round(..., 1)` on the average: floating-point rounding. The average is an exact real.
- Concurrency: the unused `threading.Lock` and the race between the SELECT and the INSERT in `mark_attendance`. Calls are modelled one after another.
- Flask plumbing: templates, flash messages and redirects, file saving and removal, `secure_filename`, logging, and the catch-all exception handlers. A failure to load the image is modelled as the `Unreadable` case with the exception text.
- A missing `employee_id` in the `mark_attendance` request: ids are strings here. In the program a missing id reaches SQLite as NULL; with `check_in` the INSERT violates the NOT NULL column and raises, while with any other type the lookup `employee_id = NULL` finds no row and the call returns "Must check-in first".
- Validation.IsAlnum: accepts ASCII letters and digits only. Python's `str.isalnum` also accepts letters and digits of other scripts, so the model refuses some ids the program accepts.
- Validation.Lower: lower-cases ASCII letters only. No other character lower-cases to a letter of png, jpg or jpeg, so `allowed_file`'s answer is the same.
- Validation.LowerChar: leaves every non-ASCII character as it is, where `str.lower` lower-cases capitals of other scripts (such as 'É'); for the same reason `allowed_file`'s answer is unaffected.
- Reports.DurationSeconds: timestamps are integer microseconds, not `datetime` values.
