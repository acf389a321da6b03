# Face-recognition attendance: a Dafny model of its decision logic

InFaceTime has three Tkinter programs that share a MySQL store. This project models the decision logic inside them as pure functions over immutable data and proves properties of it. The GUI, camera, encoder and database code around that logic is not modelled.

- **Recognition session** (`face_attendance.py`), modules `Matching` and `Recognition`.
  - The gallery of enrolled faces is three parallel lists.
  - A probe is matched to the first index of minimal distance, and accepted only within the 0.6 tolerance.
  - A resolved student is marked only when absent from the `today_attendance` ledger, and is then added to it.
  - Start, stop and the rescheduled `process_frame` callback form an explicit event-driven state machine.
  - Headline theorem `Recognition.NoDuplicateRowsAcrossDays`: start from a new session over an attendance table that has no duplicate rows and no row dated after the clock's starting date. Then, over any sequence of starts, stops and frames whose clock never goes back, no student receives a second attendance row for any day. This holds through restarts on the same or later days, failed inserts and duplicate probes. `Recognition.AtMostOneRowPerDay` is the one-day version, which needs no assumption about the dates frames read.
- **Enrollment** (`student_management.py`), module `Enrollment`.
  - Required-field validation and selection guards.
  - The five-sample capture loop.
  - The `<id>_<n>.jpg` naming scheme.
  - The element-wise mean that is persisted.
  - The prefix test used to delete a student's images.
- **Attendance reports** (`attendance_filter.py`), module `Reports`.
  - The parameterised report query.
  - What `fetch_data` yields on every error path.
  - The Excel export guards and its column widths.

Module `Text` holds the Python string behaviour these rely on: `str.strip`, `startswith`, integer formatting and `%s` marker counting. Module `Records` holds the shared rows and option types.

Inputs the code takes from the outside world are parameters of the model:
- Face distances are an uninterpreted function `dist` over embeddings. The tolerance test is `dist <= 0.6`, which is how `compare_faces` applies its tolerance.
- Camera reads are values: a failed read, or a frame with its probes or its face.
- The clock reading is a `Timestamp` parameter.
- Store outcomes are values: rows or an error, and whether an insert or update succeeded.
- `strptime` date validation is a predicate `isValidDate`.
- Each scheduled Tkinter `after(10, process_frame)` callback is a `FrameDue` event, and the session counts callbacks still pending.

## Model

| member | source | states |
|---|---|---|
| Matching.AppendRow | face_attendance.py:60-62 | the three gallery lists grow together by one, and the new index holds the row's encoding, id and name |
| Matching.LoadRows | face_attendance.py:58-62 | loading keeps the lists aligned, leaves earlier entries unchanged, and puts the k-th row with an encoding at index old size + k |
| Matching.LoadKnownFaces | face_attendance.py:54-65 | corrected loader: a store error leaves the gallery as it was; otherwise it gains exactly the rows that have an encoding, in store order |
| Matching.LoadKnownFacesAsWritten | face_attendance.py:54-65 | the loader as written fails exactly when some fetched row has a NULL encoding; a store error is caught and the gallery is unchanged |
| Matching.NullEncodingCrashesLoader | face_attendance.py:59 | one student without a captured face makes the as-written loader fail; the corrected loader leaves that student out |
| Matching.LoadersAgreeWithoutNulls | face_attendance.py:58-62 | when no row has a NULL encoding, the as-written and corrected loaders build the same gallery |
| Matching.ArgMin | face_attendance.py:262 | `np.argmin` returns an index whose distance is not above any other and is strictly below every earlier one, so the first minimum wins a tie |
| Matching.FirstMinimumUnique | face_attendance.py:262 | only one index has that first-minimum property |
| Matching.MatchIndex | face_attendance.py:251-264 | returns the first minimum when it is within tolerance; returns nothing exactly when every distance exceeds the tolerance |
| Matching.Resolve | face_attendance.py:251-266 | a probe resolves exactly when some entry is within tolerance, and then to the id and name at the first index of minimal distance |
| Matching.MatchRule | face_attendance.py:251-266 | given the first minimum i: within tolerance, the probe resolves to entry i; beyond tolerance, it resolves to nothing |
| Recognition.NewSession | face_attendance.py:16-31 | on the corrected loader: a new session's gallery is the one the loader builds from the student rows (one entry per student with an encoding, in store order), its table is the store's table, the ledger is empty, there is no capture, it is not running and no callback is pending |
| Recognition.HandleProbe | face_attendance.py:264-282 | issues a mark iff the probe resolves to an id not in the ledger; a resolved id is in the ledger afterwards; an unresolved probe changes nothing |
| Recognition.BeyondToleranceChangesNothing | face_attendance.py:264-283 | when the nearest entry is beyond tolerance there is no mark, and the ledger and table are unchanged |
| Recognition.FailedInsertStillLedgered | face_attendance.py:279-304 | a failed insert still puts the id into the ledger; the table gains no row and the mark is recorded as not stored |
| Recognition.HandleProbes | face_attendance.py:249-304 | over a frame's probes: the ledger grows by exactly the marked ids; marks are distinct and none was in the ledger before; every resolved id ends in the ledger; each mark comes from the first probe resolving to its student, carries that probe's identity and insert outcome, and the marks follow probe order; the table gains exactly one `(id, date, time)` row per stored mark, in mark order, all dated by the frame's clock reading |
| Recognition.HandleProbesAccount | face_attendance.py:249-283 | the per-probe loop keeps the ledger account and the traceability of every mark to a probe |
| Recognition.HandleProbesSourced | face_attendance.py:249-304 | over the per-probe loop, each mark is issued by the first probe resolving to its student, with that probe's insert outcome, in probe order |
| Recognition.DuplicateProbesMarkOnce | face_attendance.py:249-283 | probes of one frame that all resolve to one id, or to nothing, produce at most one mark |
| Recognition.HandleProbesKeepsOnePerDay | face_attendance.py:279-282 | if the ledger covers every student stored for a day, a frame adds no second row for any student on that day |
| Recognition.ProcessFrame | face_attendance.py:229-291 | when not running, without a capture, or on a failed read: no change, and the callback is not rescheduled; a good frame of a running session keeps the callback scheduled, puts every resolved id into the ledger, issues the marks of the frame's probes, and appends one row per stored mark to the table; the ledger only grows, by the ids marked |
| Recognition.LedgerOutlivesDate | face_attendance.py:279-282 | while a session runs, a frame on any date whose faces all resolve to students already in the ledger, or to nobody, marks no one and adds no row: the ledger is not reset when the date changes |
| Recognition.StartAttendance | face_attendance.py:177-209 | refuses exactly on an empty gallery, leaving the session unchanged; reports a closed camera exactly when the gallery is non-empty and the camera does not open, and a store error exactly when the camera opened and the store failed; after a non-empty gallery the capture object is kept on every path; a closed camera or a store error leaves the ledger and running flag alone; it starts iff the gallery is non-empty, the camera opens and the store answers, and the ledger is then exactly the ids stored for today |
| Recognition.StopAttendance | face_attendance.py:211-216 | stops the session and releases the capture; the ledger, table, gallery and pending callbacks are unchanged |
| Recognition.Step | face_attendance.py:177-291 | every event other than a start only grows the ledger, by distinct ids not already in it; a start issues no marks |
| Recognition.LedgerGrowsWithinSession | face_attendance.py:196-282 | between two starts, the ledger only grows by the ids marked, and each student is marked at most once |
| Recognition.StepKeepsConsistent | face_attendance.py:177-291 | every event preserves "one row per student for day D, and the ledger covers day D while running", when starts are dated D |
| Recognition.AtMostOneRowPerDay | face_attendance.py:177-304 | over any event sequence whose starts are all dated D, no student gets a second attendance row for D |
| Recognition.NewSessionConsistent | face_attendance.py:16-31 | a new session satisfies the consistency invariant for any day without duplicate rows |
| Recognition.StepKeepsConsistentSince | face_attendance.py:177-304 | every event whose date does not go back keeps, for each day: one row per student, no row dated after the clock, and, while running, a ledger covering that day when it is today or later |
| Recognition.ChronologicalRunKeepsOnePerDay | face_attendance.py:177-304 | over any run whose clock never goes back, across restarts on later days, no student gets a second row for the day |
| Recognition.NoDuplicateRowsAcrossDays | face_attendance.py:16-304 | from a new session on a duplicate-free table, a run whose clock never goes back leaves at most one row per student on every day |
| Text.Strip | student_management.py:168-171 | `str.strip()`: the result is the slice of the input left after a whitespace prefix and a whitespace suffix; it is empty exactly for all-whitespace input, and otherwise neither starts nor ends with whitespace |
| Text.StripIdempotent | student_management.py:168-171 | stripping twice is the same as stripping once |
| Text.NatToString | student_management.py:309 | the f-string text of a count is a non-empty string of digits |
| Text.DigitsValueOfNatToString | student_management.py:309 | reading the decimal text of n gives back n |
| Text.NatToStringInjective | student_management.py:309 | distinct counts give distinct texts |
| Text.CountMarkersConcat | attendance_filter.py:30-45 | the `%s` markers of a concatenation are the markers of the parts, provided no marker straddles the seam |
| Enrollment.StripForm | student_management.py:168-171 | every field is its entry with `str.strip()` applied; the id and name are empty exactly when their entries are blank |
| Enrollment.AddStudent | student_management.py:165-183 | rejected with no write iff the id or name is blank; otherwise it inserts the stripped fields, and department and email may be empty |
| Enrollment.UpdateStudent | student_management.py:195-220 | with no selection it is rejected before validation; then it is rejected iff the id or name is blank; otherwise it updates the selected row's `id` with the stripped fields |
| Enrollment.OptionalFieldsMayBeBlank | student_management.py:173-176 | a form with blank department and email is accepted by both add and update |
| Enrollment.SampleFileNamesDistinct | student_management.py:308-309 | two different sample counts give two different file names for the same student |
| Enrollment.SampleNames | student_management.py:308-309 | every name a capture session writes for a student is one that the delete filter for the same student (line 265) selects |
| Enrollment.SampleNamesDistinct | student_management.py:308-309 | the names written in one session are pairwise distinct |
| Enrollment.DeleteSelectsSample | student_management.py:264-266 | the delete filter for an id selects another student's sample iff that student's id equals it or starts with id + `_` |
| Enrollment.DeleteSelectsOtherStudentsSample | student_management.py:265 | deleting student "1" also deletes the first sample of student "1_5" |
| Enrollment.RemoveSamples | student_management.py:261-268 | the files that remain are exactly the files the prefix filter does not select |
| Enrollment.DeleteStudentAndFiles | student_management.py:231-259 | no selection, then no confirmation, each leave the files and issue nothing; otherwise the selected row is deleted, and the student's files are removed only if the store accepted the delete |
| Enrollment.FacesInAreFrameFaces | student_management.py:300-305 | every sample is the first face of some frame, and every frame with a face contributes its face |
| Enrollment.LoopStopsAtUnique | student_management.py:290-323 | the stopping conditions determine how many frames the loop reads |
| Enrollment.FiveFacesStopAtFive | student_management.py:290-323 | five frames in a row with a face and no ESC end the loop after the fifth frame with five samples |
| Enrollment.CaptureLoop | student_management.py:290-323 | at most 5 samples, equal to the faces of the frames read; the loop ends only on a failed or exhausted read, ESC, or the fifth sample, and no earlier frame met a stop condition |
| Enrollment.Mean | student_management.py:327 | each coordinate of the mean lies between the smallest and the largest value of that coordinate over the samples |
| Enrollment.MeanOfCopies | student_management.py:327 | averaging k copies of an encoding gives that encoding back |
| Enrollment.CaptureFace | student_management.py:270-338 | no selection or a closed camera stops first; otherwise the loop reads frames up to its one stopping point, one file is written per face found in those frames, named by the naming scheme, and the mean of exactly those faces is sent to the store iff at least one was found (even fewer than 5), keyed by the selected student id |
| Reports.ClausesHaveOneMarker | attendance_filter.py:31-39 | each filter clause carries exactly one `%s` marker |
| Reports.FixedTextsHaveNoPercent | attendance_filter.py:22-45 | the base SELECT and the ORDER BY text contain no `%`, so they carry no marker |
| Reports.AddClause | attendance_filter.py:30-40 | appending a clause and its parameter keeps one marker per parameter, and the earlier text stays a prefix |
| Reports.AddFilterClauses | attendance_filter.py:30-40 | the three filter blocks append the name, department and date clauses for the non-empty filters, in that order, with one parameter each in the same order |
| Reports.Assemble | attendance_filter.py:22-45 | the text is the head, the clauses of the non-empty filters, then the ordering, and has exactly as many markers as parameters |
| Reports.BuildQuery | attendance_filter.py:22-45 | rejected iff a non-empty date fails validation; otherwise the base query, then `s.name LIKE %s`, `s.department LIKE %s` and `a.date = %s` for the non-empty filters in that order, then `ORDER BY a.date DESC, a.time DESC`, with one marker per parameter and name and department wrapped as `%x%` |
| Reports.ParamsCountFilters | attendance_filter.py:28-40 | the number of parameters is the number of non-empty filters |
| Reports.UnfilteredQuery | attendance_filter.py:22-45 | with no filters, the query is the base text plus the ordering, with no parameters |
| Reports.FetchDataAsWritten | attendance_filter.py:17-56 | as written, the fetch raises iff the connection fails; otherwise it agrees with the corrected fetch |
| Reports.FetchData | attendance_filter.py:17-56 | an invalid date, a failed connection or a failed query yield no rows; otherwise exactly the rows the store returns |
| Reports.ConnectFailureRaises | attendance_filter.py:49-56 | the first load with the database down raises as written, and yields an empty table once corrected |
| Reports.EntryFilters | attendance_filter.py:69-71 | each filter is its entry with `str.strip()` applied, so it is empty exactly when the entry is all whitespace |
| Reports.InitialLoad | attendance_filter.py:64-66 | on the corrected fetch, the initial load shows every row the store returns, or nothing when the store fails |
| Reports.BlankSearchIsInitialLoad | attendance_filter.py:68-73 | a search with whitespace-only entries shows the same rows as the initial load |
| Reports.ColumnWidths | attendance_filter.py:105-107 | each of the 6 widths is at least the header length + 2 and at least each cell's text length + 2, and equals one of those values |
| Reports.ColumnWidthUnique | attendance_filter.py:105-107 | those conditions determine the width uniquely |
| Reports.ExportRows | attendance_filter.py:81-113 | each outcome happens exactly in its case: no rows stops before asking for a name; rows and no name end quietly; a save error is reported; otherwise it saves, and `<name>.xlsx` holds the "Attendance Report" sheet with the header, every row and those widths |
| Reports.ExportReport | attendance_filter.py:75-113 | on the corrected fetch, the export fetches with the stripped entries: it has nothing to export exactly when the same search is empty; otherwise it ends quietly exactly when the name is missing or empty, reports a save error exactly when the save fails, and saves in the remaining case, with `<name>.xlsx` holding the sheet title, the header, exactly the rows that search shows and their column widths |

## Left out

- The Tkinter widgets, message boxes and status texts, and the Treeview refresh are not modelled. This includes `load_attendance_data` (face_attendance.py:147-175) and `load_students`: they only display rows.
- The camera and image processing are not modelled: OpenCV capture, colour conversion, resizing, drawing, the ×4 box scaling and `imwrite`. Reads are inputs.
- The face detector and encoder are not modelled. Distances enter as the uninterpreted function `dist`, and encodings as sequences of reals.
- Float64 arithmetic and byte serialisation (`tobytes`/`frombuffer`) are not modelled.
  - The mean is over reals.
  - A stored blob whose length is not a multiple of 8 (a `ValueError` in `frombuffer`) is not modelled.
- The database is not modelled: connections, SQL evaluation (`LIKE`, the join, ordering) and `commit`. A store answer is an input.
  - Duplicate-key `IntegrityError` messages in add and update are not modelled.
  - `Enrollment.AddStudent` and `Enrollment.UpdateStudent` model the write that is issued, not its outcome.
- Reports.FetchData: states which rows are returned, in terms of the store's answer. It does not state how the store filters rows for the query.
- `strptime` is not modelled. It is the parameter `isValidDate`.
- openpyxl is not modelled: the bold font and the actual file contents. The workbook is a record of name, title, header, rows and widths.
- Enrollment.RemoveSamples: models the name filter only and assumes every selected removal succeeds; `os.listdir`, `os.remove` and their swallowed errors are not modelled.
- Enrollment.CaptureFace: assumes every `imwrite` succeeds. It requires all encodings to have one dimension, as the encoder guarantees.
- The disabled state of the Start button while running is not modelled. The model accepts a start while running, which schedules a second callback chain, and the proved invariants hold for that case too.
- The clock is read once per frame: every mark of a frame carries the same timestamp. `mark_attendance` reads it again for each insert (face_attendance.py:296), so a frame handled across midnight could date its rows on two days; the model does not cover that.
- `start_attendance` calls `process_frame` directly (face_attendance.py:209). The model schedules that first call as a pending callback, so it runs at the next `FrameDue` event; the immediate call is one of the traces this includes.
- Recognition.AtMostOneRowPerDay: covers only runs whose starts are all on one day. Runs across several days are covered by `Recognition.NoDuplicateRowsAcrossDays`, which instead assumes that the clock never goes back.
- Matching.ArgMin: requires a non-empty distance list. `process_frame` only runs after a start, and a start refuses an empty gallery, so `argmin` is never called on an empty list.
- In these places the model follows the code:
  - Enrollment persists the mean of any number of samples from 1 to 5, not only of 5.
  - A failed frame read ends the recognition loop because the callback is not rescheduled. It does not skip to the next frame.
  - The ledger is not reset when the date rolls over during a running session, only at the next start.
  - A student without a stored encoding crashes the loader rather than being omitted. That is the first finding below, and the corrected loader omits the student.

## Findings

| source | as written | input that shows it | evidently intended | confidence | as-written member | corrected member |
|---|---|---|---|---|---|---|
| face_attendance.py:58-63 | `np.frombuffer(encoding_bytes, ...)` runs for every student row, and only `mysql.connector.Error` is caught | a student who was added but whose face was never captured (`face_encoding` is NULL): `frombuffer(None)` raises `TypeError` and construction fails | students without an encoding are left out of the gallery | not executed | Matching.LoadKnownFacesAsWritten | Matching.LoadKnownFaces |
| attendance_filter.py:19-56 | the `finally` reads `cursor` even when `connect` raised before `cursor` was assigned | the database is down when the viewer opens: `UnboundLocalError` replaces the `return []` of the `except` | a failed connection shows an error and yields no rows | not executed | Reports.FetchDataAsWritten | Reports.FetchData |
