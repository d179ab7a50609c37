# Attendance system core, modelled in Dafny

The system is a face-recognition attendance kiosk. Its logic is spread over six Python
files. This project states and proves what those files do once their GUI, databases and
neural networks are taken out:

- **Student table** (`DB_management.py`). The SQLite `STUDENTS` table is a sequence of
  `(name, date)` rows. A row with a NULL date is the registration row. Any other row is one
  attendance. `RecordAttendance` is the once-per-day gate: it checks, then inserts.
- **Report** (`web_server.py`). The pandas `groupby('student_name')` gives one record per
  distinct name, in ascending code-point order. The count is the number of rows less one.
  A loop then rewrites each record's list of dates, in place, as `" ; ".join(list[1:])`.
- **Dashboard** (`main.py`). It covers the student table shown on screen and the
  `wrap_text` line wrapper with its round trip and line-length bound. It also covers the
  16-bucket histogram, bulk registration from a list of names, and the decisions of the
  admin-registration, student-registration and add-attendance handlers.
- **Admin table** (`db_amin.py`, `DB_admin.py`). These are two revisions of one
  `(username, password hash)` table. bcrypt is an abstract hash that identifies its
  password. A hash value bcrypt cannot parse makes `checkpw` raise ValueError.
  - The first revision refuses an empty name on delete and lets database errors
    propagate.
  - The second revision catches `sqlite3.Error`. The `fault` argument of each of its
    methods says whether the statement raised.
- **Recognition loop** (`recognition.py`). This covers the constructor's checks and the
  `recognize_faces` loop.
  - The webcam replays a script of captures. Each frame carries the detector's output and
    the `waitKey` result. Each detection carries the answers of `face_encodings` and
    `compare_faces` for its face region.
  - Only every third frame is processed. A detection is dropped when its confidence is
    below 0.5, when a side is under 20 pixels, or when its region is empty.
  - The label is the name at the first `True` of `compare_faces`.
  - The camera is released however the loop ends. A second call on a released camera
    fails its first read and shows nothing.

Modules: `Common` (Option, Status, Fetch), `Text` (Python's `join`, `split(", ")`,
`split("\n")` and code-point order), `StudentDb`, `Report`, `Wrap`, `Dashboard`,
`AdminCore` (what both admin revisions share), `StrictAdmin` (db_amin.py), `TolerantAdmin`
(DB_admin.py) and `Recognition`.

`recognition.py` picks the first `True` of `compare_faces`, not the closest match. It
hard-codes 0.5 and resizes to 672×384. The model follows the code. The resize only feeds
the detector, which is an oracle here.

## Model

| member | source | states |
|---|---|---|
| StudentDb.ScanForName | DB_management.py:44-47 | true exactly when some row's name equals the given name |
| StudentDb.CountOn | DB_management.py:61-62 | the `COUNT(*)` of `(name, day)` rows is zero exactly when the student has no attendance row for that day |
| StudentDb.Record | DB_management.py:59-66 | the gate adds a row exactly when no `(name, today)` row exists; the row added is `(name, today)` at the end; otherwise the table is unchanged |
| StudentDb.Rename | DB_management.py:53-57 | same number of rows; every row named `old_name` now carries `new_name` and keeps its date; every other row is unchanged |
| StudentDb.Remove | DB_management.py:42 | no row with the name remains, and every row with another name keeps its multiplicity |
| StudentDb.RemoveKeepsOrder | DB_management.py:42 | the rows that survive the delete keep their table order: deleting from two runs of rows gives the survivors of the first run followed by those of the second |
| StudentDb.SortByName | DB_management.py:35-36 | `ORDER BY Student_name ASC`: the result is sorted by name and is a permutation of the table |
| StudentDb.RecordKeepsOncePerDay | DB_management.py:59-66 | recording preserves "no `(name, date)` attendance pair occurs twice" |
| StudentDb.RecordTwiceSameDay | DB_management.py:59-66 | two calls on one day return true then false, and leave exactly one `(name, today)` row |
| StudentDb.RegistrationRowIsNotAttendance | DB_management.py:61-62 | an extra NULL-date row for the student never changes the gate's decision |
| StudentDb.RecordWithoutRegistration | DB_management.py:59-64 | recording succeeds for a name that was never registered |
| StudentDb.RenameCanBreakOncePerDay | DB_management.py:53-57 | renaming Ana to Ben when both attended on 2024-05-06 leaves two identical attendance rows, so the update does not keep the gate's invariant |
| StudentDb.StudentTable.constructor | DB_management.py:27-33 | the table holds the rows it already had (`CREATE TABLE IF NOT EXISTS`) |
| StudentDb.StudentTable.GetStudents | DB_management.py:35-36 | returns the rows sorted by name, as a permutation of the table |
| StudentDb.StudentTable.DeleteStudents | DB_management.py:38-42 | an empty name gives ValueError "Student name must be provided" and no change; otherwise every row with that name is removed and all others are kept |
| StudentDb.StudentTable.CheckStudent | DB_management.py:44-47 | true exactly when some row has that exact name |
| StudentDb.StudentTable.AddStudent | DB_management.py:49-51 | appends `(name, NULL)` with no duplicate check |
| StudentDb.StudentTable.UpdateStudent | DB_management.py:53-57 | the table becomes the renamed table |
| StudentDb.StudentTable.RecordAttendance | DB_management.py:59-66 | returns true exactly when no `(name, today)` row existed; then exactly that row is appended, otherwise nothing changes |
| StudentDb.StudentTable.GetAttendance | DB_management.py:68-69 | every row, in table order |
| Text.Join | main.py:92 | `sep.join(parts)` (also `" ; ".join` at web_server.py:37): the text starts with the first part, followed by the separator when there are more parts; joining with `", "` undoes `Text.Split` |
| Text.Split | main.py:66 | `text.split(', ')` never gives an empty list, and its pieces joined with `", "` give back the text (`Text.SplitRoundTrip`); no piece contains the separator (`Text.SplitNoSeparator`) |
| Text.SplitRoundTrip | main.py:66 | joining the pieces of `text.split(', ')` with `", "` gives back the text |
| Text.SplitNoSeparator | main.py:66 | no piece of `text.split(', ')` contains `", "`, so with the round trip the pieces are the text cut at each separator |
| Report.FilledDate | web_server.py:30 | defines `fillna("")`: a registration row's NULL date shows as `""`; used by `Report.DatesOf` |
| Report.Names | web_server.py:31-33 | the group keys are strictly ascending, and a name is a key exactly when some row has it |
| Report.DatesOf | web_server.py:30-32 | a group's dates are non-empty exactly when the student has a row, and number at most the rows |
| Report.DatesOfAppend | web_server.py:32 | appending a row for the student appends its filled date to the group's list, in row order |
| Report.AttendanceCount | web_server.py:32 | `max(0, len(x) - 1)`: zero, or less than the number of rows; its value is stated in `Report.ReportRecordContents` |
| Report.Grouped | web_server.py:31-35 | one record per distinct name |
| Report.ReportOf | web_server.py:31-37 | the report has one record per distinct name |
| Report.JoinDates | web_server.py:37 | the rewrite leaves name and count alone and turns the date list into text; its text is stated in `Report.ReportRecordContents` |
| Report.GenerateReportData | web_server.py:25-41 | a failed read gives `[]`; otherwise the grouped report with every date list turned into text |
| Report.RewriteDates | web_server.py:36-37 | the in-place loop replaces each record by its `" ; "`-joined form, record by record |
| Report.GetStudentData | web_server.py:15-22 | the rows, or `[]` when the read raised |
| Report.ReportOnePerStudent | web_server.py:31-35 | names strictly ascending, and every student with a row has a record |
| Report.ReportRecordContents | web_server.py:30-37 | a record's count is its rows less one, and its dates are the student's filled dates in row order after the first, joined by `" ; "` |
| Report.RegisteredOnlyStudent | web_server.py:30-37 | a student whose only row is the registration row gets count 0 and dates `""` |
| Report.DatesOfSingle | web_server.py:30-32 | a student with one row has exactly that row's filled date |
| Report.DatesOfAbsent | web_server.py:31-32 | a name without rows has no dates |
| Report.RecordingExtendsReport | web_server.py:32 | a successful attendance record appends today to the student's dates and raises the count by one |
| Wrap.WrapTextLoop | main.py:65-81 | the loop computes the fold of one wrapping step per piece of `text.split(', ')` |
| Wrap.Step | main.py:71-79 | one loop iteration; the text only grows, by at least the word; properties in `Wrap.StepKeepsLinesGood` and `Wrap.UnwrapStep` |
| Wrap.WrapText | main.py:65-81 | what `wrap_text` returns, the fold of `Wrap.Step` over the split; properties in `Wrap.WrapLineBound` and `Wrap.WrapRoundTrip` |
| Wrap.StepKeepsLinesGood | main.py:71-79 | one step keeps the invariant: finished lines fit or are a single word, and the current line fits unless it is a single word |
| Wrap.WrapWordsKeepsLinesGood | main.py:70-79 | the invariant holds after any number of words |
| Wrap.WrapLineBound | main.py:65-81 | for a newline-free text, every output line is at most `max_chars_per_line` long unless it is one piece of the split |
| Wrap.UnwrapWrapWords | main.py:70-79 | once output has started, each word arrives after a `", "` or a newline, so turning newlines back into `", "` gives the words joined by `", "` |
| Wrap.WrapRoundTrip | main.py:65-81 | for a newline-free text with a non-empty first piece, the unwrapped output is the text, after an extra `", "` when the first word alone overflows |
| Wrap.WrapAfterEmptyFirstWord | main.py:65-81 | when `max_chars_per_line >= 2` and the rest has no newline, a text starting with an empty piece loses that piece and its separator, but the piece still counts two characters |
| Dashboard.ShowStudentDb | main.py:83-95 | one tuple per distinct name, names strictly ascending, every student with a row listed |
| Dashboard.ShowMatchesReport | main.py:83-95 | the dashboard and the web report list the same names with the same counts |
| Dashboard.CellIsWrappedJoin | main.py:91-94 | a cell is `wrap_text` applied to the `", "`-join of all the student's filled dates |
| Dashboard.ShowDatesAfterRegistration | main.py:83-94 | after a leading registration row and ISO dates, the unwrapped cell is exactly the attended dates joined by `", "` |
| Dashboard.ShowDatesAllAttended | main.py:83-94 | when every date is an ISO date, the unwrapped cell is all of them joined by `", "` |
| Dashboard.ShowDatesLineBound | main.py:83-94 | when no stored date contains a newline (strftime dates never do), every line of a cell is at most 60 characters unless it is a single piece |
| Dashboard.StudentsWith | main.py:240-246 | a bucket never counts more students than there are |
| Dashboard.AttendanceHistogram | main.py:240-246 | 16 buckets, and bucket k counts exactly the students whose count is k |
| Dashboard.BucketsCountBelow | main.py:240-246 | together the buckets hold exactly the students with fewer than 16 attendances; larger counts are ignored |
| Dashboard.NewRegistrations | main.py:97-104 | the rows the loop adds: at most one per listed name, each a NULL-date registration row; properties in `Dashboard.AllListedRegistered` and `Dashboard.NoDuplicateRegistrations` |
| Dashboard.RegisterMultipleStudents | main.py:97-104 | the table gains exactly the registration rows the check-then-add loop produces |
| Dashboard.AllListedRegistered | main.py:97-104 | afterwards every listed name is registered |
| Dashboard.NoDuplicateRegistrations | main.py:97-104 | added rows are NULL-date rows for listed names absent before; a name already present, or listed twice, is added once at most |
| Dashboard.RegistrationOutcome | main.py:617-632 | accept exactly when username and password are non-empty and the password has at least 8 characters; "Invalid username or password" exactly when one is empty; the length error exactly when a non-empty password is too short |
| Dashboard.RegisterEvent | main.py:617-632 | only an accepted registration writes, and it appends exactly `(username, Hash(password))` unless the store swallowed an error, in which case the table is unchanged and success is still reported |
| Dashboard.RegisteredAdminCanLogIn | main.py:617-632 | a newly registered admin logs in with that password and with no other |
| Dashboard.RegisterStudentEvent | main.py:372-389 | an already registered name or a missing frame adds nothing and gives its message; otherwise exactly one registration row is added |
| Dashboard.AddAttendanceEvent | main.py:352-370 | a missing frame or a failed check writes nothing and gives its message; a successful check gives "added" exactly when the gate recorded, with its one row, and "already recorded" otherwise |
| AdminCore.CheckPassword | db_amin.py:42-46 | the stored hash of a password accepts it, another hash rejects it, and a malformed hash raises ValueError |
| AdminCore.FirstHash | db_amin.py:37-39 | none exactly when no row has the username; else the hash of the first row with it |
| AdminCore.LoginAccepted | db_amin.py:36-47 | the login decision of a table that answers; true only for a username that has a row; properties in `AdminCore.LoginAfterAdd`, `AdminCore.LoginAfterUpdate` and `AdminCore.MalformedHashRejects` |
| AdminCore.Hash | db_amin.py:27 | `bcrypt.hashpw` always yields a well-formed hash; `AdminCore.CheckPassword` accepts it for its own password only |
| AdminCore.RemoveUser | db_amin.py:34 | no row with the username remains; rows of other users keep their multiplicity |
| AdminCore.RemoveUserKeepsOrder | db_amin.py:34 | the rows that survive the delete keep their table order, as for the student table |
| AdminCore.SetHash | db_amin.py:62 | same length; every row of the user carries the new hash, other rows unchanged |
| AdminCore.Usernames | db_amin.py:54-57 | one username per row, in table order |
| AdminCore.FirstHashAppend | db_amin.py:36-39 | appended rows matter to the lookup only when the earlier rows lack the username |
| AdminCore.LoginAfterAdd | db_amin.py:26-28 | a freshly added admin logs in with that password and with no other |
| AdminCore.AddForExistingUserIsShadowed | db_amin.py:26-47 | a second row for an existing username never changes who can log in: the first row decides |
| AdminCore.LoginAfterUpdate | db_amin.py:60-62 | after a password update for an existing user, exactly the new password logs in |
| AdminCore.MalformedHashRejects | db_amin.py:42-47 | a malformed deciding hash gives false for every password instead of raising |
| StrictAdmin.AdminTable.constructor | db_amin.py:19-24 | the table holds its existing rows |
| StrictAdmin.AdminTable.AddAdmin | db_amin.py:26-28 | appends `(username, Hash(password))`, even for a taken username; the password itself is never stored |
| StrictAdmin.AdminTable.DeleteAdmin | db_amin.py:30-34 | an empty name raises ValueError "Admin name must be provided" and changes nothing; otherwise all rows of the user go |
| StrictAdmin.AdminTable.CheckAdmin | db_amin.py:36-47 | true exactly when the first row with the username holds the hash of the password |
| StrictAdmin.AdminTable.AdminExists | db_amin.py:49-52 | true exactly when the table has a row |
| StrictAdmin.AdminTable.ListAdmins | db_amin.py:54-57 | one username per row, in table order |
| StrictAdmin.AdminTable.UpdateAdminPassword | db_amin.py:60-62 | every row of the user gets the new hash, other rows unchanged |
| TolerantAdmin.ListAdminsAsWritten | DB_admin.py:80-87 | as written: a failed query raises TypeError out of `list_admins`; otherwise the usernames |
| TolerantAdmin.ListAdminsAsWrittenEscapes | DB_admin.py:80-87 | on a failed query the result is the escaping TypeError, not the None the handler means to return |
| TolerantAdmin.AdminTable.constructor | DB_admin.py:27-36 | the table holds its existing rows |
| TolerantAdmin.AdminTable.AddAdmin | DB_admin.py:38-44 | `db_add_admin` appends `(username, Hash(password))` with no name check; when the statement raises, `db_execute` (DB_admin.py:12-25) catches the error and the table is unchanged |
| TolerantAdmin.AdminTable.DeleteAdmin | DB_admin.py:46-52 | no empty-name guard; removes every row with the given username; a failed statement changes nothing |
| TolerantAdmin.AdminTable.CheckAdmin | DB_admin.py:54-69 | false on a database error; otherwise true exactly when the first row with the username holds the hash of the password |
| TolerantAdmin.AdminTable.AdminExists | DB_admin.py:71-78 | true exactly when the query succeeds and the table has a row |
| TolerantAdmin.AdminTable.ListAdmins | DB_admin.py:80-87 | corrected: never raises; None exactly on a database error, otherwise one username per row |
| TolerantAdmin.AdminTable.UpdateAdminPassword | DB_admin.py:89-95 | rewrites the hash of every row of the user; a failed statement changes nothing |
| Recognition.InitCheck | recognition.py:11-53 | exits on mismatched counts, then empty encodings, then empty model path, then empty binary path, then an unopened webcam, then a model that does not load, each exactly when all earlier checks passed; the empty-names exit is unreachable |
| Recognition.Trunc | recognition.py:90-93 | Python's `int()` truncates toward zero |
| Recognition.ScaleBox | recognition.py:90-93 | normalised coordinates in [0, 1] give pixel coordinates inside the frame |
| Recognition.SliceLength | recognition.py:100 | a slice inside the dimension has length `hi - lo`, and no slice is longer than the dimension |
| Recognition.RoiEmpty | recognition.py:99-102 | `face_roi.size == 0`: for bounds inside the frame, the region is empty exactly when a side is zero or inverted |
| Recognition.FirstTrue | recognition.py:110-111 | none exactly when no `True`; else the index of the first `True` |
| Recognition.Judge | recognition.py:87-112 | the verdict on one detection: dropped for low confidence exactly when below 0.5, and the lookup fails only when `compare_faces` gave more answers than there are names; properties in `Recognition.JudgeLabelled` |
| Recognition.JudgeLabelled | recognition.py:86-112 | a drawn detection has confidence at least 0.5, its scaled box, both sides at least 20, a non-empty region and a face; its label is the name at the first match, or "Unknown" when nothing matched |
| Recognition.InFrameBoxHasRoi | recognition.py:96-102 | for coordinates in [0, 1], a box that passes the size filter has a non-empty region |
| Recognition.NoBadIndexWithMatchingGallery | recognition.py:108-112 | with one `compare_faces` answer per known name, the name lookup never fails |
| Recognition.Annotate | recognition.py:86-116 | the `for obj in detections` loop as a fold; at most one annotation per detection; properties in `Recognition.AnnotateSound` |
| Recognition.Labels | recognition.py:86-116 | the annotations of the detections that pass every filter, at most one per detection |
| Recognition.LabelsAppend | recognition.py:86-116 | labelling keeps detection order: the labels of a concatenation are the labels of the first part, then of the second |
| Recognition.LabelsComplete | recognition.py:86-116 | every label is the verdict of a detection, and every detection that passes all filters is labelled |
| Recognition.AnnotateSound | recognition.py:86-116 | a frame raises IndexError exactly when a detection's lookup fails; otherwise its annotations are exactly `Recognition.Labels` of its detections, in detection order |
| Recognition.ProcessDetections | recognition.py:86-116 | the loop with its `continue`s computes the per-frame annotations or the IndexError |
| Recognition.CrashPersists | recognition.py:86-116 | an exception partway through a frame ends the frame |
| Recognition.IsQuit | recognition.py:119 | `waitKey(1) & 0xFF == ord('q')`: for a key code in 0..255, true exactly for `q` |
| Recognition.RunFrom | recognition.py:61-73 | the loop from a script position; the frame counter never goes down, and the camera is read up to a position within the script; properties in `Recognition.FrameSchedule` |
| Recognition.FrameSchedule | recognition.py:61-73 | the shown frames are exactly those numbered 3, 6, 9, … up to the last frame read; only a frame that raised is missing; a quit or an error happens on a processed frame |
| Recognition.ShownFramesAreOwnLabels | recognition.py:61-118 | shown frame number `n` of a loop started at script position `pos` with counter `c` is the capture at `pos + n - c - 1`, a frame whose detector answered, and its annotations are exactly `Recognition.Labels` of that capture's own detections, so nothing from a skipped or another frame is drawn |
| Recognition.Camera.Read | recognition.py:65-68 | returns the next capture and advances; at the end of the script or after `release()` it fails without advancing |
| Recognition.Camera.Release | recognition.py:125 | marks the camera released |
| Recognition.FaceRecognition.constructor | recognition.py:27-33 | stores the gallery, the paths and the camera |
| Recognition.FaceRecognition.Create | recognition.py:11-53 | exits with the first failing check, otherwise gives an object with the gallery and a fresh, unreleased camera |
| Recognition.FaceRecognition.RecognizeFaces | recognition.py:60-127 | the camera is released on every exit path; on a camera released before, nothing is shown and the exit is a read failure; otherwise the result is the trace of the loop over the rest of the script; the camera ends where the trace says it was read to |

## Left out

- Connections, cursors, commits and `with`-block semantics of SQLite are not modelled. In
  `DB_management.py` and `db_amin.py` every statement is assumed to succeed; an SQLite
  error there would propagate to the caller.
- The `Id` column is not modelled: `SELECT *` in `db_get_students` is modelled as the
  `(name, date)` rows.
- StudentDb.StudentTable.GetStudents: the order of rows with equal names is left open,
  because SQLite does not fix it; the contract says sorted and a permutation.
- The queries without `ORDER BY` are modelled as returning rows in insertion (rowid)
  order, which is what SQLite does for a full scan of these unindexed tables but does not
  promise: `db_check_admin`'s `result[0]` (db_amin.py:37, DB_admin.py:56), the username
  lists (db_amin.py:55, DB_admin.py:82) and `db_get_attendance` (DB_management.py:69). The
  first-row login rule and the per-student date order of the report and the dashboard
  (AdminCore.FirstHash, AdminCore.AddForExistingUserIsShadowed, AdminCore.Usernames,
  Report.DatesOf, Report.ReportRecordContents) rest on this assumption.
- The `self.name`, `self.student_name`, `self.username`, `self.old_name` and
  `self.new_name` stashes have no effect on any result and are not modelled.
- `datetime.now().strftime("%Y-%m-%d")` is the `today` parameter.
- AdminCore.Hash: bcrypt is modelled without salt, cost or 72-byte truncation. As a
  result, `Hash` is deterministic and identifies its password.
- Text encoding (`encode('utf-8')`, `str` versus `bytes` hashes) is not modelled.
- In `DB_admin.py`, `db_connect` can return None after a failed connect. Then `with None`
  raises an error that `except sqlite3.Error` does not catch. This is not modelled: `fault`
  stands only for a statement raising `sqlite3.Error`. Printing and logging of errors are
  not modelled.
- `init_admin_db` and `db_students_init` are not modelled beyond "the table exists with its
  rows". `CREATE TABLE IF NOT EXISTS` changes nothing.
- From `main.py`, only the handlers' decisions are modelled, with popup texts as strings.
  Left out: widget construction, frames and their switching, popups as windows, the login
  form and remember-me, admin deletion from the dropdown, matplotlib drawing, the Picamera2
  preview loop (`update_frame`), saving and moving pictures with `subprocess`, the
  `os.system` reset, the file dialog, and the Excel export of
  `generate_attendance_report`. That export's grouping is `Report.Grouped`.
- `register_multiple_students` does not model opening the file or `splitlines()`. It takes
  the list of lines.
- `main.py` imports `recognition.Recognition` with a `check` method,
  `db_management.DBManagement` and `db_admin.DBAdmin`. These names match none of the modules
  described above exactly. The face check is the boolean `recognized`. The student store is
  `StudentDb.StudentTable`. The admin store of `register_event` is `TolerantAdmin.AdminTable`,
  because `db_admin` differs from `DB_admin.py` only in letter case. `db_amin.py` is kept as
  `StrictAdmin`, the other revision of the same class.
- From `recognition.py`, these are not modelled: OpenVINO loading and inference, the
  `cv2` resize, transpose, colour conversion, drawing, `imshow` and `destroyAllWindows`,
  pixel data, the `putText` position, the input and output blob names, and the layout of
  the `detections[0][0]` tensor. A frame's `inference` field is the detector's answer,
  with None for a raised exception.
- `face_encodings` and `compare_faces` are oracles recorded in each detection. Their
  distance numerics and tolerance are not modelled, and neither are exceptions raised by
  them, by `cvtColor`, `imshow` or `waitKey`. Only an inference failure and an
  out-of-range name index end the loop with an error.
- Confidences and normalised coordinates are exact reals. Float rounding is not modelled.
  Python's slice clamping, negative indices included, is modelled exactly.
- `exit()` in `__init__` is modelled as an `InitError` result. `isOpened()` and the
  model's loading are the booleans `webcamOpens` and `modelLoads`.
- The webcam is a finite script of captures. Reading past its end is a failed read.
- `web_server.py`: `kill_process_on_port` (shell, `lsof`, signals), the Flask routes and
  templates, and the `__main__` block are not modelled. `get_student_data` and
  `generate_report_data` here fail only through the database read (`Fetch`). pandas raises
  nothing else on well-formed rows.
- `UI.py` is not part of this model: it is widget layout only.

## Findings

| source | as written | input that shows it | evidently intended | confidence | as-written member | corrected member |
|---|---|---|---|---|---|---|
| DB_admin.py:80-87 | `db_execute` catches the SQLite error and returns None, then `[row[0] for row in result]` iterates over None and raises TypeError, which `except sqlite3.Error` does not catch | any call of `list_admins` whose `SELECT username FROM admin` raises `sqlite3.Error` (for example a locked or unreadable `admin.db`) | return None, as the `except` branch does | not executed | TolerantAdmin.ListAdminsAsWritten | TolerantAdmin.AdminTable.ListAdmins |
