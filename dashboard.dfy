/** main.py without the GUI: the student table shown on the dashboard, the attendance
    histogram, bulk registration from a list of names, and the decisions taken by the
    registration, student-registration and add-attendance handlers. */
module Dashboard {
  import opened Common
  import opened Text
  import opened StudentDb
  import opened Report
  import opened Wrap
  import opened AdminCore
  import TolerantAdmin

  // ---------------------------------------------------------------- show_student_db

  /** One tuple of `show_student_db`: name, attendance count, wrapped dates. */
  datatype StudentLine = StudentLine(name: string, count: nat, dates: string)

  /** The default of `wrap_text`'s `max_chars_per_line`. */
  const MaxCharsPerLine: nat := 60

  /** `show_student_db`: per distinct name in ascending order, `max(0, n - 1)` and the
      wrapped `", "`-join of all that name's dates in row order, NULL shown as "". */
  function ShowStudentDb(rows: seq<Row>): (lines: seq<StudentLine>)
    ensures |lines| == |Names(rows)|
    ensures forall i, j :: 0 <= i < j < |lines| ==> Less(lines[i].name, lines[j].name)
    ensures forall n :: HasName(rows, n) <==> exists i :: 0 <= i < |lines| && lines[i].name == n
  {
    var names := Names(rows);
    var lines := seq(|names|, i requires 0 <= i < |names| =>
      StudentLine(names[i], AttendanceCount(rows, names[i]),
                  WrapText(Join(DatesOf(rows, names[i]), ", "), MaxCharsPerLine)));
    assert forall n :: n in names <==> exists i :: 0 <= i < |lines| && lines[i].name == n by {
      forall n | n in names ensures exists i :: 0 <= i < |lines| && lines[i].name == n {
        var i :| 0 <= i < |names| && names[i] == n;
        assert lines[i].name == n;
      }
    }
    lines
  }

  /** The dashboard and the web report list the same students with the same counts. */
  lemma ShowMatchesReport(rows: seq<Row>)
    ensures var lines := ShowStudentDb(rows);
            var report := ReportOf(rows);
            |lines| == |report| &&
            forall i :: 0 <= i < |lines| ==>
              lines[i].name == report[i].studentName && lines[i].count == report[i].attendanceCount
  {
  }

  /** `strftime('%Y-%m-%d')`: ten characters, digits and dashes. */
  predicate IsoDate(d: string)
  {
    |d| == 10 && forall k :: 0 <= k < 10 ==> ('0' <= d[k] <= '9' || d[k] == '-')
  }

  /** Splitting on ", " keeps a comma-free prefix inside the piece being collected. */
  lemma {:induction false} SplitFromCommaFree(w: string, t: string, cur: string)
    requires ',' !in w
    ensures SplitFrom(w + t, cur) == SplitFrom(t, cur + w)
    decreases |w|
  {
    if |w| == 0 {
      assert w + t == t;
      assert cur + w == cur;
    } else {
      assert (w + t)[0] == w[0] && (w + t)[1..] == w[1..] + t;
      assert w[0] in w;
      assert forall c :: c in w[1..] ==> c in w;
      SplitFromCommaFree(w[1..], t, cur + [w[0]]);
      assert cur + [w[0]] + w[1..] == cur + w;
    }
  }

  /** The first piece of a `", "`-join whose first part has no comma is that part. */
  lemma SplitJoinFirst(parts: seq<string>)
    requires |parts| > 0 && ',' !in parts[0]
    ensures Split(Join(parts, ", "))[0] == parts[0]
  {
    if |parts| == 1 {
      assert Join(parts, ", ") == parts[0] + "";
      SplitFromCommaFree(parts[0], "", "");
    } else {
      var rest := Join(parts[1..], ", ");
      assert Join(parts, ", ") == parts[0] + (", " + rest);
      SplitFromCommaFree(parts[0], ", " + rest, "");
      assert (", " + rest)[2..] == rest;
    }
  }

  lemma {:induction false} JoinNoNewline(parts: seq<string>)
    requires forall k :: 0 <= k < |parts| ==> '\n' !in parts[k]
    ensures '\n' !in Join(parts, ", ")
  {
    if |parts| > 1 {
      JoinNoNewline(parts[1..]);
      assert Join(parts, ", ") == parts[0] + ", " + Join(parts[1..], ", ");
    }
  }

  lemma IsoDateShape(d: string)
    requires IsoDate(d)
    ensures ',' !in d && '\n' !in d && d != ""
  {
    forall c | c in d ensures '0' <= c <= '9' || c == '-' {
      var k :| 0 <= k < |d| && d[k] == c;
    }
  }

  /** The dates, in row order, behind the dates cell of line `i`. */
  function CellDates(rows: seq<Row>, i: nat): (dates: seq<string>)
    requires i < |ShowStudentDb(rows)|
  {
    DatesOf(rows, ShowStudentDb(rows)[i].name)
  }

  lemma CellIsWrappedJoin(rows: seq<Row>, i: nat)
    requires i < |ShowStudentDb(rows)|
    ensures |CellDates(rows, i)| > 0
    ensures ShowStudentDb(rows)[i].dates == WrapText(Join(CellDates(rows, i), ", "), MaxCharsPerLine)
  {
    var n := ShowStudentDb(rows)[i].name;
    assert Names(rows)[i] == n;
    assert n in Names(rows);
  }

  /** For a student whose first row is the registration row and who attended on the
      ISO dates after it, the dates cell, with its line breaks put back as ", ", is
      exactly those dates joined by ", ": the leading empty piece of the registration
      row disappears and nothing else is lost. */
  lemma ShowDatesAfterRegistration(rows: seq<Row>, i: nat)
    requires i < |ShowStudentDb(rows)|
    requires |CellDates(rows, i)| >= 2 && CellDates(rows, i)[0] == ""
    requires forall k :: 1 <= k < |CellDates(rows, i)| ==> IsoDate(CellDates(rows, i)[k])
    ensures Unwrap(ShowStudentDb(rows)[i].dates) == Join(CellDates(rows, i)[1..], ", ")
  {
    var ds := CellDates(rows, i);
    var attended := ds[1..];
    forall k | 0 <= k < |attended| ensures '\n' !in attended[k] {
      assert attended[k] == ds[k + 1];
      IsoDateShape(attended[k]);
    }
    IsoDateShape(attended[0]);
    JoinNoNewline(attended);
    SplitJoinFirst(attended);
    assert ds == [""] + attended;
    JoinCons("", attended, ", ");
    assert Join(ds, ", ") == ", " + Join(attended, ", ");
    WrapAfterEmptyFirstWord(Join(attended, ", "), MaxCharsPerLine);
    CellIsWrappedJoin(rows, i);
  }

  /** For a student whose dates are all ISO dates (attendance recorded with no
      registration row), the unwrapped cell is the `", "`-join of all of them. */
  lemma ShowDatesAllAttended(rows: seq<Row>, i: nat)
    requires i < |ShowStudentDb(rows)|
    requires forall k :: 0 <= k < |CellDates(rows, i)| ==> IsoDate(CellDates(rows, i)[k])
    ensures Unwrap(ShowStudentDb(rows)[i].dates) == Join(CellDates(rows, i), ", ")
  {
    CellIsWrappedJoin(rows, i);
    var ds := CellDates(rows, i);
    forall k | 0 <= k < |ds| ensures '\n' !in ds[k] {
      IsoDateShape(ds[k]);
    }
    IsoDateShape(ds[0]);
    JoinNoNewline(ds);
    SplitJoinFirst(ds);
    WrapRoundTrip(Join(ds, ", "), MaxCharsPerLine);
  }

  /** Every line of a dates cell fits in 60 characters unless it is a single date. */
  lemma ShowDatesLineBound(rows: seq<Row>, i: nat)
    requires i < |ShowStudentDb(rows)|
    requires forall k :: 0 <= k < |CellDates(rows, i)| ==> '\n' !in CellDates(rows, i)[k]
    ensures forall line :: line in Lines(ShowStudentDb(rows)[i].dates) ==>
              |line| <= MaxCharsPerLine || line in Split(Join(CellDates(rows, i), ", "))
  {
    CellIsWrappedJoin(rows, i);
    var ds := CellDates(rows, i);
    JoinNoNewline(ds);
    WrapLineBound(Join(ds, ", "), MaxCharsPerLine);
  }

  // ---------------------------------------------------------------- histogram

  /** How many lines have attendance count `k`. */
  function StudentsWith(lines: seq<StudentLine>, k: int): (c: nat)
    ensures c <= |lines|
  {
    if |lines| == 0 then 0
    else StudentsWith(lines[..|lines| - 1], k) + (if lines[|lines| - 1].count == k then 1 else 0)
  }

  /** How many lines have an attendance count below `m`. */
  function CountBelow(lines: seq<StudentLine>, m: int): (c: nat)
    ensures c <= |lines|
  {
    if |lines| == 0 then 0
    else CountBelow(lines[..|lines| - 1], m) + (if lines[|lines| - 1].count < m then 1 else 0)
  }

  /** The sum of the first `m` buckets. */
  function BucketSum(lines: seq<StudentLine>, m: nat): (total: nat)
  {
    if m == 0 then 0 else BucketSum(lines, m - 1) + StudentsWith(lines, m - 1)
  }

  /** The `students` list of `create_attendance_graphic`: 16 buckets, bucket `k` counting
      the students whose count is `k`; larger counts fall outside every bucket. */
  method AttendanceHistogram(lines: seq<StudentLine>) returns (students: seq<nat>)
    ensures |students| == 16
    ensures forall k :: 0 <= k < 16 ==> students[k] == StudentsWith(lines, k)
  {
    var buckets := new nat[16](_ => 0);
    for i := 0 to |lines|
      invariant forall k :: 0 <= k < 16 ==> buckets[k] == StudentsWith(lines[..i], k)
    {
      assert lines[..i + 1][..i] == lines[..i];
      var index := lines[i].count;
      if 0 <= index < buckets.Length {
        buckets[index] := buckets[index] + 1;
      }
    }
    assert lines[..|lines|] == lines;
    students := buckets[..];
  }

  lemma {:induction false} CountBelowStep(lines: seq<StudentLine>, m: nat)
    ensures CountBelow(lines, m + 1) == CountBelow(lines, m) + StudentsWith(lines, m)
  {
    if |lines| > 0 {
      CountBelowStep(lines[..|lines| - 1], m);
    }
  }

  /** The buckets together hold exactly the students with fewer than `m` attendances. */
  lemma {:induction false} BucketsCountBelow(lines: seq<StudentLine>, m: nat)
    ensures BucketSum(lines, m) == CountBelow(lines, m)
  {
    if m == 0 {
      CountBelowZero(lines);
    } else {
      BucketsCountBelow(lines, m - 1);
      CountBelowStep(lines, m - 1);
    }
  }

  lemma {:induction false} CountBelowZero(lines: seq<StudentLine>)
    ensures CountBelow(lines, 0) == 0
  {
    if |lines| > 0 {
      CountBelowZero(lines[..|lines| - 1]);
    }
  }

  // ---------------------------------------------------------------- register_multiple_students

  /** The rows `register_multiple_students` adds for the lines of the file: a name is
      added unless the table, with the rows added so far, already has it. */
  function NewRegistrations(rows: seq<Row>, students: seq<string>): (added: seq<Row>)
    ensures |added| <= |students|
    ensures forall k :: 0 <= k < |added| ==> added[k].date.None?
    decreases |students|
  {
    if |students| == 0 then []
    else if HasName(rows, students[0]) then NewRegistrations(rows, students[1..])
    else [Row(students[0], None)] + NewRegistrations(rows + [Row(students[0], None)], students[1..])
  }

  /** `register_multiple_students` on the lines of the file (reading and splitting the
      file are not modelled): check each name, add the missing ones. */
  method RegisterMultipleStudents(table: StudentTable, students: seq<string>)
    modifies table
    ensures table.rows == old(table.rows) + NewRegistrations(old(table.rows), students)
  {
    ghost var rows0 := table.rows;
    for i := 0 to |students|
      invariant table.rows + NewRegistrations(table.rows, students[i..]) == rows0 + NewRegistrations(rows0, students)
    {
      assert students[i..][1..] == students[i + 1..];
      var found := table.CheckStudent(students[i]);
      if !found {
        table.AddStudent(students[i]);
      }
    }
  }

  lemma HasNameAppend(rows: seq<Row>, extra: seq<Row>, name: string)
    ensures HasName(rows + extra, name) <==> HasName(rows, name) || HasName(extra, name)
  {
    var all := rows + extra;
    if HasName(all, name) {
      var i :| 0 <= i < |all| && all[i].name == name;
      if i >= |rows| {
        assert extra[i - |rows|].name == name;
      }
    }
    if HasName(extra, name) {
      var i :| 0 <= i < |extra| && extra[i].name == name;
      assert all[|rows| + i].name == name;
    }
    if HasName(rows, name) {
      var i :| 0 <= i < |rows| && rows[i].name == name;
      assert all[i].name == name;
    }
  }

  /** Afterwards every listed name is registered. */
  lemma {:induction false} AllListedRegistered(rows: seq<Row>, students: seq<string>)
    ensures forall s :: s in students ==> HasName(rows + NewRegistrations(rows, students), s)
    decreases |students|
  {
    if |students| > 0 {
      var s0 := students[0];
      var rest := students[1..];
      assert forall s :: s in students ==> s == s0 || s in rest;
      if HasName(rows, s0) {
        AllListedRegistered(rows, rest);
        HasNameAppend(rows, NewRegistrations(rows, rest), s0);
      } else {
        var single := [Row(s0, None)];
        var rows' := rows + single;
        AllListedRegistered(rows', rest);
        assert rows + NewRegistrations(rows, students) == rows' + NewRegistrations(rows', rest);
        HasNameAppend(rows', NewRegistrations(rows', rest), s0);
        HasNameAppend(rows, single, s0);
        assert single[0].name == s0;
      }
    }
  }

  /** Added rows are registration rows for names not present before, each added once:
      a name already in the table, or listed twice in the file, is not added again. */
  lemma {:induction false} NoDuplicateRegistrations(rows: seq<Row>, students: seq<string>)
    ensures forall k :: 0 <= k < |NewRegistrations(rows, students)| ==>
              NewRegistrations(rows, students)[k].date == None
              && NewRegistrations(rows, students)[k].name in students
              && !HasName(rows, NewRegistrations(rows, students)[k].name)
    ensures forall k, l :: 0 <= k < l < |NewRegistrations(rows, students)| ==>
              NewRegistrations(rows, students)[k].name != NewRegistrations(rows, students)[l].name
    decreases |students|
  {
    if |students| > 0 {
      var s0 := students[0];
      var rest := students[1..];
      assert forall s :: s in rest ==> s in students;
      if HasName(rows, s0) {
        NoDuplicateRegistrations(rows, rest);
      } else {
        var single := [Row(s0, None)];
        var rows' := rows + single;
        NoDuplicateRegistrations(rows', rest);
        var tail := NewRegistrations(rows', rest);
        var added := NewRegistrations(rows, students);
        assert added == single + tail;
        assert single[0].name == s0;
        HasNameAppend(rows, single, s0);
        forall k | 0 <= k < |tail| ensures tail[k].name != s0 && !HasName(rows, tail[k].name) {
          HasNameAppend(rows, single, tail[k].name);
        }
        forall k | 0 <= k < |added|
          ensures added[k].date == None && added[k].name in students && !HasName(rows, added[k].name)
        {
          if k > 0 {
            assert added[k] == tail[k - 1];
          }
        }
        forall k, l | 0 <= k < l < |added| ensures added[k].name != added[l].name {
          assert added[l] == tail[l - 1];
          if k > 0 {
            assert added[k] == tail[k - 1];
          }
        }
      }
    }
  }

  // ---------------------------------------------------------------- register_event

  /** What `register_event` does: register the admin, or show an error text. */
  datatype Registration = AdminRegistered | RegistrationFailed(errorText: string)

  function RegistrationOutcome(username: string, password: string): (r: Registration)
    ensures r == AdminRegistered <==> username != "" && |password| >= 8
    ensures r == RegistrationFailed("Invalid username or password") <==> username == "" || password == ""
    ensures r == RegistrationFailed("Password must be at least 8 characters long")
            <==> username != "" && 0 < |password| < 8
  {
    if username != "" && password != "" then
      if |password| < 8 then RegistrationFailed("Password must be at least 8 characters long")
      else AdminRegistered
    else RegistrationFailed("Invalid username or password")
  }

  /** `register_event` against the `DB_admin.py` store: only an accepted registration
      writes; `fault` is whether its insert raised, which the store swallows, so the
      handler reports success either way. */
  method RegisterEvent(admins: TolerantAdmin.AdminTable, username: string, password: string, fault: bool)
    returns (r: Registration)
    modifies admins
    ensures r == RegistrationOutcome(username, password)
    ensures r == AdminRegistered && !fault ==> admins.rows == old(admins.rows) + [AdminRow(username, Hash(password))]
    ensures r != AdminRegistered || fault ==> admins.rows == old(admins.rows)
  {
    if username != "" && password != "" {
      if |password| < 8 {
        r := RegistrationFailed("Password must be at least 8 characters long");
      } else {
        admins.AddAdmin(username, password, fault);
        r := AdminRegistered;
      }
    } else {
      r := RegistrationFailed("Invalid username or password");
    }
  }

  /** A registered admin can then log in with that password and with no other. */
  lemma RegisteredAdminCanLogIn(rows: seq<AdminRow>, username: string, password: string, attempt: string)
    requires RegistrationOutcome(username, password) == AdminRegistered
    requires !HasUser(rows, username)
    ensures LoginAccepted(rows + [AdminRow(username, Hash(password))], username, attempt) <==> attempt == password
  {
    LoginAfterAdd(rows, username, password, attempt);
  }

  // ---------------------------------------------------------------- register_student_event

  /** `register_student_event`: `frameAvailable` is whether the camera returned a frame;
      saving and moving the picture are not modelled. */
  method RegisterStudentEvent(table: StudentTable, name: string, frameAvailable: bool)
    returns (popup: string)
    modifies table
    ensures HasName(old(table.rows), name) ==>
              popup == "Student " + name + " already registered." && table.rows == old(table.rows)
    ensures !HasName(old(table.rows), name) && !frameAvailable ==>
              popup == "No frame available to save." && table.rows == old(table.rows)
    ensures !HasName(old(table.rows), name) && frameAvailable ==>
              popup == "Student " + name + " registered." && table.rows == old(table.rows) + [Row(name, None)]
  {
    var found := table.CheckStudent(name);
    if !found {
      if frameAvailable {
        table.AddStudent(name);
        popup := "Student " + name + " registered.";
      } else {
        popup := "No frame available to save.";
      }
    } else {
      popup := "Student " + name + " already registered.";
    }
  }

  // ---------------------------------------------------------------- add_attendance_event

  /** `add_attendance_event`: `recognized` is the boolean the face check returns for the
      saved and the fresh picture of the selected student. */
  method AddAttendanceEvent(table: StudentTable, name: string, frameAvailable: bool,
                            recognized: bool, today: string)
    returns (popup: string)
    modifies table
    ensures !frameAvailable ==> popup == "No frame available to save." && table.rows == old(table.rows)
    ensures frameAvailable && !recognized ==>
              popup == "Student " + name + " not registered." && table.rows == old(table.rows)
    ensures frameAvailable && recognized && !AttendedOn(old(table.rows), name, today) ==>
              popup == "Attendance added for " + name + "."
              && table.rows == old(table.rows) + [Row(name, Some(today))]
    ensures frameAvailable && recognized && AttendedOn(old(table.rows), name, today) ==>
              popup == "Attendance already recorded for " + name + "." && table.rows == old(table.rows)
  {
    if frameAvailable {
      if recognized {
        var recorded := table.RecordAttendance(name, today);
        if recorded {
          popup := "Attendance added for " + name + ".";
        } else {
          popup := "Attendance already recorded for " + name + ".";
        }
      } else {
        popup := "Student " + name + " not registered.";
      }
    } else {
      popup := "No frame available to save.";
    }
  }
}
