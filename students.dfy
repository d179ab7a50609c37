/** The STUDENTS table of DB_management.py: one row per registration
    (`Date` NULL) and one per recorded attendance day. */
module StudentDb {
  import opened Common
  import opened Text

  /** A row of STUDENTS: `Student_name` and `Date` (NULL for a registration row). */
  datatype Row = Row(name: string, date: Option<string>)

  /** `any(student[0] == name for student in rows)`. */
  predicate HasName(rows: seq<Row>, name: string)
  {
    exists i :: 0 <= i < |rows| && rows[i].name == name
  }

  /** The short-circuiting scan that `any` performs. */
  function ScanForName(rows: seq<Row>, name: string): (found: bool)
    ensures found <==> HasName(rows, name)
  {
    if |rows| == 0 then false
    else if rows[0].name == name then true
    else
      var found := ScanForName(rows[1..], name);
      assert HasName(rows[1..], name) ==> HasName(rows, name) by {
        if HasName(rows[1..], name) {
          var i :| 0 <= i < |rows[1..]| && rows[1..][i].name == name;
          assert rows[i + 1].name == name;
        }
      }
      assert HasName(rows, name) && rows[0].name != name ==> HasName(rows[1..], name) by {
        if HasName(rows, name) && rows[0].name != name {
          var i :| 0 <= i < |rows| && rows[i].name == name;
          assert rows[1..][i - 1].name == name;
        }
      }
      found
  }

  /** There is an attendance row for `name` dated `day`. */
  predicate AttendedOn(rows: seq<Row>, name: string, day: string)
  {
    exists i :: 0 <= i < |rows| && rows[i].name == name && rows[i].date == Some(day)
  }

  /** `SELECT COUNT(*) FROM STUDENTS WHERE student_name = ? AND date = ?`;
      a NULL date is never equal to the day. */
  function CountOn(rows: seq<Row>, name: string, day: string): (n: nat)
    ensures n == 0 <==> !AttendedOn(rows, name, day)
    ensures n <= |rows|
  {
    if |rows| == 0 then 0
    else
      var init := rows[..|rows| - 1];
      var n := CountOn(init, name, day) + (if rows[|rows| - 1] == Row(name, Some(day)) then 1 else 0);
      assert AttendedOn(init, name, day) ==> AttendedOn(rows, name, day) by {
        if AttendedOn(init, name, day) {
          var i :| 0 <= i < |init| && init[i].name == name && init[i].date == Some(day);
          assert rows[i] == init[i];
        }
      }
      assert AttendedOn(rows, name, day) && rows[|rows| - 1] != Row(name, Some(day))
          ==> AttendedOn(init, name, day) by {
        if AttendedOn(rows, name, day) && rows[|rows| - 1] != Row(name, Some(day)) {
          var i :| 0 <= i < |rows| && rows[i].name == name && rows[i].date == Some(day);
          assert init[i] == rows[i];
        }
      }
      n
  }

  lemma CountOnAppend(rows: seq<Row>, x: Row, name: string, day: string)
    ensures CountOn(rows + [x], name, day)
         == CountOn(rows, name, day) + (if x == Row(name, Some(day)) then 1 else 0)
  {
    assert (rows + [x])[..|rows|] == rows;
  }

  /** What `db_record_attendance` decides and the table afterwards. */
  datatype Recording = Recording(added: bool, rows: seq<Row>)

  /** The once-per-day gate: insert `(name, today)` only when the count for that pair is zero. */
  function Record(rows: seq<Row>, name: string, today: string): (r: Recording)
    ensures r.added <==> !AttendedOn(rows, name, today)
    ensures r.added ==> r.rows == rows + [Row(name, Some(today))]
    ensures !r.added ==> r.rows == rows
  {
    if CountOn(rows, name, today) == 0 then Recording(true, rows + [Row(name, Some(today))])
    else Recording(false, rows)
  }

  /** `UPDATE STUDENTS SET Student_name = new WHERE Student_name = old`. */
  function Rename(rows: seq<Row>, oldName: string, newName: string): (r: seq<Row>)
    ensures |r| == |rows|
    ensures forall i :: 0 <= i < |rows| ==>
      r[i] == if rows[i].name == oldName then Row(newName, rows[i].date) else rows[i]
  {
    if |rows| == 0 then []
    else
      var head := if rows[0].name == oldName then Row(newName, rows[0].date) else rows[0];
      [head] + Rename(rows[1..], oldName, newName)
  }

  /** `DELETE FROM STUDENTS WHERE Student_name = name`, keeping the other rows. */
  function Remove(rows: seq<Row>, name: string): (r: seq<Row>)
    ensures forall x :: x in r ==> x.name != name
    ensures forall x: Row :: x.name != name ==> multiset(r)[x] == multiset(rows)[x]
  {
    if |rows| == 0 then []
    else
      var tail := Remove(rows[1..], name);
      assert rows == [rows[0]] + rows[1..];
      if rows[0].name == name then tail else [rows[0]] + tail
  }

  /** The delete keeps the surviving rows in table order: removing from two runs of rows
      one after the other gives the survivors of the first run, then those of the second. */
  lemma {:induction false} RemoveKeepsOrder(a: seq<Row>, b: seq<Row>, name: string)
    ensures Remove(a + b, name) == Remove(a, name) + Remove(b, name)
  {
    if |a| == 0 {
      assert a + b == b;
    } else {
      RemoveKeepsOrder(a[1..], b, name);
      assert a == [a[0]] + a[1..];
      Associate([a[0]], a[1..], b);
      RemoveKeepsOrderStep(a[0], a[1..], b, name);
    }
  }

  lemma RemoveKeepsOrderStep(h: Row, t: seq<Row>, b: seq<Row>, name: string)
    requires Remove(t + b, name) == Remove(t, name) + Remove(b, name)
    ensures Remove([h] + (t + b), name) == Remove([h] + t, name) + Remove(b, name)
  {
    if h.name == name {
      RemoveConsDrop(h, t, name);
      RemoveConsDrop(h, t + b, name);
    } else {
      RemoveConsKeep(h, t, name);
      RemoveConsKeep(h, t + b, name);
      Associate([h], Remove(t, name), Remove(b, name));
    }
  }

  lemma RemoveConsDrop(h: Row, t: seq<Row>, name: string)
    requires h.name == name
    ensures Remove([h] + t, name) == Remove(t, name)
  {
    assert ([h] + t)[1..] == t;
  }

  lemma RemoveConsKeep(h: Row, t: seq<Row>, name: string)
    requires h.name != name
    ensures Remove([h] + t, name) == [h] + Remove(t, name)
  {
    assert ([h] + t)[1..] == t;
  }


  /** Rows in ascending name order (SQLite's BINARY collation on `Student_name`). */
  predicate SortedByName(rows: seq<Row>)
  {
    forall i, j :: 0 <= i < j < |rows| ==> !Less(rows[j].name, rows[i].name)
  }

  /** No row of `rows` has a name below `name`. */
  predicate NoneBelow(rows: seq<Row>, name: string)
  {
    forall j :: 0 <= j < |rows| ==> !Less(rows[j].name, name)
  }

  lemma SortedCons(x: Row, rows: seq<Row>)
    requires SortedByName(rows) && NoneBelow(rows, x.name)
    ensures SortedByName([x] + rows)
  {
    var r := [x] + rows;
    forall i, j | 0 <= i < j < |r| ensures !Less(r[j].name, r[i].name) {
      if i > 0 {
        assert r[i] == rows[i - 1] && r[j] == rows[j - 1];
      } else {
        assert r[j] == rows[j - 1];
      }
    }
  }

  /** In a sorted table every row is at least the first one, so a name not above the
      first row's is not above any. */
  lemma SortedFrontBound(x: Row, rows: seq<Row>)
    requires SortedByName(rows) && |rows| > 0 && !Less(rows[0].name, x.name)
    ensures NoneBelow(rows, x.name)
  {
    forall j | 0 <= j < |rows| ensures !Less(rows[j].name, x.name) {
      if Less(rows[j].name, x.name) && j > 0 {
        assert !Less(rows[j].name, rows[0].name);
        LessTotal(rows[0].name, x.name);
        if Less(x.name, rows[0].name) {
          LessTransitive(rows[j].name, x.name, rows[0].name);
        }
      }
    }
  }

  function InsertByName(x: Row, rows: seq<Row>): (r: seq<Row>)
    requires SortedByName(rows)
    ensures SortedByName(r)
    ensures multiset(r) == multiset(rows) + multiset{x}
    ensures forall y :: y in r ==> y == x || y in rows
  {
    if |rows| == 0 then [x]
    else if !Less(rows[0].name, x.name) then
      SortedFrontBound(x, rows);
      SortedCons(x, rows);
      [x] + rows
    else
      var rest := InsertByName(x, rows[1..]);
      assert rows == [rows[0]] + rows[1..];
      assert NoneBelow(rest, rows[0].name) by {
        forall j | 0 <= j < |rest| ensures !Less(rest[j].name, rows[0].name) {
          assert rest[j] in rest;
          if rest[j] == x {
            LessAsymmetric(rows[0].name, x.name);
          } else {
            var k :| 0 <= k < |rows[1..]| && rows[1..][k] == rest[j];
            assert rows[k + 1] == rest[j];
          }
        }
      }
      SortedCons(rows[0], rest);
      [rows[0]] + rest
  }

  /** `SELECT * FROM STUDENTS ORDER BY Student_name ASC`; SQLite does not promise an
      order among rows with equal names, so only sortedness and the contents are stated. */
  function SortByName(rows: seq<Row>): (r: seq<Row>)
    ensures SortedByName(r)
    ensures multiset(r) == multiset(rows)
  {
    if |rows| == 0 then []
    else
      assert rows == [rows[0]] + rows[1..];
      InsertByName(rows[0], SortByName(rows[1..]))
  }

  /** No `(name, date)` pair is recorded twice: the invariant the gate exists to keep. */
  predicate OncePerDay(rows: seq<Row>)
  {
    forall i, j :: 0 <= i < j < |rows| && rows[i].date.Some? ==> rows[i] != rows[j]
  }

  /** Recording keeps at most one row per student and day. */
  lemma RecordKeepsOncePerDay(rows: seq<Row>, name: string, today: string)
    requires OncePerDay(rows)
    ensures OncePerDay(Record(rows, name, today).rows)
  {
    var r := Record(rows, name, today);
    if r.added {
      forall i, j | 0 <= i < j < |r.rows| && r.rows[i].date.Some?
        ensures r.rows[i] != r.rows[j]
      {
        if j == |rows| {
          assert r.rows[i] == rows[i];
        } else {
          assert r.rows[i] == rows[i] && r.rows[j] == rows[j];
        }
      }
    }
  }

  /** Calling the gate twice on one day for a student not yet recorded that day:
      true, then false, and exactly one row for the pair. */
  lemma RecordTwiceSameDay(rows: seq<Row>, name: string, today: string)
    requires !AttendedOn(rows, name, today)
    ensures var first := Record(rows, name, today);
            var second := Record(first.rows, name, today);
            first.added && !second.added
            && second.rows == rows + [Row(name, Some(today))]
            && CountOn(second.rows, name, today) == 1
  {
    var first := Record(rows, name, today);
    assert first.rows[|rows|] == Row(name, Some(today));
    CountOnAppend(rows, Row(name, Some(today)), name, today);
  }

  /** A registration row (NULL date) never counts as attendance on any day. */
  lemma RegistrationRowIsNotAttendance(rows: seq<Row>, name: string, today: string)
    ensures Record(rows + [Row(name, None)], name, today).added == Record(rows, name, today).added
  {
    CountOnAppend(rows, Row(name, None), name, today);
  }

  /** Recording does not require the student to be registered. */
  lemma RecordWithoutRegistration(rows: seq<Row>, name: string, today: string)
    requires !HasName(rows, name)
    ensures Record(rows, name, today).added
  {
  }

  /** Renaming one student to another's name can merge two attendance rows of the same
      day: `db_update_student` does not keep the invariant the gate keeps. */
  lemma RenameCanBreakOncePerDay()
    ensures var rows := [Row("Ana", Some("2024-05-06")), Row("Ben", Some("2024-05-06"))];
            OncePerDay(rows) && !OncePerDay(Rename(rows, "Ana", "Ben"))
  {
    var rows := [Row("Ana", Some("2024-05-06")), Row("Ben", Some("2024-05-06"))];
    var r := Rename(rows, "Ana", "Ben");
    assert r[0] == r[1];
  }

  /** The STUDENTS table of students.db as DBmanagement sees it. */
  class StudentTable {
    var rows: seq<Row>

    /** Opens a table that `db_students_init` found or created: its existing rows. */
    constructor (existing: seq<Row>)
      ensures rows == existing
    {
      rows := existing;
    }

    /** `db_get_students`. */
    method GetStudents() returns (result: seq<Row>)
      ensures SortedByName(result)
      ensures multiset(result) == multiset(rows)
    {
      result := SortByName(rows);
    }

    /** `db_delete_students`: an empty name raises ValueError and deletes nothing. */
    method DeleteStudents(name: string) returns (status: Status)
      modifies this
      ensures name == "" ==> status == Raised("ValueError", "Student name must be provided") && rows == old(rows)
      ensures name != "" ==> status == Done && rows == Remove(old(rows), name)
    {
      if name == "" {
        return Raised("ValueError", "Student name must be provided");
      }
      rows := Remove(rows, name);
      status := Done;
    }

    /** `db_check_student`: exact, case-sensitive name match on any row. */
    method CheckStudent(name: string) returns (found: bool)
      ensures found <==> exists i :: 0 <= i < |rows| && rows[i].name == name
    {
      found := ScanForName(rows, name);
    }

    /** `db_add_student`: always appends a registration row, duplicates included. */
    method AddStudent(name: string)
      modifies this
      ensures rows == old(rows) + [Row(name, None)]
    {
      rows := rows + [Row(name, None)];
    }

    /** `db_update_student`. */
    method UpdateStudent(oldName: string, newName: string)
      modifies this
      ensures rows == Rename(old(rows), oldName, newName)
    {
      rows := Rename(rows, oldName, newName);
    }

    /** `db_record_attendance`, with `today` the `%Y-%m-%d` date the source reads from the clock. */
    method RecordAttendance(name: string, today: string) returns (recorded: bool)
      modifies this
      ensures recorded <==> !AttendedOn(old(rows), name, today)
      ensures rows == Record(old(rows), name, today).rows
    {
      var count := CountOn(rows, name, today);
      if count == 0 {
        rows := rows + [Row(name, Some(today))];
        return true;
      }
      return false;
    }

    /** `db_get_attendance`: every row, in table order. */
    method GetAttendance() returns (result: seq<Row>)
      ensures result == rows
    {
      result := rows;
    }
  }
}
