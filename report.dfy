/** The attendance report of web_server.py: the pandas `groupby('student_name')`
    over all rows, then the loop that turns each record's date list into text. */
module Report {
  import opened Common
  import opened Text
  import opened StudentDb

  /** The `date` column after `fillna("")`: a registration row shows as `""`. */
  function FilledDate(d: Option<string>): (date: string)
  {
    match d
    case None => ""
    case Some(day) => day
  }

  predicate StrictlyAscending(names: seq<string>)
  {
    forall i, j :: 0 <= i < j < |names| ==> Less(names[i], names[j])
  }

  lemma HasNameCons(rows: seq<Row>, name: string)
    requires |rows| > 0
    ensures HasName(rows, name) <==> rows[0].name == name || HasName(rows[1..], name)
  {
    if HasName(rows[1..], name) {
      var i :| 0 <= i < |rows[1..]| && rows[1..][i].name == name;
      assert rows[i + 1].name == name;
    }
    if HasName(rows, name) && rows[0].name != name {
      var i :| 0 <= i < |rows| && rows[i].name == name;
      assert rows[1..][i - 1].name == name;
    }
  }

  lemma AscendingCons(n: string, names: seq<string>)
    requires StrictlyAscending(names)
    requires forall j :: 0 <= j < |names| ==> Less(n, names[j])
    ensures StrictlyAscending([n] + names)
  {
    var r := [n] + names;
    forall i, j | 0 <= i < j < |r| ensures Less(r[i], r[j]) {
      if i > 0 {
        assert r[i] == names[i - 1] && r[j] == names[j - 1];
      } else {
        assert r[j] == names[j - 1];
      }
    }
  }

  /** Adds a key to the sorted, duplicate-free key list. */
  function InsertName(n: string, names: seq<string>): (r: seq<string>)
    requires StrictlyAscending(names)
    ensures StrictlyAscending(r)
    ensures forall m :: m in r <==> m == n || m in names
  {
    if |names| == 0 then [n]
    else if n == names[0] then names
    else if Less(n, names[0]) then
      assert forall j :: 0 <= j < |names| ==> Less(n, names[j]) by {
        forall j | 0 <= j < |names| ensures Less(n, names[j]) {
          if j > 0 {
            LessTransitive(n, names[0], names[j]);
          }
        }
      }
      AscendingCons(n, names);
      [n] + names
    else
      var rest := InsertName(n, names[1..]);
      assert names == [names[0]] + names[1..];
      assert forall j :: 0 <= j < |rest| ==> Less(names[0], rest[j]) by {
        forall j | 0 <= j < |rest| ensures Less(names[0], rest[j]) {
          assert rest[j] in rest;
          if rest[j] == n {
            LessTotal(n, names[0]);
          } else {
            var k :| 0 <= k < |names[1..]| && names[1..][k] == rest[j];
            assert names[k + 1] == rest[j];
          }
        }
      }
      AscendingCons(names[0], rest);
      [names[0]] + rest
  }

  /** The group keys of `groupby('student_name')`: every distinct name once, ascending. */
  function Names(rows: seq<Row>): (names: seq<string>)
    ensures StrictlyAscending(names)
    ensures forall m :: m in names <==> HasName(rows, m)
  {
    if |rows| == 0 then []
    else
      var rest := Names(rows[1..]);
      forall m ensures HasName(rows, m) <==> rows[0].name == m || HasName(rows[1..], m) {
        HasNameCons(rows, m);
      }
      InsertName(rows[0].name, rest)
  }

  /** One group's `date` values (`list(x)`), in row order. */
  function DatesOf(rows: seq<Row>, name: string): (dates: seq<string>)
    ensures |dates| > 0 <==> HasName(rows, name)
    ensures |dates| <= |rows|
  {
    if |rows| == 0 then []
    else
      HasNameCons(rows, name);
      (if rows[0].name == name then [FilledDate(rows[0].date)] else []) + DatesOf(rows[1..], name)
  }

  lemma DatesOfAppendStep(rows: seq<Row>, x: Row, name: string)
    requires |rows| > 0
    requires DatesOf(rows[1..] + [x], name)
          == DatesOf(rows[1..], name) + (if x.name == name then [FilledDate(x.date)] else [])
    ensures DatesOf(rows + [x], name)
         == DatesOf(rows, name) + (if x.name == name then [FilledDate(x.date)] else [])
  {
    var longer := rows + [x];
    assert longer[1..] == rows[1..] + [x];
    assert longer[0] == rows[0];
    var head := if rows[0].name == name then [FilledDate(rows[0].date)] else [];
    var tail := if x.name == name then [FilledDate(x.date)] else [];
    assert DatesOf(longer, name) == head + DatesOf(rows[1..] + [x], name);
    Associate(head, DatesOf(rows[1..], name), tail);
  }

  lemma {:induction false} DatesOfAppend(rows: seq<Row>, x: Row, name: string)
    ensures DatesOf(rows + [x], name)
         == DatesOf(rows, name) + (if x.name == name then [FilledDate(x.date)] else [])
  {
    if |rows| == 0 {
      assert rows + [x] == [x];
      assert [x][1..] == [];
    } else {
      DatesOfAppend(rows[1..], x, name);
      DatesOfAppendStep(rows, x, name);
    }
  }

  /** `max(0, len(x) - 1)`: the group's rows less the registration row. */
  function AttendanceCount(rows: seq<Row>, name: string): (count: nat)
    ensures count < |rows| || count == 0
  {
    var n := |DatesOf(rows, name)|;
    if n - 1 > 0 then n - 1 else 0
  }

  /** A record's `dates` entry: the list from `groupby`, then the text the loop writes over it. */
  datatype Dates = DateList(list: seq<string>) | DateText(text: string)

  /** One dictionary of `to_dict(orient='records')`. */
  datatype ReportRecord = ReportRecord(studentName: string, attendanceCount: nat, dates: Dates)

  /** The records before the loop: one per group key, dates still a list. */
  function Grouped(rows: seq<Row>): (records: seq<ReportRecord>)
    ensures |records| == |Names(rows)|
  {
    var names := Names(rows);
    seq(|names|, i requires 0 <= i < |names| =>
      ReportRecord(names[i], AttendanceCount(rows, names[i]), DateList(DatesOf(rows, names[i]))))
  }

  /** Python's `list[1:]`. */
  function DropFirst<T>(s: seq<T>): (rest: seq<T>)
    ensures |s| > 0 ==> s == s[..1] + rest
  {
    if |s| == 0 then [] else s[1..]
  }

  /** The loop's rewrite of one record: `" ; ".join(record['dates'][1:])`. */
  function JoinDates(r: ReportRecord): (joined: ReportRecord)
    ensures joined.dates.DateText?
    ensures joined.studentName == r.studentName && joined.attendanceCount == r.attendanceCount
  {
    match r.dates
    case DateList(list) => r.(dates := DateText(Join(DropFirst(list), " ; ")))
    case DateText(_) => r
  }

  /** The report `generate_report_data` returns for a table. */
  function ReportOf(rows: seq<Row>): (report: seq<ReportRecord>)
    ensures |report| == |Names(rows)|
  {
    var g := Grouped(rows);
    seq(|g|, i requires 0 <= i < |g| => JoinDates(g[i]))
  }

  /** `generate_report_data`: a failed read (any exception) yields `[]`. */
  method GenerateReportData(fetch: Fetch<seq<Row>>) returns (report: seq<ReportRecord>)
    ensures fetch.FetchFailed? ==> report == []
    ensures fetch.Fetched? ==> report == ReportOf(fetch.value)
  {
    if fetch.FetchFailed? {
      return [];
    }
    var g := Grouped(fetch.value);
    report := RewriteDates(g);
  }

  /** The `for record in report_data` loop: each record's list of dates is replaced, in
      place, by its text. */
  method RewriteDates(g: seq<ReportRecord>) returns (report: seq<ReportRecord>)
    ensures report == seq(|g|, i requires 0 <= i < |g| => JoinDates(g[i]))
  {
    var records := new ReportRecord[|g|](i requires 0 <= i < |g| => g[i]);
    for i := 0 to records.Length
      invariant forall k :: 0 <= k < i ==> records[k] == JoinDates(g[k])
      invariant forall k :: i <= k < records.Length ==> records[k] == g[k]
    {
      records[i] := JoinDates(records[i]);
    }
    report := records[..];
    assert |report| == |g| && forall k :: 0 <= k < |g| ==> report[k] == JoinDates(g[k]);
  }

  /** `get_student_data`: the rows, or `[]` when the read raised. */
  function GetStudentData(fetch: Fetch<seq<Row>>): (data: seq<Row>)
    ensures fetch.FetchFailed? ==> data == []
    ensures fetch.Fetched? ==> data == fetch.value
  {
    match fetch
    case FetchFailed => []
    case Fetched(rows) => rows
  }

  /** The report has one record per distinct student name, in ascending name order. */
  lemma ReportOnePerStudent(rows: seq<Row>)
    ensures var report := ReportOf(rows);
            (forall i, j :: 0 <= i < j < |report| ==> Less(report[i].studentName, report[j].studentName))
            && (forall n :: HasName(rows, n) <==> exists i :: 0 <= i < |report| && report[i].studentName == n)
  {
    var report, names := ReportOf(rows), Names(rows);
    assert forall i :: 0 <= i < |report| ==> report[i].studentName == names[i];
    forall n | HasName(rows, n) ensures exists i :: 0 <= i < |report| && report[i].studentName == n {
      var i :| 0 <= i < |names| && names[i] == n;
      assert report[i].studentName == n;
    }
  }

  /** Each record's count and dates: the student's rows less one, and their dates in
      row order after the first, joined with `" ; "`. */
  lemma ReportRecordContents(rows: seq<Row>, i: nat)
    requires i < |ReportOf(rows)|
    ensures var r := ReportOf(rows)[i];
            var dates := DatesOf(rows, r.studentName);
            |dates| >= 1
            && r.attendanceCount == |dates| - 1
            && r.dates == DateText(Join(dates[1..], " ; "))
  {
    var names := Names(rows);
    assert names[i] in names;
  }

  /** A student whose only row is the registration row gets count 0 and no dates. */
  lemma RegisteredOnlyStudent(rows: seq<Row>, k: nat)
    requires k < |rows| && rows[k].date == None
    requires forall j :: 0 <= j < |rows| && j != k ==> rows[j].name != rows[k].name
    ensures exists i :: 0 <= i < |ReportOf(rows)|
              && ReportOf(rows)[i] == ReportRecord(rows[k].name, 0, DateText(""))
  {
    var n := rows[k].name;
    DatesOfSingle(rows, k);
    var names := Names(rows);
    assert HasName(rows, n);
    var i :| 0 <= i < |names| && names[i] == n;
    assert ReportOf(rows)[i] == ReportRecord(n, 0, DateText(""));
  }

  lemma {:induction false} DatesOfSingle(rows: seq<Row>, k: nat)
    requires k < |rows|
    requires forall j :: 0 <= j < |rows| && j != k ==> rows[j].name != rows[k].name
    ensures DatesOf(rows, rows[k].name) == [FilledDate(rows[k].date)]
  {
    var n := rows[k].name;
    if k == 0 {
      DatesOfAbsent(rows[1..], n);
    } else {
      DatesOfSingle(rows[1..], k - 1);
    }
  }

  lemma DatesOfAbsent(rows: seq<Row>, name: string)
    requires forall j :: 0 <= j < |rows| ==> rows[j].name != name
    ensures DatesOf(rows, name) == []
  {
  }

  /** Recording attendance for a student raises their count by one and appends the day. */
  lemma RecordingExtendsReport(rows: seq<Row>, name: string, today: string)
    requires HasName(rows, name) && !AttendedOn(rows, name, today)
    ensures var after := Record(rows, name, today).rows;
            DatesOf(after, name) == DatesOf(rows, name) + [today]
            && AttendanceCount(after, name) == AttendanceCount(rows, name) + 1
  {
    DatesOfAppend(rows, Row(name, Some(today)), name);
  }
}
