/**
 * The HOD routes' decision rules: the department default, the batch's
 * student listing with its semester filter, course assignment, and the
 * alert listing and resolution.
 */
module Hod {
  import opened Wrappers
  import opened Tables
  import opened Schema
  import opened Store

  /** The HOD's department, "CS" when there is no department row or it is empty. */
  function Department(hods: Table<UserId, string>, hod: UserId): (d: string)
    ensures d == "CS" <==> Get(hods, hod).None? || Get(hods, hod).value == "" || Get(hods, hod).value == "CS"
    ensures d != "CS" ==> Get(hods, hod) == Some(d)
  {
    match Get(hods, hod)
    case Some(dep) => if dep == "" then "CS" else dep
    case None => "CS"
  }

  // ----- GET /batches/:batchId/students -----

  /** The `semesterNo` query parameter: absent (or empty), a number, or something that is not a number. */
  datatype SemesterFilter = AnySemester | InSemester(n: int) | NotANumber

  /** One listed student: the student row joined to its user. */
  datatype StudentListing = StudentListing(studentId: string, name: string, email: string, section: Option<string>,
                                           currentSemesterNo: int)

  predicate Selected(s: Student, b: int, filter: SemesterFilter)
  {
    s.batchId == b && (filter.InSemester? ==> s.currentSemesterNo == filter.n)
  }

  /** The listing row of a student row, when its user exists. */
  function ListingOf(row: Row<UserId, Student>, users: Table<UserId, User>): Option<StudentListing>
  {
    match Get(users, row.key)
    case Some(u) => Some(StudentListing(row.val.studentId, u.name, u.email, row.val.section, row.val.currentSemesterNo))
    case None => None
  }

  /** `SELECT ... FROM students s JOIN users u ... WHERE s.batch_id = b AND ($2 IS NULL OR s.current_semester_no = $2)`. */
  function Listing(students: Table<UserId, Student>, users: Table<UserId, User>, b: int, filter: SemesterFilter): seq<StudentListing>
  {
    if |students| == 0 then []
    else
      var n := |students| - 1;
      Listing(students[..n], users, b, filter) +
        if Selected(students[n].val, b, filter) && ListingOf(students[n], users).Some? then [ListingOf(students[n], users).value] else []
  }

  /**
   * A listed row is the joined row of a student of the batch, in the
   * requested semester when one is given, and of every such student.
   */
  lemma {:induction false} ListingMember(students: Table<UserId, Student>, users: Table<UserId, User>, b: int,
                                         filter: SemesterFilter, x: StudentListing)
    ensures x in Listing(students, users, b, filter) <==>
      exists i :: 0 <= i < |students| && Selected(students[i].val, b, filter) && ListingOf(students[i], users) == Some(x)
  {
    if |students| > 0 {
      var n := |students| - 1;
      ListingMember(students[..n], users, b, filter, x);
      assert forall i :: 0 <= i < n ==> students[..n][i] == students[i];
    }
  }

  /** Without a semester, the listing is every student of the batch; with one, the listing narrows to it. */
  lemma {:induction false} ListingNarrows(students: Table<UserId, Student>, users: Table<UserId, User>, b: int, sem: int)
    ensures forall x :: x in Listing(students, users, b, InSemester(sem)) ==>
      x in Listing(students, users, b, AnySemester) && x.currentSemesterNo == sem
  {
    forall x | x in Listing(students, users, b, InSemester(sem))
      ensures x in Listing(students, users, b, AnySemester) && x.currentSemesterNo == sem
    {
      ListingMember(students, users, b, InSemester(sem), x);
      ListingMember(students, users, b, AnySemester, x);
    }
  }

  /**
   * GET /batches/:batchId/students: a non-zero batch id, a semester of at
   * least 1 when one is given, then the listing. A parameter that is not a
   * number reaches the query, which refuses it.
   */
  function BatchStudents(students: Table<UserId, Student>, users: Table<UserId, User>, batchId: Option<int>,
                         filter: SemesterFilter): (r: Reply<seq<StudentListing>>)
    ensures r == Status(400, "batchId required") <==> batchId.None? || batchId.value == 0
    ensures r == Status(400, "semesterNo must be 1 or higher") <==>
      !(batchId.None? || batchId.value == 0) && filter.InSemester? && filter.n < 1
    ensures r == Rejected <==> !(batchId.None? || batchId.value == 0) && filter.NotANumber?
    ensures r.Done? ==> forall x :: x in r.value ==> filter.InSemester? ==> x.currentSemesterNo == filter.n
    ensures r.Done? ==> r.value == Listing(students, users, batchId.value, filter)
  {
    if batchId.None? || batchId.value == 0 then Status(400, "batchId required")
    else if filter.InSemester? && filter.n < 1 then Status(400, "semesterNo must be 1 or higher")
    else if filter.NotANumber? then Rejected
    else
      var rows := Listing(students, users, batchId.value, filter);
      assert forall x :: x in rows ==> filter.InSemester? ==> x.currentSemesterNo == filter.n by {
        forall x | x in rows
          ensures filter.InSemester? ==> x.currentSemesterNo == filter.n
        {
          ListingMember(students, users, batchId.value, filter, x);
        }
      }
      Done(rows)
  }

  // ----- POST /assign-course -----

  /** The parsed body of an assignment. */
  datatype AssignRequest = AssignRequest(faculty: UserId, batchYear: int, semesterNo: int, courseCode: string)

  /** The row `RETURNING *` gives back: present only when the insert happened. */
  datatype Assignment = Assignment(hod: UserId, key: AssignmentKey)

  /** The same assignment made twice is made once, and keeps the HOD who made it first. */
  lemma AssignTwice(t: Table<AssignmentKey, UserId>, k: AssignmentKey, hod1: UserId, hod2: UserId)
    ensures InsertIgnore(InsertIgnore(t, k, hod1), k, hod2) == InsertIgnore(t, k, hod1)
    ensures Get(InsertIgnore(InsertIgnore(t, k, hod1), k, hod2), k) == Some(Get(t, k).GetOr(hod1))
  {
    InsertIgnoreGet(t, k, hod1, k);
  }

  /**
   * POST /assign-course: the schema, the batch of the year, then an
   * insert-or-ignore on (faculty, batch, semester, course).
   */
  method AssignCourse(db: Database, hod: UserId, req: AssignRequest) returns (reply: Reply<Option<Assignment>>)
    requires db.Valid()
    modifies db`courseAssignments
    ensures db.Valid()
    ensures req.semesterNo < 1 || |req.courseCode| < 3 ==> reply == Rejected && db.courseAssignments == old(db.courseAssignments)
    ensures req.semesterNo >= 1 && |req.courseCode| >= 3 && BatchId(db.batches, req.batchYear).None? ==>
      reply == Status(404, "Batch not found") && db.courseAssignments == old(db.courseAssignments)
    ensures req.semesterNo >= 1 && |req.courseCode| >= 3 && BatchId(db.batches, req.batchYear).Some? ==>
      var k := AssignmentKey(req.faculty, BatchId(db.batches, req.batchYear).value, req.semesterNo, req.courseCode);
      && db.courseAssignments == InsertIgnore(old(db.courseAssignments), k, hod)
      && reply == Done(if HasKey(old(db.courseAssignments), k) then None else Some(Assignment(hod, k)))
  {
    if req.semesterNo < 1 || |req.courseCode| < 3 {
      return Rejected;
    }
    var b := BatchId(db.batches, req.batchYear);
    if b.None? {
      return Status(404, "Batch not found");
    }
    var k := AssignmentKey(req.faculty, b.value, req.semesterNo, req.courseCode);
    var existed := HasKey(db.courseAssignments, k);
    InsertIgnoreUnique(db.courseAssignments, k, hod);
    db.courseAssignments := InsertIgnore(db.courseAssignments, k, hod);
    reply := Done(if existed then None else Some(Assignment(hod, k)));
  }

  // ----- GET /alerts -----

  /** The alerts of the HOD, in storage order. */
  function HodAlerts(alerts: Table<AlertKey, Alert>, hod: UserId): Table<AlertKey, Alert>
  {
    if |alerts| == 0 then []
    else
      var n := |alerts| - 1;
      HodAlerts(alerts[..n], hod) + if alerts[n].key.hod == hod then [alerts[n]] else []
  }

  lemma {:induction false} HodAlertsMember(alerts: Table<AlertKey, Alert>, hod: UserId, row: Row<AlertKey, Alert>)
    ensures row in HodAlerts(alerts, hod) <==> row in alerts && row.key.hod == hod
  {
    if |alerts| > 0 {
      var n := |alerts| - 1;
      HodAlertsMember(alerts[..n], hod, row);
      assert alerts == alerts[..n] + [alerts[n]];
    }
  }

  predicate NewestFirst(rows: Table<AlertKey, Alert>)
  {
    forall i, j :: 0 <= i < j < |rows| ==> rows[i].val.createdAt >= rows[j].val.createdAt
  }

  /** `row` placed into a newest-first list, after the rows at least as new. */
  function InsertByAge(rows: Table<AlertKey, Alert>, row: Row<AlertKey, Alert>): Table<AlertKey, Alert>
  {
    if |rows| == 0 then [row]
    else if rows[0].val.createdAt < row.val.createdAt then [row] + rows
    else [rows[0]] + InsertByAge(rows[1..], row)
  }

  lemma {:induction false} InsertByAgeCounts(rows: Table<AlertKey, Alert>, row: Row<AlertKey, Alert>)
    ensures multiset(InsertByAge(rows, row)) == multiset(rows) + multiset{row}
  {
    if |rows| > 0 && rows[0].val.createdAt >= row.val.createdAt {
      InsertByAgeCounts(rows[1..], row);
      assert rows == [rows[0]] + rows[1..];
    }
  }

  lemma {:induction false} InsertByAgeSpec(rows: Table<AlertKey, Alert>, row: Row<AlertKey, Alert>)
    requires NewestFirst(rows)
    ensures NewestFirst(InsertByAge(rows, row))
    ensures multiset(InsertByAge(rows, row)) == multiset(rows) + multiset{row}
  {
    InsertByAgeCounts(rows, row);
    if |rows| > 0 && rows[0].val.createdAt >= row.val.createdAt {
      var tail := rows[1..];
      InsertByAgeSpec(tail, row);
      var r := InsertByAge(tail, row);
      forall k | 0 <= k < |r|
        ensures rows[0].val.createdAt >= r[k].val.createdAt
      {
        assert r[k] in multiset(tail) + multiset{row};
        if r[k] != row {
          var m :| 0 <= m < |tail| && tail[m] == r[k];
          assert rows[m + 1] == r[k];
        }
      }
    }
  }

  /** ORDER BY created_at DESC. */
  function ByAge(rows: Table<AlertKey, Alert>): Table<AlertKey, Alert>
  {
    if |rows| == 0 then [] else InsertByAge(ByAge(rows[..|rows| - 1]), rows[|rows| - 1])
  }

  lemma {:induction false} ByAgeSpec(rows: Table<AlertKey, Alert>)
    ensures NewestFirst(ByAge(rows))
    ensures multiset(ByAge(rows)) == multiset(rows)
  {
    if |rows| > 0 {
      var n := |rows| - 1;
      ByAgeSpec(rows[..n]);
      InsertByAgeSpec(ByAge(rows[..n]), rows[n]);
      assert rows == rows[..n] + [rows[n]];
    }
  }

  /** The most alerts the listing returns. */
  const AlertLimit := 200

  /** `SELECT * FROM alerts WHERE hod_user_id = hod ORDER BY created_at DESC LIMIT 200`. */
  function ListAlerts(alerts: Table<AlertKey, Alert>, hod: UserId): Table<AlertKey, Alert>
  {
    var sorted := ByAge(HodAlerts(alerts, hod));
    if |sorted| <= AlertLimit then sorted else sorted[..AlertLimit]
  }

  /** Cutting a list after `n` rows splits its rows between the two parts. */
  lemma SplitCounts(rows: Table<AlertKey, Alert>, n: nat)
    requires n <= |rows|
    ensures multiset(rows[..n]) <= multiset(rows)
    ensures multiset(rows) - multiset(rows[..n]) == multiset(rows[n..])
  {
    assert rows == rows[..n] + rows[n..];
  }

  /** The first `n` rows of a newest-first list are newest first, and no row after them is newer than one of them. */
  lemma NewestPrefix(sorted: Table<AlertKey, Alert>, n: nat)
    requires NewestFirst(sorted) && n <= |sorted|
    ensures NewestFirst(sorted[..n])
    ensures forall y :: y in sorted[n..] ==> forall i :: 0 <= i < n ==> y.val.createdAt <= sorted[i].val.createdAt
  {
    forall y: Row<AlertKey, Alert> | y in sorted[n..]
      ensures forall i :: 0 <= i < n ==> y.val.createdAt <= sorted[i].val.createdAt
    {
      var j :| 0 <= j < |sorted| - n && sorted[n..][j] == y;
      assert sorted[n + j] == y;
    }
  }

  /** Of a newest-first list cut after `n` rows, every row cut off is no newer than a kept one. */
  lemma LeftOutNoNewer(sorted: Table<AlertKey, Alert>, n: nat)
    requires NewestFirst(sorted) && n <= |sorted|
    ensures NewestFirst(sorted[..n])
    ensures multiset(sorted[..n]) <= multiset(sorted)
    ensures forall y :: y in multiset(sorted) - multiset(sorted[..n]) ==>
      forall i :: 0 <= i < n ==> y.val.createdAt <= sorted[..n][i].val.createdAt
  {
    NewestPrefix(sorted, n);
    SplitCounts(sorted, n);
    forall y: Row<AlertKey, Alert> | y in multiset(sorted) - multiset(sorted[..n])
      ensures forall i :: 0 <= i < n ==> y.val.createdAt <= sorted[..n][i].val.createdAt
    {
      assert y in sorted[n..];
    }
  }

  /**
   * The listing holds only the HOD's alerts, newest first, as many as the
   * HOD has up to 200; every alert of the HOD left out is no newer than
   * any listed one.
   */
  lemma ListAlertsSpec(alerts: Table<AlertKey, Alert>, hod: UserId)
    ensures var r := ListAlerts(alerts, hod);
      && (forall row :: row in r ==> row in alerts && row.key.hod == hod)
      && NewestFirst(r)
      && |r| == (if |HodAlerts(alerts, hod)| <= AlertLimit then |HodAlerts(alerts, hod)| else AlertLimit)
      && multiset(r) <= multiset(HodAlerts(alerts, hod))
      && (forall y :: y in multiset(HodAlerts(alerts, hod)) - multiset(r) ==>
            forall i :: 0 <= i < |r| ==> y.val.createdAt <= r[i].val.createdAt)
  {
    var mine := HodAlerts(alerts, hod);
    var sorted := ByAge(mine);
    ByAgeSpec(mine);
    var r := ListAlerts(alerts, hod);
    assert r == sorted[..|r|];
    LeftOutNoNewer(sorted, |r|);
    forall row | row in r
      ensures row in alerts && row.key.hod == hod
    {
      assert row in multiset(mine);
      HodAlertsMember(alerts, hod, row);
    }
  }

  // ----- PATCH /alerts/:id/resolve -----

  /** The filter `WHERE id = $1 AND hod_user_id = $2`. */
  function AlertIs(id: int, hod: UserId): Row<AlertKey, Alert> -> bool
  {
    (row: Row<AlertKey, Alert>) => row.val.id == id && row.key.hod == hod
  }

  function Resolved(a: Alert): Alert
  {
    a.(isResolved := true)
  }

  /**
   * Resolving marks exactly the alert with that id owned by the HOD;
   * every other alert, including another HOD's with the same id, reads as
   * before, and resolving again changes nothing.
   */
  lemma ResolveSpec(alerts: Table<AlertKey, Alert>, id: int, hod: UserId, k: AlertKey)
    ensures Get(UpdateWhere(alerts, AlertIs(id, hod), Resolved), k) ==
      match Get(alerts, k)
      case Some(a) => Some(if a.id == id && k.hod == hod then a.(isResolved := true) else a)
      case None => None
    ensures UpdateWhere(UpdateWhere(alerts, AlertIs(id, hod), Resolved), AlertIs(id, hod), Resolved) ==
            UpdateWhere(alerts, AlertIs(id, hod), Resolved)
  {
    UpdateWhereGet(alerts, AlertIs(id, hod), Resolved, k);
    UpdateWhereIdempotent(alerts, AlertIs(id, hod), Resolved);
  }

  /**
   * PATCH /alerts/:id/resolve. An id that is not a number is refused by the
   * query; any other id answers `ok`, whether or not an alert matched.
   */
  method ResolveAlert(db: Database, id: Option<int>, hod: UserId) returns (reply: Reply<()>)
    requires db.Valid()
    modifies db`alerts
    ensures db.Valid()
    ensures id.None? ==> reply == Rejected && db.alerts == old(db.alerts)
    ensures id.Some? ==> reply == Done(()) && db.alerts == UpdateWhere(old(db.alerts), AlertIs(id.value, hod), Resolved)
  {
    if id.None? {
      return Rejected;
    }
    UpdateWhereUnique(db.alerts, AlertIs(id.value, hod), Resolved);
    db.alerts := UpdateWhere(db.alerts, AlertIs(id.value, hod), Resolved);
    reply := Done(());
  }
}
