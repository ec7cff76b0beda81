/**
 * The faculty routes that write: CLOs, the CLO-to-GA map, assessment plans
 * and their rows, and the two ways marks come in (one student's form, and a
 * CSV file of many), each mark write followed by the attainment engine.
 */
module Faculty {
  import opened Wrappers
  import opened Tables
  import opened Schema
  import opened Store
  import opened Attainment

  // ----- CLOs and the CLO-to-GA map -----

  /** `ON CONFLICT (course_code, clo_no) DO UPDATE SET title = EXCLUDED.title`. */
  function CloMerge(o: Clo, x: Clo): Clo
  {
    o.(title := x.title)
  }

  /** POST /courses/:courseCode/clos: `clo_no >= 1` and a title of at least 3 characters, then the upsert. */
  method AddClo(db: Database, courseCode: string, cloNo: int, title: string, user: UserId) returns (reply: Reply<int>)
    requires db.Valid()
    modifies db`clos, db`nextCloId
    ensures db.Valid()
    ensures cloNo < 1 || |title| < 3 ==> reply == Rejected && db.clos == old(db.clos) && db.nextCloId == old(db.nextCloId)
    ensures cloNo >= 1 && |title| >= 3 ==>
      && reply == Done(SerialUpsertId(old(db.clos), old(db.nextCloId), CloSlot, (courseCode, cloNo)))
      && db.clos == SerialUpsert(old(db.clos), old(db.nextCloId), CloSlot, Clo(courseCode, cloNo, title, user), CloMerge)
      && db.nextCloId == old(db.nextCloId) + 1
  {
    if cloNo < 1 || |title| < 3 {
      return Rejected;
    }
    var v := Clo(courseCode, cloNo, title, user);
    SerialUpsertKeys(db.clos, db.nextCloId, CloSlot, v, CloMerge);
    reply := Done(SerialUpsertId(db.clos, db.nextCloId, CloSlot, CloSlot(v)));
    db.clos := SerialUpsert(db.clos, db.nextCloId, CloSlot, v, CloMerge);
    db.nextCloId := db.nextCloId + 1;
  }

  /**
   * After adding a CLO, its course and number look up the returned id, which
   * carries the new title and keeps the creator of a CLO that already existed.
   */
  lemma AddCloFindsIt(clos: Table<int, Clo>, next: int, courseCode: string, cloNo: int, title: string, user: UserId)
    requires UniqueKeys(clos) && UniqueOn(clos, CloSlot) && SerialBelow(clos, next)
    ensures var r := SerialUpsert(clos, next, CloSlot, Clo(courseCode, cloNo, title, user), CloMerge);
      var id := SerialUpsertId(clos, next, CloSlot, (courseCode, cloNo));
      && FindClo(r, courseCode, cloNo) == Some(id)
      && Get(r, id) == Some(Clo(courseCode, cloNo, title, match Get(clos, id) case Some(o) => o.createdBy case None => user))
  {
    var v := Clo(courseCode, cloNo, title, user);
    var r := SerialUpsert(clos, next, CloSlot, v, CloMerge);
    var id := SerialUpsertId(clos, next, CloSlot, (courseCode, cloNo));
    SerialUpsertKeys(clos, next, CloSlot, v, CloMerge);
    SerialUpsertGet(clos, next, CloSlot, v, CloMerge, id);
    FindCloSpec(r, courseCode, cloNo);
    match Get(clos, id)
    case Some(o) =>
      GetSpec(clos, id);
      var i :| 0 <= i < |clos| && clos[i] == Row(id, o);
      assert r[i].key == id;
      assert r[i].val == CloMerge(o, v);
    case None =>
    GetSpec(r, id);
  }

  /** The graduate attributes a CLO can be mapped to. */
  const GaCodes: seq<string> := ["GA1", "GA2", "GA3", "GA4", "GA5", "GA6", "GA7", "GA8", "GA9", "GA10"]

  /** POST /clos/:cloId/map-ga: one of GA1..GA10, the weight defaulting to 1.0, upserted on (clo, GA). */
  method MapCloGa(db: Database, cloId: int, gaCode: string, weight: Option<real>) returns (reply: Reply<real>)
    requires db.Valid()
    modifies db`cloGaMap
    ensures db.Valid()
    ensures gaCode !in GaCodes ==> reply == Rejected && db.cloGaMap == old(db.cloGaMap)
    ensures gaCode in GaCodes ==>
      && reply == Done(weight.GetOr(1.0))
      && db.cloGaMap == Upsert(old(db.cloGaMap), CloGaKey(cloId, gaCode), weight.GetOr(1.0))
  {
    if gaCode !in GaCodes {
      return Rejected;
    }
    var w := weight.GetOr(1.0);
    UpsertUnique(db.cloGaMap, CloGaKey(cloId, gaCode), w);
    db.cloGaMap := Upsert(db.cloGaMap, CloGaKey(cloId, gaCode), w);
    reply := Done(w);
  }

  // ----- Assessment plans and their rows -----

  /** `ON CONFLICT (course_code, batch_id, semester_no) DO UPDATE SET created_by = EXCLUDED.created_by`. */
  function PlanMerge(o: Plan, x: Plan): Plan
  {
    o.(createdBy := x.createdBy)
  }

  /** `ON CONFLICT (plan_id, component_type, clo_id) DO UPDATE SET max_marks = EXCLUDED.max_marks`. */
  function RowMerge(o: PlanRow, x: PlanRow): PlanRow
  {
    o.(maxMarks := x.maxMarks)
  }

  const OelOnlyForLabs := "OEL is allowed only for LAB courses."

  /** The body of POST /assessment-plan/rows, after parsing. */
  datatype PlanRowRequest = PlanRowRequest(courseCode: string, batchYear: int, semesterNo: int,
                                           component: ComponentType, cloId: int, maxMarks: int)

  /**
   * The checks in front of the plan-row upsert, in order: the body schema,
   * the batch, the course, and OEL only on a lab course. `Done` carries the
   * offering the row goes to.
   */
  function PlanRowAdmission(batches: Table<BatchKey, int>, courses: Table<string, Course>, req: PlanRowRequest): (r: Reply<Offering>)
    ensures r == Rejected <==> req.semesterNo < 1 || req.maxMarks <= 0
    ensures r == Status(404, "Batch not found") <==>
      req.semesterNo >= 1 && req.maxMarks > 0 && BatchId(batches, req.batchYear).None?
    ensures r == Status(404, "Course not found") <==>
      req.semesterNo >= 1 && req.maxMarks > 0 && BatchId(batches, req.batchYear).Some? && !HasKey(courses, req.courseCode)
    ensures r == Status(400, OelOnlyForLabs) <==>
      && req.semesterNo >= 1 && req.maxMarks > 0 && BatchId(batches, req.batchYear).Some?
      && HasKey(courses, req.courseCode) && !Get(courses, req.courseCode).value.isLab && req.component == OEL
    ensures r.Done? ==> r.value == Offering(req.courseCode, BatchId(batches, req.batchYear).value, req.semesterNo)
    ensures r.Done? && req.component == OEL ==> Get(courses, req.courseCode).value.isLab
  {
    if req.semesterNo < 1 || req.maxMarks <= 0 then Rejected
    else match BatchId(batches, req.batchYear)
      case None => Status(404, "Batch not found")
      case Some(batchId) =>
        match Get(courses, req.courseCode)
        case None => Status(404, "Course not found")
        case Some(course) =>
          if !course.isLab && req.component == OEL then Status(400, OelOnlyForLabs)
          else Done(Offering(req.courseCode, batchId, req.semesterNo))
  }

  /** The plan upsert shared by POST /assessment-plan and POST /assessment-plan/rows. */
  method UpsertPlan(db: Database, off: Offering, user: UserId) returns (planId: int)
    requires db.Valid()
    modifies db`plans, db`nextPlanId
    ensures db.Valid()
    ensures planId == SerialUpsertId(old(db.plans), old(db.nextPlanId), PlanSlot, off)
    ensures db.plans == SerialUpsert(old(db.plans), old(db.nextPlanId), PlanSlot, Plan(off, user), PlanMerge)
    ensures db.nextPlanId == old(db.nextPlanId) + 1
  {
    SerialUpsertKeys(db.plans, db.nextPlanId, PlanSlot, Plan(off, user), PlanMerge);
    planId := SerialUpsertId(db.plans, db.nextPlanId, PlanSlot, off);
    db.plans := SerialUpsert(db.plans, db.nextPlanId, PlanSlot, Plan(off, user), PlanMerge);
    db.nextPlanId := db.nextPlanId + 1;
  }

  /** POST /assessment-plan: the body schema, the batch and the course, then the plan upsert. */
  method CreatePlan(db: Database, courseCode: string, batchYear: int, semesterNo: int, user: UserId)
    returns (reply: Reply<int>)
    requires db.Valid()
    modifies db`plans, db`nextPlanId
    ensures db.Valid()
    ensures semesterNo < 1 ==> reply == Rejected
    ensures semesterNo >= 1 && BatchId(db.batches, batchYear).None? ==> reply == Status(404, "Batch not found")
    ensures semesterNo >= 1 && BatchId(db.batches, batchYear).Some? && !HasKey(db.courses, courseCode) ==>
      reply == Status(404, "Course not found")
    ensures !reply.Done? ==> db.plans == old(db.plans) && db.nextPlanId == old(db.nextPlanId)
    ensures reply.Done? ==>
      && semesterNo >= 1 && HasKey(db.courses, courseCode) && BatchId(db.batches, batchYear).Some?
      && var off := Offering(courseCode, BatchId(db.batches, batchYear).value, semesterNo);
         && reply.value == SerialUpsertId(old(db.plans), old(db.nextPlanId), PlanSlot, off)
         && db.plans == SerialUpsert(old(db.plans), old(db.nextPlanId), PlanSlot, Plan(off, user), PlanMerge)
         && db.nextPlanId == old(db.nextPlanId) + 1
  {
    if semesterNo < 1 {
      return Rejected;
    }
    var batchId := BatchId(db.batches, batchYear);
    if batchId.None? {
      return Status(404, "Batch not found");
    }
    if !HasKey(db.courses, courseCode) {
      return Status(404, "Course not found");
    }
    var planId := UpsertPlan(db, Offering(courseCode, batchId.value, semesterNo), user);
    reply := Done(planId);
  }

  /**
   * POST /assessment-plan/rows: the admission checks, then the plan upsert
   * and the row upsert into that plan. A refused request writes nothing.
   */
  method AddPlanRow(db: Database, req: PlanRowRequest, user: UserId) returns (reply: Reply<int>)
    requires db.Valid()
    modifies db`plans, db`nextPlanId, db`planRows, db`nextPlanRowId
    ensures db.Valid()
    ensures var adm := PlanRowAdmission(db.batches, db.courses, req);
      !adm.Done? ==>
        && reply == adm.Refused()
        && db.plans == old(db.plans) && db.nextPlanId == old(db.nextPlanId)
        && db.planRows == old(db.planRows) && db.nextPlanRowId == old(db.nextPlanRowId)
    ensures var adm := PlanRowAdmission(db.batches, db.courses, req);
      adm.Done? ==>
        var planId := SerialUpsertId(old(db.plans), old(db.nextPlanId), PlanSlot, adm.value);
        var row := PlanRow(planId, req.component, req.cloId, req.maxMarks);
        && db.plans == SerialUpsert(old(db.plans), old(db.nextPlanId), PlanSlot, Plan(adm.value, user), PlanMerge)
        && db.nextPlanId == old(db.nextPlanId) + 1
        && db.planRows == SerialUpsert(old(db.planRows), old(db.nextPlanRowId), RowSlot, row, RowMerge)
        && db.nextPlanRowId == old(db.nextPlanRowId) + 1
        && reply == Done(SerialUpsertId(old(db.planRows), old(db.nextPlanRowId), RowSlot, RowSlot(row)))
  {
    var adm := PlanRowAdmission(db.batches, db.courses, req);
    if !adm.Done? {
      return adm.Refused();
    }
    var planId := UpsertPlan(db, adm.value, user);
    var row := PlanRow(planId, req.component, req.cloId, req.maxMarks);
    SerialUpsertKeys(db.planRows, db.nextPlanRowId, RowSlot, row, RowMerge);
    reply := Done(SerialUpsertId(db.planRows, db.nextPlanRowId, RowSlot, RowSlot(row)));
    db.planRows := SerialUpsert(db.planRows, db.nextPlanRowId, RowSlot, row, RowMerge);
    db.nextPlanRowId := db.nextPlanRowId + 1;
  }

  /** After the plan upsert the offering looks up the returned plan, now created by the latest caller. */
  lemma UpsertPlanFindsIt(plans: Table<int, Plan>, next: int, off: Offering, user: UserId)
    requires UniqueKeys(plans) && UniqueOn(plans, PlanSlot) && SerialBelow(plans, next)
    ensures var r := SerialUpsert(plans, next, PlanSlot, Plan(off, user), PlanMerge);
      var id := SerialUpsertId(plans, next, PlanSlot, off);
      FindPlan(r, off) == Some(id) && Get(r, id) == Some(Plan(off, user))
  {
    var v := Plan(off, user);
    var r := SerialUpsert(plans, next, PlanSlot, v, PlanMerge);
    var id := SerialUpsertId(plans, next, PlanSlot, off);
    SerialUpsertKeys(plans, next, PlanSlot, v, PlanMerge);
    SerialUpsertGet(plans, next, PlanSlot, v, PlanMerge, id);
    FindPlanSpec(r, off);
    match Get(plans, id)
    case Some(o) =>
      GetSpec(plans, id);
      var i :| 0 <= i < |plans| && plans[i] == Row(id, o);
      assert r[i].key == id;
      assert PlanSlot(o) == off;
    case None =>
    GetSpec(r, id);
  }

  /**
   * After the row upsert the plan, component and CLO look up the returned
   * row, which carries the new maximum marks.
   */
  lemma AddPlanRowFindsIt(planRows: Table<int, PlanRow>, next: int, planId: int, component: ComponentType,
                          cloId: int, maxMarks: int)
    requires UniqueKeys(planRows) && UniqueOn(planRows, RowSlot) && SerialBelow(planRows, next)
    ensures var v := PlanRow(planId, component, cloId, maxMarks);
      var r := SerialUpsert(planRows, next, RowSlot, v, RowMerge);
      var id := SerialUpsertId(planRows, next, RowSlot, RowSlot(v));
      FindPlanRow(r, planId, component, cloId) == Some(id) && Get(r, id) == Some(v)
  {
    var v := PlanRow(planId, component, cloId, maxMarks);
    var r := SerialUpsert(planRows, next, RowSlot, v, RowMerge);
    var id := SerialUpsertId(planRows, next, RowSlot, RowSlot(v));
    SerialUpsertKeys(planRows, next, RowSlot, v, RowMerge);
    SerialUpsertGet(planRows, next, RowSlot, v, RowMerge, id);
    FindPlanRowSpec(r, planId, component, cloId);
    match Get(planRows, id)
    case Some(o) =>
      GetSpec(planRows, id);
      var i :| 0 <= i < |planRows| && planRows[i] == Row(id, o);
      assert r[i].key == id;
      assert RowSlot(o) == RowSlot(v);
    case None =>
    GetSpec(r, id);
  }

  // ----- Locating the student and the plan of a marks request -----

  /** The student, offering and plan a marks request is about. */
  datatype Target = Target(student: UserId, off: Offering, planId: int)

  /**
   * The checks at the head of POST /marks/entry, in order: `semester_no >= 1`,
   * the batch, the student in that batch, the offering's plan.
   */
  function Locate(batches: Table<BatchKey, int>, students: Table<UserId, Student>, plans: Table<int, Plan>,
                  studentId: string, courseCode: string, batchYear: int, semesterNo: int): Reply<Target>
  {
    if semesterNo < 1 then Rejected
    else match BatchId(batches, batchYear)
      case None => Status(404, "Batch not found")
      case Some(batchId) =>
        match FindStudent(students, studentId, batchId)
        case None => Status(404, "Student not found in batch")
        case Some(s) =>
          var off := Offering(courseCode, batchId, semesterNo);
          match FindPlan(plans, off)
          case None => Status(404, "Assessment plan not found")
          case Some(planId) => Done(Target(s, off, planId))
  }

  /**
   * Only `semester_no < 1` is rejected and every other refusal is a 404;
   * a located target names the batch, a student row of the batch and the
   * offering's plan row; and the lookups fail only when one of these is
   * missing.
   */
  lemma LocateSpec(batches: Table<BatchKey, int>, students: Table<UserId, Student>, plans: Table<int, Plan>,
                   studentId: string, courseCode: string, batchYear: int, semesterNo: int)
    ensures var r := Locate(batches, students, plans, studentId, courseCode, batchYear, semesterNo);
      && (r == Rejected <==> semesterNo < 1)
      && (r.Status? ==> r.code == 404)
      && (r == Status(404, "Batch not found") <==> semesterNo >= 1 && BatchId(batches, batchYear).None?)
    ensures var r := Locate(batches, students, plans, studentId, courseCode, batchYear, semesterNo);
      r.Done? ==>
        && Get(batches, BatchKey(batchYear, "BSCS")) == Some(r.value.off.batchId)
        && r.value.off == Offering(courseCode, r.value.off.batchId, semesterNo)
        && (exists i :: (0 <= i < |students| && students[i].key == r.value.student &&
                         students[i].val.studentId == studentId && students[i].val.batchId == r.value.off.batchId))
        && (exists j :: 0 <= j < |plans| && plans[j].key == r.value.planId && plans[j].val.offering == r.value.off)
    ensures semesterNo >= 1 && BatchId(batches, batchYear).Some? ==>
      var off := Offering(courseCode, BatchId(batches, batchYear).value, semesterNo);
      ((exists i :: 0 <= i < |students| && students[i].val.studentId == studentId && students[i].val.batchId == off.batchId) &&
       (exists j :: 0 <= j < |plans| && plans[j].val.offering == off)) ==>
      Locate(batches, students, plans, studentId, courseCode, batchYear, semesterNo).Done?
  {
    if semesterNo >= 1 && BatchId(batches, batchYear).Some? {
      var batchId := BatchId(batches, batchYear).value;
      FindStudentSpec(students, studentId, batchId);
      FindPlanSpec(plans, Offering(courseCode, batchId, semesterNo));
    }
  }

  // ----- POST /marks/entry -----

  /** One entry of the marks form. */
  datatype MarkInput = MarkInput(planRowId: int, obtained: real)

  /** The parsed body of POST /marks/entry. */
  datatype MarksEntry = MarksEntry(studentId: string, courseCode: string, batchYear: int, semesterNo: int,
                                   marks: seq<MarkInput>)

  /** The ids of the plan's rows, the set the loop tests each entry against. */
  function AllowedRows(planRows: Table<int, PlanRow>, planId: int): set<int>
  {
    set i | 0 <= i < |planRows| && planRows[i].val.planId == planId :: planRows[i].key
  }

  /** `r` is the id of a row of plan `planId`. */
  predicate IsPlanRow(planRows: Table<int, PlanRow>, planId: int, r: int)
  {
    Get(planRows, r).Some? && Get(planRows, r).value.planId == planId
  }

  /** The allowed set holds exactly the ids of the plan's rows. */
  lemma AllowedRowsGet(planRows: Table<int, PlanRow>, planId: int, r: int)
    requires UniqueKeys(planRows)
    ensures r in AllowedRows(planRows, planId) <==> IsPlanRow(planRows, planId, r)
  {
    GetSpec(planRows, r);
    if r in AllowedRows(planRows, planId) {
      var i :| 0 <= i < |planRows| && planRows[i].val.planId == planId && planRows[i].key == r;
      GetUnique(planRows, i);
    }
    if IsPlanRow(planRows, planId, r) {
      var i :| 0 <= i < |planRows| && planRows[i] == Row(r, Get(planRows, r).value);
    }
  }

  /** The value of the last entry of the form for plan row `r`. */
  function LastInput(marks: seq<MarkInput>, r: int): Option<real>
  {
    if |marks| == 0 then None
    else if marks[|marks| - 1].planRowId == r then Some(marks[|marks| - 1].obtained)
    else LastInput(marks[..|marks| - 1], r)
  }

  /** `LastInput` is the value of an entry for `r` after which no entry names `r`. */
  lemma {:induction false} LastInputIsLast(marks: seq<MarkInput>, r: int, x: real)
    ensures LastInput(marks, r) == Some(x) <==>
      exists i :: (0 <= i < |marks| && marks[i] == MarkInput(r, x) &&
                   forall j :: i < j < |marks| ==> marks[j].planRowId != r)
  {
    if |marks| > 0 {
      var n := |marks| - 1;
      LastInputIsLast(marks[..n], r, x);
      assert forall i :: 0 <= i < n ==> marks[..n][i] == marks[i];
      if marks[n].planRowId != r && LastInput(marks, r) != Some(x) {
        forall i | 0 <= i < |marks| && marks[i] == MarkInput(r, x)
          ensures exists j :: i < j < |marks| && marks[j].planRowId == r
        {
          assert i < n;
          var j :| i < j < n && marks[..n][j].planRowId == r;
          assert marks[j].planRowId == r;
        }
      }
    }
  }

  /** The write one entry makes: an upsert when its plan row is allowed, nothing otherwise. */
  function MarkWrite(s: UserId, user: UserId, allowed: set<int>, m: MarkInput): Table<MarkKey, Mark>
  {
    if m.planRowId in allowed then [Row(MarkKey(s, m.planRowId), Mark(m.obtained, user))] else []
  }

  /** The upserts of the marks loop, in form order. */
  function MarkWrites(s: UserId, user: UserId, allowed: set<int>, marks: seq<MarkInput>): Table<MarkKey, Mark>
  {
    if |marks| == 0 then []
    else MarkWrites(s, user, allowed, marks[..|marks| - 1]) + MarkWrite(s, user, allowed, marks[|marks| - 1])
  }

  /** The winning write for a key is the last allowed entry for its plan row. */
  lemma {:induction false} MarkWritesLast(s: UserId, user: UserId, allowed: set<int>, marks: seq<MarkInput>, k: MarkKey)
    ensures LastGet(MarkWrites(s, user, allowed, marks), k) ==
      if k.student == s && k.planRowId in allowed && LastInput(marks, k.planRowId).Some?
      then Some(Mark(LastInput(marks, k.planRowId).value, user)) else None
  {
    if |marks| > 0 {
      var n := |marks| - 1;
      var w := MarkWrites(s, user, allowed, marks[..n]);
      MarkWritesLast(s, user, allowed, marks[..n], k);
      if marks[n].planRowId in allowed {
        LastGetSnoc(w, Row(MarkKey(s, marks[n].planRowId), Mark(marks[n].obtained, user)), k);
      } else {
        assert MarkWrites(s, user, allowed, marks) == w;
      }
    }
  }

  /** `INSERT INTO clo_marks ... ON CONFLICT (student_user_id, plan_row_id) DO UPDATE`. */
  method SetMark(db: Database, k: MarkKey, m: Mark)
    requires db.Valid()
    modifies db`cloMarks
    ensures db.Valid()
    ensures db.cloMarks == Upsert(old(db.cloMarks), k, m)
  {
    UpsertUnique(db.cloMarks, k, m);
    db.cloMarks := Upsert(db.cloMarks, k, m);
  }

  /** Writes all allowed entries in form order; an entry for another plan's row is skipped. */
  method WriteMarks(db: Database, s: UserId, user: UserId, allowed: set<int>, marks: seq<MarkInput>)
    requires db.Valid()
    modifies db`cloMarks
    ensures db.Valid()
    ensures db.cloMarks == UpsertAll(old(db.cloMarks), MarkWrites(s, user, allowed, marks))
  {
    ghost var t0 := db.cloMarks;
    var i := 0;
    while i < |marks|
      invariant 0 <= i <= |marks|
      invariant db.Valid()
      invariant db.cloMarks == UpsertAll(t0, MarkWrites(s, user, allowed, marks[..i]))
    {
      var m := marks[i];
      assert marks[..i + 1][..i] == marks[..i];
      if m.planRowId in allowed {
        var row := Row(MarkKey(s, m.planRowId), Mark(m.obtained, user));
        UpsertAllSnoc(t0, MarkWrites(s, user, allowed, marks[..i]), row);
        SetMark(db, row.key, row.val);
      } else {
        assert MarkWrites(s, user, allowed, marks[..i + 1]) == MarkWrites(s, user, allowed, marks[..i]);
      }
      i := i + 1;
    }
    assert marks[..|marks|] == marks;
  }

  /**
   * After the marks loop, the student's mark on a row of the plan is the
   * last entry the form gave for it; every other mark, including the
   * student's marks on rows of other plans, is unchanged.
   */
  lemma MarksEntryGet(t: Table<MarkKey, Mark>, planRows: Table<int, PlanRow>, planId: int, s: UserId, user: UserId,
                      marks: seq<MarkInput>, k: MarkKey)
    requires UniqueKeys(planRows)
    ensures Get(UpsertAll(t, MarkWrites(s, user, AllowedRows(planRows, planId), marks)), k) ==
      if k.student == s && IsPlanRow(planRows, planId, k.planRowId) && LastInput(marks, k.planRowId).Some?
      then Some(Mark(LastInput(marks, k.planRowId).value, user)) else Get(t, k)
  {
    var allowed := AllowedRows(planRows, planId);
    UpsertAllGet(t, MarkWrites(s, user, allowed, marks), k);
    MarkWritesLast(s, user, allowed, marks, k);
    AllowedRowsGet(planRows, planId, k.planRowId);
  }

  /**
   * POST /marks/entry: the lookups, the marks loop over the plan's own rows,
   * then CLO, GA and alerts, and the course grade, in that order.
   * `info` is what the student-info query returns for a user.
   */
  method SubmitMarks(db: Database, req: MarksEntry, user: UserId, hod: Option<UserId>,
                     info: UserId -> Option<StudentInfo>, now: int) returns (reply: Reply<()>)
    requires db.Valid()
    modifies db`cloMarks, db`cloAttainment, db`gaAttainment, db`alerts, db`nextAlertId, db`courseGrades
    ensures db.Valid()
    ensures var loc := Locate(db.batches, db.students, db.plans, req.studentId, req.courseCode, req.batchYear, req.semesterNo);
      !loc.Done? ==> reply == loc.Refused() && db.cloMarks == old(db.cloMarks) && DerivedOf(db) == old(DerivedOf(db))
    ensures var loc := Locate(db.batches, db.students, db.plans, req.studentId, req.courseCode, req.batchYear, req.semesterNo);
      loc.Done? ==>
        var t := loc.value;
        && reply == Done(())
        && db.cloMarks == UpsertAll(old(db.cloMarks), MarkWrites(t.student, user, AllowedRows(db.planRows, t.planId), req.marks))
        && DerivedOf(db) == Recompute(old(DerivedOf(db)), db.cloMarks, db.planRows, db.plans, db.cloGaMap,
                                      hod, info(t.student), t.student, t.off, now)
  {
    var loc := Locate(db.batches, db.students, db.plans, req.studentId, req.courseCode, req.batchYear, req.semesterNo);
    if !loc.Done? {
      return loc.Refused();
    }
    var t := loc.value;
    WriteMarks(db, t.student, user, AllowedRows(db.planRows, t.planId), req.marks);
    RecomputeAttainment(db, t.student, t.off, hod, info(t.student), now);
    reply := Done(());
  }

  // ----- POST /marks/upload-csv -----

  /**
   * One CSV record after coercion: a mark for a component and CLO number of
   * an offering. `typed` says whether the record passes the schema's type
   * checks: `student_id` and `course_code` are present, `batch_year`,
   * `semester_no` and `clo_no` coerce to integers, `component_type` is one
   * of the six components and `obtained` coerces to a number (not NaN).
   * When it holds, the other fields are the coerced values; when it does
   * not, they carry no meaning.
   */
  datatype CsvRecord = CsvRecord(studentId: string, courseCode: string, batchYear: int, semesterNo: int,
                                 component: ComponentType, cloNo: int, obtained: real, typed: bool)

  /** The record schema: the type checks, then `semester_no >= 1` and `clo_no >= 1`. */
  predicate CsvValid(r: CsvRecord)
  {
    r.typed && r.semesterNo >= 1 && r.cloNo >= 1
  }

  /** How many records from the front pass the record schema: the upload stops at the first that fails. */
  function ValidPrefix(rs: seq<CsvRecord>): (n: nat)
    ensures n <= |rs|
    ensures forall i :: 0 <= i < n ==> CsvValid(rs[i])
    ensures n < |rs| ==> !CsvValid(rs[n])
  {
    if |rs| == 0 || !CsvValid(rs[0]) then 0 else 1 + ValidPrefix(rs[1..])
  }

  /** A scan stopped at `i`, by the first failing record or by the end, stopped at the valid prefix. */
  lemma ValidPrefixAt(rs: seq<CsvRecord>, i: nat)
    requires i <= |rs|
    requires forall j :: 0 <= j < i ==> CsvValid(rs[j])
    requires i < |rs| ==> !CsvValid(rs[i])
    ensures ValidPrefix(rs) == i
  {
  }

  lemma ValidExtends(rs: seq<CsvRecord>, i: nat)
    requires i < |rs| && CsvValid(rs[i])
    requires forall j :: 0 <= j < i ==> CsvValid(rs[j])
    ensures forall j :: 0 <= j < i + 1 ==> CsvValid(rs[j])
  {
  }

  /** The tables the upload looks records up in and never writes. */
  datatype Catalog = Catalog(batches: Table<BatchKey, int>, students: Table<UserId, Student>, plans: Table<int, Plan>,
                             planRows: Table<int, PlanRow>, clos: Table<int, Clo>, gaMap: Table<CloGaKey, real>)

  function CatalogOf(db: Database): Catalog
    reads db`batches, db`students, db`plans, db`planRows, db`clos, db`cloGaMap
  {
    Catalog(db.batches, db.students, db.plans, db.planRows, db.clos, db.cloGaMap)
  }

  /** Where a record's mark goes: the located student and offering, and the plan row. */
  datatype CsvHit = CsvHit(target: Target, planRowId: int)

  /**
   * The lookups of one record: batch, student, plan, then the CLO by
   * course and number, then the plan row by plan, component and CLO. A
   * record failing any of them is skipped.
   */
  function CsvLookup(cat: Catalog, r: CsvRecord): Option<CsvHit>
  {
    match Locate(cat.batches, cat.students, cat.plans, r.studentId, r.courseCode, r.batchYear, r.semesterNo)
    case Done(t) =>
      (match FindClo(cat.clos, r.courseCode, r.cloNo)
       case None => None
       case Some(cloId) =>
         match FindPlanRow(cat.planRows, t.planId, r.component, cloId)
         case None => None
         case Some(rowId) => Some(CsvHit(t, rowId)))
    case _ => None
  }

  /** A lookup that succeeds ends at a row of the located plan, for the record's component and a CLO of its course and number. */
  lemma CsvLookupSpec(cat: Catalog, r: CsvRecord)
    requires UniqueKeys(cat.planRows) && UniqueKeys(cat.clos)
    ensures CsvLookup(cat, r).Some? ==>
      var h := CsvLookup(cat, r).value;
      && Locate(cat.batches, cat.students, cat.plans, r.studentId, r.courseCode, r.batchYear, r.semesterNo) == Done(h.target)
      && IsPlanRow(cat.planRows, h.target.planId, h.planRowId)
      && var row := Get(cat.planRows, h.planRowId).value;
         row.component == r.component && Get(cat.clos, row.cloId).Some? &&
         Get(cat.clos, row.cloId).value.courseCode == r.courseCode && Get(cat.clos, row.cloId).value.cloNo == r.cloNo
  {
    if CsvLookup(cat, r).Some? {
      var h := CsvLookup(cat, r).value;
      var cloId := FindClo(cat.clos, r.courseCode, r.cloNo).value;
      FindCloSpec(cat.clos, r.courseCode, r.cloNo);
      FindPlanRowSpec(cat.planRows, h.target.planId, r.component, cloId);
      var i :| 0 <= i < |cat.planRows| && cat.planRows[i].key == h.planRowId && cat.planRows[i].val.planId == h.target.planId &&
               cat.planRows[i].val.component == r.component && cat.planRows[i].val.cloId == cloId;
      GetUnique(cat.planRows, i);
      var j :| 0 <= j < |cat.clos| && cat.clos[j].key == cloId && cat.clos[j].val.courseCode == r.courseCode &&
               cat.clos[j].val.cloNo == r.cloNo;
      GetUnique(cat.clos, j);
    }
  }

  /** What the upload has written so far. */
  datatype CsvState = CsvState(marks: Table<MarkKey, Mark>, derived: Derived)

  /** One record whose lookups ended at `hit`: the mark upsert and the three recomputations, or nothing. */
  function CsvApply(cat: Catalog, user: UserId, hod: Option<UserId>, info: UserId -> Option<StudentInfo>, now: int,
                    st: CsvState, r: CsvRecord, hit: Option<CsvHit>): CsvState
  {
    match hit
    case None => st
    case Some(h) =>
      var marks := Upsert(st.marks, MarkKey(h.target.student, h.planRowId), Mark(r.obtained, user));
      CsvState(marks, Recompute(st.derived, marks, cat.planRows, cat.plans, cat.gaMap, hod, info(h.target.student),
                                h.target.student, h.target.off, now))
  }

  /** One record of the upload. */
  function CsvStep(cat: Catalog, user: UserId, hod: Option<UserId>, info: UserId -> Option<StudentInfo>, now: int,
                   st: CsvState, r: CsvRecord): CsvState
  {
    CsvApply(cat, user, hod, info, now, st, r, CsvLookup(cat, r))
  }

  /** The records processed in file order. */
  function CsvRun(cat: Catalog, user: UserId, hod: Option<UserId>, info: UserId -> Option<StudentInfo>, now: int,
                  st: CsvState, rs: seq<CsvRecord>): CsvState
  {
    if |rs| == 0 then st
    else CsvStep(cat, user, hod, info, now, CsvRun(cat, user, hod, info, now, st, rs[..|rs| - 1]), rs[|rs| - 1])
  }

  /** The run over one more record is one more step. */
  lemma CsvRunSnoc(cat: Catalog, user: UserId, hod: Option<UserId>, info: UserId -> Option<StudentInfo>, now: int,
                   st: CsvState, rs: seq<CsvRecord>, r: CsvRecord)
    ensures CsvRun(cat, user, hod, info, now, st, rs + [r]) ==
            CsvApply(cat, user, hod, info, now, CsvRun(cat, user, hod, info, now, st, rs), r, CsvLookup(cat, r))
  {
    assert (rs + [r])[..|rs|] == rs;
  }

  /** How many of the records have all five lookups succeed: the `processed` count. */
  function Hits(cat: Catalog, rs: seq<CsvRecord>): nat
  {
    if |rs| == 0 then 0
    else Hits(cat, rs[..|rs| - 1]) + if CsvLookup(cat, rs[|rs| - 1]).Some? then 1 else 0
  }

  /** The records the upload counts. */
  function IsHit(cat: Catalog): CsvRecord -> bool
  {
    (r: CsvRecord) => CsvLookup(cat, r).Some?
  }

  /** The positions in `xs` of the elements satisfying `p`. */
  ghost function Positions<T(!new)>(xs: seq<T>, p: T -> bool): set<nat>
  {
    set i: nat | i < |xs| && p(xs[i])
  }

  /** `Hits` counts the records satisfying `IsHit`, one step at a time. */
  lemma {:induction false} HitsPrefixCounts(cat: Catalog, rs: seq<CsvRecord>, n: nat)
    requires n <= |rs|
    ensures Hits(cat, rs[..n]) == |Positions(rs[..n], IsHit(cat))|
  {
    if n > 0 {
      HitsPrefixCounts(cat, rs, n - 1);
      assert rs[..n][..n - 1] == rs[..n - 1];
      PositionsSnoc(rs[..n - 1], IsHit(cat), rs[n - 1]);
      assert rs[..n - 1] + [rs[n - 1]] == rs[..n];
    }
  }

  /** The count is the number of positions of records whose lookups all succeed. */
  lemma HitsCountsPositions(cat: Catalog, rs: seq<CsvRecord>)
    ensures Hits(cat, rs) == |Positions(rs, IsHit(cat))|
  {
    HitsPrefixCounts(cat, rs, |rs|);
    assert rs[..|rs|] == rs;
  }

  /** One more element adds one position exactly when it satisfies `p`. */
  lemma PositionsSnoc<T(!new)>(xs: seq<T>, p: T -> bool, x: T)
    ensures |Positions(xs + [x], p)| == |Positions(xs, p)| + if p(x) then 1 else 0
  {
    var before := Positions(xs, p);
    var n := |xs|;
    assert n !in before;
    assert forall i :: 0 <= i < n ==> (xs + [x])[i] == xs[i];
    if p(x) {
      assert Positions(xs + [x], p) == before + {n};
    } else {
      assert Positions(xs + [x], p) == before;
    }
  }

  /** A record whose lookups succeed leaves its mark as the student's mark on that plan row and touches no other mark. */
  lemma CsvStepWrites(cat: Catalog, user: UserId, hod: Option<UserId>, info: UserId -> Option<StudentInfo>, now: int,
                      st: CsvState, r: CsvRecord, k: MarkKey)
    ensures CsvLookup(cat, r).None? ==> CsvStep(cat, user, hod, info, now, st, r) == st
    ensures CsvLookup(cat, r).Some? ==>
      var h := CsvLookup(cat, r).value;
      Get(CsvStep(cat, user, hod, info, now, st, r).marks, k) ==
        if k == MarkKey(h.target.student, h.planRowId) then Some(Mark(r.obtained, user)) else Get(st.marks, k)
  {
    if CsvLookup(cat, r).Some? {
      var h := CsvLookup(cat, r).value;
      UpsertGet(st.marks, MarkKey(h.target.student, h.planRowId), Mark(r.obtained, user), k);
    }
  }

  /** A record's writes, stated case by case, are the step `CsvApply` describes. */
  lemma CsvApplyCases(cat: Catalog, user: UserId, hod: Option<UserId>, info: UserId -> Option<StudentInfo>, now: int,
                      st: CsvState, r: CsvRecord, hit: Option<CsvHit>, marks: Table<MarkKey, Mark>, d: Derived)
    requires hit.None? ==> marks == st.marks && d == st.derived
    requires hit.Some? ==>
      && marks == Upsert(st.marks, MarkKey(hit.value.target.student, hit.value.planRowId), Mark(r.obtained, user))
      && d == Recompute(st.derived, marks, cat.planRows, cat.plans, cat.gaMap, hod, info(hit.value.target.student),
                        hit.value.target.student, hit.value.target.off, now)
    ensures CsvState(marks, d) == CsvApply(cat, user, hod, info, now, st, r, hit)
  {
  }

  /** A record whose lookups succeeded: the mark upsert, then the recomputations for its student and offering. */
  method ApplyHit(db: Database, r: CsvRecord, h: CsvHit, user: UserId, hod: Option<UserId>,
                  si: Option<StudentInfo>, now: int)
    requires db.Valid()
    modifies db`cloMarks, db`cloAttainment, db`gaAttainment, db`alerts, db`nextAlertId, db`courseGrades
    ensures db.Valid()
    ensures db.cloMarks == Upsert(old(db.cloMarks), MarkKey(h.target.student, h.planRowId), Mark(r.obtained, user))
    ensures DerivedOf(db) == Recompute(old(DerivedOf(db)), db.cloMarks, db.planRows, db.plans, db.cloGaMap, hod,
                                       si, h.target.student, h.target.off, now)
  {
    SetMark(db, MarkKey(h.target.student, h.planRowId), Mark(r.obtained, user));
    RecomputeAttainment(db, h.target.student, h.target.off, hod, si, now);
  }

  /** One record of the upload loop, after its lookups: the mark upsert and the recomputations, or nothing. */
  method ApplyCsvRecord(db: Database, cat: Catalog, r: CsvRecord, hit: Option<CsvHit>, user: UserId, hod: Option<UserId>,
                        info: UserId -> Option<StudentInfo>, now: int, ghost st: CsvState)
    requires db.Valid() && cat == CatalogOf(db)
    requires st.marks == db.cloMarks && st.derived == DerivedOf(db)
    modifies db`cloMarks, db`cloAttainment, db`gaAttainment, db`alerts, db`nextAlertId, db`courseGrades
    ensures db.Valid()
    ensures hit.None? ==> db.cloMarks == st.marks && DerivedOf(db) == st.derived
    ensures hit.Some? ==>
      && db.cloMarks == Upsert(st.marks, MarkKey(hit.value.target.student, hit.value.planRowId), Mark(r.obtained, user))
      && DerivedOf(db) == Recompute(st.derived, db.cloMarks, cat.planRows, cat.plans, cat.gaMap, hod,
                                    info(hit.value.target.student), hit.value.target.student, hit.value.target.off, now)
  {
    if hit.Some? {
      ApplyHit(db, r, hit.value, user, hod, info(hit.value.target.student), now);
    }
  }

  /** The loop body of the upload for the record at `i`, which passed the record schema. */
  method UploadRecord(db: Database, cat: Catalog, rs: seq<CsvRecord>, i: nat, processed: nat, user: UserId,
                      hod: Option<UserId>, info: UserId -> Option<StudentInfo>, now: int, ghost st0: CsvState)
    returns (processed': nat)
    requires i < |rs| && db.Valid() && cat == CatalogOf(db)
    requires forall j :: 0 <= j < i ==> CsvValid(rs[j])
    requires CsvValid(rs[i])
    requires CsvState(db.cloMarks, DerivedOf(db)) == CsvRun(cat, user, hod, info, now, st0, rs[..i])
    requires processed == Hits(cat, rs[..i])
    modifies db`cloMarks, db`cloAttainment, db`gaAttainment, db`alerts, db`nextAlertId, db`courseGrades
    ensures db.Valid()
    ensures forall j :: 0 <= j < i + 1 ==> CsvValid(rs[j])
    ensures CsvState(db.cloMarks, DerivedOf(db)) == CsvRun(cat, user, hod, info, now, st0, rs[..i + 1])
    ensures processed' == Hits(cat, rs[..i + 1])
  {
    ValidExtends(rs, i);
    ghost var st := CsvRun(cat, user, hod, info, now, st0, rs[..i]);
    var hit := CsvLookup(cat, rs[i]);
    ApplyCsvRecord(db, cat, rs[i], hit, user, hod, info, now, st);
    CsvApplyCases(cat, user, hod, info, now, st, rs[i], hit, db.cloMarks, DerivedOf(db));
    assert rs[..i + 1] == rs[..i] + [rs[i]];
    CsvRunSnoc(cat, user, hod, info, now, st0, rs[..i], rs[i]);
    assert rs[..i + 1][..i] == rs[..i];
    processed' := if hit.Some? then processed + 1 else processed;
  }

  /**
   * The record loop of the upload: records are taken in file order until
   * one fails the record schema; `i` is where it stopped and `processed`
   * counts the records whose lookups all succeeded.
   */
  method UploadRecords(db: Database, rs: seq<CsvRecord>, user: UserId, hod: Option<UserId>,
                       info: UserId -> Option<StudentInfo>, now: int) returns (i: nat, processed: nat)
    requires db.Valid()
    modifies db`cloMarks, db`cloAttainment, db`gaAttainment, db`alerts, db`nextAlertId, db`courseGrades
    ensures db.Valid()
    ensures i == ValidPrefix(rs)
    ensures CsvState(db.cloMarks, DerivedOf(db)) ==
            CsvRun(CatalogOf(db), user, hod, info, now, CsvState(old(db.cloMarks), old(DerivedOf(db))), rs[..i])
    ensures processed == Hits(CatalogOf(db), rs[..i])
  {
    var cat := CatalogOf(db);
    ghost var st0 := CsvState(db.cloMarks, DerivedOf(db));
    processed := 0;
    i := 0;
    while i < |rs| && CsvValid(rs[i])
      invariant 0 <= i <= |rs|
      invariant forall j :: 0 <= j < i ==> CsvValid(rs[j])
      invariant db.Valid() && cat == CatalogOf(db)
      invariant CsvState(db.cloMarks, DerivedOf(db)) == CsvRun(cat, user, hod, info, now, st0, rs[..i])
      invariant processed == Hits(cat, rs[..i])
    {
      processed := UploadRecord(db, cat, rs, i, processed, user, hod, info, now, st0);
      i := i + 1;
    }
    ValidPrefixAt(rs, i);
  }

  /**
   * POST /marks/upload-csv: without a file, 400. Otherwise the records in
   * file order; the upload answers with `processed` when every record passes
   * the record schema, and is rejected at the first that does not, keeping
   * the writes of the records before it.
   */
  method UploadCsv(db: Database, file: Option<seq<CsvRecord>>, user: UserId, hod: Option<UserId>,
                   info: UserId -> Option<StudentInfo>, now: int) returns (reply: Reply<nat>)
    requires db.Valid()
    modifies db`cloMarks, db`cloAttainment, db`gaAttainment, db`alerts, db`nextAlertId, db`courseGrades
    ensures db.Valid()
    ensures file.None? ==>
      reply == Status(400, "file required") && db.cloMarks == old(db.cloMarks) && DerivedOf(db) == old(DerivedOf(db))
    ensures file.Some? ==>
      var n := ValidPrefix(file.value);
      && CsvState(db.cloMarks, DerivedOf(db)) ==
         CsvRun(CatalogOf(db), user, hod, info, now, CsvState(old(db.cloMarks), old(DerivedOf(db))), file.value[..n])
      && reply == if n == |file.value| then Done(Hits(CatalogOf(db), file.value)) else Rejected
  {
    if file.None? {
      return Status(400, "file required");
    }
    var n, processed := UploadRecords(db, file.value, user, hod, info, now);
    if n < |file.value| {
      reply := Rejected;
    } else {
      assert file.value[..n] == file.value;
      reply := Done(processed);
    }
  }
}
