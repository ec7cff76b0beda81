/**
 * The portal's tables, each keyed by the unique key its `ON CONFLICT`
 * clauses (or its serial id) name, and the database object that holds them.
 */
module Schema {
  import opened Wrappers
  import opened Numeric
  import opened Tables

  /** A user id (a UUID string). */
  type UserId = string

  /** The assessment components a plan row can have. */
  datatype ComponentType = MID | FINAL | QUIZ | ASSIGNMENT | VIVA | OEL

  /** A course offering: one course taught to one batch in one semester. */
  datatype Offering = Offering(courseCode: string, batchId: int, semesterNo: int)

  datatype User = User(name: string, email: string, role: string)
  datatype BatchKey = BatchKey(batchYear: int, program: string)
  datatype Student = Student(studentId: string, batchId: int, currentSemesterNo: int, section: Option<string>)
  datatype Course = Course(title: string, isLab: bool, creditHours: real, semesterNo: int)
  datatype Clo = Clo(courseCode: string, cloNo: int, title: string, createdBy: UserId)
  datatype CloGaKey = CloGaKey(cloId: int, gaCode: string)
  datatype Plan = Plan(offering: Offering, createdBy: UserId)
  datatype PlanRow = PlanRow(planId: int, component: ComponentType, cloId: int, maxMarks: int)
  datatype MarkKey = MarkKey(student: UserId, planRowId: int)
  datatype Mark = Mark(obtained: real, createdBy: UserId)
  datatype ItemMarkKey = ItemMarkKey(student: UserId, itemId: int)
  datatype CloAttKey = CloAttKey(student: UserId, offering: Offering, cloId: int)
  datatype GaAttKey = GaAttKey(student: UserId, offering: Offering, gaCode: string)
  datatype GradeKey = GradeKey(student: UserId, offering: Offering)
  datatype CourseGrade = CourseGrade(percentage: real, letterGrade: string, gradePoints: real)
  /** The unique key alerts are deduplicated on, resolved or not (an assumption: the schema file is not part of this model). */
  datatype AlertKey = AlertKey(hod: UserId, student: UserId, courseCode: string, batchYear: int, semesterNo: int, gaCode: string)
  /**
   * The parts an alert's message is built from; `Text()` is the string
   * stored in the `message` column.
   */
  datatype AlertMessage = AlertMessage(name: string, studentId: string, gaCode: string, courseCode: string, pct: Decimal) {

    function Text(): string
    {
      name + " (" + studentId + ") has NOT achieved " + gaCode + " in " + courseCode + " (GA%=" + pct.Text() + ")."
    }
  }

  datatype Alert = Alert(id: int, studentId: string, studentName: string, gaPercentage: Decimal,
                         message: AlertMessage, isResolved: bool, createdAt: int)
  datatype EnrollmentKey = EnrollmentKey(student: UserId, courseCode: string, semesterNo: int, batchId: int)
  datatype BatchCourseKey = BatchCourseKey(batchId: int, semesterNo: int, courseCode: string)
  datatype AssignmentKey = AssignmentKey(faculty: UserId, batchId: int, semesterNo: int, courseCode: string)

  /** The second unique constraints: a CLO number per course, a plan per offering, a row per plan, component and CLO. */
  function CloSlot(c: Clo): (string, int)
  {
    (c.courseCode, c.cloNo)
  }

  function PlanSlot(p: Plan): Offering
  {
    p.offering
  }

  function RowSlot(r: PlanRow): (int, ComponentType, int)
  {
    (r.planId, r.component, r.cloId)
  }

  /**
   * How a route answers: a JSON body, an explicit status with its message,
   * or an error handed to the error middleware (a schema parse failure).
   */
  datatype Reply<T> = Done(value: T) | Status(code: int, message: string) | Rejected {

    /** The same refusal, from a route that answers with another type. */
    function Refused<U>(): (r: Reply<U>)
      requires !Done?
      ensures !r.Done? && (r.Status? <==> Status?) && (Status? ==> r.code == code && r.message == message)
    {
      if Status? then Status(code, message) else Rejected
    }
  }

  /**
   * Every unique constraint of the tables holds, and every serial id handed
   * out so far lies below its sequence.
   */
  ghost predicate Consistent(users: Table<UserId, User>, hods: Table<UserId, string>, batches: Table<BatchKey, int>,
                             students: Table<UserId, Student>, courses: Table<string, Course>, clos: Table<int, Clo>,
                             cloGaMap: Table<CloGaKey, real>, plans: Table<int, Plan>, planRows: Table<int, PlanRow>,
                             cloMarks: Table<MarkKey, Mark>, itemMarks: Table<ItemMarkKey, real>,
                             cloAttainment: Table<CloAttKey, Decimal>, gaAttainment: Table<GaAttKey, Decimal>,
                             courseGrades: Table<GradeKey, CourseGrade>, alerts: Table<AlertKey, Alert>,
                             enrollments: Table<EnrollmentKey, string>, batchCourses: Table<BatchCourseKey, ()>,
                             courseAssignments: Table<AssignmentKey, UserId>,
                             nextCloId: int, nextPlanId: int, nextPlanRowId: int)
  {
    && UniqueKeys(users) && UniqueKeys(hods) && UniqueKeys(batches) && UniqueKeys(students)
    && UniqueKeys(courses) && UniqueKeys(clos) && UniqueKeys(cloGaMap) && UniqueKeys(plans)
    && UniqueKeys(planRows) && UniqueKeys(cloMarks) && UniqueKeys(itemMarks)
    && UniqueKeys(cloAttainment) && UniqueKeys(gaAttainment) && UniqueKeys(courseGrades)
    && UniqueKeys(alerts) && UniqueKeys(enrollments) && UniqueKeys(batchCourses)
    && UniqueKeys(courseAssignments)
    && UniqueOn(clos, CloSlot) && UniqueOn(plans, PlanSlot) && UniqueOn(planRows, RowSlot)
    && SerialBelow(clos, nextCloId) && SerialBelow(plans, nextPlanId) && SerialBelow(planRows, nextPlanRowId)
  }

  /** `SELECT id FROM batches WHERE batch_year = y AND program = 'BSCS'`. */
  function BatchId(batches: Table<BatchKey, int>, batchYear: int): Option<int>
  {
    Get(batches, BatchKey(batchYear, "BSCS"))
  }

  // The row filters of the lookups below.

  function StudentIs(studentId: string, batchId: int): Row<UserId, Student> -> bool
  {
    (row: Row<UserId, Student>) => row.val.studentId == studentId && row.val.batchId == batchId
  }

  function PlanIs(off: Offering): Row<int, Plan> -> bool
  {
    (row: Row<int, Plan>) => row.val.offering == off
  }

  function CloIs(courseCode: string, cloNo: int): Row<int, Clo> -> bool
  {
    (row: Row<int, Clo>) => row.val.courseCode == courseCode && row.val.cloNo == cloNo
  }

  function PlanRowIs(planId: int, component: ComponentType, cloId: int): Row<int, PlanRow> -> bool
  {
    (row: Row<int, PlanRow>) => row.val.planId == planId && row.val.component == component && row.val.cloId == cloId
  }

  /** The user id of the first student row with this roll number in this batch. */
  function FindStudent(students: Table<UserId, Student>, studentId: string, batchId: int): Option<UserId>
  {
    match FirstWhere(students, StudentIs(studentId, batchId))
    case Some(row) => Some(row.key)
    case None => None
  }

  /** A student found is a row with the roll number in the batch; none is found only when no row has both. */
  lemma FindStudentSpec(students: Table<UserId, Student>, studentId: string, batchId: int)
    ensures var r := FindStudent(students, studentId, batchId);
      && (r.Some? ==> exists i :: (0 <= i < |students| && students[i].key == r.value &&
                                   students[i].val.studentId == studentId && students[i].val.batchId == batchId))
      && (r.None? ==> forall i :: 0 <= i < |students| ==>
                        !(students[i].val.studentId == studentId && students[i].val.batchId == batchId))
  {
    FirstWhereSpec(students, StudentIs(studentId, batchId));
  }

  /** The id of the offering's assessment plan, if it has one. */
  function FindPlan(plans: Table<int, Plan>, off: Offering): Option<int>
  {
    match FirstWhere(plans, PlanIs(off))
    case Some(row) => Some(row.key)
    case None => None
  }

  /** A plan found is a plan of the offering; none is found only when the offering has no plan. */
  lemma FindPlanSpec(plans: Table<int, Plan>, off: Offering)
    ensures var r := FindPlan(plans, off);
      && (r.Some? ==> exists i :: 0 <= i < |plans| && plans[i].key == r.value && plans[i].val.offering == off)
      && (r.None? ==> forall i :: 0 <= i < |plans| ==> plans[i].val.offering != off)
  {
    FirstWhereSpec(plans, PlanIs(off));
  }

  /** `SELECT id FROM clos WHERE course_code = c AND clo_no = n`. */
  function FindClo(clos: Table<int, Clo>, courseCode: string, cloNo: int): Option<int>
  {
    match FirstWhere(clos, CloIs(courseCode, cloNo))
    case Some(row) => Some(row.key)
    case None => None
  }

  /** A CLO found has the course and number; none is found only when no CLO has both. */
  lemma FindCloSpec(clos: Table<int, Clo>, courseCode: string, cloNo: int)
    ensures var r := FindClo(clos, courseCode, cloNo);
      && (r.Some? ==> exists i :: (0 <= i < |clos| && clos[i].key == r.value &&
                                   clos[i].val.courseCode == courseCode && clos[i].val.cloNo == cloNo))
      && (r.None? ==> forall i :: 0 <= i < |clos| ==>
                        !(clos[i].val.courseCode == courseCode && clos[i].val.cloNo == cloNo))
  {
    FirstWhereSpec(clos, CloIs(courseCode, cloNo));
  }

  /** The plan row of a plan for a component and a CLO. */
  function FindPlanRow(planRows: Table<int, PlanRow>, planId: int, component: ComponentType, cloId: int): Option<int>
  {
    match FirstWhere(planRows, PlanRowIs(planId, component, cloId))
    case Some(row) => Some(row.key)
    case None => None
  }

  /** A plan row found belongs to the plan with the component and CLO; none is found only when no row does. */
  lemma FindPlanRowSpec(planRows: Table<int, PlanRow>, planId: int, component: ComponentType, cloId: int)
    ensures var r := FindPlanRow(planRows, planId, component, cloId);
      && (r.Some? ==> exists i :: (0 <= i < |planRows| && planRows[i].key == r.value &&
                                   planRows[i].val.planId == planId && planRows[i].val.component == component &&
                                   planRows[i].val.cloId == cloId))
      && (r.None? ==> forall i :: 0 <= i < |planRows| ==>
                        !(planRows[i].val.planId == planId && planRows[i].val.component == component &&
                          planRows[i].val.cloId == cloId))
  {
    FirstWhereSpec(planRows, PlanRowIs(planId, component, cloId));
  }
}
