/**
 * The portal's database: one object holding every table and serial
 * sequence, updated in place by the route handlers.
 */
module Store {
  import opened Numeric
  import opened Tables
  import opened Schema

  class Database {
    var users: Table<UserId, User>
    var hods: Table<UserId, string>
    var batches: Table<BatchKey, int>
    var students: Table<UserId, Student>
    var courses: Table<string, Course>
    var clos: Table<int, Clo>
    var cloGaMap: Table<CloGaKey, real>
    var plans: Table<int, Plan>
    var planRows: Table<int, PlanRow>
    var cloMarks: Table<MarkKey, Mark>
    var itemMarks: Table<ItemMarkKey, real>
    var cloAttainment: Table<CloAttKey, Decimal>
    var gaAttainment: Table<GaAttKey, Decimal>
    var courseGrades: Table<GradeKey, CourseGrade>
    var alerts: Table<AlertKey, Alert>
    var enrollments: Table<EnrollmentKey, string>
    var batchCourses: Table<BatchCourseKey, ()>
    var courseAssignments: Table<AssignmentKey, UserId>
    var nextCloId: int
    var nextPlanId: int
    var nextPlanRowId: int
    var nextAlertId: int

    /** The constraints the schema declares hold of the current tables. */
    ghost predicate Valid()
      reads this
    {
      Consistent(users, hods, batches, students, courses, clos, cloGaMap, plans, planRows, cloMarks, itemMarks,
                 cloAttainment, gaAttainment, courseGrades, alerts, enrollments, batchCourses, courseAssignments,
                 nextCloId, nextPlanId, nextPlanRowId)
    }
  }
}
