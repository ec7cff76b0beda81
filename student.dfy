/**
 * The student routes' results logic: the `semesterNo` check, the list of
 * enrolled semesters, the per-GA averages of a semester, and the choice of
 * the academic-year window for the yearly averages.
 */
module StudentResults {
  import opened Wrappers
  import opened Numeric
  import opened Tables
  import opened Grouping
  import opened Schema

  /**
   * `Number(req.query.semesterNo)` must be present and at least 1; `None`
   * is a parameter that is absent or not a number.
   */
  function CheckSemester(semesterNo: Option<int>): (r: Reply<int>)
    ensures r == Status(400, "semesterNo required") <==> semesterNo.None? || semesterNo.value < 1
    ensures r.Done? <==> semesterNo.Some? && semesterNo.value >= 1
    ensures r.Done? ==> r.value == semesterNo.value
  {
    if semesterNo.None? || semesterNo.value < 1 then Status(400, "semesterNo required") else Done(semesterNo.value)
  }

  // ----- GET /results/semesters -----

  predicate StrictlyIncreasing(xs: seq<int>)
  {
    forall i, j :: 0 <= i < j < |xs| ==> xs[i] < xs[j]
  }

  /** `x` added to an ascending list without duplicates, in its place. */
  function InsertSorted(xs: seq<int>, x: int): seq<int>
  {
    if |xs| == 0 then [x]
    else if x < xs[0] then [x] + xs
    else if x == xs[0] then xs
    else [xs[0]] + InsertSorted(xs[1..], x)
  }

  /** Inserting adds exactly the value. */
  lemma {:induction false} InsertSortedMember(xs: seq<int>, x: int)
    ensures forall y :: y in InsertSorted(xs, x) <==> y in xs || y == x
  {
    if |xs| > 0 && x > xs[0] {
      InsertSortedMember(xs[1..], x);
      assert xs == [xs[0]] + xs[1..];
    }
  }

  /** Inserting into an ascending list without repeats keeps it so. */
  lemma {:induction false} InsertSortedSpec(xs: seq<int>, x: int)
    requires StrictlyIncreasing(xs)
    ensures StrictlyIncreasing(InsertSorted(xs, x))
    ensures forall y :: y in InsertSorted(xs, x) <==> y in xs || y == x
  {
    InsertSortedMember(xs, x);
    if |xs| > 0 && x > xs[0] {
      InsertSortedSpec(xs[1..], x);
      InsertSortedMember(xs[1..], x);
      var r := InsertSorted(xs[1..], x);
      forall y | y in r
        ensures xs[0] < y
      {
        if y != x {
          var k :| 0 <= k < |xs[1..]| && xs[1..][k] == y;
          assert xs[k + 1] == y;
        }
      }
      assert StrictlyIncreasing([xs[0]] + r) by {
        forall i, j | 0 <= i < j < |[xs[0]] + r|
          ensures ([xs[0]] + r)[i] < ([xs[0]] + r)[j]
        {
          if i == 0 {
            assert r[j - 1] in r;
          } else {
            assert ([xs[0]] + r)[i] == r[i - 1] && ([xs[0]] + r)[j] == r[j - 1];
          }
        }
      }
    } else if |xs| > 0 && x < xs[0] {
      assert StrictlyIncreasing([x] + xs) by {
        forall i, j | 0 <= i < j < |[x] + xs|
          ensures ([x] + xs)[i] < ([x] + xs)[j]
        {
          assert ([x] + xs)[j] == xs[j - 1];
          if i > 0 {
            assert ([x] + xs)[i] == xs[i - 1];
          } else {
            assert xs[0] <= xs[j - 1];
          }
        }
      }
    }
  }

  /** `SELECT DISTINCT semester_no FROM enrollments WHERE student_user_id = u ORDER BY semester_no`. */
  function EnrolledSemesters(enrollments: Table<EnrollmentKey, string>, u: UserId): seq<int>
  {
    if |enrollments| == 0 then []
    else
      var n := |enrollments| - 1;
      var rest := EnrolledSemesters(enrollments[..n], u);
      if enrollments[n].key.student == u then InsertSorted(rest, enrollments[n].key.semesterNo) else rest
  }

  /**
   * The semester list is ascending without repeats, and a semester is
   * listed exactly when the student has an enrollment in it.
   */
  lemma {:induction false} EnrolledSemestersSpec(enrollments: Table<EnrollmentKey, string>, u: UserId)
    ensures StrictlyIncreasing(EnrolledSemesters(enrollments, u))
    ensures forall s :: s in EnrolledSemesters(enrollments, u) <==>
      exists i :: 0 <= i < |enrollments| && enrollments[i].key.student == u && enrollments[i].key.semesterNo == s
  {
    if |enrollments| > 0 {
      var n := |enrollments| - 1;
      var init := enrollments[..n];
      EnrolledSemestersSpec(init, u);
      if enrollments[n].key.student == u {
        InsertSortedSpec(EnrolledSemesters(init, u), enrollments[n].key.semesterNo);
      }
      assert forall i :: 0 <= i < n ==> init[i] == enrollments[i];
    }
  }

  // ----- GET /results/semester -----

  /** One row of a semester's results: the course and its grade, if it has one. */
  datatype CourseResult = CourseResult(courseCode: string, title: string, grade: Option<CourseGrade>)

  /** The result row an enrollment gives, when its course exists. */
  function ResultOf(e: EnrollmentKey, courses: Table<string, Course>, grades: Table<GradeKey, CourseGrade>): Option<CourseResult>
  {
    match Get(courses, e.courseCode)
    case Some(c) => Some(CourseResult(e.courseCode, c.title, Get(grades, GradeKey(e.student, Offering(e.courseCode, e.batchId, e.semesterNo)))))
    case None => None
  }

  /**
   * The student's enrollments in the semester joined to their courses, each
   * left-joined to the course grade of the same offering.
   */
  function ResultRows(enrollments: Table<EnrollmentKey, string>, courses: Table<string, Course>,
                      grades: Table<GradeKey, CourseGrade>, u: UserId, sem: int): seq<CourseResult>
  {
    if |enrollments| == 0 then []
    else
      var n := |enrollments| - 1;
      var e := enrollments[n].key;
      ResultRows(enrollments[..n], courses, grades, u, sem) +
        if e.student == u && e.semesterNo == sem && ResultOf(e, courses, grades).Some? then [ResultOf(e, courses, grades).value] else []
  }

  /**
   * A result row is exactly the joined row of one of the student's
   * enrollments in the semester: the course exists, the title is the
   * course's, and the grade is that of the offering, or none.
   */
  lemma {:induction false} ResultRowsMember(enrollments: Table<EnrollmentKey, string>, courses: Table<string, Course>,
                                            grades: Table<GradeKey, CourseGrade>, u: UserId, sem: int, r: CourseResult)
    ensures r in ResultRows(enrollments, courses, grades, u, sem) <==>
      exists i :: (0 <= i < |enrollments| && enrollments[i].key.student == u && enrollments[i].key.semesterNo == sem &&
                   ResultOf(enrollments[i].key, courses, grades) == Some(r))
  {
    if |enrollments| > 0 {
      var n := |enrollments| - 1;
      ResultRowsMember(enrollments[..n], courses, grades, u, sem, r);
      assert forall i :: 0 <= i < n ==> enrollments[..n][i] == enrollments[i];
    }
  }

  /** GET /results/semester: the semester check, then the rows. */
  function SemesterResults(enrollments: Table<EnrollmentKey, string>, courses: Table<string, Course>,
                           grades: Table<GradeKey, CourseGrade>, u: UserId, semesterNo: Option<int>): (r: Reply<seq<CourseResult>>)
    ensures r == Status(400, "semesterNo required") <==> semesterNo.None? || semesterNo.value < 1
    ensures r.Done? ==> r.value == ResultRows(enrollments, courses, grades, u, semesterNo.value)
    ensures r.Done? ==> forall x :: x in r.value ==> Get(courses, x.courseCode).Some? &&
                                                     x.title == Get(courses, x.courseCode).value.title
  {
    if CheckSemester(semesterNo).Status? then Status(400, "semesterNo required")
    else
      var rows := ResultRows(enrollments, courses, grades, u, semesterNo.value);
      assert forall x :: x in rows ==> Get(courses, x.courseCode).Some? && x.title == Get(courses, x.courseCode).value.title by {
        forall x | x in rows
          ensures Get(courses, x.courseCode).Some? && x.title == Get(courses, x.courseCode).value.title
        {
          ResultRowsMember(enrollments, courses, grades, u, semesterNo.value, x);
        }
      }
      Done(rows)
  }

  // ----- GA averages -----

  /** The rows of `ga_attainment` the averages read: the student's, in one of the semesters. */
  predicate InWindow(key: GaAttKey, u: UserId, sems: seq<int>)
  {
    key.student == u && key.offering.semesterNo in sems
  }

  /** Each selected row as a contribution of its percentage and a count of one to its GA. */
  function GaContributions(ga: Table<GaAttKey, Decimal>, u: UserId, sems: seq<int>): seq<Contribution<string>>
  {
    if |ga| == 0 then []
    else
      var n := |ga| - 1;
      GaContributions(ga[..n], u, sems) +
        if InWindow(ga[n].key, u, sems) then [Contribution(ga[n].key.gaCode, ga[n].val.Value(), 1.0)] else []
  }

  /** `ROUND(AVG(percentage)::numeric, 2)` of a group. */
  function Average(s: Sums): Decimal
  {
    PgRound2(if s.den == 0.0 then 0.0 else s.num / s.den)
  }

  /** `SELECT ga_code, ROUND(AVG(percentage)::numeric, 2) ... GROUP BY ga_code`, one row per GA. */
  function GaAverages(ga: Table<GaAttKey, Decimal>, u: UserId, sems: seq<int>): Table<string, Decimal>
  {
    Aggregate(GaContributions(ga, u, sems), Average)
  }

  /** Reference definitions: the number of selected rows of a GA, and the sum of their percentages. */
  function GaCount(ga: Table<GaAttKey, Decimal>, u: UserId, sems: seq<int>, g: string): nat
  {
    if |ga| == 0 then 0
    else
      var n := |ga| - 1;
      GaCount(ga[..n], u, sems, g) + if InWindow(ga[n].key, u, sems) && ga[n].key.gaCode == g then 1 else 0
  }

  function GaTotal(ga: Table<GaAttKey, Decimal>, u: UserId, sems: seq<int>, g: string): real
  {
    if |ga| == 0 then 0.0
    else
      var n := |ga| - 1;
      GaTotal(ga[..n], u, sems, g) + if InWindow(ga[n].key, u, sems) && ga[n].key.gaCode == g then ga[n].val.Value() else 0.0
  }

  /** The reference average of one GA: the mean of its selected percentages rounded to hundredths, none without rows. */
  function MeanOf(ga: Table<GaAttKey, Decimal>, u: UserId, sems: seq<int>, g: string): Option<Decimal>
  {
    if GaCount(ga, u, sems, g) > 0 then Some(PgRound2(GaTotal(ga, u, sems, g) / GaCount(ga, u, sems, g) as real)) else None
  }

  lemma {:induction false} GaContributionsNum(ga: Table<GaAttKey, Decimal>, u: UserId, sems: seq<int>, g: string)
    ensures SumNum(GaContributions(ga, u, sems), g) == GaTotal(ga, u, sems, g)
  {
    if |ga| > 0 {
      var n := |ga| - 1;
      var xs := GaContributions(ga[..n], u, sems);
      GaContributionsNum(ga[..n], u, sems, g);
      if InWindow(ga[n].key, u, sems) {
        var ys := xs + [Contribution(ga[n].key.gaCode, ga[n].val.Value(), 1.0)];
        assert ys[..|ys| - 1] == xs;
      } else {
        assert GaContributions(ga, u, sems) == xs;
      }
    }
  }

  lemma {:induction false} GaContributionsDen(ga: Table<GaAttKey, Decimal>, u: UserId, sems: seq<int>, g: string)
    ensures SumDen(GaContributions(ga, u, sems), g) == GaCount(ga, u, sems, g) as real
  {
    if |ga| > 0 {
      var n := |ga| - 1;
      var xs := GaContributions(ga[..n], u, sems);
      GaContributionsDen(ga[..n], u, sems, g);
      var c := GaCount(ga[..n], u, sems, g);
      if InWindow(ga[n].key, u, sems) {
        var ys := xs + [Contribution(ga[n].key.gaCode, ga[n].val.Value(), 1.0)];
        assert ys[..|ys| - 1] == xs;
        if ga[n].key.gaCode == g {
          assert SumDen(ys, g) == c as real + 1.0;
          assert GaCount(ga, u, sems, g) == c + 1;
        } else {
          assert SumDen(ys, g) == c as real;
          assert GaCount(ga, u, sems, g) == c;
        }
      } else {
        assert GaContributions(ga, u, sems) == xs;
        assert GaCount(ga, u, sems, g) == c;
      }
    }
  }

  lemma {:induction false} GaContributionsOccurs(ga: Table<GaAttKey, Decimal>, u: UserId, sems: seq<int>, g: string)
    ensures Occurs(GaContributions(ga, u, sems), g) <==> GaCount(ga, u, sems, g) > 0
  {
    if |ga| > 0 {
      var n := |ga| - 1;
      var xs := GaContributions(ga[..n], u, sems);
      GaContributionsOccurs(ga[..n], u, sems, g);
      if InWindow(ga[n].key, u, sems) {
        var ys := xs + [Contribution(ga[n].key.gaCode, ga[n].val.Value(), 1.0)];
        assert ys[..|ys| - 1] == xs;
        OccursLast(ys, g);
      } else {
        assert GaContributions(ga, u, sems) == xs;
      }
    }
  }

  /**
   * A GA has a row exactly when the student has attainment rows for it in
   * the chosen semesters, and the row is the mean of those percentages,
   * rounded to hundredths; the GA codes are distinct.
   */
  lemma GaAveragesGet(ga: Table<GaAttKey, Decimal>, u: UserId, sems: seq<int>, g: string)
    ensures Get(GaAverages(ga, u, sems), g) ==
      if GaCount(ga, u, sems, g) > 0
      then Some(PgRound2(GaTotal(ga, u, sems, g) / GaCount(ga, u, sems, g) as real))
      else None
    ensures UniqueKeys(GaAverages(ga, u, sems))
  {
    AggregateGet(GaContributions(ga, u, sems), Average, g);
    GaContributionsNum(ga, u, sems, g);
    GaContributionsDen(ga, u, sems, g);
    GaContributionsOccurs(ga, u, sems, g);
  }

  ghost predicate PercentagesInRange(ga: Table<GaAttKey, Decimal>)
  {
    forall i :: 0 <= i < |ga| ==> 0.0 <= ga[i].val.Value() <= 100.0
  }

  lemma {:induction false} GaTotalBounds(ga: Table<GaAttKey, Decimal>, u: UserId, sems: seq<int>, g: string)
    requires PercentagesInRange(ga)
    ensures 0.0 <= GaTotal(ga, u, sems, g) <= 100.0 * GaCount(ga, u, sems, g) as real
  {
    if |ga| > 0 {
      var n := |ga| - 1;
      assert PercentagesInRange(ga[..n]) by {
        assert forall i :: 0 <= i < n ==> ga[..n][i] == ga[i];
      }
      GaTotalBounds(ga[..n], u, sems, g);
    }
  }

  /** Averages of percentages in [0, 100] stay in [0, 100]. */
  lemma GaAverageInRange(ga: Table<GaAttKey, Decimal>, u: UserId, sems: seq<int>, g: string)
    requires PercentagesInRange(ga)
    requires Get(GaAverages(ga, u, sems), g).Some?
    ensures 0.0 <= Get(GaAverages(ga, u, sems), g).value.Value() <= 100.0
  {
    GaAveragesGet(ga, u, sems, g);
    GaTotalBounds(ga, u, sems, g);
    var t, c := GaTotal(ga, u, sems, g), GaCount(ga, u, sems, g) as real;
    RatioWithin(t, c, 100.0);
    PgRound2StaysInPercentRange(t / c);
  }

  /** GET /results/semester-ga: the averages of the one semester. */
  function SemesterGa(ga: Table<GaAttKey, Decimal>, u: UserId, semesterNo: Option<int>): (r: Reply<Table<string, Decimal>>)
    ensures r == Status(400, "semesterNo required") <==> semesterNo.None? || semesterNo.value < 1
    ensures r.Done? ==> forall g :: Get(r.value, g).Some? <==> GaCount(ga, u, [semesterNo.value], g) > 0
    ensures r.Done? ==> forall g :: Get(r.value, g) == MeanOf(ga, u, [semesterNo.value], g)
  {
    if CheckSemester(semesterNo).Status? then Status(400, "semesterNo required")
    else
      var sem := semesterNo.value;
      var t := GaAverages(ga, u, [sem]);
      assert forall g :: Get(t, g) == MeanOf(ga, u, [sem], g) by {
        forall g
          ensures Get(t, g) == MeanOf(ga, u, [sem], g)
        {
          GaAveragesGet(ga, u, [sem], g);
        }
      }
      Done(t)
  }

  // ----- GET /results/yearly-ga -----

  /**
   * The first semester of the academic year: the requested semester when it
   * is odd, the one before when it is even, and two before when both of the
   * previous two are enrolled.
   */
  function YearStart(semesterNo: int, enrolled: seq<int>): (ys: int)
    ensures semesterNo - 2 <= ys <= semesterNo
    ensures ys == semesterNo - 2 <==> semesterNo - 1 in enrolled && semesterNo - 2 in enrolled
    ensures ys == semesterNo <==> semesterNo % 2 == 1 && !(semesterNo - 1 in enrolled && semesterNo - 2 in enrolled)
  {
    if semesterNo - 1 in enrolled && semesterNo - 2 in enrolled then semesterNo - 2
    else if semesterNo % 2 == 0 then semesterNo - 1
    else semesterNo
  }

  /** An incomplete year with the semesters of it that are enrolled, or the year's semesters. */
  datatype Window = Incomplete(available: seq<int>) | Year(semesters: seq<int>)

  /**
   * The year is incomplete exactly when its first or second semester is
   * not enrolled, and then lists those of the two that are. A complete year
   * is two or three consecutive enrolled semesters from the year's start,
   * with the third exactly when it is enrolled.
   */
  function YearWindow(semesterNo: int, enrolled: seq<int>): (w: Window)
    ensures var ys := YearStart(semesterNo, enrolled);
      && (w.Incomplete? <==> ys !in enrolled || ys + 1 !in enrolled)
      && (w.Incomplete? ==> |w.available| < 2 && forall s :: s in w.available <==> (s == ys || s == ys + 1) && s in enrolled)
      && (w.Year? ==>
           && (|w.semesters| == 2 || |w.semesters| == 3)
           && w.semesters[0] == ys
           && (forall i :: 0 <= i < |w.semesters| - 1 ==> w.semesters[i + 1] == w.semesters[i] + 1)
           && (forall i :: 0 <= i < |w.semesters| ==> w.semesters[i] in enrolled)
           && (|w.semesters| == 3 <==> ys + 2 in enrolled))
  {
    var ys := YearStart(semesterNo, enrolled);
    var available := (if ys in enrolled then [ys] else []) + (if ys + 1 in enrolled then [ys + 1] else []);
    if |available| < 2 then Incomplete(available)
    else if ys + 2 in enrolled then Year(available + [ys + 2])
    else Year(available)
  }

  /** A complete year covers the requested semester whenever that semester is enrolled. */
  lemma YearCoversRequested(semesterNo: int, enrolled: seq<int>)
    requires YearWindow(semesterNo, enrolled).Year? && semesterNo in enrolled
    ensures semesterNo in YearWindow(semesterNo, enrolled).semesters
  {
  }

  /** The body of a yearly-GA answer. */
  datatype YearlyGa = YearlyGa(ga: Table<string, Decimal>, semesters: seq<int>, message: Option<string>)

  /**
   * GET /results/yearly-ga: the semester check, then either the incomplete
   * year with no averages, or the averages over the year's semesters.
   */
  function YearlyGaResult(enrollments: Table<EnrollmentKey, string>, ga: Table<GaAttKey, Decimal>, u: UserId,
                          semesterNo: Option<int>): (r: Reply<YearlyGa>)
    ensures r == Status(400, "semesterNo required") <==> semesterNo.None? || semesterNo.value < 1
    ensures r.Done? && r.value.message.Some? ==> r.value.ga == [] && r.value.message.value == "Year not completed."
    ensures r.Done? && r.value.message.None? ==>
      2 <= |r.value.semesters| <= 3 &&
      forall i :: 0 <= i < |r.value.semesters| ==>
        exists j :: (0 <= j < |enrollments| && enrollments[j].key.student == u &&
                     enrollments[j].key.semesterNo == r.value.semesters[i])
    ensures r.Done? ==> var w := YearWindow(semesterNo.value, EnrolledSemesters(enrollments, u));
      && (r.value.message.Some? <==> w.Incomplete?)
      && (w.Incomplete? ==> r.value.semesters == w.available)
      && (w.Year? ==> r.value.semesters == w.semesters && r.value.ga == GaAverages(ga, u, w.semesters))
  {
    if CheckSemester(semesterNo).Status? then Status(400, "semesterNo required")
    else
      var sem := semesterNo.value;
      var enrolled := EnrolledSemesters(enrollments, u);
      EnrolledSemestersSpec(enrollments, u);
      match YearWindow(sem, enrolled)
      case Incomplete(available) => Done(YearlyGa([], available, Some("Year not completed.")))
      case Year(sems) =>
        Done(YearlyGa(GaAverages(ga, u, sems), sems, None))
  }
}
