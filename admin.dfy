/**
 * The admin routes' decision rules: the header normalisation of the
 * student bulk upload, the field checks of user creation, semester
 * promotion by CGPA, and the cascade that deletes a student.
 */
module Admin {
  import opened Wrappers
  import opened Tables
  import opened Schema
  import opened Store
  import opened Numeric

  // ----- CSV header keys -----

  /**
   * The characters JavaScript's `trim` removes and `\s` matches: the
   * ECMAScript WhiteSpace and LineTerminator code points.
   */
  predicate IsSpace(c: char)
  {
    var n := c as int;
    n == 0x09 || n == 0x0A || n == 0x0B || n == 0x0C || n == 0x0D || n == 0x20 || n == 0xA0 || n == 0x1680 ||
    (0x2000 <= n <= 0x200A) || n == 0x2028 || n == 0x2029 || n == 0x202F || n == 0x205F || n == 0x3000 ||
    n == 0xFEFF
  }

  predicate IsUpper(c: char)
  {
    'A' <= c <= 'Z'
  }

  predicate NoSpace(s: string)
  {
    forall i :: 0 <= i < |s| ==> !IsSpace(s[i])
  }

  predicate NoUpper(s: string)
  {
    forall i :: 0 <= i < |s| ==> !IsUpper(s[i])
  }

  /** `s` without its leading whitespace. */
  function TrimStart(s: string): (r: string)
    ensures |r| <= |s| && r == s[|s| - |r|..]
    ensures |r| > 0 ==> !IsSpace(r[0])
    ensures |s| > 0 && IsSpace(s[0]) ==> |r| < |s|
  {
    if |s| > 0 && IsSpace(s[0]) then TrimStart(s[1..]) else s
  }

  /** `s` without its trailing whitespace. */
  function TrimEnd(s: string): (r: string)
    ensures |r| <= |s| && r == s[..|r|]
    ensures |r| > 0 ==> !IsSpace(r[|r| - 1])
  {
    if |s| > 0 && IsSpace(s[|s| - 1]) then TrimEnd(s[..|s| - 1]) else s
  }

  /** String.prototype.trim. */
  function Trim(s: string): string
  {
    TrimEnd(TrimStart(s))
  }

  /** String.prototype.toLowerCase, on the ASCII letters. */
  function Lower(s: string): string
  {
    seq(|s|, i requires 0 <= i < |s| => if IsUpper(s[i]) then (s[i] as int + 32) as char else s[i])
  }

  /** `s.replace(/\s+/g, "_")`: every maximal run of whitespace becomes one underscore. */
  function Underscored(s: string): string
    decreases |s|
  {
    if |s| == 0 then ""
    else if IsSpace(s[0]) then "_" + Underscored(TrimStart(s))
    else [s[0]] + Underscored(s[1..])
  }

  /** The key a CSV header becomes: trimmed, lowercased, whitespace runs as `_`. */
  function NormKey(key: string): string
  {
    Underscored(Lower(Trim(key)))
  }

  lemma TrimKeepsPlainText(s: string)
    requires NoSpace(s)
    ensures Trim(s) == s
  {
  }

  lemma {:induction false} UnderscoredNoLonger(s: string)
    decreases |s|
    ensures |Underscored(s)| <= |s|
  {
    if |s| > 0 {
      if IsSpace(s[0]) {
        UnderscoredNoLonger(TrimStart(s));
      } else {
        UnderscoredNoLonger(s[1..]);
      }
    }
  }

  lemma NoUpperSuffix(s: string, k: nat)
    requires k <= |s| && NoUpper(s)
    ensures NoUpper(s[k..])
  {
    assert forall i :: 0 <= i < |s| - k ==> s[k..][i] == s[k + i];
  }

  lemma NoSpaceConcat(a: string, b: string)
    requires NoSpace(a) && NoSpace(b)
    ensures NoSpace(a + b)
  {
  }

  lemma NoUpperConcat(a: string, b: string)
    requires NoUpper(a) && NoUpper(b)
    ensures NoUpper(a + b)
  {
  }

  lemma {:induction false} UnderscoredNoSpace(s: string)
    decreases |s|
    ensures NoSpace(Underscored(s))
  {
    if |s| > 0 {
      if IsSpace(s[0]) {
        UnderscoredNoSpace(TrimStart(s));
        NoSpaceConcat("_", Underscored(TrimStart(s)));
      } else {
        UnderscoredNoSpace(s[1..]);
        NoSpaceConcat([s[0]], Underscored(s[1..]));
      }
    }
  }

  lemma {:induction false} UnderscoredNoUpper(s: string)
    requires NoUpper(s)
    decreases |s|
    ensures NoUpper(Underscored(s))
  {
    if |s| > 0 {
      if IsSpace(s[0]) {
        var t := TrimStart(s);
        NoUpperSuffix(s, |s| - |t|);
        UnderscoredNoUpper(t);
        NoUpperConcat("_", Underscored(t));
      } else {
        NoUpperSuffix(s, 1);
        UnderscoredNoUpper(s[1..]);
        NoUpperConcat([s[0]], Underscored(s[1..]));
      }
    }
  }

  lemma {:induction false} UnderscoredPlain(s: string)
    requires NoSpace(s)
    decreases |s|
    ensures Underscored(s) == s
  {
    if |s| > 0 {
      assert NoSpace(s[1..]) by {
        assert forall i :: 0 <= i < |s| - 1 ==> s[1..][i] == s[i + 1];
      }
      UnderscoredPlain(s[1..]);
      assert s == [s[0]] + s[1..];
    }
  }

  /**
   * A normalised key has no whitespace and no capital letter, and is
   * never longer than the header it came from.
   */
  lemma NormKeyShape(key: string)
    ensures NoSpace(NormKey(key)) && NoUpper(NormKey(key))
    ensures |NormKey(key)| <= |key|
  {
    var l := Lower(Trim(key));
    UnderscoredNoLonger(l);
    assert NoUpper(l);
    UnderscoredNoSpace(l);
    UnderscoredNoUpper(l);
  }

  /** The keys that normalise to themselves are exactly those without whitespace and capitals. */
  lemma NormKeyFixedPoints(key: string)
    ensures NormKey(key) == key <==> NoSpace(key) && NoUpper(key)
  {
    NormKeyShape(key);
    if NoSpace(key) && NoUpper(key) {
      TrimKeepsPlainText(key);
      assert Lower(key) == key;
      UnderscoredPlain(key);
    }
  }

  /** Normalising a normalised key changes nothing. */
  lemma NormKeyIdempotent(key: string)
    ensures NormKey(NormKey(key)) == NormKey(key)
  {
    NormKeyShape(key);
    NormKeyFixedPoints(NormKey(key));
  }

  /** The object `normalize` builds: each entry under its normalised key, a later entry overwriting an earlier one. */
  function Normalized(row: Table<string, string>): Table<string, string>
  {
    UpsertAll([], Rekey(row, NormKey))
  }

  /**
   * A key is present exactly when some header normalises to it, and it
   * holds the value of the last such header; the keys are distinct.
   */
  lemma NormalizedGet(row: Table<string, string>, k: string)
    ensures Get(Normalized(row), k).Some? <==> exists i :: 0 <= i < |row| && NormKey(row[i].key) == k
    ensures Get(Normalized(row), k).Some? ==>
      exists i :: (0 <= i < |row| && NormKey(row[i].key) == k && row[i].val == Get(Normalized(row), k).value &&
                   forall j :: i < j < |row| ==> NormKey(row[j].key) != k)
    ensures UniqueKeys(Normalized(row))
  {
    var rk := Rekey(row, NormKey);
    UpsertAllGet([], rk, k);
    LastGetSpec(rk, k);
    UpsertAllUnique([], rk);
    assert forall i :: 0 <= i < |row| ==> rk[i] == Row(NormKey(row[i].key), row[i].val);
  }

  /** `if (n[canonical] == null && n[alias] != null) n[canonical] = n[alias]`. */
  function WithAlias(n: Table<string, string>, canonical: string, alias: string): Table<string, string>
  {
    if Get(n, canonical).None? && Get(n, alias).Some? then Upsert(n, canonical, Get(n, alias).value) else n
  }

  /** The aliases the bulk upload accepts for its three required columns. */
  function FillAliases(n: Table<string, string>): Table<string, string>
  {
    WithAlias(WithAlias(WithAlias(n, "student_id", "studentid"), "batch_year", "batchyear"), "password", "pass")
  }

  /** The alias a canonical column may be given under. */
  function AliasOf(k: string): Option<string>
  {
    if k == "student_id" then Some("studentid")
    else if k == "batch_year" then Some("batchyear")
    else if k == "password" then Some("pass")
    else None
  }

  lemma WithAliasGet(n: Table<string, string>, canonical: string, alias: string, k: string)
    ensures Get(WithAlias(n, canonical, alias), k) ==
      if k == canonical && Get(n, canonical).None? then Get(n, alias) else Get(n, k)
  {
    if Get(n, canonical).None? && Get(n, alias).Some? {
      UpsertGet(n, canonical, Get(n, alias).value, k);
    }
  }

  /**
   * A canonical column that is absent takes its alias's value (when the
   * alias is present); a canonical column that is present, and every other
   * key, keeps its value.
   */
  lemma FillAliasesGet(n: Table<string, string>, k: string)
    ensures Get(FillAliases(n), k) ==
      if AliasOf(k).Some? && Get(n, k).None? then Get(n, AliasOf(k).value) else Get(n, k)
  {
    var n1 := WithAlias(n, "student_id", "studentid");
    var n2 := WithAlias(n1, "batch_year", "batchyear");
    WithAliasGet(n, "student_id", "studentid", k);
    WithAliasGet(n, "student_id", "studentid", "batch_year");
    WithAliasGet(n, "student_id", "studentid", "batchyear");
    WithAliasGet(n, "student_id", "studentid", "password");
    WithAliasGet(n, "student_id", "studentid", "pass");
    WithAliasGet(n1, "batch_year", "batchyear", k);
    WithAliasGet(n1, "batch_year", "batchyear", "password");
    WithAliasGet(n1, "batch_year", "batchyear", "pass");
    WithAliasGet(n2, "password", "pass", k);
  }

  /** The aliases keep the keys distinct. */
  lemma FillAliasesUnique(n: Table<string, string>)
    requires UniqueKeys(n)
    ensures UniqueKeys(FillAliases(n))
  {
    var n1 := WithAlias(n, "student_id", "studentid");
    var n2 := WithAlias(n1, "batch_year", "batchyear");
    if Get(n, "student_id").None? && Get(n, "studentid").Some? {
      UpsertUnique(n, "student_id", Get(n, "studentid").value);
    }
    if Get(n1, "batch_year").None? && Get(n1, "batchyear").Some? {
      UpsertUnique(n1, "batch_year", Get(n1, "batchyear").value);
    }
    if Get(n2, "password").None? && Get(n2, "pass").Some? {
      UpsertUnique(n2, "password", Get(n2, "pass").value);
    }
  }

  /**
   * One CSV record of the bulk upload as the route reads it: the entries
   * under their normalised keys, then the aliases filled in.
   */
  method NormalizeRecord(row: Table<string, string>) returns (out: Table<string, string>)
    ensures out == FillAliases(Normalized(row))
  {
    var rk := Rekey(row, NormKey);
    out := [];
    var i := 0;
    while i < |row|
      invariant 0 <= i <= |row|
      invariant out == UpsertAll([], rk[..i])
    {
      assert rk[..i + 1] == rk[..i] + [Row(NormKey(row[i].key), row[i].val)];
      UpsertAllSnoc([], rk[..i], Row(NormKey(row[i].key), row[i].val));
      out := Upsert(out, NormKey(row[i].key), row[i].val);
      i := i + 1;
    }
    assert rk[..i] == rk;
    if Get(out, "student_id").None? && Get(out, "studentid").Some? {
      out := Upsert(out, "student_id", Get(out, "studentid").value);
    }
    if Get(out, "batch_year").None? && Get(out, "batchyear").Some? {
      out := Upsert(out, "batch_year", Get(out, "batchyear").value);
    }
    if Get(out, "password").None? && Get(out, "pass").Some? {
      out := Upsert(out, "password", Get(out, "pass").value);
    }
  }

  // ----- POST /users: the field checks -----

  datatype RoleName = HOD | FACULTY | STUDENT | ADMIN

  /** The parsed body's fields the checks read; the schema has already required `department` and `student_id` to be non-empty when given. */
  datatype NewUser = NewUser(role: RoleName, department: Option<string>, studentId: Option<string>, batchYear: Option<int>)

  /**
   * HOD and faculty need a department; a student needs a roll number and a
   * batch year, and a batch year of 0 counts as missing.
   */
  function CheckNewUser(u: NewUser): (r: Reply<()>)
    ensures r == Status(400, "department is required") <==> (u.role == HOD || u.role == FACULTY) && u.department.None?
    ensures r == Status(400, "student_id and batch_year are required") <==>
            u.role == STUDENT && (u.studentId.None? || u.batchYear.None? || u.batchYear.value == 0)
    ensures r.Done? <==> !((u.role == HOD || u.role == FACULTY) && u.department.None?) &&
                         !(u.role == STUDENT && (u.studentId.None? || u.batchYear.None? || u.batchYear.value == 0))
    ensures r.Done? || r.Status?
  {
    if (u.role == HOD || u.role == FACULTY) && u.department.None? then Status(400, "department is required")
    else if u.role == STUDENT && (u.studentId.None? || u.batchYear.None? || u.batchYear.value == 0) then
      Status(400, "student_id and batch_year are required")
    else Done(())
  }

  // ----- POST /semester/promote -----

  /** The promotion request's query numbers; `None` is a parameter that is absent or not a number. */
  datatype PromoteQuery = PromoteQuery(batchYear: Option<int>, semesterNo: Option<int>, cgpaThreshold: Option<real>)

  /** The JSON body of a promotion. */
  datatype Promotion = Promotion(promoted: nat, cgpaThreshold: real, batchYear: int, semesterNo: int)

  /** The status a new enrollment row carries. */
  const Enrolled := "ENROLLED"

  /** The CGPA a student needs, 2.0 unless the request gives one. */
  function Threshold(q: PromoteQuery): real
  {
    if q.cgpaThreshold.Some? then q.cgpaThreshold.value else 2.0
  }

  /**
   * The checks before any student is looked at: both numbers present and
   * non-zero with `semesterNo >= 1`, then the batch of that year; the result
   * is the batch id.
   */
  function PromoteAdmission(batches: Table<BatchKey, int>, q: PromoteQuery): (r: Reply<int>)
    ensures r == Status(400, "batchYear and semesterNo required") <==>
            q.batchYear.None? || q.batchYear.value == 0 || q.semesterNo.None? || q.semesterNo.value < 1
    ensures r == Status(404, "Batch not found") <==>
            !(q.batchYear.None? || q.batchYear.value == 0 || q.semesterNo.None? || q.semesterNo.value < 1) &&
            BatchId(batches, q.batchYear.value).None?
    ensures r.Done? ==> q.semesterNo.Some? && q.semesterNo.value >= 1 && q.batchYear.Some? &&
                        Get(batches, BatchKey(q.batchYear.value, "BSCS")) == Some(r.value)
    ensures r.Done? || r.Status?
  {
    if q.batchYear.None? || q.batchYear.value == 0 || q.semesterNo.None? || q.semesterNo.value < 1 then
      Status(400, "batchYear and semesterNo required")
    else match BatchId(batches, q.batchYear.value)
      case None => Status(404, "Batch not found")
      case Some(b) => Done(b)
  }

  predicate Distinct<T(==)>(xs: seq<T>)
  {
    forall i, j :: 0 <= i < j < |xs| ==> xs[i] != xs[j]
  }

  /** `SELECT user_id FROM students WHERE batch_id = b AND current_semester_no = sem`. */
  function Candidates(students: Table<UserId, Student>, b: int, sem: int): seq<UserId>
  {
    if |students| == 0 then []
    else
      var n := |students| - 1;
      Candidates(students[..n], b, sem) +
        if students[n].val.batchId == b && students[n].val.currentSemesterNo == sem then [students[n].key] else []
  }

  lemma {:induction false} CandidatesMember(students: Table<UserId, Student>, b: int, sem: int, u: UserId)
    ensures u in Candidates(students, b, sem) <==>
      exists i :: 0 <= i < |students| && students[i].key == u && students[i].val.batchId == b &&
                  students[i].val.currentSemesterNo == sem
  {
    if |students| > 0 {
      var n := |students| - 1;
      CandidatesMember(students[..n], b, sem, u);
      assert forall i :: 0 <= i < n ==> students[..n][i] == students[i];
    }
  }

  lemma {:induction false} CandidatesDistinct(students: Table<UserId, Student>, b: int, sem: int)
    requires UniqueKeys(students)
    ensures Distinct(Candidates(students, b, sem))
  {
    if |students| > 0 {
      var n := |students| - 1;
      var init := students[..n];
      assert UniqueKeys(init) by {
        assert forall i :: 0 <= i < n ==> init[i] == students[i];
      }
      CandidatesDistinct(init, b, sem);
      CandidatesMember(init, b, sem, students[n].key);
      assert students[n].key !in Candidates(init, b, sem) by {
        forall i | 0 <= i < n
          ensures init[i].key != students[n].key
        {
          assert init[i] == students[i];
        }
      }
    }
  }

  /**
   * The students a promotion considers are exactly the stored students of
   * the batch in that semester, each once.
   */
  lemma CandidatesSpec(students: Table<UserId, Student>, b: int, sem: int, u: UserId)
    requires UniqueKeys(students)
    ensures u in Candidates(students, b, sem) <==>
      Get(students, u).Some? && Get(students, u).value.batchId == b && Get(students, u).value.currentSemesterNo == sem
    ensures Distinct(Candidates(students, b, sem))
  {
    CandidatesMember(students, b, sem, u);
    CandidatesDistinct(students, b, sem);
    GetSpec(students, u);
    if u in Candidates(students, b, sem) {
      var i :| 0 <= i < |students| && students[i].key == u && students[i].val.batchId == b &&
               students[i].val.currentSemesterNo == sem;
      GetUnique(students, i);
    } else if Get(students, u).Some? {
      var i :| 0 <= i < |students| && students[i] == Row(u, Get(students, u).value);
    }
  }

  /**
   * The credit hours a course-grade row adds to the student's sums: its
   * course's hours when the row is the student's, in the batch, and joins
   * a course; 0 otherwise.
   */
  function RowHours(g: Row<GradeKey, CourseGrade>, courses: Table<string, Course>, u: UserId, b: int): real
  {
    if g.key.student == u && g.key.offering.batchId == b && HasKey(courses, g.key.offering.courseCode)
    then Get(courses, g.key.offering.courseCode).value.creditHours
    else 0.0
  }

  /** `SUM(c.credit_hours)` over the student's course grades in the batch joined to their courses. */
  function CreditHours(grades: Table<GradeKey, CourseGrade>, courses: Table<string, Course>, u: UserId, b: int): real
  {
    if |grades| == 0 then 0.0
    else
      var n := |grades| - 1;
      CreditHours(grades[..n], courses, u, b) + RowHours(grades[n], courses, u, b)
  }

  /** `SUM(cg.grade_points * c.credit_hours)` over the same rows. */
  function GradeCredits(grades: Table<GradeKey, CourseGrade>, courses: Table<string, Course>, u: UserId, b: int): real
  {
    if |grades| == 0 then 0.0
    else
      var n := |grades| - 1;
      GradeCredits(grades[..n], courses, u, b) + grades[n].val.gradePoints * RowHours(grades[n], courses, u, b)
  }

  /** The credit-weighted mean of the grade points, 0 when the credit hours add up to 0. */
  function Cgpa(grades: Table<GradeKey, CourseGrade>, courses: Table<string, Course>, u: UserId, b: int): real
  {
    var den := CreditHours(grades, courses, u, b);
    if den == 0.0 then 0.0 else GradeCredits(grades, courses, u, b) / den
  }

  ghost predicate PointsOnScale(grades: Table<GradeKey, CourseGrade>)
  {
    forall i :: 0 <= i < |grades| ==> 0.0 <= grades[i].val.gradePoints <= 4.0
  }

  ghost predicate HoursNonNegative(courses: Table<string, Course>)
  {
    forall i :: 0 <= i < |courses| ==> courses[i].val.creditHours >= 0.0
  }

  lemma RowHoursNonNegative(g: Row<GradeKey, CourseGrade>, courses: Table<string, Course>, u: UserId, b: int)
    requires HoursNonNegative(courses)
    ensures RowHours(g, courses, u, b) >= 0.0
  {
    var c := g.key.offering.courseCode;
    if HasKey(courses, c) {
      GetSpec(courses, c);
      var i :| 0 <= i < |courses| && courses[i] == Row(c, Get(courses, c).value);
    }
  }

  lemma {:induction false} CreditSumsBounds(grades: Table<GradeKey, CourseGrade>, courses: Table<string, Course>, u: UserId, b: int)
    requires PointsOnScale(grades) && HoursNonNegative(courses)
    ensures 0.0 <= CreditHours(grades, courses, u, b)
    ensures 0.0 <= GradeCredits(grades, courses, u, b) <= 4.0 * CreditHours(grades, courses, u, b)
  {
    if |grades| > 0 {
      var n := |grades| - 1;
      assert PointsOnScale(grades[..n]) by {
        assert forall i :: 0 <= i < n ==> grades[..n][i] == grades[i];
      }
      CreditSumsBounds(grades[..n], courses, u, b);
      RowHoursNonNegative(grades[n], courses, u, b);
      var ch := RowHours(grades[n], courses, u, b);
      var gp := grades[n].val.gradePoints;
      assert 0.0 <= gp * ch <= 4.0 * ch by {
        assert 0.0 <= gp <= 4.0 && 0.0 <= ch;
      }
      var den, num := CreditHours(grades[..n], courses, u, b), GradeCredits(grades[..n], courses, u, b);
      assert CreditHours(grades, courses, u, b) == den + ch;
      assert GradeCredits(grades, courses, u, b) == num + gp * ch;
      assert num + gp * ch <= 4.0 * (den + ch);
    }
  }

  /** With grade points on the 0-4 scale and no negative credit hours, a CGPA lies on the same scale. */
  lemma CgpaInRange(grades: Table<GradeKey, CourseGrade>, courses: Table<string, Course>, u: UserId, b: int)
    requires PointsOnScale(grades) && HoursNonNegative(courses)
    ensures 0.0 <= Cgpa(grades, courses, u, b) <= 4.0
  {
    CreditSumsBounds(grades, courses, u, b);
    var num, den := GradeCredits(grades, courses, u, b), CreditHours(grades, courses, u, b);
    if den != 0.0 {
      RatioWithin(num, den, 4.0);
    }
  }

  /** A student without a course grade in the batch has CGPA 0. */
  lemma {:induction false} CgpaWithoutGrades(grades: Table<GradeKey, CourseGrade>, courses: Table<string, Course>, u: UserId, b: int)
    requires forall i :: 0 <= i < |grades| ==> grades[i].key.student != u || grades[i].key.offering.batchId != b
    ensures CreditHours(grades, courses, u, b) == 0.0 && GradeCredits(grades, courses, u, b) == 0.0
    ensures Cgpa(grades, courses, u, b) == 0.0
  {
    if |grades| > 0 {
      var n := |grades| - 1;
      assert forall i :: 0 <= i < n ==> grades[..n][i] == grades[i];
      CgpaWithoutGrades(grades[..n], courses, u, b);
    }
  }

  /** The candidates, in order, whose CGPA reaches the threshold. */
  function Promoted(cands: seq<UserId>, grades: Table<GradeKey, CourseGrade>, courses: Table<string, Course>,
                    b: int, thr: real): seq<UserId>
  {
    if |cands| == 0 then []
    else
      var n := |cands| - 1;
      Promoted(cands[..n], grades, courses, b, thr) + if Cgpa(grades, courses, cands[n], b) >= thr then [cands[n]] else []
  }

  lemma {:induction false} PromotedMember(cands: seq<UserId>, grades: Table<GradeKey, CourseGrade>,
                                          courses: Table<string, Course>, b: int, thr: real, u: UserId)
    ensures u in Promoted(cands, grades, courses, b, thr) <==> u in cands && Cgpa(grades, courses, u, b) >= thr
  {
    if |cands| > 0 {
      var n := |cands| - 1;
      PromotedMember(cands[..n], grades, courses, b, thr, u);
      assert cands == cands[..n] + [cands[n]];
    }
  }

  lemma {:induction false} PromotedDistinct(cands: seq<UserId>, grades: Table<GradeKey, CourseGrade>,
                                            courses: Table<string, Course>, b: int, thr: real)
    requires Distinct(cands)
    ensures Distinct(Promoted(cands, grades, courses, b, thr))
  {
    if |cands| > 0 {
      var n := |cands| - 1;
      assert Distinct(cands[..n]);
      PromotedDistinct(cands[..n], grades, courses, b, thr);
      PromotedMember(cands[..n], grades, courses, b, thr, cands[n]);
    }
  }

  function NextSemester(s: Student): Student
  {
    s.(currentSemesterNo := s.currentSemesterNo + 1)
  }

  /** The filter `WHERE user_id = u`. */
  function UserIs<V>(u: UserId): Row<UserId, V> -> bool
  {
    (row: Row<UserId, V>) => row.key == u
  }

  /** The `UPDATE students SET current_semester_no = current_semester_no + 1` of each student in turn. */
  function BumpAll(students: Table<UserId, Student>, us: seq<UserId>): Table<UserId, Student>
  {
    if |us| == 0 then students
    else
      var n := |us| - 1;
      UpdateWhere(BumpAll(students, us[..n]), UserIs(us[n]), NextSemester)
  }

  /** Each listed student, listed once, is one semester further on; every other row reads as before. */
  lemma {:induction false} BumpAllGet(students: Table<UserId, Student>, us: seq<UserId>, k: UserId)
    requires Distinct(us)
    ensures Get(BumpAll(students, us), k) ==
      match Get(students, k) case Some(s) => Some(if k in us then NextSemester(s) else s) case None => None
  {
    if |us| > 0 {
      var n := |us| - 1;
      assert Distinct(us[..n]);
      BumpAllGet(students, us[..n], k);
      UpdateWhereGet(BumpAll(students, us[..n]), UserIs(us[n]), NextSemester, k);
      assert us == us[..n] + [us[n]];
    }
  }

  lemma {:induction false} BumpAllUnique(students: Table<UserId, Student>, us: seq<UserId>)
    requires UniqueKeys(students)
    ensures UniqueKeys(BumpAll(students, us))
  {
    if |us| > 0 {
      var n := |us| - 1;
      BumpAllUnique(students, us[..n]);
      UpdateWhereGet(BumpAll(students, us[..n]), UserIs(us[n]), NextSemester, us[n]);
    }
  }

  /**
   * Promotion moves exactly the students of the batch in the semester whose
   * CGPA reaches the threshold, by one semester; every other student row,
   * in this batch or another, reads as before.
   */
  lemma PromotionOutcome(students: Table<UserId, Student>, grades: Table<GradeKey, CourseGrade>,
                         courses: Table<string, Course>, b: int, sem: int, thr: real, u: UserId)
    requires UniqueKeys(students)
    ensures Get(BumpAll(students, Promoted(Candidates(students, b, sem), grades, courses, b, thr)), u) ==
      match Get(students, u)
      case Some(s) =>
        Some(if s.batchId == b && s.currentSemesterNo == sem && Cgpa(grades, courses, u, b) >= thr
             then s.(currentSemesterNo := sem + 1) else s)
      case None => None
    ensures UniqueKeys(BumpAll(students, Promoted(Candidates(students, b, sem), grades, courses, b, thr)))
  {
    var cands := Candidates(students, b, sem);
    CandidatesSpec(students, b, sem, u);
    PromotedDistinct(cands, grades, courses, b, thr);
    PromotedMember(cands, grades, courses, b, thr, u);
    BumpAllGet(students, Promoted(cands, grades, courses, b, thr), u);
    BumpAllUnique(students, Promoted(cands, grades, courses, b, thr));
  }

  /** `SELECT course_code FROM batch_courses WHERE batch_id = b AND semester_no = sem`. */
  function NextCourses(batchCourses: Table<BatchCourseKey, ()>, b: int, sem: int): seq<string>
  {
    if |batchCourses| == 0 then []
    else
      var n := |batchCourses| - 1;
      var k := batchCourses[n].key;
      NextCourses(batchCourses[..n], b, sem) + if k.batchId == b && k.semesterNo == sem then [k.courseCode] else []
  }

  /** The courses listed are exactly those mapped to the batch's semester. */
  lemma {:induction false} NextCoursesMember(batchCourses: Table<BatchCourseKey, ()>, b: int, sem: int, c: string)
    ensures c in NextCourses(batchCourses, b, sem) <==>
      exists i :: 0 <= i < |batchCourses| && batchCourses[i].key == BatchCourseKey(b, sem, c)
  {
    if |batchCourses| > 0 {
      var n := |batchCourses| - 1;
      NextCoursesMember(batchCourses[..n], b, sem, c);
      assert forall i :: 0 <= i < n ==> batchCourses[..n][i] == batchCourses[i];
    }
  }

  /** One student's enrollment inserts, one per course. */
  function EnrollRowsFor(u: UserId, codes: seq<string>, sem: int, b: int): Table<EnrollmentKey, string>
  {
    seq(|codes|, i requires 0 <= i < |codes| => Row(EnrollmentKey(u, codes[i], sem, b), Enrolled))
  }

  /** The enrollment inserts of the promoted students, student by student. */
  function EnrollRows(us: seq<UserId>, codes: seq<string>, sem: int, b: int): Table<EnrollmentKey, string>
  {
    if |us| == 0 then []
    else
      var n := |us| - 1;
      EnrollRows(us[..n], codes, sem, b) + EnrollRowsFor(us[n], codes, sem, b)
  }

  lemma {:induction false} EnrollRowsMember(us: seq<UserId>, codes: seq<string>, sem: int, b: int,
                                            row: Row<EnrollmentKey, string>)
    ensures row in EnrollRows(us, codes, sem, b) <==>
      row.key.student in us && row.key.courseCode in codes && row.key.semesterNo == sem && row.key.batchId == b &&
      row.val == Enrolled
  {
    if |us| > 0 {
      var n := |us| - 1;
      EnrollRowsMember(us[..n], codes, sem, b, row);
      assert us == us[..n] + [us[n]];
      if row.key.student == us[n] && row.key.courseCode in codes && row.key.semesterNo == sem &&
         row.key.batchId == b && row.val == Enrolled {
        var j :| 0 <= j < |codes| && codes[j] == row.key.courseCode;
        assert EnrollRowsFor(us[n], codes, sem, b)[j] == row;
      }
    }
  }

  /**
   * After a promotion, an enrollment that existed is untouched; a new one
   * exists exactly for a promoted student, a course of the next semester,
   * that semester and the batch, with status ENROLLED.
   */
  lemma PromotionEnrollments(enrollments: Table<EnrollmentKey, string>, us: seq<UserId>, codes: seq<string>,
                             sem: int, b: int, k: EnrollmentKey)
    requires UniqueKeys(enrollments)
    ensures UniqueKeys(InsertIgnoreAll(enrollments, EnrollRows(us, codes, sem, b)))
    ensures Get(InsertIgnoreAll(enrollments, EnrollRows(us, codes, sem, b)), k) ==
      if HasKey(enrollments, k) then Get(enrollments, k)
      else if k.student in us && k.courseCode in codes && k.semesterNo == sem && k.batchId == b then Some(Enrolled)
      else None
  {
    var rows := EnrollRows(us, codes, sem, b);
    InsertIgnoreAllUnique(enrollments, rows);
    InsertIgnoreAllGet(enrollments, rows, k);
    GetSpec(rows, k);
    EnrollRowsMember(us, codes, sem, b, Row(k, Enrolled));
    if Get(rows, k).Some? {
      EnrollRowsMember(us, codes, sem, b, Row(k, Get(rows, k).value));
    } else {
      assert rows == [] || Row(k, Enrolled) !in rows;
    }
  }

  /** `UPDATE students SET current_semester_no = current_semester_no + 1 WHERE user_id = u`. */
  method Bump(db: Database, u: UserId)
    requires db.Valid()
    modifies db`students
    ensures db.Valid()
    ensures db.students == UpdateWhere(old(db.students), UserIs(u), NextSemester)
  {
    UpdateWhereGet(db.students, UserIs(u), NextSemester, u);
    db.students := UpdateWhere(db.students, UserIs(u), NextSemester);
  }

  /** The insert-or-ignore of one student's enrollment in each course, in order. */
  method EnrollAll(db: Database, u: UserId, codes: seq<string>, sem: int, b: int)
    requires db.Valid()
    modifies db`enrollments
    ensures db.Valid()
    ensures db.enrollments == InsertIgnoreAll(old(db.enrollments), EnrollRowsFor(u, codes, sem, b))
  {
    ghost var e0 := db.enrollments;
    ghost var rows := EnrollRowsFor(u, codes, sem, b);
    var j := 0;
    while j < |codes|
      invariant 0 <= j <= |codes|
      invariant db.Valid()
      invariant db.enrollments == InsertIgnoreAll(e0, rows[..j])
    {
      var key := EnrollmentKey(u, codes[j], sem, b);
      assert rows[..j + 1] == rows[..j] + [Row(key, Enrolled)];
      InsertIgnoreAllSnoc(e0, rows[..j], Row(key, Enrolled));
      InsertIgnoreUnique(db.enrollments, key, Enrolled);
      db.enrollments := InsertIgnore(db.enrollments, key, Enrolled);
      j := j + 1;
    }
    assert rows[..j] == rows;
  }

  /** What the promotion loop has done once it has looked at the first candidates. */
  ghost predicate PromotedSoFar(db: Database, s0: Table<UserId, Student>, e0: Table<EnrollmentKey, string>,
                                done: seq<UserId>, promoted: nat, b: int, sem: int, thr: real)
    reads db
  {
    var p := Promoted(done, db.courseGrades, db.courses, b, thr);
    && db.students == BumpAll(s0, p)
    && db.enrollments == InsertIgnoreAll(e0, EnrollRows(p, NextCourses(db.batchCourses, b, sem + 1), sem + 1, b))
    && promoted == |p|
  }

  /** One pass of the promotion loop: the CGPA check, then the bump and the next semester's enrollments. */
  method PromoteCandidate(db: Database, studs: seq<UserId>, i: nat, promoted: nat, b: int, sem: int, thr: real,
                          ghost s0: Table<UserId, Student>, ghost e0: Table<EnrollmentKey, string>)
    returns (promoted': nat)
    requires db.Valid() && i < |studs|
    requires PromotedSoFar(db, s0, e0, studs[..i], promoted, b, sem, thr)
    modifies db`students, db`enrollments
    ensures db.Valid()
    ensures PromotedSoFar(db, s0, e0, studs[..i + 1], promoted', b, sem, thr)
  {
    var u := studs[i];
    ghost var p := Promoted(studs[..i], db.courseGrades, db.courses, b, thr);
    assert studs[..i + 1][..i] == studs[..i];
    var cgpa := Cgpa(db.courseGrades, db.courses, u, b);
    if cgpa >= thr {
      Bump(db, u);
      promoted' := promoted + 1;
      var nextSem := sem + 1;
      var nextCourses := NextCourses(db.batchCourses, b, nextSem);
      EnrollAll(db, u, nextCourses, nextSem, b);
      assert (p + [u])[..|p|] == p;
      InsertIgnoreAllConcat(e0, EnrollRows(p, nextCourses, nextSem, b), EnrollRowsFor(u, nextCourses, nextSem, b));
    } else {
      promoted' := promoted;
      assert p + [] == p;
    }
  }

  /**
   * POST /semester/promote: after the checks, each student of the batch in
   * the semester whose CGPA reaches the threshold moves up one semester and
   * is enrolled, insert-or-ignore, in the batch's courses of the next one.
   */
  method Promote(db: Database, q: PromoteQuery) returns (reply: Reply<Promotion>)
    requires db.Valid()
    modifies db`students, db`enrollments
    ensures db.Valid()
    ensures var adm := PromoteAdmission(db.batches, q);
      !adm.Done? ==> reply == adm.Refused() && db.students == old(db.students) && db.enrollments == old(db.enrollments)
    ensures var adm := PromoteAdmission(db.batches, q);
      adm.Done? ==>
        var sem := q.semesterNo.value;
        var p := Promoted(Candidates(old(db.students), adm.value, sem), db.courseGrades, db.courses, adm.value, Threshold(q));
        && db.students == BumpAll(old(db.students), p)
        && db.enrollments ==
           InsertIgnoreAll(old(db.enrollments), EnrollRows(p, NextCourses(db.batchCourses, adm.value, sem + 1), sem + 1, adm.value))
        && reply == Done(Promotion(|p|, Threshold(q), q.batchYear.value, sem))
  {
    var adm := PromoteAdmission(db.batches, q);
    if !adm.Done? {
      return adm.Refused();
    }
    var b, sem, thr := adm.value, q.semesterNo.value, Threshold(q);
    var studs := Candidates(db.students, b, sem);
    ghost var s0, e0 := db.students, db.enrollments;
    var promoted := 0;
    var i := 0;
    while i < |studs|
      invariant 0 <= i <= |studs|
      invariant db.Valid()
      invariant PromotedSoFar(db, s0, e0, studs[..i], promoted, b, sem, thr)
    {
      promoted := PromoteCandidate(db, studs, i, promoted, b, sem, thr, s0, e0);
      i := i + 1;
    }
    assert studs[..i] == studs;
    reply := Done(Promotion(promoted, thr, q.batchYear.value, sem));
  }

  // ----- DELETE /batches/:batchId/students/:studentId -----

  /**
   * The checks before the cascade: a non-zero batch id and a non-empty roll
   * number, then a student with that roll number in the batch; the result is
   * the student's user id.
   */
  function DeleteAdmission(students: Table<UserId, Student>, batchId: Option<int>, studentId: string): (r: Reply<UserId>)
    ensures r == Status(400, "batchId and studentId required") <==> batchId.None? || batchId.value == 0 || studentId == ""
    ensures r == Status(404, "Student not found in batch") <==>
      !(batchId.None? || batchId.value == 0 || studentId == "") &&
      forall i :: 0 <= i < |students| ==> !(students[i].val.studentId == studentId && students[i].val.batchId == batchId.value)
    ensures r.Done? ==> batchId.Some? && exists i :: (0 <= i < |students| && students[i].key == r.value &&
                   students[i].val.studentId == studentId && students[i].val.batchId == batchId.value)
    ensures r.Done? || r.Status?
  {
    if batchId.None? || batchId.value == 0 || studentId == "" then Status(400, "batchId and studentId required")
    else
      FindStudentSpec(students, studentId, batchId.value);
      match FindStudent(students, studentId, batchId.value)
      case None => Status(404, "Student not found in batch")
      case Some(u) => Done(u)
  }

  // The `WHERE` clauses of the cascade.

  function AlertOf(u: UserId): Row<AlertKey, Alert> -> bool
  {
    (row: Row<AlertKey, Alert>) => row.key.student == u
  }

  function CloMarkOf(u: UserId): Row<MarkKey, Mark> -> bool
  {
    (row: Row<MarkKey, Mark>) => row.key.student == u
  }

  function ItemMarkOf(u: UserId): Row<ItemMarkKey, real> -> bool
  {
    (row: Row<ItemMarkKey, real>) => row.key.student == u
  }

  function CloAttainmentOf(u: UserId): Row<CloAttKey, Decimal> -> bool
  {
    (row: Row<CloAttKey, Decimal>) => row.key.student == u
  }

  function GaAttainmentOf(u: UserId): Row<GaAttKey, Decimal> -> bool
  {
    (row: Row<GaAttKey, Decimal>) => row.key.student == u
  }

  function CourseGradeOf(u: UserId): Row<GradeKey, CourseGrade> -> bool
  {
    (row: Row<GradeKey, CourseGrade>) => row.key.student == u
  }

  function EnrollmentOf(u: UserId, b: int): Row<EnrollmentKey, string> -> bool
  {
    (row: Row<EnrollmentKey, string>) => row.key.student == u && row.key.batchId == b
  }

  function StudentRowOf(u: UserId, b: int): Row<UserId, Student> -> bool
  {
    (row: Row<UserId, Student>) => row.key == u && row.val.batchId == b
  }

  /**
   * The cascade leaves no alert, mark, attainment, grade or enrollment (in
   * the batch) of the student, and keeps every row of everyone else.
   */
  lemma CascadeRemovesStudent(alerts: Table<AlertKey, Alert>, cloMarks: Table<MarkKey, Mark>,
                              itemMarks: Table<ItemMarkKey, real>, cloAtt: Table<CloAttKey, Decimal>,
                              gaAtt: Table<GaAttKey, Decimal>, grades: Table<GradeKey, CourseGrade>,
                              enrollments: Table<EnrollmentKey, string>, u: UserId, b: int)
    ensures forall row :: row in DeleteWhere(alerts, AlertOf(u)) <==> row in alerts && row.key.student != u
    ensures forall row :: row in DeleteWhere(cloMarks, CloMarkOf(u)) <==> row in cloMarks && row.key.student != u
    ensures forall row :: row in DeleteWhere(itemMarks, ItemMarkOf(u)) <==> row in itemMarks && row.key.student != u
    ensures forall row :: row in DeleteWhere(cloAtt, CloAttainmentOf(u)) <==> row in cloAtt && row.key.student != u
    ensures forall row :: row in DeleteWhere(gaAtt, GaAttainmentOf(u)) <==> row in gaAtt && row.key.student != u
    ensures forall row :: row in DeleteWhere(grades, CourseGradeOf(u)) <==> row in grades && row.key.student != u
    ensures forall row :: row in DeleteWhere(enrollments, EnrollmentOf(u, b)) <==>
      row in enrollments && !(row.key.student == u && row.key.batchId == b)
  {
    forall row | true
      ensures row in DeleteWhere(alerts, AlertOf(u)) <==> row in alerts && row.key.student != u
    {
      DeleteWhereMember(alerts, AlertOf(u), row);
    }
    forall row | true
      ensures row in DeleteWhere(cloMarks, CloMarkOf(u)) <==> row in cloMarks && row.key.student != u
    {
      DeleteWhereMember(cloMarks, CloMarkOf(u), row);
    }
    forall row | true
      ensures row in DeleteWhere(itemMarks, ItemMarkOf(u)) <==> row in itemMarks && row.key.student != u
    {
      DeleteWhereMember(itemMarks, ItemMarkOf(u), row);
    }
    forall row | true
      ensures row in DeleteWhere(cloAtt, CloAttainmentOf(u)) <==> row in cloAtt && row.key.student != u
    {
      DeleteWhereMember(cloAtt, CloAttainmentOf(u), row);
    }
    forall row | true
      ensures row in DeleteWhere(gaAtt, GaAttainmentOf(u)) <==> row in gaAtt && row.key.student != u
    {
      DeleteWhereMember(gaAtt, GaAttainmentOf(u), row);
    }
    forall row | true
      ensures row in DeleteWhere(grades, CourseGradeOf(u)) <==> row in grades && row.key.student != u
    {
      DeleteWhereMember(grades, CourseGradeOf(u), row);
    }
    forall row | true
      ensures row in DeleteWhere(enrollments, EnrollmentOf(u, b)) <==>
        row in enrollments && !(row.key.student == u && row.key.batchId == b)
    {
      DeleteWhereMember(enrollments, EnrollmentOf(u, b), row);
    }
  }

  /** A student found in a batch has no student row and no user row left after the cascade; others keep theirs. */
  lemma CascadeRemovesAccount(students: Table<UserId, Student>, users: Table<UserId, User>, u: UserId, b: int, k: UserId)
    requires UniqueKeys(students) && UniqueKeys(users)
    requires Get(students, u).Some? && Get(students, u).value.batchId == b
    ensures Get(DeleteWhere(students, StudentRowOf(u, b)), k) == if k == u then None else Get(students, k)
    ensures Get(DeleteWhere(users, UserIs(u)), k) == if k == u then None else Get(users, k)
  {
    DeleteWhereGet(students, StudentRowOf(u, b), k);
    DeleteWhereGet(users, UserIs(u), k);
  }

  // `DELETE FROM <table> WHERE p`, one table at a time.

  method DeleteFromAlerts(db: Database, p: Row<AlertKey, Alert> -> bool)
    requires db.Valid()
    modifies db`alerts
    ensures db.Valid()
    ensures db.alerts == DeleteWhere(old(db.alerts), p)
  {
    DeleteWhereUnique(db.alerts, p);
    db.alerts := DeleteWhere(db.alerts, p);
  }

  method DeleteFromCloMarks(db: Database, p: Row<MarkKey, Mark> -> bool)
    requires db.Valid()
    modifies db`cloMarks
    ensures db.Valid()
    ensures db.cloMarks == DeleteWhere(old(db.cloMarks), p)
  {
    DeleteWhereUnique(db.cloMarks, p);
    db.cloMarks := DeleteWhere(db.cloMarks, p);
  }

  method DeleteFromItemMarks(db: Database, p: Row<ItemMarkKey, real> -> bool)
    requires db.Valid()
    modifies db`itemMarks
    ensures db.Valid()
    ensures db.itemMarks == DeleteWhere(old(db.itemMarks), p)
  {
    DeleteWhereUnique(db.itemMarks, p);
    db.itemMarks := DeleteWhere(db.itemMarks, p);
  }

  method DeleteFromCloAttainment(db: Database, p: Row<CloAttKey, Decimal> -> bool)
    requires db.Valid()
    modifies db`cloAttainment
    ensures db.Valid()
    ensures db.cloAttainment == DeleteWhere(old(db.cloAttainment), p)
  {
    DeleteWhereUnique(db.cloAttainment, p);
    db.cloAttainment := DeleteWhere(db.cloAttainment, p);
  }

  method DeleteFromGaAttainment(db: Database, p: Row<GaAttKey, Decimal> -> bool)
    requires db.Valid()
    modifies db`gaAttainment
    ensures db.Valid()
    ensures db.gaAttainment == DeleteWhere(old(db.gaAttainment), p)
  {
    DeleteWhereUnique(db.gaAttainment, p);
    db.gaAttainment := DeleteWhere(db.gaAttainment, p);
  }

  method DeleteFromCourseGrades(db: Database, p: Row<GradeKey, CourseGrade> -> bool)
    requires db.Valid()
    modifies db`courseGrades
    ensures db.Valid()
    ensures db.courseGrades == DeleteWhere(old(db.courseGrades), p)
  {
    DeleteWhereUnique(db.courseGrades, p);
    db.courseGrades := DeleteWhere(db.courseGrades, p);
  }

  method DeleteFromEnrollments(db: Database, p: Row<EnrollmentKey, string> -> bool)
    requires db.Valid()
    modifies db`enrollments
    ensures db.Valid()
    ensures db.enrollments == DeleteWhere(old(db.enrollments), p)
  {
    DeleteWhereUnique(db.enrollments, p);
    db.enrollments := DeleteWhere(db.enrollments, p);
  }

  method DeleteFromStudents(db: Database, p: Row<UserId, Student> -> bool)
    requires db.Valid()
    modifies db`students
    ensures db.Valid()
    ensures db.students == DeleteWhere(old(db.students), p)
  {
    DeleteWhereUnique(db.students, p);
    db.students := DeleteWhere(db.students, p);
  }

  method DeleteFromUsers(db: Database, p: Row<UserId, User> -> bool)
    requires db.Valid()
    modifies db`users
    ensures db.Valid()
    ensures db.users == DeleteWhere(old(db.users), p)
  {
    DeleteWhereUnique(db.users, p);
    db.users := DeleteWhere(db.users, p);
  }

  /** The deletes of the student's alerts and marks. */
  method CascadeMarks(db: Database, u: UserId)
    requires db.Valid()
    modifies db`alerts, db`cloMarks, db`itemMarks
    ensures db.Valid()
    ensures db.alerts == DeleteWhere(old(db.alerts), AlertOf(u))
    ensures db.cloMarks == DeleteWhere(old(db.cloMarks), CloMarkOf(u))
    ensures db.itemMarks == DeleteWhere(old(db.itemMarks), ItemMarkOf(u))
  {
    DeleteFromAlerts(db, AlertOf(u));
    DeleteFromCloMarks(db, CloMarkOf(u));
    DeleteFromItemMarks(db, ItemMarkOf(u));
  }

  /** The deletes of the student's attainment and grade rows. */
  method CascadeResults(db: Database, u: UserId)
    requires db.Valid()
    modifies db`cloAttainment, db`gaAttainment, db`courseGrades
    ensures db.Valid()
    ensures db.cloAttainment == DeleteWhere(old(db.cloAttainment), CloAttainmentOf(u))
    ensures db.gaAttainment == DeleteWhere(old(db.gaAttainment), GaAttainmentOf(u))
    ensures db.courseGrades == DeleteWhere(old(db.courseGrades), CourseGradeOf(u))
  {
    DeleteFromCloAttainment(db, CloAttainmentOf(u));
    DeleteFromGaAttainment(db, GaAttainmentOf(u));
    DeleteFromCourseGrades(db, CourseGradeOf(u));
  }

  /** The deletes of the student's enrollments in the batch, student row and user row. */
  method CascadeAccount(db: Database, u: UserId, b: int)
    requires db.Valid()
    modifies db`enrollments, db`students, db`users
    ensures db.Valid()
    ensures db.enrollments == DeleteWhere(old(db.enrollments), EnrollmentOf(u, b))
    ensures db.students == DeleteWhere(old(db.students), StudentRowOf(u, b))
    ensures db.users == DeleteWhere(old(db.users), UserIs(u))
  {
    DeleteFromEnrollments(db, EnrollmentOf(u, b));
    DeleteFromStudents(db, StudentRowOf(u, b));
    DeleteFromUsers(db, UserIs(u));
  }

  /**
   * DELETE /batches/:batchId/students/:studentId: the checks, then the
   * cascade over the found student's rows.
   */
  method DeleteStudent(db: Database, batchId: Option<int>, studentId: string) returns (reply: Reply<()>)
    requires db.Valid()
    modifies db`alerts, db`cloMarks, db`itemMarks, db`cloAttainment, db`gaAttainment, db`courseGrades,
             db`enrollments, db`students, db`users
    ensures db.Valid()
    ensures var adm := DeleteAdmission(old(db.students), batchId, studentId);
      !adm.Done? ==> reply == adm.Refused() && unchanged(db)
    ensures var adm := DeleteAdmission(old(db.students), batchId, studentId);
      adm.Done? ==>
        var u, b := adm.value, batchId.value;
        && reply == Done(())
        && db.alerts == DeleteWhere(old(db.alerts), AlertOf(u))
        && db.cloMarks == DeleteWhere(old(db.cloMarks), CloMarkOf(u))
        && db.itemMarks == DeleteWhere(old(db.itemMarks), ItemMarkOf(u))
        && db.cloAttainment == DeleteWhere(old(db.cloAttainment), CloAttainmentOf(u))
        && db.gaAttainment == DeleteWhere(old(db.gaAttainment), GaAttainmentOf(u))
        && db.courseGrades == DeleteWhere(old(db.courseGrades), CourseGradeOf(u))
        && db.enrollments == DeleteWhere(old(db.enrollments), EnrollmentOf(u, b))
        && db.students == DeleteWhere(old(db.students), StudentRowOf(u, b))
        && db.users == DeleteWhere(old(db.users), UserIs(u))
  {
    var adm := DeleteAdmission(db.students, batchId, studentId);
    if !adm.Done? {
      return adm.Refused();
    }
    CascadeMarks(db, adm.value);
    CascadeResults(db, adm.value);
    CascadeAccount(db, adm.value, batchId.value);
    reply := Done(());
  }
}
