# Assessment portal: OBE attainment and grading engine in Dafny

This project models the server core of an outcome-based-education (OBE)
assessment portal. The portal is a set of Express route handlers over a
Postgres database. Faculty define course learning outcomes (CLOs), map them
to graduate attributes (GAs), build assessment plans and enter marks. After
every mark write the engine recomputes:

- the student's CLO percentages;
- the student's GA percentages;
- alerts to the head of department (HOD) for every GA under 50%;
- the student's course percentage and letter grade.

The model also covers:

- the admin routes: CSV header normalisation, user validation, semester
  promotion by CGPA, and deleting a student with its cascade;
- the student result routes;
- the HOD routes;
- the role gate in front of every route group.

The database is one object, `Store.Database`. It has one field per table and
per serial sequence. A table is a `Tables.Table<K, V>`: a sequence of keyed
rows in storage order. `Store.Database.Valid` says that the schema's unique
constraints hold. The SQL statements the handlers run become functions on
tables:

- `INSERT … ON CONFLICT DO UPDATE` is `Upsert`;
- `INSERT … ON CONFLICT DO NOTHING` is `InsertIgnore`;
- a serial-id upsert on a second unique constraint is `SerialUpsert`;
- `DELETE … WHERE` is `DeleteWhere`;
- `UPDATE … WHERE` is `UpdateWhere`;
- `SELECT … LIMIT 1` and `rows[0]` are `FirstWhere`;
- `GROUP BY` with `SUM` is `Grouping.GroupBy`, proved equal to an independent
  filter-and-sum definition.

Handlers that update the database are methods on `db`. Read-only handlers are
functions.

A route reply is a `Schema.Reply`:

- `Done(value)` is a 200 JSON body;
- `Status(code, message)` is an explicit `res.status(code)` answer;
- `Rejected` is a request-body schema failure handed to the error middleware.

Rounding is modelled exactly:

- Postgres `ROUND(x, 2)` rounds halves away from zero and keeps the value as
  a scaled `Numeric.Decimal`;
- JavaScript `Math.round` rounds halves up.

Inputs come in as parameters:

- the HOD lookup and the student-information lookup, which read tables that
  are not part of this model;
- the clock value stored in an alert's `created_at`.

The model follows the code as written in three places that are easy to misread:

- A GA whose mapped weights sum to zero gets a stored percentage of 0. It is
  not left out. See `Attainment.GaResultsGet`.
- The course percentage sums only the plan rows that have a mark. See
  `Attainment.GradeOf`.
- In the CSV upload, a record that fails the record schema aborts the whole
  request with the error middleware. The schema failures are a type check
  (a missing text column, a non-integer year, semester or CLO number, an
  unknown component, a non-numeric mark), which a record's `typed` flag
  stands for, and `semester_no` or `clo_no` below 1. The writes of earlier records are kept.
  The record is not skipped. See `Faculty.UploadCsv`.

## Model

| member | source | states |
|---|---|---|
| Roles.RequireRole | server/src/middleware/roles.js:1-7 | 401 "No role" exactly when the request carries no role; 403 "Forbidden" exactly when its role is not allowed; the handler runs exactly otherwise |
| Roles.RequireRoleWidening | server/src/middleware/roles.js:4 | allowing more roles never turns away a request that was let through |
| GradeScale.GradeFromPercentage | server/src/utils/gradeScale.js:1-11 | each letter is given exactly on its inclusive band (A from 85 up, …, D from 50, F below 50), with the grade points of that letter |
| GradeScale.BandDecidesLetter | server/src/utils/gradeScale.js:3-11 | the bands do not overlap: a letter whose band holds a percentage is the letter the scale gives it |
| GradeScale.BandsCover | server/src/utils/gradeScale.js:3-11 | every percentage lies in the band of the letter the scale gives it |
| GradeScale.PointsInRange | server/src/utils/gradeScale.js:1-11 | grade points always lie in [0, 4] |
| GradeScale.GradeMonotone | server/src/utils/gradeScale.js:3-11 | a higher percentage never earns fewer grade points |
| GradeScale.LetterPointsOneToOne | server/src/utils/gradeScale.js:3-11 | letters and grade points determine each other |
| GradeScale.GradeBoundaries | server/src/utils/gradeScale.js:3-11 | the boundaries are inclusive: 85 is A, 84.99 is A-, 50 is D, 49.99 is F; 150 is still A |
| Numeric.JsRound | server/src/modules/faculty/routes.js:488 | Math.round: the integer n with n - 1/2 <= x < n + 1/2 |
| Numeric.PgRound | server/src/utils/attainment.js:32 | Postgres ROUND: the nearest integer, with halves going away from zero |
| Numeric.RoundingsAgreeOnNonNegatives | server/src/utils/attainment.js:32 | the two roundings agree on non-negative inputs |
| Numeric.PgRoundIsOdd | server/src/utils/attainment.js:86 | Postgres rounding is symmetric around zero |
| Numeric.RoundingsMonotone | server/src/utils/attainment.js:32 | both roundings are monotone |
| Numeric.PgRound2 | server/src/utils/attainment.js:32 | ROUND(x, 2) is within half a hundredth of x, at display scale 2 |
| Numeric.PgRound2Exact | server/src/utils/attainment.js:86 | a value that is already a whole number of hundredths is unchanged |
| Numeric.PgRound2StaysInPercentRange | server/src/utils/attainment.js:32 | rounding keeps a value in [0, 100] inside [0, 100] |
| Numeric.BelowIsValueBelow | server/src/utils/attainment.js:114 | `Number(percentage) < 50` decided on the digits is the comparison of values |
| Numeric.NatText | server/src/utils/attainment.js:115 | a non-empty string of decimal digits whose first digit is not 0 unless the number is 0 |
| Numeric.NatTextRoundTrip | server/src/utils/attainment.js:115 | reading back the printed digits gives the number |
| Numeric.PadLeft | server/src/utils/attainment.js:115 | zero-padding: the length is the larger of the text and the width, the text is a suffix and the rest is zeros |
| Tables.UpsertGet | server/src/modules/faculty/routes.js:330-335 | after `ON CONFLICT DO UPDATE` the key holds the new value and every other key is unchanged |
| Tables.UpsertUnique | server/src/modules/faculty/routes.js:333 | an upsert keeps the conflict key unique |
| Tables.InsertIgnoreGet | server/src/modules/admin/routes.js:477-482 | after `ON CONFLICT DO NOTHING` an existing key keeps its value, a new key gets the inserted one, others are unchanged |
| Tables.UpsertAllGet | server/src/utils/attainment.js:38-46 | after a loop of upserts the last write of each key wins and other keys keep their values |
| Tables.UpsertAllIdempotent | server/src/utils/attainment.js:38-46 | repeating a loop of upserts with distinct keys leaves the table identical |
| Tables.InsertIgnoreAllGet | server/src/utils/attainment.js:113-124 | after a loop of insert-or-ignore statements existing rows keep their values and a new key takes its first insert |
| Tables.InsertIgnoreAllNoop | server/src/utils/attainment.js:117-122 | when every key of the loop is already present nothing is inserted |
| Tables.DeleteWhereMember | server/src/modules/admin/routes.js:80-88 | exactly the rows that do not match the WHERE clause survive |
| Tables.DeleteWhereGet | server/src/modules/admin/routes.js:87-88 | a key's row is gone after the delete if it matched and untouched otherwise |
| Tables.UpdateWhereUnique | server/src/modules/hod/routes.js:186 | an `UPDATE` rewrites values only, so unique keys stay unique |
| Tables.UpdateWhereGet | server/src/modules/hod/routes.js:186 | `UPDATE … WHERE` changes exactly the matching rows, in place, and keeps keys unique |
| Tables.UpdateWhereIdempotent | server/src/modules/hod/routes.js:186 | an idempotent update applied twice is applied once |
| Tables.FirstWhereSpec | server/src/modules/faculty/routes.js:312-315 | `rows[0]` of a query is the first matching row in storage order, and is absent only when no row matches |
| Tables.SerialUpsertGet | server/src/modules/faculty/routes.js:53-57 | a serial-id upsert on a second unique constraint returns the id of the row holding the slot or a new id, and that id holds the merged or new row; other ids keep their rows |
| Tables.SerialUpsertKeys | server/src/modules/faculty/routes.js:186-193 | the serial-id upsert keeps ids and slots unique and ids below the sequence; exactly the returned id holds the slot, and a later upsert of the slot resolves to the same id |
| Grouping.GroupByGet | server/src/utils/attainment.js:23-30 | `GROUP BY` gives one group per key that occurs, holding that key's SUMs, and no other group |
| Grouping.AggregateGet | server/src/utils/attainment.js:31-33 | the grouped SELECT has a row for a key exactly when it occurs, holding the SELECT-list expression of its sums |
| Schema.FindStudentSpec | server/src/modules/faculty/routes.js:312-316 | the student found has the roll number in the batch; none is found only when no row has both |
| Schema.FindPlanSpec | server/src/modules/faculty/routes.js:318-323 | the plan found belongs to the offering; none is found only when the offering has no plan |
| Schema.FindCloSpec | server/src/modules/faculty/routes.js:381-386 | the CLO found has the course and number; none is found only when no CLO has both |
| Schema.FindPlanRowSpec | server/src/modules/faculty/routes.js:388-394 | the plan row found has the plan, component and CLO; none is found only when no row has them |
| Attainment.MarkedRows | server/src/utils/attainment.js:10-22 | the three-table join of marks to plan rows to plans for one student and one offering |
| Attainment.MarkedRowsMember | server/src/utils/attainment.js:15-21 | a row is in the join exactly when a mark of the student joins through its plan row to a plan of the offering |
| Attainment.CloSumsAgree | server/src/utils/attainment.js:23-30 | the grouped sums are the sums of obtained and of maximum marks over the CLO's marked rows |
| Attainment.CloPercentage | server/src/utils/attainment.js:32 | 0 when the maximum sum is 0; otherwise the ratio times 100 at scale 2, within half a hundredth of it with the tie going away from zero (49.995 gives 50.00) |
| Attainment.CloResultsGet | server/src/utils/attainment.js:9-35 | a CLO has a result exactly when it has a marked row, the result is its rounded percentage, and there is one row per CLO |
| Attainment.CloUpsertsGet | server/src/utils/attainment.js:40-44 | the CLO results are stored under the student, offering and CLO key |
| Attainment.CloStageGet | server/src/utils/attainment.js:7-48 | after the CLO stage each CLO of the offering with marked rows holds its percentage; every other key, other CLOs included, keeps its row |
| Attainment.CloStageIdempotent | server/src/utils/attainment.js:7-48 | running the CLO stage again on unchanged marks leaves `clo_attainment` identical |
| Attainment.RecomputeCloAttainment | server/src/utils/attainment.js:7-48 | returns the CLO query's rows and leaves `clo_attainment` as the CLO stage describes |
| Attainment.Yield | server/src/utils/attainment.js:71-77 | a mapping row contributes (p·w, w) to its GA exactly when it maps the CLO |
| Attainment.MappedToMember | server/src/utils/attainment.js:76 | the contributions of a CLO are exactly those its mapping rows yield |
| Attainment.JoinRowMember | server/src/utils/attainment.js:66-77 | a stored CLO percentage joins every mapping row of its CLO when it is in scope, and nothing otherwise |
| Attainment.GaContributionsMember | server/src/utils/attainment.js:66-77 | the join pairs every in-scope stored CLO percentage with every mapping of its CLO, and nothing else |
| Attainment.GaPercentage | server/src/utils/attainment.js:86 | 0 when the weight sum is 0; otherwise the weighted mean at scale 2, within half a hundredth of it with the tie going away from zero (49.995 gives 50.00, so no alert) |
| Attainment.GaResultsGet | server/src/utils/attainment.js:65-89 | a GA has a result exactly when some stored CLO percentage maps to it, holding the rounded Σ(p·w)/Σw (0 when Σw = 0) |
| Attainment.GaUpsertsGet | server/src/utils/attainment.js:93-97 | the GA results are stored under the student, offering and GA key |
| Attainment.GaStageGet | server/src/utils/attainment.js:91-99 | after the GA stage each reached GA holds its new percentage; every other key keeps its row |
| Attainment.GaStageIdempotent | server/src/utils/attainment.js:65-99 | running the GA stage again on unchanged CLO percentages leaves `ga_attainment` identical |
| Attainment.UpsertGaAttainment | server/src/utils/attainment.js:65-99 | returns the GA query's rows and leaves `ga_attainment` as the GA stage describes |
| Attainment.AlertRow | server/src/utils/attainment.js:115-122 | the alert row attempted for a GA result: keyed on HOD, student, course, batch year, semester and GA; carrying the id, the roll number, the name, the GA percentage, the message parts, unresolved, created now |
| Attainment.AlertRowMessage | server/src/utils/attainment.js:115 | the stored message is exactly `name (roll) has NOT achieved GA in course (GA%=pct).` with the percentage as Postgres prints it |
| Attainment.AlertAttempts | server/src/utils/attainment.js:113-124 | one insert attempt per GA result under 50, in result order, numbered from the next serial id |
| Attainment.AlertAttemptsRows | server/src/utils/attainment.js:113-122 | the i-th attempt carries serial id first + i and comes from a GA result under 50 |
| Attainment.AlertAttemptsKeys | server/src/utils/attainment.js:114-122 | the alert keys attempted are those of the GA results under 50, whatever the ids and the clock |
| Attainment.AlertAttemptsPrefix | server/src/utils/attainment.js:113-124 | the attempts for a prefix of the results are a prefix of the attempts for all of them |
| Attainment.AlertAttemptsStepBelow | server/src/utils/attainment.js:114-122 | a result under 50 adds the attempt numbered by the attempts before it |
| Attainment.AlertAttemptsStepAbove | server/src/utils/attainment.js:114 | a result of 50 or more adds no attempt |
| Attainment.InsertAlerts | server/src/utils/attainment.js:113-124 | the alert loop leaves `alerts` as the insert-or-ignore of the attempts and advances the sequence by their number |
| Attainment.AlertInserts | server/src/utils/attainment.js:102-112 | nothing is attempted unless an HOD and the student's information were found |
| Attainment.AlertStageGet | server/src/utils/attainment.js:102-126 | an existing alert key keeps all its fields; a key appears newly only for a GA under 50 of this run, addressed to the HOD found |
| Attainment.AlertStageNoDuplicates | server/src/utils/attainment.js:117-122 | a second run over the same GA results inserts no alert, whatever ids and clock it uses |
| Attainment.RaiseAlerts | server/src/utils/attainment.js:102-126 | `alerts` becomes the insert-or-ignore of the attempts, which are empty without an HOD or student information |
| Attainment.RecomputeGaAttainmentAndAlerts | server/src/utils/attainment.js:53-129 | the GA stage followed by the alert loop over the same GA rows |
| Attainment.CoursePercentage | server/src/modules/faculty/routes.js:488 | 0 when the total is 0; otherwise a whole number of hundredths p with 100·obtained/total in [p - 0.005, p + 0.005), so ties go up (84.995 gives 85.00); inside [0, 100] when 0 <= obtained <= total |
| Attainment.CoursePercentageDetermined | server/src/modules/faculty/routes.js:488 | any whole number of hundredths in that half-up window is the stored percentage, so the contract fixes the value |
| Attainment.GradeOf | server/src/modules/faculty/routes.js:476-490 | no marked maximum gives 0 % and F with 0 points; otherwise the percentage is the half-up hundredth of 100·Σobtained/Σmax over the marked rows, inside [0, 100] when marks lie within their maxima; the letter and points are those of the band holding the percentage; 0 points exactly below 50 %; points in [0, 4] |
| Attainment.GradeStageGet | server/src/modules/faculty/routes.js:491-496 | the (student, offering) row holds the grade of the marked rows; every other row is unchanged; keys stay unique |
| Attainment.RecomputeCourseGrade | server/src/modules/faculty/routes.js:474-497 | `course_grades` is left as the grade stage describes |
| Attainment.RecomputeIdempotent | server/src/modules/faculty/routes.js:338-340 | recomputing twice with no mark written in between leaves CLO, GA and grade rows identical and creates no alert beyond the first run |
| Attainment.RecomputeInStages | server/src/modules/faculty/routes.js:338-340 | the three stages run in order make up one recomputation |
| Attainment.RecomputeAttainment | server/src/modules/faculty/routes.js:338-340 | the derived tables after CLO, GA with alerts, and grade are one recomputation of the derived tables before |
| Faculty.AddClo | server/src/modules/faculty/routes.js:47-62 | rejects `clo_no < 1` or a title under 3 characters without writing; otherwise upserts on (course, number), keeping the creator of an existing CLO, and returns its id |
| Faculty.AddCloFindsIt | server/src/modules/faculty/routes.js:53-59 | after adding a CLO its course and number find the returned id, which carries the new title |
| Faculty.MapCloGa | server/src/modules/faculty/routes.js:80-98 | rejects a code outside GA1..GA10 without writing; otherwise upserts the (CLO, GA) weight, defaulting to 1.0 |
| Faculty.PlanRowAdmission | server/src/modules/faculty/routes.js:165-184 | the schema, batch, course and OEL-on-lab checks, in order, each exactly when the earlier ones pass, and the offering the row goes to |
| Faculty.UpsertPlan | server/src/modules/faculty/routes.js:186-193 | the plan upsert on the offering, returning its id |
| Faculty.UpsertPlanFindsIt | server/src/modules/faculty/routes.js:186-193 | after the plan upsert the offering finds the returned plan, now created by the latest caller |
| Faculty.CreatePlan | server/src/modules/faculty/routes.js:101-128 | rejects `semester_no < 1`, answers 404 for a missing batch or course without writing, otherwise upserts the plan |
| Faculty.AddPlanRow | server/src/modules/faculty/routes.js:163-206 | a refused request writes nothing; otherwise the plan upsert, then the row upsert into that plan on (plan, component, CLO) |
| Faculty.AddPlanRowFindsIt | server/src/modules/faculty/routes.js:195-202 | after the row upsert the plan, component and CLO find the returned row, which carries the new maximum marks |
| Faculty.LocateSpec | server/src/modules/faculty/routes.js:306-323 | the checks at the head of marks entry, in order, and a located (student, plan) is a student of the batch and a plan of the offering |
| Faculty.AllowedRowsGet | server/src/modules/faculty/routes.js:325-326 | the allowed set holds exactly the ids of the plan's rows |
| Faculty.LastInputIsLast | server/src/modules/faculty/routes.js:328-336 | the value taken for a plan row is that of an entry for it after which no entry names it |
| Faculty.MarkWritesLast | server/src/modules/faculty/routes.js:328-336 | the winning write for a mark key is the last allowed entry for its plan row |
| Faculty.SetMark | server/src/modules/faculty/routes.js:330-335 | `clo_marks` becomes the upsert of the mark |
| Faculty.WriteMarks | server/src/modules/faculty/routes.js:328-336 | `clo_marks` becomes the upserts of the allowed entries in form order |
| Faculty.MarksEntryGet | server/src/modules/faculty/routes.js:325-336 | each of the student's marks on the plan's rows holds the last value the form gave for it; every other mark is unchanged |
| Faculty.SubmitMarks | server/src/modules/faculty/routes.js:294-344 | a refused request writes nothing; otherwise the allowed marks are written, then CLO, GA and alerts, and the course grade are recomputed |
| Faculty.ValidPrefix | server/src/modules/faculty/routes.js:354-364 | the number of records from the front that pass the record schema (the type checks and both minimums): all of them pass, and the next one fails |
| Faculty.ValidPrefixAt | server/src/modules/faculty/routes.js:354-364 | a scan stopped by the first failing record or by the end stopped at the valid prefix |
| Faculty.ValidExtends | server/src/modules/faculty/routes.js:354-364 | one more passing record extends the passing prefix |
| Faculty.CsvLookupSpec | server/src/modules/faculty/routes.js:366-394 | a record whose lookups succeed ends at a row of the located plan, for its component and a CLO of its course and number |
| Faculty.CsvRunSnoc | server/src/modules/faculty/routes.js:354-408 | the run over one more record is one more step |
| Faculty.HitsPrefixCounts | server/src/modules/faculty/routes.js:407 | the `processed` count over a prefix is the number of its records whose lookups all succeed |
| Faculty.HitsCountsPositions | server/src/modules/faculty/routes.js:407 | `processed` is the number of records whose lookups all succeed |
| Faculty.PositionsSnoc | server/src/modules/faculty/routes.js:407 | one more element adds one counted position exactly when it qualifies |
| Faculty.CsvStepWrites | server/src/modules/faculty/routes.js:366-405 | a record whose lookups fail changes nothing; one whose lookups succeed leaves its mark as the student's mark on that plan row and touches no other mark |
| Faculty.CsvApplyCases | server/src/modules/faculty/routes.js:396-405 | a record's writes, case by case, are one step of the upload |
| Faculty.ApplyHit | server/src/modules/faculty/routes.js:396-405 | `clo_marks` becomes the upsert of the record's mark, and the derived tables one recomputation for its student and offering |
| Faculty.ApplyCsvRecord | server/src/modules/faculty/routes.js:396-405 | no write without a hit; with a hit, the mark upsert and the three recomputations |
| Faculty.UploadRecord | server/src/modules/faculty/routes.js:355-407 | one loop iteration advances the run and the `processed` count by one record |
| Faculty.UploadRecords | server/src/modules/faculty/routes.js:353-408 | the loop stops at the first record failing the schema, with the state of running the records before it and their hit count |
| Faculty.UploadCsv | server/src/modules/faculty/routes.js:347-412 | 400 "file required" without a file; otherwise `processed` when every record passes the schema, or a rejection keeping the earlier writes |
| Admin.TrimStart | server/src/modules/admin/routes.js:360 | `trim` from the front: a suffix of the key that starts with no whitespace, and strictly shorter when the key starts with whitespace |
| Admin.TrimEnd | server/src/modules/admin/routes.js:360 | `trim` from the back: a prefix of the key that ends with no whitespace |
| Admin.TrimKeepsPlainText | server/src/modules/admin/routes.js:360 | a key without whitespace is left unchanged by trimming |
| Admin.UnderscoredNoLonger | server/src/modules/admin/routes.js:360 | replacing whitespace runs by `_` never lengthens the key |
| Admin.UnderscoredNoSpace | server/src/modules/admin/routes.js:360 | after replacing whitespace runs by `_` no whitespace is left |
| Admin.UnderscoredNoUpper | server/src/modules/admin/routes.js:360 | replacing whitespace runs by `_` adds no upper-case letter |
| Admin.UnderscoredPlain | server/src/modules/admin/routes.js:360 | a key without whitespace is left unchanged by the replacement |
| Admin.NormKeyShape | server/src/modules/admin/routes.js:360 | a normalised key has no whitespace, no upper-case letter, and is no longer than the header |
| Admin.NormKeyFixedPoints | server/src/modules/admin/routes.js:360 | a header is already normal exactly when it has no whitespace and no upper-case letter |
| Admin.NormKeyIdempotent | server/src/modules/admin/routes.js:360 | normalising a normalised key changes nothing |
| Admin.NormalizedGet | server/src/modules/admin/routes.js:357-364 | a key is present exactly when some header normalises to it, holding the value of the last such header; keys unique |
| Admin.WithAliasGet | server/src/modules/admin/routes.js:366-368 | the canonical key takes the alias's value only when it is missing and the alias is present; other keys unchanged |
| Admin.FillAliasesGet | server/src/modules/admin/routes.js:366-374 | each of student_id, batch_year, password takes its alias's value exactly when missing; every other key unchanged |
| Admin.FillAliasesUnique | server/src/modules/admin/routes.js:366-374 | filling the aliases keeps keys unique |
| Admin.NormalizeRecord | server/src/modules/admin/routes.js:357-374 | the header loop and the alias fills give the normalised row with aliases filled |
| Admin.CheckNewUser | server/src/modules/admin/routes.js:191-196 | 400 "department is required" exactly for an HOD or FACULTY without a department; 400 "student_id and batch_year are required" exactly for a STUDENT missing either; passes exactly otherwise |
| Admin.PromoteAdmission | server/src/modules/admin/routes.js:445-452 | 400 exactly when batch year or semester is missing, 0, or the semester is below 1; 404 exactly when the batch is not found; otherwise the batch id |
| Admin.CandidatesMember | server/src/modules/admin/routes.js:455 | a candidate is exactly a student row of the batch in the semester |
| Admin.CandidatesDistinct | server/src/modules/admin/routes.js:455 | no student is a candidate twice |
| Admin.CandidatesSpec | server/src/modules/admin/routes.js:455 | with unique keys, a user is a candidate exactly when their student row is in the batch and semester; candidates are distinct |
| Admin.RowHoursNonNegative | server/src/modules/admin/routes.js:460-464 | a grade row contributes non-negative credit hours |
| Admin.CreditSumsBounds | server/src/modules/admin/routes.js:460-461 | the credit-hour sum is non-negative and the grade-point sum is at most 4 times it |
| Admin.CgpaInRange | server/src/modules/admin/routes.js:459-468 | the CGPA lies in [0, 4] |
| Admin.CgpaWithoutGrades | server/src/modules/admin/routes.js:466-468 | without grade rows in the batch both sums are 0 and the CGPA is 0 |
| Admin.PromotedMember | server/src/modules/admin/routes.js:470 | a student is promoted exactly when a candidate with CGPA at least the threshold |
| Admin.PromotedDistinct | server/src/modules/admin/routes.js:458-472 | no student is promoted twice |
| Admin.BumpAllGet | server/src/modules/admin/routes.js:471 | each promoted student's semester goes up by one; every other row is unchanged |
| Admin.BumpAllUnique | server/src/modules/admin/routes.js:471 | the semester updates keep keys unique |
| Admin.PromotionOutcome | server/src/modules/admin/routes.js:455-472 | a student moves to the next semester exactly when in the batch and semester with CGPA at least the threshold; every other student is unchanged |
| Admin.NextCoursesMember | server/src/modules/admin/routes.js:475 | the next courses are exactly the batch's courses of the next semester |
| Admin.EnrollRowsMember | server/src/modules/admin/routes.js:476-483 | an enrollment is attempted exactly for a promoted student and a next-semester course, with status ENROLLED |
| Admin.PromotionEnrollments | server/src/modules/admin/routes.js:474-483 | an existing enrollment is untouched; a new one appears exactly for a promoted student and next-semester course, as ENROLLED |
| Admin.Bump | server/src/modules/admin/routes.js:471 | `students` becomes the update of that user's semester |
| Admin.EnrollAll | server/src/modules/admin/routes.js:476-483 | `enrollments` becomes the insert-or-ignore of the student's next-semester rows |
| Admin.PromoteCandidate | server/src/modules/admin/routes.js:459-484 | one loop step keeps the promotion invariant over one more candidate |
| Admin.Promote | server/src/modules/admin/routes.js:443-489 | a refusal writes nothing; otherwise students are bumped and enrolled exactly as promotion describes and the reply carries the count, threshold (default 2.0), year and semester |
| Admin.DeleteAdmission | server/src/modules/admin/routes.js:69-78 | 400 exactly when the batch id is missing or 0 or the roll number empty; 404 exactly when no student row matches; otherwise that row's user |
| Admin.CascadeRemovesStudent | server/src/modules/admin/routes.js:80-86 | after the deletes the student's alerts, marks, attainments, grades and enrollments in the batch are gone and every other row is kept |
| Admin.CascadeRemovesAccount | server/src/modules/admin/routes.js:87-88 | the student row and the user account are gone and every other user and student is unchanged |
| Admin.CascadeMarks | server/src/modules/admin/routes.js:80-82 | the student's alerts, CLO marks and item marks are deleted |
| Admin.CascadeResults | server/src/modules/admin/routes.js:83-85 | the student's CLO and GA attainment and course grades are deleted |
| Admin.CascadeAccount | server/src/modules/admin/routes.js:86-88 | the enrollments in the batch, the student row and the user are deleted |
| Admin.DeleteStudent | server/src/modules/admin/routes.js:67-92 | a refusal changes nothing; otherwise the nine deletes run in order |
| StudentResults.CheckSemester | server/src/modules/student/routes.js:37-38 | 400 "semesterNo required" exactly when the semester is missing, 0 or below 1; otherwise the semester |
| StudentResults.InsertSortedMember | server/src/modules/student/routes.js:26 | inserting a semester into the list adds exactly that semester |
| StudentResults.InsertSortedSpec | server/src/modules/student/routes.js:26-29 | inserting into an ascending list without repeats keeps it ascending without repeats and adds exactly the value |
| StudentResults.EnrolledSemestersSpec | server/src/modules/student/routes.js:23-33 | the semester list is ascending without repeats and holds exactly the semesters with an enrollment of the student |
| StudentResults.ResultRowsMember | server/src/modules/student/routes.js:40-52 | a result row exists exactly for an enrollment of the semester whose course exists, with its title and its grade row if any |
| StudentResults.SemesterResults | server/src/modules/student/routes.js:35-56 | 400 "semesterNo required" exactly for a missing or sub-1 semester; otherwise the rows are the join of the student's enrollments of the semester (each such enrollment with an existing course gives one, and no other row appears, by `ResultRowsMember`), each naming an existing course with its title |
| StudentResults.GaContributionsNum | server/src/modules/student/routes.js:63-69 | the grouped sum is the total of the student's GA percentages in the semesters |
| StudentResults.GaContributionsDen | server/src/modules/student/routes.js:63-69 | the grouped count is the number of the student's GA rows in the semesters |
| StudentResults.GaContributionsOccurs | server/src/modules/student/routes.js:63-69 | a GA gets a group exactly when it has a row in the semesters |
| StudentResults.GaAveragesGet | server/src/modules/student/routes.js:64-67 | a GA has an average exactly when it has rows, and the average is their mean rounded to two decimals; one row per GA |
| StudentResults.GaTotalBounds | server/src/modules/student/routes.js:64 | with percentages in [0, 100] the total lies between 0 and 100 times the count |
| StudentResults.GaAverageInRange | server/src/modules/student/routes.js:64 | with percentages in [0, 100] every average lies in [0, 100] |
| StudentResults.SemesterGa | server/src/modules/student/routes.js:58-73 | 400 "semesterNo required" exactly for a missing or sub-1 semester; otherwise exactly the GAs with rows in that semester, each holding the mean of those rows' percentages rounded to hundredths (`MeanOf`) |
| StudentResults.YearStart | server/src/modules/student/routes.js:87-90 | the year starts two before the semester exactly when both previous semesters are enrolled, otherwise at the odd semester of its pair |
| StudentResults.YearWindow | server/src/modules/student/routes.js:92-101 | incomplete exactly when the start or the next semester is not enrolled, listing the enrolled ones; otherwise two or three consecutive enrolled semesters, three exactly when the third is enrolled |
| StudentResults.YearCoversRequested | server/src/modules/student/routes.js:87-101 | a complete year that the student is enrolled in includes the requested semester |
| StudentResults.YearlyGaResult | server/src/modules/student/routes.js:75-113 | the semester check; the window is `YearWindow` of the student's enrolled semesters; "Year not completed." exactly when it is incomplete, with no GA rows and the enrolled semesters of it; otherwise no message, the year's two or three enrolled semesters, and the GA averages over exactly them |
| Hod.Department | server/src/modules/hod/routes.js:27 | "CS" exactly when the HOD has no department or an empty one (or "CS"); otherwise the stored department |
| Hod.ListingMember | server/src/modules/hod/routes.js:99-106 | a listed student is exactly a student row of the batch with a user account that passes the semester filter |
| Hod.ListingNarrows | server/src/modules/hod/routes.js:104 | every student in the semester-filtered list is in the whole batch list and is in that semester |
| Hod.BatchStudents | server/src/modules/hod/routes.js:92-110 | 400 "batchId required" and 400 "semesterNo must be 1 or higher" exactly in their cases, `Rejected` for a non-numeric semester; otherwise the rows are the listing of the batch under the filter (every selected student with a user row, and no other, by `ListingMember`) |
| Hod.AssignTwice | server/src/modules/hod/routes.js:162-168 | assigning the same course twice changes nothing the second time and keeps the first HOD |
| Hod.AssignCourse | server/src/modules/hod/routes.js:148-172 | rejects a semester below 1 or a course code under 3 characters, 404 for a missing batch, otherwise inserts-or-ignores and returns the new assignment or none |
| Hod.HodAlertsMember | server/src/modules/hod/routes.js:177 | the HOD's alerts are exactly those addressed to them |
| Hod.InsertByAgeCounts | server/src/modules/hod/routes.js:177 | inserting into the ordered list adds exactly the one row |
| Hod.InsertByAgeSpec | server/src/modules/hod/routes.js:177 | inserting into a newest-first list keeps it newest first and adds exactly the row |
| Hod.ByAgeSpec | server/src/modules/hod/routes.js:177 | sorting gives a newest-first permutation |
| Hod.NewestPrefix | server/src/modules/hod/routes.js:177 | a prefix of a newest-first list is newest first, and no later row is newer than one of it |
| Hod.LeftOutNoNewer | server/src/modules/hod/routes.js:177 | `LIMIT` on a newest-first list keeps a newest-first sub-multiset, and no row cut off is newer than a kept one |
| Hod.ListAlertsSpec | server/src/modules/hod/routes.js:174-182 | only the HOD's alerts, newest first, at most 200, all of them when fewer, and none left out is newer than one listed |
| Hod.ResolveSpec | server/src/modules/hod/routes.js:186 | exactly the alerts with the id and the HOD become resolved, every other alert reads as before; resolving again changes nothing |
| Hod.ResolveAlert | server/src/modules/hod/routes.js:184-189 | an id that is not an integer (Postgres refuses it) is rejected without writing; otherwise the alerts are updated as resolving describes and the reply is `ok` |

## Left out

- Postgres `numeric` precision and JavaScript floating point: sums, ratios and CGPA are exact reals; only the explicit roundings are modelled.
- The body schema libraries and CSV parsing: a parsed body is a datatype, and a failed parse is `Rejected`. A CSV record's type checks are one flag, `typed`, rather than a coercion of the raw text; which type check failed is not modelled, since every failure aborts the upload the same way. Non-integer or non-numeric query values are modelled as absent or as `NotANumber`.
- Hod.BatchStudents: a non-numeric `semesterNo` makes Postgres raise an error; the model answers `Rejected` and does not model the error path further.
- String lengths are counted in characters, not UTF-16 code units.
- Foreign keys are not checked; the schema invariant covers unique keys, second unique constraints and serial sequences.
- Admin.NormalizeRecord: lower-casing covers ASCII letters only.
- Admin.Promote: a query threshold that is not a number (NaN) is not modelled.
- Admin.DeleteAdmission: an empty user id returned by the lookup is still treated as found.
- Admin.PromoteAdmission: a batch id of 0 returned by the lookup is still treated as found.
- `ORDER BY` on strings is not modelled. The semester, batch-student, result and GA lists are in storage order; only ascending semester numbers and newest-first alerts are modelled.
- Hod.ListAlertsSpec: ties in `created_at` may come out in any order in Postgres; the model fixes one order.
- The rest of user creation: role lookup, password hashing and the inserts.
- The bulk student upload after normalisation: validation, user and student inserts.
- Hod.AssignCourse: the uuid format check on the faculty id is not modelled.
- The HOD lookup and the student-information lookup of the alert stage are parameters. The tables they read (roles, the user-role link) are not part of this model.
- The alert's `message` is stored as a structured value whose `Text()` is the exact text.
- Attainment.AlertStageGet: the alert unique key (HOD, student, course, batch year, semester, GA), covering resolved alerts too, is an assumption: the statement at server/src/utils/attainment.js:117-122 names no conflict target, and the database schema file is not part of this model. A partial unique index on unresolved alerts only, under which a resolved alert would be raised again, is not modelled.
- The clock value `now()` is a parameter.
- These routes are not part of this model:
  - the plan-row update and delete routes;
  - the GET listing routes of the faculty and the student;
  - the delete-batch route;
  - the dashboards and summaries;
  - the HOD student-results route;
  - the faculty student-results route.
- Concurrency and transactions: each handler runs alone, one statement after another.
