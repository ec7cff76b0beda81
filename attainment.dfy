/**
 * The attainment engine run after every mark write: CLO percentages from the
 * student's marks, GA percentages from the stored CLO percentages and the
 * weighted CLO-to-GA map, alerts for GAs under 50, and the course grade.
 * Each SQL query is a function of the tables it reads; each upsert loop is a
 * method proved to leave the table equal to a fold of those functions.
 */
module Attainment {
  import opened Wrappers
  import opened Numeric
  import opened Tables
  import opened Grouping
  import opened GradeScale
  import opened Schema
  import opened Store

  // ----- The marks of one student in one offering -----

  /** One row of the join of a mark with its plan row: the plan row and the mark obtained on it. */
  datatype MarkedRow = MarkedRow(row: PlanRow, obtained: real)

  /** A mark joined with its plan row and that row's plan, kept when it is the student's and the plan is the offering's. */
  function JoinMark(m: Row<MarkKey, Mark>, planRows: Table<int, PlanRow>, plans: Table<int, Plan>,
                    s: UserId, off: Offering): Option<MarkedRow>
  {
    if m.key.student != s then None
    else match Get(planRows, m.key.planRowId)
      case None => None
      case Some(pr) =>
        match Get(plans, pr.planId)
        case None => None
        case Some(plan) => if plan.offering == off then Some(MarkedRow(pr, m.val.obtained)) else None
  }

  /** `clo_marks JOIN assessment_plan_rows JOIN assessment_plans` for one student and one offering. */
  function MarkedRows(marks: Table<MarkKey, Mark>, planRows: Table<int, PlanRow>, plans: Table<int, Plan>,
                      s: UserId, off: Offering): (r: seq<MarkedRow>)
    ensures |r| <= |marks|
  {
    if |marks| == 0 then []
    else
      var n := |marks| - 1;
      var rest := MarkedRows(marks[..n], planRows, plans, s, off);
      match JoinMark(marks[n], planRows, plans, s, off)
      case Some(mr) => rest + [mr]
      case None => rest
  }

  /** A row is in the join exactly when some mark of the student joins, through its plan row, to a plan of the offering. */
  lemma {:induction false} MarkedRowsMember(marks: Table<MarkKey, Mark>, planRows: Table<int, PlanRow>, plans: Table<int, Plan>,
                                            s: UserId, off: Offering, mr: MarkedRow)
    ensures mr in MarkedRows(marks, planRows, plans, s, off) <==>
      exists i :: 0 <= i < |marks| && JoinMark(marks[i], planRows, plans, s, off) == Some(mr)
  {
    if |marks| > 0 {
      var n := |marks| - 1;
      MarkedRowsMember(marks[..n], planRows, plans, s, off, mr);
      assert forall i :: 0 <= i < n ==> marks[..n][i] == marks[i];
    }
  }

  // ----- CLO attainment -----

  /** The CLO query's input rows: (CLO, obtained, max marks). */
  function CloContributions(mr: seq<MarkedRow>): seq<Contribution<int>>
  {
    seq(|mr|, i requires 0 <= i < |mr| => Contribution(mr[i].row.cloId, mr[i].obtained, mr[i].row.maxMarks as real))
  }

  /** Some marked row belongs to `clo`. */
  predicate HasCloMarks(mr: seq<MarkedRow>, clo: int)
  {
    exists i :: 0 <= i < |mr| && mr[i].row.cloId == clo
  }

  /** Σ obtained over the marked rows of `clo`. */
  function CloObtained(mr: seq<MarkedRow>, clo: int): real
  {
    if |mr| == 0 then 0.0
    else CloObtained(mr[..|mr| - 1], clo) + (if mr[|mr| - 1].row.cloId == clo then mr[|mr| - 1].obtained else 0.0)
  }

  /** Σ max marks over the marked rows of `clo`. */
  function CloMax(mr: seq<MarkedRow>, clo: int): real
  {
    if |mr| == 0 then 0.0
    else CloMax(mr[..|mr| - 1], clo) + (if mr[|mr| - 1].row.cloId == clo then mr[|mr| - 1].row.maxMarks as real else 0.0)
  }

  /** The grouped sums of the CLO query are the per-CLO sums over the marked rows. */
  lemma {:induction false} CloSumsAgree(mr: seq<MarkedRow>, clo: int)
    ensures SumNum(CloContributions(mr), clo) == CloObtained(mr, clo)
    ensures SumDen(CloContributions(mr), clo) == CloMax(mr, clo)
    ensures Occurs(CloContributions(mr), clo) <==> HasCloMarks(mr, clo)
  {
    var cs := CloContributions(mr);
    if |mr| > 0 {
      var n := |mr| - 1;
      assert cs[..n] == CloContributions(mr[..n]);
      CloSumsAgree(mr[..n], clo);
      OccursLast(cs, clo);
      assert HasCloMarks(mr, clo) <==> HasCloMarks(mr[..n], clo) || mr[n].row.cloId == clo by {
        if HasCloMarks(mr, clo) && mr[n].row.cloId != clo {
          var i :| 0 <= i < |mr| && mr[i].row.cloId == clo;
          assert mr[..n][i] == mr[i];
        }
        if HasCloMarks(mr[..n], clo) {
          var i :| 0 <= i < n && mr[..n][i].row.cloId == clo;
          assert mr[i] == mr[..n][i];
        }
      }
    }
  }

  /** `CASE WHEN den = 0 THEN 0 ELSE ROUND((num/den)*100, 2) END`. */
  function CloPercentage(g: Sums): (d: Decimal)
    ensures g.den == 0.0 ==> d.Value() == 0.0 && d.scale == Units
    ensures g.den != 0.0 ==> d.scale == Hundredths
    ensures g.den != 0.0 && g.num / g.den * 100.0 >= 0.0 ==> -0.005 < d.Value() - g.num / g.den * 100.0 <= 0.005
    ensures g.den != 0.0 && g.num / g.den * 100.0 < 0.0 ==> -0.005 <= d.Value() - g.num / g.den * 100.0 < 0.005
  {
    if g.den == 0.0 then Decimal(0, Units) else PgRound2(g.num / g.den * 100.0)
  }

  /** The CLO query: one row per CLO with at least one marked row. */
  function CloResults(mr: seq<MarkedRow>): Table<int, Decimal>
  {
    Aggregate(CloContributions(mr), CloPercentage)
  }

  /** A CLO has a result exactly when it has a marked row, and the result is its rounded percentage; one row per CLO. */
  lemma CloResultsGet(mr: seq<MarkedRow>, clo: int)
    ensures Get(CloResults(mr), clo) ==
      if HasCloMarks(mr, clo) then Some(CloPercentage(Sums(CloObtained(mr, clo), CloMax(mr, clo)))) else None
    ensures UniqueKeys(CloResults(mr))
  {
    AggregateGet(CloContributions(mr), CloPercentage, clo);
    CloSumsAgree(mr, clo);
  }

  /** The CLO results under their `clo_attainment` keys. */
  function CloUpserts(s: UserId, off: Offering, r: Table<int, Decimal>): Table<CloAttKey, Decimal>
  {
    Rekey(r, (clo: int) => CloAttKey(s, off, clo))
  }

  /** `clo_attainment` after the CLO stage. */
  function CloStage(cloAtt: Table<CloAttKey, Decimal>, marks: Table<MarkKey, Mark>, planRows: Table<int, PlanRow>,
                    plans: Table<int, Plan>, s: UserId, off: Offering): Table<CloAttKey, Decimal>
  {
    UpsertAll(cloAtt, CloUpserts(s, off, CloResults(MarkedRows(marks, planRows, plans, s, off))))
  }

  lemma CloUpsertsGet(s: UserId, off: Offering, r: Table<int, Decimal>, k: CloAttKey)
    requires UniqueKeys(r)
    ensures UniqueKeys(CloUpserts(s, off, r))
    ensures Get(CloUpserts(s, off, r), k) == if k.student == s && k.offering == off then Get(r, k.cloId) else None
  {
    var f := (clo: int) => CloAttKey(s, off, clo);
    RekeyGet(r, f, k);
    if k.student == s && k.offering == off {
      assert f(k.cloId) == k;
    }
  }

  /**
   * After the CLO stage each CLO of the offering with marks holds its new
   * percentage; every other key, other CLOs of the same offering included,
   * keeps what it had (no row is deleted).
   */
  lemma CloStageGet(cloAtt: Table<CloAttKey, Decimal>, marks: Table<MarkKey, Mark>, planRows: Table<int, PlanRow>,
                    plans: Table<int, Plan>, s: UserId, off: Offering, k: CloAttKey)
    ensures var mr := MarkedRows(marks, planRows, plans, s, off);
      Get(CloStage(cloAtt, marks, planRows, plans, s, off), k) ==
        if k.student == s && k.offering == off && HasCloMarks(mr, k.cloId)
        then Some(CloPercentage(Sums(CloObtained(mr, k.cloId), CloMax(mr, k.cloId))))
        else Get(cloAtt, k)
  {
    var mr := MarkedRows(marks, planRows, plans, s, off);
    var ups := CloUpserts(s, off, CloResults(mr));
    CloResultsGet(mr, k.cloId);
    CloUpsertsGet(s, off, CloResults(mr), k);
    UpsertAllGet(cloAtt, ups, k);
    LastGetOfUnique(ups, k);
    CloResultsGet(mr, k.cloId);
  }

  /** Running the CLO stage again on unchanged marks leaves `clo_attainment` identical. */
  lemma CloStageIdempotent(cloAtt: Table<CloAttKey, Decimal>, marks: Table<MarkKey, Mark>, planRows: Table<int, PlanRow>,
                           plans: Table<int, Plan>, s: UserId, off: Offering)
    ensures CloStage(CloStage(cloAtt, marks, planRows, plans, s, off), marks, planRows, plans, s, off)
         == CloStage(cloAtt, marks, planRows, plans, s, off)
  {
    var mr := MarkedRows(marks, planRows, plans, s, off);
    var r := CloResults(mr);
    CloResultsGet(mr, 0);
    CloUpsertsGet(s, off, r, CloAttKey(s, off, 0));
    UpsertAllIdempotent(cloAtt, CloUpserts(s, off, r));
  }

  // ----- GA attainment -----

  /** A CLO percentage `p` times the weight `w` of its mapping. */
  function Weighted(p: real, w: real): real
  {
    p * w
  }

  /** Mapping row `m` of CLO `clo` yields contribution `c` for a CLO percentage `p`. */
  predicate MappingYields(m: Row<CloGaKey, real>, clo: int, p: real, c: Contribution<string>)
  {
    m.key.cloId == clo && c == Contribution(m.key.gaCode, Weighted(p, m.val), m.val)
  }

  /** What one mapping row contributes for CLO `clo` at percentage `p`: (p * weight, weight) to its GA, if it maps `clo`. */
  function Yield(m: Row<CloGaKey, real>, clo: int, p: real): (r: seq<Contribution<string>>)
    ensures forall c :: c in r <==> MappingYields(m, clo, p, c)
  {
    if m.key.cloId == clo then [Contribution(m.key.gaCode, Weighted(p, m.val), m.val)] else []
  }

  /** The mappings of one CLO, each contributing (p * weight, weight) to its GA. */
  function MappedTo(gaMap: Table<CloGaKey, real>, clo: int, p: real): seq<Contribution<string>>
  {
    if |gaMap| == 0 then [] else MappedTo(gaMap[..|gaMap| - 1], clo, p) + Yield(gaMap[|gaMap| - 1], clo, p)
  }

  /** The contributions of a CLO are exactly those its mapping rows yield. */
  lemma {:induction false} MappedToMember(gaMap: Table<CloGaKey, real>, clo: int, p: real, c: Contribution<string>)
    ensures c in MappedTo(gaMap, clo, p) <==> exists j :: 0 <= j < |gaMap| && MappingYields(gaMap[j], clo, p, c)
  {
    if |gaMap| > 0 {
      var n := |gaMap| - 1;
      var prev := gaMap[..n];
      MappedToMember(prev, clo, p, c);
      if c in MappedTo(prev, clo, p) {
        var j :| 0 <= j < |prev| && MappingYields(prev[j], clo, p, c);
        assert gaMap[j] == prev[j];
      }
      if exists j :: 0 <= j < |gaMap| && MappingYields(gaMap[j], clo, p, c) {
        var j :| 0 <= j < |gaMap| && MappingYields(gaMap[j], clo, p, c);
        if j < n {
          assert prev[j] == gaMap[j];
        }
      }
    }
  }

  /** A stored CLO percentage of this student and offering. */
  predicate InScope(k: CloAttKey, s: UserId, off: Offering)
  {
    k.student == s && k.offering == off
  }

  /** Stored CLO percentage `a` and mapping row `m` join to contribution `c`. */
  predicate Joins(a: Row<CloAttKey, Decimal>, m: Row<CloGaKey, real>, s: UserId, off: Offering, c: Contribution<string>)
  {
    InScope(a.key, s, off) && MappingYields(m, a.key.cloId, a.val.Value(), c)
  }

  /** The rows one stored CLO percentage adds to the join: all mappings of its CLO, if it is in scope. */
  function JoinRow(a: Row<CloAttKey, Decimal>, gaMap: Table<CloGaKey, real>, s: UserId, off: Offering): seq<Contribution<string>>
  {
    if InScope(a.key, s, off) then MappedTo(gaMap, a.key.cloId, a.val.Value()) else []
  }

  lemma JoinRowMember(a: Row<CloAttKey, Decimal>, gaMap: Table<CloGaKey, real>, s: UserId, off: Offering, c: Contribution<string>)
    ensures c in JoinRow(a, gaMap, s, off) <==> exists j :: 0 <= j < |gaMap| && Joins(a, gaMap[j], s, off, c)
  {
    MappedToMember(gaMap, a.key.cloId, a.val.Value(), c);
  }

  /** `clo_pct JOIN clo_ga_map`: every mapping of every stored CLO percentage of the student in the offering. */
  function GaContributions(cloAtt: Table<CloAttKey, Decimal>, gaMap: Table<CloGaKey, real>,
                           s: UserId, off: Offering): seq<Contribution<string>>
  {
    if |cloAtt| == 0 then []
    else GaContributions(cloAtt[..|cloAtt| - 1], gaMap, s, off) + JoinRow(cloAtt[|cloAtt| - 1], gaMap, s, off)
  }

  /** The join pairs every in-scope CLO percentage with every mapping of its CLO, and nothing else. */
  lemma {:induction false} GaContributionsMember(cloAtt: Table<CloAttKey, Decimal>, gaMap: Table<CloGaKey, real>,
                                                 s: UserId, off: Offering, c: Contribution<string>)
    ensures c in GaContributions(cloAtt, gaMap, s, off) <==>
      exists i, j :: 0 <= i < |cloAtt| && 0 <= j < |gaMap| && Joins(cloAtt[i], gaMap[j], s, off, c)
  {
    if |cloAtt| > 0 {
      var n := |cloAtt| - 1;
      var prev := cloAtt[..n];
      var last := cloAtt[n];
      assert c in GaContributions(prev, gaMap, s, off) <==>
        exists i, j :: 0 <= i < n && 0 <= j < |gaMap| && Joins(cloAtt[i], gaMap[j], s, off, c) by {
        GaContributionsMember(prev, gaMap, s, off, c);
        assert forall i :: 0 <= i < n ==> prev[i] == cloAtt[i];
      }
      assert c in JoinRow(last, gaMap, s, off) <==> exists j :: 0 <= j < |gaMap| && Joins(last, gaMap[j], s, off, c) by {
        JoinRowMember(last, gaMap, s, off, c);
      }
      if exists i, j :: 0 <= i < |cloAtt| && 0 <= j < |gaMap| && Joins(cloAtt[i], gaMap[j], s, off, c) {
        var i, j :| 0 <= i < |cloAtt| && 0 <= j < |gaMap| && Joins(cloAtt[i], gaMap[j], s, off, c);
        if i == n {
          assert Joins(last, gaMap[j], s, off, c);
        }
      }
    }
  }

  /** `CASE WHEN den = 0 THEN 0 ELSE ROUND(num/den, 2) END`. */
  function GaPercentage(g: Sums): (d: Decimal)
    ensures g.den == 0.0 ==> d.Value() == 0.0 && d.scale == Units
    ensures g.den != 0.0 ==> d.scale == Hundredths
    ensures g.den != 0.0 && g.num / g.den >= 0.0 ==> -0.005 < d.Value() - g.num / g.den <= 0.005
    ensures g.den != 0.0 && g.num / g.den < 0.0 ==> -0.005 <= d.Value() - g.num / g.den < 0.005
  {
    if g.den == 0.0 then Decimal(0, Units) else PgRound2(g.num / g.den)
  }

  /** The GA query: one row per GA reached through the map from a stored CLO percentage. */
  function GaResults(cs: seq<Contribution<string>>): Table<string, Decimal>
  {
    Aggregate(cs, GaPercentage)
  }

  /** A GA at least one stored CLO percentage of the offering maps to. */
  predicate GaReached(cloAtt: Table<CloAttKey, Decimal>, gaMap: Table<CloGaKey, real>, s: UserId, off: Offering, ga: string)
  {
    exists i, j :: 0 <= i < |cloAtt| && 0 <= j < |gaMap| && InScope(cloAtt[i].key, s, off) &&
      gaMap[j].key.cloId == cloAtt[i].key.cloId && gaMap[j].key.gaCode == ga
  }

  /**
   * A GA has a result exactly when some stored CLO percentage maps to it, and
   * the result is the rounded weighted mean Σ(p·w)/Σw (0 when Σw = 0).
   */
  lemma GaResultsGet(cloAtt: Table<CloAttKey, Decimal>, gaMap: Table<CloGaKey, real>, s: UserId, off: Offering, ga: string)
    ensures var cs := GaContributions(cloAtt, gaMap, s, off);
      Get(GaResults(cs), ga) == if GaReached(cloAtt, gaMap, s, off, ga) then Some(GaPercentage(Sums(SumNum(cs, ga), SumDen(cs, ga)))) else None
    ensures UniqueKeys(GaResults(GaContributions(cloAtt, gaMap, s, off)))
  {
    var cs := GaContributions(cloAtt, gaMap, s, off);
    AggregateGet(cs, GaPercentage, ga);
    if GaReached(cloAtt, gaMap, s, off, ga) {
      var i, j :| 0 <= i < |cloAtt| && 0 <= j < |gaMap| && InScope(cloAtt[i].key, s, off) &&
        gaMap[j].key.cloId == cloAtt[i].key.cloId && gaMap[j].key.gaCode == ga;
      var c := Contribution(ga, Weighted(cloAtt[i].val.Value(), gaMap[j].val), gaMap[j].val);
      assert Joins(cloAtt[i], gaMap[j], s, off, c);
      GaContributionsMember(cloAtt, gaMap, s, off, c);
      var k :| 0 <= k < |cs| && cs[k] == c;
      assert Occurs(cs, ga);
    } else {
      forall k | 0 <= k < |cs|
        ensures cs[k].key != ga
      {
        GaContributionsMember(cloAtt, gaMap, s, off, cs[k]);
      }
    }
  }

  /** The GA results under their `ga_attainment` keys. */
  function GaUpserts(s: UserId, off: Offering, r: Table<string, Decimal>): Table<GaAttKey, Decimal>
  {
    Rekey(r, (ga: string) => GaAttKey(s, off, ga))
  }

  /** `ga_attainment` after the GA stage, which reads the `clo_attainment` it is given. */
  function GaStage(gaAtt: Table<GaAttKey, Decimal>, cloAtt: Table<CloAttKey, Decimal>, gaMap: Table<CloGaKey, real>,
                   s: UserId, off: Offering): Table<GaAttKey, Decimal>
  {
    UpsertAll(gaAtt, GaUpserts(s, off, GaResults(GaContributions(cloAtt, gaMap, s, off))))
  }

  lemma GaUpsertsGet(s: UserId, off: Offering, r: Table<string, Decimal>, k: GaAttKey)
    requires UniqueKeys(r)
    ensures UniqueKeys(GaUpserts(s, off, r))
    ensures Get(GaUpserts(s, off, r), k) == if k.student == s && k.offering == off then Get(r, k.gaCode) else None
  {
    var f := (ga: string) => GaAttKey(s, off, ga);
    RekeyGet(r, f, k);
    if k.student == s && k.offering == off {
      assert f(k.gaCode) == k;
    }
  }

  /** After the GA stage each reached GA of the offering holds its new percentage; every other key is unchanged. */
  lemma GaStageGet(gaAtt: Table<GaAttKey, Decimal>, cloAtt: Table<CloAttKey, Decimal>, gaMap: Table<CloGaKey, real>,
                   s: UserId, off: Offering, k: GaAttKey)
    ensures var cs := GaContributions(cloAtt, gaMap, s, off);
      Get(GaStage(gaAtt, cloAtt, gaMap, s, off), k) ==
        if k.student == s && k.offering == off && GaReached(cloAtt, gaMap, s, off, k.gaCode)
        then Some(GaPercentage(Sums(SumNum(cs, k.gaCode), SumDen(cs, k.gaCode))))
        else Get(gaAtt, k)
  {
    var r := GaResults(GaContributions(cloAtt, gaMap, s, off));
    var ups := GaUpserts(s, off, r);
    GaResultsGet(cloAtt, gaMap, s, off, k.gaCode);
    GaUpsertsGet(s, off, r, k);
    UpsertAllGet(gaAtt, ups, k);
    LastGetOfUnique(ups, k);
    GaResultsGet(cloAtt, gaMap, s, off, k.gaCode);
  }

  /** Running the GA stage again on unchanged CLO percentages leaves `ga_attainment` identical. */
  lemma GaStageIdempotent(gaAtt: Table<GaAttKey, Decimal>, cloAtt: Table<CloAttKey, Decimal>, gaMap: Table<CloGaKey, real>,
                          s: UserId, off: Offering)
    ensures GaStage(GaStage(gaAtt, cloAtt, gaMap, s, off), cloAtt, gaMap, s, off) == GaStage(gaAtt, cloAtt, gaMap, s, off)
  {
    var r := GaResults(GaContributions(cloAtt, gaMap, s, off));
    GaResultsGet(cloAtt, gaMap, s, off, "");
    GaUpsertsGet(s, off, r, GaAttKey(s, off, ""));
    UpsertAllIdempotent(gaAtt, GaUpserts(s, off, r));
  }

  // ----- Alerts -----

  /** What the student-info query returns: roll number, name and batch year. */
  datatype StudentInfo = StudentInfo(studentId: string, name: string, batchYear: int)

  /** `Number(percentage) < 50`, decided on the digits of the numeric. */
  predicate BelowThreshold(pct: Decimal)
  {
    pct.Below(50)
  }

  /** The key an alert for `ga` is deduplicated on. */
  function AlertKeyFor(hod: UserId, info: StudentInfo, s: UserId, off: Offering, ga: string): AlertKey
  {
    AlertKey(hod, s, off.courseCode, info.batchYear, off.semesterNo, ga)
  }

  /** The alert row attempted for one GA result, under the serial id `id`. */
  function AlertRow(hod: UserId, info: StudentInfo, s: UserId, off: Offering, g: Row<string, Decimal>,
                    id: int, now: int): (r: Row<AlertKey, Alert>)
    ensures r.key == AlertKeyFor(hod, info, s, off, g.key)
    ensures r.val.id == id && r.val.gaPercentage == g.val && !r.val.isResolved && r.val.createdAt == now
    ensures r.val.studentId == info.studentId && r.val.studentName == info.name
    ensures r.val.message == AlertMessage(info.name, info.studentId, g.key, off.courseCode, g.val)
  {
    Row(AlertKeyFor(hod, info, s, off, g.key),
        Alert(id, info.studentId, info.name, g.val, AlertMessage(info.name, info.studentId, g.key, off.courseCode, g.val), false, now))
  }

  /** The stored message names the student, the roll number, the GA, the course and the rounded GA percentage. */
  lemma AlertRowMessage(hod: UserId, info: StudentInfo, s: UserId, off: Offering, g: Row<string, Decimal>, id: int, now: int)
    ensures AlertRow(hod, info, s, off, g, id, now).val.message.Text() ==
      info.name + " (" + info.studentId + ") has NOT achieved " + g.key + " in " + off.courseCode + " (GA%=" + g.val.Text() + ")."
  {
  }

  /**
   * The insert attempts of the alert loop, one per GA result under 50 in
   * result order; each attempt takes the next serial id from `firstId` on.
   */
  function AlertAttempts(hod: UserId, info: StudentInfo, s: UserId, off: Offering, results: Table<string, Decimal>,
                         firstId: int, now: int): (r: Table<AlertKey, Alert>)
    ensures |r| <= |results|
  {
    if |results| == 0 then []
    else
      var n := |results| - 1;
      var prev := AlertAttempts(hod, info, s, off, results[..n], firstId, now);
      if BelowThreshold(results[n].val) then prev + [AlertRow(hod, info, s, off, results[n], firstId + |prev|, now)]
      else prev
  }

  /** The i-th attempt carries serial id `firstId + i` and comes from a GA result under 50. */
  lemma {:induction false} AlertAttemptsRows(hod: UserId, info: StudentInfo, s: UserId, off: Offering,
                                             results: Table<string, Decimal>, firstId: int, now: int, i: nat)
    requires i < |AlertAttempts(hod, info, s, off, results, firstId, now)|
    ensures exists j :: (0 <= j < |results| && BelowThreshold(results[j].val) &&
      AlertAttempts(hod, info, s, off, results, firstId, now)[i] == AlertRow(hod, info, s, off, results[j], firstId + i, now))
  {
    var n := |results| - 1;
    var prev := AlertAttempts(hod, info, s, off, results[..n], firstId, now);
    assert forall j :: 0 <= j < n ==> results[..n][j] == results[j];
    if i < |prev| {
      AlertAttemptsRows(hod, info, s, off, results[..n], firstId, now, i);
    } else {
      assert BelowThreshold(results[n].val);
    }
  }

  /** The alert keys attempted are those of the GA results under 50, whatever the ids and the clock. */
  lemma {:induction false} AlertAttemptsKeys(hod: UserId, info: StudentInfo, s: UserId, off: Offering,
                                             results: Table<string, Decimal>, firstId: int, now: int, k: AlertKey)
    ensures HasKey(AlertAttempts(hod, info, s, off, results, firstId, now), k) <==>
      exists j :: (0 <= j < |results| && BelowThreshold(results[j].val) && k == AlertKeyFor(hod, info, s, off, results[j].key))
  {
    if |results| > 0 {
      var n := |results| - 1;
      var prev := AlertAttempts(hod, info, s, off, results[..n], firstId, now);
      AlertAttemptsKeys(hod, info, s, off, results[..n], firstId, now, k);
      assert forall j :: 0 <= j < n ==> results[..n][j] == results[j];
      if BelowThreshold(results[n].val) {
        GetAppend(prev, AlertRow(hod, info, s, off, results[n], firstId + |prev|, now), k);
      }
    }
  }

  /** Alerts are attempted only when an HOD and the student's info were found. */
  function AlertInserts(hod: Option<UserId>, info: Option<StudentInfo>, s: UserId, off: Offering,
                        results: Table<string, Decimal>, firstId: int, now: int): (r: Table<AlertKey, Alert>)
    ensures hod.None? || info.None? ==> r == []
  {
    if hod.Some? && info.Some? then AlertAttempts(hod.value, info.value, s, off, results, firstId, now) else []
  }

  /**
   * Insert-or-ignore: an alert already stored under a key, resolved or not,
   * keeps all its fields; a key appears newly only for a GA under 50 of
   * this run, addressed to the HOD found.
   */
  lemma AlertStageGet(alerts: Table<AlertKey, Alert>, hod: Option<UserId>, info: Option<StudentInfo>, s: UserId,
                      off: Offering, results: Table<string, Decimal>, firstId: int, now: int, k: AlertKey)
    ensures var ins := AlertInserts(hod, info, s, off, results, firstId, now);
      Get(InsertIgnoreAll(alerts, ins), k) == if HasKey(alerts, k) then Get(alerts, k) else Get(ins, k)
    ensures HasKey(InsertIgnoreAll(alerts, AlertInserts(hod, info, s, off, results, firstId, now)), k) <==>
      HasKey(alerts, k) ||
      (hod.Some? && info.Some? &&
       exists j :: 0 <= j < |results| && BelowThreshold(results[j].val) &&
         k == AlertKeyFor(hod.value, info.value, s, off, results[j].key))
  {
    var ins := AlertInserts(hod, info, s, off, results, firstId, now);
    InsertIgnoreAllGet(alerts, ins, k);
    if hod.Some? && info.Some? {
      AlertAttemptsKeys(hod.value, info.value, s, off, results, firstId, now, k);
    }
  }

  /** A second run over the same GA results inserts nothing, whatever ids and clock it uses. */
  lemma AlertStageNoDuplicates(alerts: Table<AlertKey, Alert>, hod: Option<UserId>, info: Option<StudentInfo>, s: UserId,
                               off: Offering, results: Table<string, Decimal>, id1: int, now1: int, id2: int, now2: int)
    ensures var once := InsertIgnoreAll(alerts, AlertInserts(hod, info, s, off, results, id1, now1));
      InsertIgnoreAll(once, AlertInserts(hod, info, s, off, results, id2, now2)) == once
  {
    var once := InsertIgnoreAll(alerts, AlertInserts(hod, info, s, off, results, id1, now1));
    var again := AlertInserts(hod, info, s, off, results, id2, now2);
    forall i | 0 <= i < |again|
      ensures HasKey(once, again[i].key)
    {
      var k := again[i].key;
      GetSpec(again, k);
      AlertAttemptsKeys(hod.value, info.value, s, off, results, id2, now2, k);
      AlertStageGet(alerts, hod, info, s, off, results, id1, now1, k);
    }
    InsertIgnoreAllNoop(once, again);
  }

  // ----- Course grade -----

  /** Σ obtained over the marked rows. */
  function TotalObtained(mr: seq<MarkedRow>): real
  {
    if |mr| == 0 then 0.0 else TotalObtained(mr[..|mr| - 1]) + mr[|mr| - 1].obtained
  }

  /** Σ max marks over the marked rows (rows without a mark do not count). */
  function TotalMax(mr: seq<MarkedRow>): real
  {
    if |mr| == 0 then 0.0 else TotalMax(mr[..|mr| - 1]) + mr[|mr| - 1].row.maxMarks as real
  }

  /** `total === 0 ? 0 : Math.round((obtained/total)*10000)/100`. */
  function CoursePercentage(obtained: real, total: real): (p: real)
    ensures total == 0.0 ==> p == 0.0
    ensures total != 0.0 ==> -0.005 <= p - 100.0 * obtained / total <= 0.005
    ensures total != 0.0 ==> OnHundredths(p) && HalfUpHundredth(p, 100.0 * obtained / total)
    ensures total > 0.0 && 0.0 <= obtained <= total ==> 0.0 <= p <= 100.0
  {
    if total == 0.0 then 0.0
    else
      var x := obtained / total * 10000.0;
      var n := JsRound(x);
      assert 100.0 * obtained / total == x / 100.0;
      assert -0.005 <= n as real / 100.0 - x / 100.0 <= 0.005;
      assert 100.0 * (n as real / 100.0) == n as real;
      assert 0.0 <= obtained <= total && total > 0.0 ==> 0 <= n <= 10000 by {
        if 0.0 <= obtained <= total && total > 0.0 {
          assert obtained / total <= 1.0;
        }
      }
      n as real / 100.0
  }

  /** `p` is a whole number of hundredths. */
  predicate OnHundredths(p: real)
  {
    (100.0 * p).Floor as real == 100.0 * p
  }

  /** `p` is `x` rounded to the hundredth with ties going up: `x` lies in [p - 0.005, p + 0.005). */
  predicate HalfUpHundredth(p: real, x: real)
  {
    100.0 * p - 0.5 <= 100.0 * x < 100.0 * p + 0.5
  }

  /** The hundredths grid and the half-up window leave exactly one candidate: the stored percentage. */
  lemma CoursePercentageDetermined(obtained: real, total: real, p: real)
    requires total != 0.0 && OnHundredths(p) && HalfUpHundredth(p, 100.0 * obtained / total)
    ensures p == CoursePercentage(obtained, total)
  {
    var q := CoursePercentage(obtained, total);
    var n, m := (100.0 * p).Floor, (100.0 * q).Floor;
    assert n as real - 1.0 < m as real < n as real + 1.0;
    assert n == m;
  }

  /** The stored `course_grades` row: the percentage of the marked rows and the grade of its band. */
  function GradeOf(mr: seq<MarkedRow>): (g: CourseGrade)
    ensures TotalMax(mr) == 0.0 ==> g == CourseGrade(0.0, "F", 0.0)
    ensures TotalMax(mr) != 0.0 ==>
      OnHundredths(g.percentage) && HalfUpHundredth(g.percentage, 100.0 * TotalObtained(mr) / TotalMax(mr))
    ensures TotalMax(mr) > 0.0 && 0.0 <= TotalObtained(mr) <= TotalMax(mr) ==> 0.0 <= g.percentage <= 100.0
    ensures forall l :: InBand(l, g.percentage) ==> g.letterGrade == LetterText(l) && g.gradePoints == Points(l)
    ensures g.gradePoints == 0.0 <==> g.percentage < 50.0
    ensures 0.0 <= g.gradePoints <= 4.0
  {
    var pct := CoursePercentage(TotalObtained(mr), TotalMax(mr));
    var grade := GradeFromPercentage(pct);
    assert forall l :: InBand(l, pct) ==> l == grade.letter by {
      forall l | InBand(l, pct)
        ensures l == grade.letter
      {
        BandDecidesLetter(l, pct);
      }
    }
    CourseGrade(pct, LetterText(grade.letter), grade.gp)
  }

  /** `course_grades` after the grade stage: one row per (student, offering), overwritten. */
  function GradeStage(grades: Table<GradeKey, CourseGrade>, marks: Table<MarkKey, Mark>, planRows: Table<int, PlanRow>,
                      plans: Table<int, Plan>, s: UserId, off: Offering): Table<GradeKey, CourseGrade>
  {
    Upsert(grades, GradeKey(s, off), GradeOf(MarkedRows(marks, planRows, plans, s, off)))
  }

  /** The (student, offering) row holds the grade of the student's marked rows; every other row is unchanged. */
  lemma GradeStageGet(grades: Table<GradeKey, CourseGrade>, marks: Table<MarkKey, Mark>, planRows: Table<int, PlanRow>,
                      plans: Table<int, Plan>, s: UserId, off: Offering, k: GradeKey)
    ensures Get(GradeStage(grades, marks, planRows, plans, s, off), k) ==
      if k == GradeKey(s, off) then Some(GradeOf(MarkedRows(marks, planRows, plans, s, off))) else Get(grades, k)
    ensures UniqueKeys(grades) ==> UniqueKeys(GradeStage(grades, marks, planRows, plans, s, off))
  {
    var g := GradeOf(MarkedRows(marks, planRows, plans, s, off));
    UpsertGet(grades, GradeKey(s, off), g, k);
    if UniqueKeys(grades) {
      UpsertUnique(grades, GradeKey(s, off), g);
    }
  }

  // ----- The whole recomputation -----

  /** The tables the engine writes. */
  datatype Derived = Derived(cloAttainment: Table<CloAttKey, Decimal>, gaAttainment: Table<GaAttKey, Decimal>,
                             alerts: Table<AlertKey, Alert>, nextAlertId: int, courseGrades: Table<GradeKey, CourseGrade>)

  function DerivedOf(db: Database): Derived
    reads db`cloAttainment, db`gaAttainment, db`alerts, db`nextAlertId, db`courseGrades
  {
    Derived(db.cloAttainment, db.gaAttainment, db.alerts, db.nextAlertId, db.courseGrades)
  }


  /** CLO, then GA and alerts over the CLO percentages just written, then the course grade. */
  function Recompute(d: Derived, marks: Table<MarkKey, Mark>, planRows: Table<int, PlanRow>, plans: Table<int, Plan>,
                     gaMap: Table<CloGaKey, real>, hod: Option<UserId>, info: Option<StudentInfo>,
                     s: UserId, off: Offering, now: int): Derived
  {
    var ca := CloStage(d.cloAttainment, marks, planRows, plans, s, off);
    var ins := AlertInserts(hod, info, s, off, GaResults(GaContributions(ca, gaMap, s, off)), d.nextAlertId, now);
    Derived(ca, GaStage(d.gaAttainment, ca, gaMap, s, off), InsertIgnoreAll(d.alerts, ins), d.nextAlertId + |ins|,
            GradeStage(d.courseGrades, marks, planRows, plans, s, off))
  }

  /**
   * Recomputing twice with no mark written in between leaves the CLO, GA and
   * grade rows identical and creates no alert beyond the first run.
   */
  lemma RecomputeIdempotent(d: Derived, marks: Table<MarkKey, Mark>, planRows: Table<int, PlanRow>, plans: Table<int, Plan>,
                            gaMap: Table<CloGaKey, real>, hod: Option<UserId>, info: Option<StudentInfo>,
                            s: UserId, off: Offering, now1: int, now2: int)
    ensures var d1 := Recompute(d, marks, planRows, plans, gaMap, hod, info, s, off, now1);
      var d2 := Recompute(d1, marks, planRows, plans, gaMap, hod, info, s, off, now2);
      d2.cloAttainment == d1.cloAttainment && d2.gaAttainment == d1.gaAttainment &&
      d2.alerts == d1.alerts && d2.courseGrades == d1.courseGrades
  {
    var d1 := Recompute(d, marks, planRows, plans, gaMap, hod, info, s, off, now1);
    CloStageIdempotent(d.cloAttainment, marks, planRows, plans, s, off);
    GaStageIdempotent(d.gaAttainment, d1.cloAttainment, gaMap, s, off);
    var results := GaResults(GaContributions(d1.cloAttainment, gaMap, s, off));
    AlertStageNoDuplicates(d.alerts, hod, info, s, off, results, d.nextAlertId, now1, d1.nextAlertId, now2);
    var g := GradeOf(MarkedRows(marks, planRows, plans, s, off));
    GradeStageGet(d.courseGrades, marks, planRows, plans, s, off, GradeKey(s, off));
    UpsertSame(d1.courseGrades, GradeKey(s, off), g);
  }

  /** The three stages run one after the other make up one recomputation. */
  lemma RecomputeInStages(d0: Derived, d1: Derived, marks: Table<MarkKey, Mark>, planRows: Table<int, PlanRow>,
                          plans: Table<int, Plan>, gaMap: Table<CloGaKey, real>, hod: Option<UserId>,
                          info: Option<StudentInfo>, s: UserId, off: Offering, now: int)
    requires d1.cloAttainment == CloStage(d0.cloAttainment, marks, planRows, plans, s, off)
    requires d1.gaAttainment == GaStage(d0.gaAttainment, d1.cloAttainment, gaMap, s, off)
    requires var ins := AlertInserts(hod, info, s, off, GaResults(GaContributions(d1.cloAttainment, gaMap, s, off)),
                                     d0.nextAlertId, now);
      d1.alerts == InsertIgnoreAll(d0.alerts, ins) && d1.nextAlertId == d0.nextAlertId + |ins|
    requires d1.courseGrades == GradeStage(d0.courseGrades, marks, planRows, plans, s, off)
    ensures d1 == Recompute(d0, marks, planRows, plans, gaMap, hod, info, s, off, now)
  {
  }

  // ----- The engine's methods -----

  /** Runs the CLO query and upserts each of its rows into `clo_attainment`. */
  method RecomputeCloAttainment(db: Database, s: UserId, off: Offering) returns (rows: Table<int, Decimal>)
    requires db.Valid()
    modifies db`cloAttainment
    ensures db.Valid()
    ensures rows == CloResults(MarkedRows(db.cloMarks, db.planRows, db.plans, s, off))
    ensures db.cloAttainment == CloStage(old(db.cloAttainment), db.cloMarks, db.planRows, db.plans, s, off)
  {
    rows := CloResults(MarkedRows(db.cloMarks, db.planRows, db.plans, s, off));
    ghost var ups := CloUpserts(s, off, rows);
    ghost var t0 := db.cloAttainment;
    var i := 0;
    while i < |rows|
      invariant 0 <= i <= |rows|
      invariant db.cloAttainment == UpsertAll(t0, ups[..i])
    {
      db.cloAttainment := Upsert(db.cloAttainment, CloAttKey(s, off, rows[i].key), rows[i].val);
      assert ups[..i + 1][..i] == ups[..i];
      i := i + 1;
    }
    assert ups[..|rows|] == ups;
    UpsertAllUnique(t0, ups);
  }

  /** The attempts for a prefix of the results are a prefix of the attempts for all of them. */
  lemma {:induction false} AlertAttemptsPrefix(hod: UserId, info: StudentInfo, s: UserId, off: Offering,
                                               rows: Table<string, Decimal>, j: nat, firstId: int, now: int)
    requires j <= |rows|
    ensures |AlertAttempts(hod, info, s, off, rows[..j], firstId, now)| <= |AlertAttempts(hod, info, s, off, rows, firstId, now)|
    ensures var all := AlertAttempts(hod, info, s, off, rows, firstId, now);
      all[..|AlertAttempts(hod, info, s, off, rows[..j], firstId, now)|] == AlertAttempts(hod, info, s, off, rows[..j], firstId, now)
    decreases |rows| - j
  {
    if j < |rows| {
      AlertAttemptsPrefix(hod, info, s, off, rows, j + 1, firstId, now);
      assert rows[..j + 1][..j] == rows[..j];
      var a := AlertAttempts(hod, info, s, off, rows[..j], firstId, now);
      var b := AlertAttempts(hod, info, s, off, rows[..j + 1], firstId, now);
      var all := AlertAttempts(hod, info, s, off, rows, firstId, now);
      assert b[..|a|] == a;
      assert all[..|a|] == all[..|b|][..|a|];
    } else {
      assert rows[..j] == rows;
    }
  }

  /** A result under 50 at position j is the attempt numbered by the attempts before it. */
  lemma AlertAttemptsStepBelow(hod: UserId, info: StudentInfo, s: UserId, off: Offering, rows: Table<string, Decimal>,
                               j: nat, firstId: int, now: int)
    requires j < |rows| && BelowThreshold(rows[j].val)
    ensures var m := |AlertAttempts(hod, info, s, off, rows[..j], firstId, now)|;
      var all := AlertAttempts(hod, info, s, off, rows, firstId, now);
      |AlertAttempts(hod, info, s, off, rows[..j + 1], firstId, now)| == m + 1 && m < |all| &&
      all[m] == AlertRow(hod, info, s, off, rows[j], firstId + m, now)
  {
    assert rows[..j + 1][..j] == rows[..j];
    AlertAttemptsPrefix(hod, info, s, off, rows, j + 1, firstId, now);
    var a := AlertAttempts(hod, info, s, off, rows[..j], firstId, now);
    var b := AlertAttempts(hod, info, s, off, rows[..j + 1], firstId, now);
    var all := AlertAttempts(hod, info, s, off, rows, firstId, now);
    assert b[|a|] == AlertRow(hod, info, s, off, rows[j], firstId + |a|, now);
    assert all[|a|] == all[..|b|][|a|];
  }

  /** A result of 50 or more adds no attempt. */
  lemma AlertAttemptsStepAbove(hod: UserId, info: StudentInfo, s: UserId, off: Offering, rows: Table<string, Decimal>,
                               j: nat, firstId: int, now: int)
    requires j < |rows| && !BelowThreshold(rows[j].val)
    ensures |AlertAttempts(hod, info, s, off, rows[..j + 1], firstId, now)| == |AlertAttempts(hod, info, s, off, rows[..j], firstId, now)|
  {
    assert rows[..j + 1][..j] == rows[..j];
  }

  /** The alert loop: tries one insert per GA result under 50, numbering the attempts from `firstId`. */
  method InsertAlerts(alerts0: Table<AlertKey, Alert>, hod: UserId, info: StudentInfo, s: UserId, off: Offering,
                      rows: Table<string, Decimal>, firstId: int, now: int) returns (alerts: Table<AlertKey, Alert>, nextId: int)
    ensures alerts == InsertIgnoreAll(alerts0, AlertAttempts(hod, info, s, off, rows, firstId, now))
    ensures nextId == firstId + |AlertAttempts(hod, info, s, off, rows, firstId, now)|
  {
    ghost var all := AlertAttempts(hod, info, s, off, rows, firstId, now);
    alerts, nextId := alerts0, firstId;
    ghost var m := 0;
    var j := 0;
    while j < |rows|
      invariant 0 <= j <= |rows|
      invariant m == |AlertAttempts(hod, info, s, off, rows[..j], firstId, now)| <= |all|
      invariant alerts == InsertIgnoreAll(alerts0, all[..m])
      invariant nextId == firstId + m
    {
      if BelowThreshold(rows[j].val) {
        var row := AlertRow(hod, info, s, off, rows[j], nextId, now);
        assert |AlertAttempts(hod, info, s, off, rows[..j + 1], firstId, now)| == m + 1 && m < |all| &&
               all[..m + 1] == all[..m] + [row] by {
          AlertAttemptsStepBelow(hod, info, s, off, rows, j, firstId, now);
        }
        InsertIgnoreAllSnoc(alerts0, all[..m], row);
        alerts := InsertIgnore(alerts, row.key, row.val);
        nextId := nextId + 1;
        m := m + 1;
      } else {
        AlertAttemptsStepAbove(hod, info, s, off, rows, j, firstId, now);
      }
      j := j + 1;
    }
    assert rows[..j] == rows;
    assert all[..m] == all;
  }

  /** Runs the GA query over the stored CLO percentages and upserts each of its rows into `ga_attainment`. */
  method UpsertGaAttainment(db: Database, s: UserId, off: Offering) returns (rows: Table<string, Decimal>)
    requires db.Valid()
    modifies db`gaAttainment
    ensures db.Valid()
    ensures rows == GaResults(GaContributions(db.cloAttainment, db.cloGaMap, s, off))
    ensures db.gaAttainment == GaStage(old(db.gaAttainment), db.cloAttainment, db.cloGaMap, s, off)
  {
    rows := GaResults(GaContributions(db.cloAttainment, db.cloGaMap, s, off));
    ghost var ups := GaUpserts(s, off, rows);
    ghost var t0 := db.gaAttainment;
    var i := 0;
    while i < |rows|
      invariant 0 <= i <= |rows|
      invariant db.gaAttainment == UpsertAll(t0, ups[..i])
    {
      db.gaAttainment := Upsert(db.gaAttainment, GaAttKey(s, off, rows[i].key), rows[i].val);
      assert ups[..i + 1][..i] == ups[..i];
      i := i + 1;
    }
    assert ups[..|rows|] == ups;
    UpsertAllUnique(t0, ups);
  }

  /** Alerts are raised only when an HOD for the department and the student's info were found. */
  method RaiseAlerts(db: Database, s: UserId, off: Offering, rows: Table<string, Decimal>, hod: Option<UserId>,
                     info: Option<StudentInfo>, now: int)
    requires db.Valid()
    modifies db`alerts, db`nextAlertId
    ensures db.Valid()
    ensures db.alerts == InsertIgnoreAll(old(db.alerts), AlertInserts(hod, info, s, off, rows, old(db.nextAlertId), now))
    ensures db.nextAlertId == old(db.nextAlertId) + |AlertInserts(hod, info, s, off, rows, old(db.nextAlertId), now)|
  {
    if hod.Some? && info.Some? {
      InsertIgnoreAllUnique(db.alerts, AlertInserts(hod, info, s, off, rows, db.nextAlertId, now));
      db.alerts, db.nextAlertId := InsertAlerts(db.alerts, hod.value, info.value, s, off, rows, db.nextAlertId, now);
    }
  }

  /**
   * The GA stage followed by the alert loop over the same GA rows; `hod` and
   * `info` are what the HOD and student-info queries returned.
   */
  method RecomputeGaAttainmentAndAlerts(db: Database, s: UserId, off: Offering, hod: Option<UserId>,
                                        info: Option<StudentInfo>, now: int) returns (rows: Table<string, Decimal>)
    requires db.Valid()
    modifies db`gaAttainment, db`alerts, db`nextAlertId
    ensures db.Valid()
    ensures rows == GaResults(GaContributions(db.cloAttainment, db.cloGaMap, s, off))
    ensures db.gaAttainment == GaStage(old(db.gaAttainment), db.cloAttainment, db.cloGaMap, s, off)
    ensures db.alerts == InsertIgnoreAll(old(db.alerts), AlertInserts(hod, info, s, off, rows, old(db.nextAlertId), now))
    ensures db.nextAlertId == old(db.nextAlertId) + |AlertInserts(hod, info, s, off, rows, old(db.nextAlertId), now)|
  {
    rows := UpsertGaAttainment(db, s, off);
    RaiseAlerts(db, s, off, rows, hod, info, now);
  }

  /** Recomputes the course percentage and grade and upserts the `course_grades` row. */
  method RecomputeCourseGrade(db: Database, s: UserId, off: Offering)
    requires db.Valid()
    modifies db`courseGrades
    ensures db.Valid()
    ensures db.courseGrades == GradeStage(old(db.courseGrades), db.cloMarks, db.planRows, db.plans, s, off)
  {
    var mr := MarkedRows(db.cloMarks, db.planRows, db.plans, s, off);
    var pct := CoursePercentage(TotalObtained(mr), TotalMax(mr));
    var grade := GradeFromPercentage(pct);
    UpsertUnique(db.courseGrades, GradeKey(s, off), CourseGrade(pct, LetterText(grade.letter), grade.gp));
    db.courseGrades := Upsert(db.courseGrades, GradeKey(s, off), CourseGrade(pct, LetterText(grade.letter), grade.gp));
  }

  /** The fixed order after a mark write: CLO, then GA and alerts, then the course grade. */
  method RecomputeAttainment(db: Database, s: UserId, off: Offering, hod: Option<UserId>,
                             info: Option<StudentInfo>, now: int)
    requires db.Valid()
    modifies db`cloAttainment, db`gaAttainment, db`alerts, db`nextAlertId, db`courseGrades
    ensures db.Valid()
    ensures DerivedOf(db) == Recompute(old(DerivedOf(db)), db.cloMarks, db.planRows, db.plans, db.cloGaMap, hod, info, s, off, now)
  {
    ghost var d0 := DerivedOf(db);
    var cloRows := RecomputeCloAttainment(db, s, off);
    var gaRows := RecomputeGaAttainmentAndAlerts(db, s, off, hod, info, now);
    ghost var d1 := DerivedOf(db);
    RecomputeCourseGrade(db, s, off);
    ghost var d2 := DerivedOf(db);
    assert d2 == d1.(courseGrades := GradeStage(d1.courseGrades, db.cloMarks, db.planRows, db.plans, s, off));
    RecomputeInStages(d0, d2, db.cloMarks, db.planRows, db.plans, db.cloGaMap, hod, info, s, off, now);
  }
}
