/**
 * The fixed letter-grade scale: percentage thresholds checked from the top,
 * the first one reached deciding the letter and its grade points.
 */
module GradeScale {

  datatype Letter = A | AMinus | BPlus | B | BMinus | CPlus | C | D | F

  /** The letter as it is stored and shown. */
  function LetterText(l: Letter): string
  {
    match l
    case A => "A"
    case AMinus => "A-"
    case BPlus => "B+"
    case B => "B"
    case BMinus => "B-"
    case CPlus => "C+"
    case C => "C"
    case D => "D"
    case F => "F"
  }

  /** Grade points of each letter. */
  function Points(l: Letter): real
  {
    match l
    case A => 4.0
    case AMinus => 3.7
    case BPlus => 3.3
    case B => 3.0
    case BMinus => 2.7
    case CPlus => 2.3
    case C => 2.0
    case D => 1.0
    case F => 0.0
  }

  /** The lowest percentage that earns a passing letter. */
  function MinPct(l: Letter): real
    requires l != F
  {
    match l
    case A => 85.0
    case AMinus => 80.0
    case BPlus => 75.0
    case B => 70.0
    case BMinus => 65.0
    case CPlus => 60.0
    case C => 55.0
    case D => 50.0
  }

  /** The next letter up the scale. */
  function Better(l: Letter): Letter
    requires l != A
  {
    match l
    case AMinus => A
    case BPlus => AMinus
    case B => BPlus
    case BMinus => B
    case CPlus => BMinus
    case C => CPlus
    case D => C
    case F => D
  }

  datatype Grade = Grade(letter: Letter, gp: real)

  /**
   * The grade for a course percentage: the best letter whose threshold `p`
   * reaches (inclusive), and F below 50. No clamp: anything from 85 up is A.
   */
  function GradeFromPercentage(p: real): (g: Grade)
    ensures g.gp == Points(g.letter)
    ensures g.letter == F <==> p < 50.0
    ensures g.letter != F ==> MinPct(g.letter) <= p
    ensures g.letter != A ==> p < MinPct(Better(g.letter))
  {
    if p >= 85.0 then Grade(A, 4.0)
    else if p >= 80.0 then Grade(AMinus, 3.7)
    else if p >= 75.0 then Grade(BPlus, 3.3)
    else if p >= 70.0 then Grade(B, 3.0)
    else if p >= 65.0 then Grade(BMinus, 2.7)
    else if p >= 60.0 then Grade(CPlus, 2.3)
    else if p >= 55.0 then Grade(C, 2.0)
    else if p >= 50.0 then Grade(D, 1.0)
    else Grade(F, 0.0)
  }

  /**
   * `p` lies in the band of `l`: F exactly below 50, otherwise from the
   * letter's threshold (inclusive) up to the next letter's (exclusive).
   */
  predicate InBand(l: Letter, p: real)
  {
    (l == F <==> p < 50.0) && (l != F ==> MinPct(l) <= p) && (l != A ==> p < MinPct(Better(l)))
  }

  /** The bands do not overlap: a letter whose band holds `p` is the letter the scale gives `p`. */
  lemma BandDecidesLetter(l: Letter, p: real)
    requires InBand(l, p)
    ensures GradeFromPercentage(p).letter == l
  {
  }

  /** Every percentage lies in some band: the one of the letter the scale gives it. */
  lemma BandsCover(p: real)
    ensures InBand(GradeFromPercentage(p).letter, p)
  {
  }

  /** Grade points always lie in [0, 4]. */
  lemma PointsInRange(p: real)
    ensures 0.0 <= GradeFromPercentage(p).gp <= 4.0
  {
  }

  /** A higher percentage never earns fewer grade points. */
  lemma GradeMonotone(p: real, q: real)
    requires p <= q
    ensures GradeFromPercentage(p).gp <= GradeFromPercentage(q).gp
  {
  }

  /** Letters and grade points determine each other across the nine outcomes. */
  lemma LetterPointsOneToOne(l1: Letter, l2: Letter)
    ensures Points(l1) == Points(l2) <==> l1 == l2
    ensures LetterText(l1) == LetterText(l2) <==> l1 == l2
  {
  }

  /** Inclusive boundaries: 85 is A, 84.99 is A-, 50 is D, 49.99 is F; 150 is still A. */
  lemma GradeBoundaries()
    ensures GradeFromPercentage(85.0) == Grade(A, 4.0)
    ensures GradeFromPercentage(84.99) == Grade(AMinus, 3.7)
    ensures GradeFromPercentage(75.0) == Grade(BPlus, 3.3)
    ensures GradeFromPercentage(50.0) == Grade(D, 1.0)
    ensures GradeFromPercentage(49.99) == Grade(F, 0.0)
    ensures GradeFromPercentage(150.0) == Grade(A, 4.0)
  {
  }
}
