/**
 * Rules for grades: a score's letter grade, a letter's grade points, and the
 * shape an e-mail address must have before a student record accepts it.
 */
module Rules {

  datatype Letter = A | B | C | D | F

  /**
   * `format_grade`: the letter of a score. Each band includes its lower bound
   * (90, 80, 70, 60); every score below 60, negative ones included, is an F.
   */
  function LetterGrade(score: real): (l: Letter)
    ensures l == A <==> 90.0 <= score
    ensures l == B <==> 80.0 <= score < 90.0
    ensures l == C <==> 70.0 <= score < 80.0
    ensures l == D <==> 60.0 <= score < 70.0
    ensures l == F <==> score < 60.0
  {
    if score >= 90.0 then A
    else if score >= 80.0 then B
    else if score >= 70.0 then C
    else if score >= 60.0 then D
    else F
  }

  /** The grade-point table: A is worth 4, each lower letter one point less, F nothing. */
  function GradePoints(l: Letter): (p: real)
    ensures 0.0 <= p <= 4.0
  {
    match l
    case A => 4.0
    case B => 3.0
    case C => 2.0
    case D => 1.0
    case F => 0.0
  }

  /** The points a single score earns. */
  function ScorePoints(score: real): (p: real)
    ensures 0.0 <= p <= 4.0
  {
    GradePoints(LetterGrade(score))
  }

  /** A lower score never earns a better letter. */
  lemma LetterGradeMonotone(lower: real, higher: real)
    requires lower <= higher
    ensures ScorePoints(lower) <= ScorePoints(higher)
  {
  }

  /** Distinct letters are worth distinct points, so points determine the letter. */
  lemma GradePointsInjective(l: Letter, m: Letter)
    requires GradePoints(l) == GradePoints(m)
    ensures l == m
  {
  }

  /** The letter of each band's lower bound, and of the score just below it. */
  lemma BandBoundaries()
    ensures LetterGrade(90.0) == A && LetterGrade(89.9) == B
    ensures LetterGrade(80.0) == B && LetterGrade(79.9) == C
    ensures LetterGrade(70.0) == C && LetterGrade(69.9) == D
    ensures LetterGrade(60.0) == D && LetterGrade(59.9) == F
    ensures LetterGrade(100.0) == A && LetterGrade(0.0) == F
  {
  }

  /** `validate_email`: the address holds an `@` somewhere and a `.` somewhere. */
  predicate ValidEmail(email: string)
    ensures ValidEmail(email) <==>
      (exists i :: 0 <= i < |email| && email[i] == '@') &&
      (exists j :: 0 <= j < |email| && email[j] == '.')
    ensures ValidEmail(email) ==> |email| >= 2
  {
    '@' in email && '.' in email
  }
}
