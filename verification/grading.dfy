/** The grade calculator: a fixed threshold table from marks to a letter grade.
    Thresholds are compared from the highest down and the first one met wins. */
module Grading {

  /** The five letters the calculator can produce, best first. */
  predicate IsLetterGrade(g: char) {
    g == 'A' || g == 'B' || g == 'C' || g == 'D' || g == 'F'
  }

  /** Letter grade for `marks`. Total over all integers: the input widget keeps
      marks in 0..100, but nothing here depends on that. */
  function CalculateGrade(marks: int): (g: char)
    ensures IsLetterGrade(g)
    ensures g == 'A' <==> 90 <= marks
    ensures g == 'B' <==> 75 <= marks < 90
    ensures g == 'C' <==> 60 <= marks < 75
    ensures g == 'D' <==> 40 <= marks < 60
    ensures g == 'F' <==> marks < 40
  {
    if marks >= 90 then 'A'
    else if marks >= 75 then 'B'
    else if marks >= 60 then 'C'
    else if marks >= 40 then 'D'
    else 'F'
  }

  /** Smallest mark that earns grade `g`. */
  function Floor(g: char): int
    requires IsLetterGrade(g) && g != 'F'
  {
    match g
    case 'A' => 90
    case 'B' => 75
    case 'C' => 60
    case _ => 40
  }

  /** The four boundaries 90/89, 75/74, 60/59 and 40/39: the floor of each passing
      grade earns that grade, and one mark less earns the next one down. */
  lemma Boundaries(g: char)
    requires IsLetterGrade(g) && g != 'F'
    ensures CalculateGrade(Floor(g)) == g
    ensures CalculateGrade(Floor(g) - 1) == NextLower(g)
    ensures NextLower(g) != g
  {
  }

  /** The grade just below `g` in the table. */
  function NextLower(g: char): char
    requires IsLetterGrade(g) && g != 'F'
  {
    match g
    case 'A' => 'B'
    case 'B' => 'C'
    case 'C' => 'D'
    case _ => 'F'
  }

  /** More marks never earn a worse grade. Letter order matches merit order
      ('A' < 'B' < 'C' < 'D' < 'F'), so a better grade is a smaller character. */
  lemma GradeMonotone(m1: int, m2: int)
    requires m1 <= m2
    ensures CalculateGrade(m2) <= CalculateGrade(m1)
  {
  }

  /** Each passing grade is earned by exactly the marks from its floor upwards that
      do not reach the floor of the grade above. */
  lemma GradeBand(g: char, marks: int)
    requires IsLetterGrade(g) && g != 'F'
    ensures CalculateGrade(marks) == g <==>
              Floor(g) <= marks && (g == 'A' || marks < Floor(NextHigher(g)))
  {
  }

  /** The grade just above `g` in the table. */
  function NextHigher(g: char): char
    requires IsLetterGrade(g) && g != 'A'
  {
    match g
    case 'B' => 'A'
    case 'C' => 'B'
    case 'D' => 'C'
    case _ => 'D'
  }
}
