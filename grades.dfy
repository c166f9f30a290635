/** The grade table: a fixed, first-match scale from a percentage to a letter
    grade and the grade point that letter is worth. */
module Grades {

  /** A letter grade together with its grade point. */
  datatype Grade = Grade(letter: string, point: real)

  /** One row of the scale: a percentage at or above `threshold` earns `grade`,
      unless a row before it already matched. */
  datatype Band = Band(threshold: real, grade: Grade)

  /** The scale as a table, highest threshold first. */
  const Scale: seq<Band> := [
    Band(90.0, Grade("A+", 10.0)),
    Band(80.0, Grade("A", 9.0)),
    Band(70.0, Grade("B+", 8.0)),
    Band(60.0, Grade("B", 7.0)),
    Band(50.0, Grade("C", 6.0)),
    Band(40.0, Grade("D", 5.0))
  ]

  /** What a percentage below every threshold of the scale earns. */
  const Fail: Grade := Grade("F", 0.0)

  /** The grade of percentage `p`. Total: `p` may be negative or above 100. */
  function GradeFromPercent(p: real): (g: Grade)
    ensures g.point in {0.0, 5.0, 6.0, 7.0, 8.0, 9.0, 10.0}
    ensures g.point == 0.0 <==> p < 40.0
    ensures g.point == 10.0 <==> 90.0 <= p
  {
    if p >= 90.0 then Grade("A+", 10.0)
    else if p >= 80.0 then Grade("A", 9.0)
    else if p >= 70.0 then Grade("B+", 8.0)
    else if p >= 60.0 then Grade("B", 7.0)
    else if p >= 50.0 then Grade("C", 6.0)
    else if p >= 40.0 then Grade("D", 5.0)
    else Grade("F", 0.0)
  }

  /** Reference reading of a scale: the grade of the first band whose
      threshold `p` reaches, or `Fail` when there is none. */
  function FirstMatch(bands: seq<Band>, p: real): Grade
  {
    if bands == [] then Fail
    else if p >= bands[0].threshold then bands[0].grade
    else FirstMatch(bands[1..], p)
  }

  /** The chain of conditionals is the first-match reading of `Scale`. */
  lemma {:induction false} GradeIsFirstMatch(p: real)
    ensures GradeFromPercent(p) == FirstMatch(Scale, p)
  {
    var s := Scale;
    assert FirstMatch(s[6..], p) == Fail;
    assert FirstMatch(s[5..], p) == if p >= 40.0 then Grade("D", 5.0) else Fail;
    assert FirstMatch(s[4..], p) == if p >= 50.0 then Grade("C", 6.0) else FirstMatch(s[5..], p);
    assert FirstMatch(s[3..], p) == if p >= 60.0 then Grade("B", 7.0) else FirstMatch(s[4..], p);
    assert FirstMatch(s[2..], p) == if p >= 70.0 then Grade("B+", 8.0) else FirstMatch(s[3..], p);
    assert FirstMatch(s[1..], p) == if p >= 80.0 then Grade("A", 9.0) else FirstMatch(s[2..], p);
  }

  /** Each band is closed below and open above: `p` earns band `k` exactly
      when it reaches band `k`'s threshold and not the one before it. */
  lemma {:induction false} GradeInBand(p: real, k: nat)
    requires k < |Scale|
    ensures GradeFromPercent(p) == Scale[k].grade <==>
            Scale[k].threshold <= p && (k == 0 || p < Scale[k - 1].threshold)
  {
  }

  /** A percentage fails exactly when it is below the lowest threshold. */
  lemma {:induction false} GradeFails(p: real)
    ensures GradeFromPercent(p) == Fail <==> p < Scale[|Scale| - 1].threshold
  {
  }

  /** A higher percentage never earns a lower grade point. */
  lemma {:induction false} GradePointMonotone(p: real, q: real)
    requires p <= q
    ensures GradeFromPercent(p).point <= GradeFromPercent(q).point
  {
  }
}
