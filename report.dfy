/** The report engine: from the joined mark rows of one student, the
    per-subject percent, grade and credit points, and the credit-weighted
    average (CGPA). */
module Report {
  import opened Optional
  import opened Grades
  import opened Sorting

  /** One row of the students/marks/subjects join for a student. */
  datatype JoinedRow = JoinedRow(studentId: int, roll: string, name: string,
                                 code: string, title: string, credits: real,
                                 marks: real, maxMarks: real)

  /** A row of the detailed report. */
  datatype GradeRow = GradeRow(code: string, title: string, credits: real,
                               marks: real, maxMarks: real, percent: real,
                               grade: string, gradePoint: real, creditGp: real)

  /** The report's summary record (the generation timestamp is not modelled). */
  datatype Summary = Summary(roll: string, name: string, totalCredits: real,
                             totalCreditGp: real, cgpa: real)

  datatype StudentReport = StudentReport(rows: seq<GradeRow>, summary: Summary)

  /** Every row has a non-zero maximum, so its percentage is defined. */
  predicate PercentDefined(rows: seq<JoinedRow>)
  {
    forall i | 0 <= i < |rows| :: rows[i].maxMarks != 0.0
  }

  /** The percentage that `marks` out of `maxMarks` represents. */
  function Percent(marks: real, maxMarks: real): (p: real)
    requires maxMarks != 0.0
    ensures p * maxMarks == marks * 100.0
  {
    marks / maxMarks * 100.0
  }

  /** `g` is the detail row of `row`: the subject and the marks copied, the
      percentage of the marks, the grade of that percentage, and the credits
      times the grade point. */
  predicate GradedFrom(row: JoinedRow, g: GradeRow)
  {
    g.code == row.code && g.title == row.title && g.credits == row.credits &&
    g.marks == row.marks && g.maxMarks == row.maxMarks &&
    g.percent * row.maxMarks == row.marks * 100.0 &&
    Grade(g.grade, g.gradePoint) == GradeFromPercent(g.percent) &&
    g.creditGp == row.credits * g.gradePoint
  }

  function GradeRowOf(row: JoinedRow): (g: GradeRow)
    requires row.maxMarks != 0.0
    ensures GradedFrom(row, g)
  {
    var p := Percent(row.marks, row.maxMarks);
    var g := GradeFromPercent(p);
    GradeRow(row.code, row.title, row.credits, row.marks, row.maxMarks,
             p, g.letter, g.point, row.credits * g.point)
  }

  /** The detail rows, one per joined row and in the same order. */
  function GradeRows(rows: seq<JoinedRow>): (gs: seq<GradeRow>)
    requires PercentDefined(rows)
    ensures |gs| == |rows|
    ensures forall i | 0 <= i < |rows| :: gs[i] == GradeRowOf(rows[i])
  {
    if rows == [] then []
    else GradeRows(rows[..|rows| - 1]) + [GradeRowOf(rows[|rows| - 1])]
  }

  function TotalCredits(gs: seq<GradeRow>): real
  {
    if gs == [] then 0.0 else TotalCredits(gs[..|gs| - 1]) + gs[|gs| - 1].credits
  }

  function TotalCreditGp(gs: seq<GradeRow>): real
  {
    if gs == [] then 0.0 else TotalCreditGp(gs[..|gs| - 1]) + gs[|gs| - 1].creditGp
  }

  /** The credit-weighted average; zero when there are no credits. */
  function Cgpa(totalCredits: real, totalCreditGp: real): (c: real)
    ensures totalCredits > 0.0 ==> c * totalCredits == totalCreditGp
    ensures totalCredits <= 0.0 ==> c == 0.0
  {
    if totalCredits > 0.0 then totalCreditGp / totalCredits else 0.0
  }

  /** The report of a student whose joined rows are `rows`: no report at all
      when there are none; otherwise every row graded on its own percentage,
      and the totals and CGPA over all of them. */
  function ComputeReport(rows: seq<JoinedRow>): (r: Option<StudentReport>)
    requires PercentDefined(rows)
    ensures r.None? <==> rows == []
    ensures r.Some? ==> |r.value.rows| == |rows|
    ensures r.Some? ==> forall i | 0 <= i < |rows| :: GradedFrom(rows[i], r.value.rows[i])
    ensures r.Some? ==> r.value.summary.roll == rows[0].roll && r.value.summary.name == rows[0].name
    ensures r.Some? ==> r.value.summary.totalCredits == TotalCredits(r.value.rows)
    ensures r.Some? ==> r.value.summary.totalCreditGp == TotalCreditGp(r.value.rows)
    ensures r.Some? ==> r.value.summary.cgpa == Cgpa(TotalCredits(r.value.rows), TotalCreditGp(r.value.rows))
  {
    if rows == [] then None
    else
      var gs := GradeRows(rows);
      var tc := TotalCredits(gs);
      var tgp := TotalCreditGp(gs);
      Some(StudentReport(gs, Summary(rows[0].roll, rows[0].name, tc, tgp, Cgpa(tc, tgp))))
  }

  /** Rows whose credits are non-negative and whose grade points lie in
      [lo, hi] have a credit-point total between lo and hi times the credits. */
  lemma {:induction false} WeightedSumBounds(gs: seq<GradeRow>, lo: real, hi: real)
    requires Weighted(gs, lo, hi)
    ensures lo * TotalCredits(gs) <= TotalCreditGp(gs) <= hi * TotalCredits(gs)
  {
    forall i | 0 <= i < |gs|
      ensures lo * gs[i].credits <= gs[i].creditGp <= hi * gs[i].credits
    {
      MulBounds(gs[i].credits, gs[i].gradePoint, lo, hi);
    }
    SumAtLeast(gs, lo);
    SumAtMost(gs, hi);
  }

  /** Credit points at least k per credit on every row add up to at least k
      per credit in total. */
  lemma {:induction false} SumAtLeast(gs: seq<GradeRow>, k: real)
    requires forall i | 0 <= i < |gs| :: k * gs[i].credits <= gs[i].creditGp
    ensures k * TotalCredits(gs) <= TotalCreditGp(gs)
  {
    if gs != [] {
      var init, last := gs[..|gs| - 1], gs[|gs| - 1];
      assert forall i | 0 <= i < |init| :: init[i] == gs[i];
      SumAtLeast(init, k);
      Distribute(k, TotalCredits(init), last.credits, TotalCredits(gs));
    }
  }

  /** Credit points at most k per credit on every row add up to at most k per
      credit in total. */
  lemma {:induction false} SumAtMost(gs: seq<GradeRow>, k: real)
    requires forall i | 0 <= i < |gs| :: gs[i].creditGp <= k * gs[i].credits
    ensures TotalCreditGp(gs) <= k * TotalCredits(gs)
  {
    if gs != [] {
      var init, last := gs[..|gs| - 1], gs[|gs| - 1];
      assert forall i | 0 <= i < |init| :: init[i] == gs[i];
      SumAtMost(init, k);
      Distribute(k, TotalCredits(init), last.credits, TotalCredits(gs));
    }
  }

  lemma {:induction false} Distribute(k: real, a: real, b: real, sum: real)
    requires sum == a + b
    ensures k * sum == k * a + k * b
  {
  }

  lemma {:induction false} MulBounds(c: real, g: real, lo: real, hi: real)
    requires 0.0 <= c && lo <= g <= hi
    ensures lo * c <= c * g <= hi * c
  {
  }

  /** Rows whose credits are non-negative and whose grade points lie in
      [lo, hi] are credit-weighted by their own grade points. */
  ghost predicate Weighted(gs: seq<GradeRow>, lo: real, hi: real)
  {
    forall i | 0 <= i < |gs| ::
      0.0 <= gs[i].credits && lo <= gs[i].gradePoint <= hi &&
      gs[i].creditGp == gs[i].credits * gs[i].gradePoint
  }

  /** The CGPA is a weighted average: when every subject's grade point lies in
      [lo, hi] and the credits are non-negative and not all zero, so does it. */
  lemma {:induction false} CgpaBetween(gs: seq<GradeRow>, lo: real, hi: real)
    requires Weighted(gs, lo, hi)
    requires TotalCredits(gs) > 0.0
    ensures lo <= Cgpa(TotalCredits(gs), TotalCreditGp(gs)) <= hi
  {
    WeightedSumBounds(gs, lo, hi);
    DivBounds(TotalCreditGp(gs), TotalCredits(gs), lo, hi);
  }

  lemma {:induction false} DivBounds(x: real, c: real, lo: real, hi: real)
    requires c > 0.0 && lo * c <= x <= hi * c
    ensures lo <= x / c <= hi
  {
  }

  /** With non-negative credits the CGPA lies on the grade-point scale, [0, 10]. */
  lemma {:induction false} CgpaInRange(rows: seq<JoinedRow>)
    requires PercentDefined(rows) && rows != []
    requires forall i | 0 <= i < |rows| :: 0.0 <= rows[i].credits
    ensures 0.0 <= ComputeReport(rows).value.summary.cgpa <= 10.0
  {
    var gs := GradeRows(rows);
    forall i | 0 <= i < |gs|
      ensures 0.0 <= gs[i].credits && 0.0 <= gs[i].gradePoint <= 10.0
      ensures gs[i].creditGp == gs[i].credits * gs[i].gradePoint
    {
      assert gs[i] == GradeRowOf(rows[i]);
    }
    assert Weighted(gs, 0.0, 10.0);
    if TotalCredits(gs) > 0.0 {
      CgpaBetween(gs, 0.0, 10.0);
    }
  }

  /** Taking row `k` out of a table takes its credits and credit points out of
      the totals. */
  lemma {:induction false} TotalsWithout(gs: seq<GradeRow>, k: nat)
    requires k < |gs|
    ensures TotalCredits(gs) == TotalCredits(gs[..k] + gs[k + 1..]) + gs[k].credits
    ensures TotalCreditGp(gs) == TotalCreditGp(gs[..k] + gs[k + 1..]) + gs[k].creditGp
  {
    var n := |gs|;
    var init := gs[..n - 1];
    if k == n - 1 {
      assert gs[..k] + gs[k + 1..] == init;
    } else {
      TotalsWithout(init, k);
      var rest := init[..k] + init[k + 1..];
      assert gs[..k] + gs[k + 1..] == rest + [gs[n - 1]];
      assert (rest + [gs[n - 1]])[..|rest|] == rest;
    }
  }

  /** The join has no order, and the totals do not depend on it: any
      rearrangement of the detail rows has the same totals. */
  lemma {:induction false} TotalsIgnoreOrder(a: seq<GradeRow>, b: seq<GradeRow>)
    requires multiset(a) == multiset(b)
    ensures TotalCredits(a) == TotalCredits(b)
    ensures TotalCreditGp(a) == TotalCreditGp(b)
  {
    if a == [] {
      assert |b| == |multiset(b)| == 0;
    } else {
      var n := |a|;
      var x := a[n - 1];
      assert x in multiset(b);
      var k :| 0 <= k < |b| && b[k] == x;
      PermutationWithout(a, b, k);
      TotalsIgnoreOrder(a[..n - 1], b[..k] + b[k + 1..]);
      TotalsWithout(b, k);
    }
  }

  /** Grading commutes with taking a row out. */
  lemma {:induction false} GradeRowsWithout(b: seq<JoinedRow>, k: nat)
    requires PercentDefined(b) && k < |b|
    ensures PercentDefined(b[..k] + b[k + 1..])
    ensures GradeRows(b[..k] + b[k + 1..]) == GradeRows(b)[..k] + GradeRows(b)[k + 1..]
  {
    var b' := b[..k] + b[k + 1..];
    assert forall i | 0 <= i < |b'| :: b'[i] == if i < k then b[i] else b[i + 1];
  }

  /** Grading a rearrangement of the joined rows gives a rearrangement of the
      detail rows. */
  lemma {:induction false} GradeRowsIgnoreOrder(a: seq<JoinedRow>, b: seq<JoinedRow>)
    requires PercentDefined(a) && PercentDefined(b)
    requires multiset(a) == multiset(b)
    ensures multiset(GradeRows(a)) == multiset(GradeRows(b))
  {
    if a == [] {
      assert |b| == |multiset(b)| == 0;
    } else {
      var n := |a|;
      var x := a[n - 1];
      assert x in multiset(b);
      var k :| 0 <= k < |b| && b[k] == x;
      PermutationWithout(a, b, k);
      GradeRowsWithout(b, k);
      GradeRowsIgnoreOrder(a[..n - 1], b[..k] + b[k + 1..]);
      var ga, gb := GradeRows(a), GradeRows(b);
      assert ga == GradeRows(a[..n - 1]) + [GradeRowOf(x)];
      MultisetWithout(gb, k);
    }
  }

  /** The summary of a report does not depend on the order in which the join
      returned the student's rows. */
  lemma {:induction false} SummaryIgnoresRowOrder(a: seq<JoinedRow>, b: seq<JoinedRow>)
    requires PercentDefined(a) && PercentDefined(b) && a != []
    requires multiset(a) == multiset(b)
    requires forall i | 0 <= i < |b| :: b[i].roll == a[0].roll && b[i].name == a[0].name
    ensures ComputeReport(b).Some?
    ensures ComputeReport(a).value.summary == ComputeReport(b).value.summary
  {
    assert a[0] in multiset(b);
    GradeRowsIgnoreOrder(a, b);
    TotalsIgnoreOrder(GradeRows(a), GradeRows(b));
  }

  /** The worked example: 95 of 100 in a 4-credit subject and 65 of 100 in a
      3-credit one are an A+ (10) and a B (7), for 61 credit points over 7
      credits. */
  lemma {:induction false} WorkedExample(r1: JoinedRow, r2: JoinedRow)
    requires r1.credits == 4.0 && r1.marks == 95.0 && r1.maxMarks == 100.0
    requires r2.credits == 3.0 && r2.marks == 65.0 && r2.maxMarks == 100.0
    ensures PercentDefined([r1, r2])
    ensures ComputeReport([r1, r2]).value.summary.totalCredits == 7.0
    ensures ComputeReport([r1, r2]).value.summary.totalCreditGp == 61.0
    ensures ComputeReport([r1, r2]).value.summary.cgpa == 61.0 / 7.0
  {
    var g1, g2 := GradeRowOf(r1), GradeRowOf(r2);
    assert GradeRows([r1, r2]) == [g1, g2];
    assert g1.percent == 95.0 && g1.gradePoint == 10.0 && g1.creditGp == 40.0;
    assert g2.percent == 65.0 && g2.gradePoint == 7.0 && g2.creditGp == 21.0;
    assert [g1, g2][..1] == [g1] && [g1][..0] == [];
    assert TotalCredits([g1]) == TotalCredits([]) + g1.credits == 4.0;
    assert TotalCreditGp([g1]) == TotalCreditGp([]) + g1.creditGp == 40.0;
    assert TotalCredits([g1, g2]) == 7.0 && TotalCreditGp([g1, g2]) == 61.0;
  }
}
