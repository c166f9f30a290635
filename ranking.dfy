/** The class ranking on the dashboard: a report per student in roll order,
    the students without marks skipped, the rest ordered by CGPA, highest
    first. */
module Ranking {
  import opened Optional
  import opened Lookup
  import opened Sorting
  import opened Report
  import opened Store

  /** One line of the class table. */
  datatype ClassRow = ClassRow(roll: string, name: string, cgpa: real, totalCredits: real)

  function ClassRowOf(rep: StudentReport): ClassRow
  {
    ClassRow(rep.summary.roll, rep.summary.name, rep.summary.cgpa, rep.summary.totalCredits)
  }

  /** The line of student `s`: one when they have a report, none otherwise. */
  function LineFor(t: Tables, s: Student): seq<ClassRow>
    requires MaxMarksNonZero(t.marks)
  {
    match ReportOf(t, s.id)
    case None => []
    case Some(rep) => [ClassRowOf(rep)]
  }

  /** `LineFor` over the tables `t`, as a function of the student. */
  function Lines(t: Tables): Student --> seq<ClassRow>
  {
    s requires MaxMarksNonZero(t.marks) => LineFor(t, s)
  }

  // ---------------------------------------------------------------------
  // Collecting what a function yields for each element, in order

  function Concat<S(!new), R>(ss: seq<S>, f: S --> seq<R>): seq<R>
    requires forall x :: f.requires(x)
  {
    if ss == [] then [] else Concat(ss[..|ss| - 1], f) + f(ss[|ss| - 1])
  }

  lemma {:induction false} ConcatSnoc<S(!new), R>(ss: seq<S>, f: S --> seq<R>, i: nat)
    requires forall x :: f.requires(x)
    requires i < |ss|
    ensures Concat(ss[..i + 1], f) == Concat(ss[..i], f) + f(ss[i])
  {
    assert ss[..i + 1][..i] == ss[..i];
  }

  /** An item is collected exactly when some element yields it. */
  lemma {:induction false} ConcatMembers<S(!new), R>(ss: seq<S>, f: S --> seq<R>, x: R)
    requires forall y :: f.requires(y)
    ensures x in Concat(ss, f) <==> exists i | 0 <= i < |ss| :: x in f(ss[i])
  {
    if ss != [] {
      var init := ss[..|ss| - 1];
      ConcatMembers(init, f, x);
      assert forall i | 0 <= i < |init| :: init[i] == ss[i];
    }
  }

  /** When every element yields items carrying its own key, every collected
      item carries the key of some element. */
  lemma {:induction false} ConcatKeys<S(!new), R, K>(ss: seq<S>, f: S --> seq<R>, keyS: S -> K, keyR: R -> K)
    requires forall y :: f.requires(y)
    requires forall i, r | 0 <= i < |ss| && r in f(ss[i]) :: keyR(r) == keyS(ss[i])
    ensures forall r | r in Concat(ss, f) :: exists i | 0 <= i < |ss| :: keyR(r) == keyS(ss[i])
  {
    forall r | r in Concat(ss, f) ensures exists i | 0 <= i < |ss| :: keyR(r) == keyS(ss[i]) {
      ConcatMembers(ss, f, r);
      var i :| 0 <= i < |ss| && r in f(ss[i]);
    }
  }

  /** Elements with distinct keys, each yielding at most one item carrying
      its key, yield items with distinct keys. */
  lemma {:induction false} ConcatUniqueKeys<S(!new), R, K>(ss: seq<S>, f: S --> seq<R>, keyS: S -> K, keyR: R -> K)
    requires forall y :: f.requires(y)
    requires UniqueKeys(ss, keyS)
    requires forall i | 0 <= i < |ss| :: |f(ss[i])| <= 1
    requires forall i, r | 0 <= i < |ss| && r in f(ss[i]) :: keyR(r) == keyS(ss[i])
    ensures UniqueKeys(Concat(ss, f), keyR)
  {
    if ss != [] {
      var n := |ss|;
      var init := ss[..n - 1];
      assert forall i | 0 <= i < |init| :: init[i] == ss[i];
      ConcatUniqueKeys(init, f, keyS, keyR);
      ConcatKeys(init, f, keyS, keyR);
      var rest, last := Concat(init, f), f(ss[n - 1]);
      var all := rest + last;
      assert Concat(ss, f) == all;
      forall i, j | 0 <= i < j < |all| ensures keyR(all[i]) != keyR(all[j]) {
        if |rest| <= j {
          assert all[j] in last && all[i] in rest;
          var k :| 0 <= k < |init| && keyR(all[i]) == keyS(init[k]);
          assert keyS(ss[k]) != keyS(ss[n - 1]);
        } else {
          assert all[i] == rest[i] && all[j] == rest[j];
        }
      }
    }
  }

  // ---------------------------------------------------------------------
  // The dashboard

  /** The lines the loop collects from the students `ss`, in their order: one
      per student that has a report. */
  function ClassRows(t: Tables, ss: seq<Student>): seq<ClassRow>
    requires MaxMarksNonZero(t.marks)
  {
    Concat(ss, Lines(t))
  }

  function LineRoll(r: ClassRow): string { r.roll }

  function ByCgpaDescending(a: ClassRow, b: ClassRow): bool { a.cgpa >= b.cgpa }

  lemma {:induction false} ByCgpaDescendingIsTotalPreorder()
    ensures TotalPreorder(ByCgpaDescending)
  {
  }

  /** The loop of the dashboard: the line of every student of `students`
      that has a report, in the students' order. */
  method CollectLines(t: Tables, students: seq<Student>) returns (out: seq<ClassRow>)
    requires MaxMarksNonZero(t.marks)
    ensures out == ClassRows(t, students)
  {
    out := [];
    var i := 0;
    while i < |students|
      invariant 0 <= i <= |students|
      invariant out == ClassRows(t, students[..i])
    {
      ConcatSnoc(students, Lines(t), i);
      var result := ReportOf(t, students[i].id);
      if result.Some? {
        out := out + [ClassRowOf(result.value)];
      }
      i := i + 1;
    }
    assert students[..i] == students;
  }

  /** The class table: the lines of every student with a report, visited in
      roll order, then ordered by CGPA, highest first. Ties come in no
      promised order. */
  method RankAll(t: Tables) returns (ranking: seq<ClassRow>)
    requires MaxMarksNonZero(t.marks)
    ensures multiset(ranking) == multiset(ClassRows(t, StudentsByRoll(t.students)))
    ensures forall i, j | 0 <= i < j < |ranking| :: ranking[i].cgpa >= ranking[j].cgpa
  {
    var lines := CollectLines(t, StudentsByRoll(t.students));
    ByCgpaDescendingIsTotalPreorder();
    ranking := SortBy(lines, ByCgpaDescending);
  }

  /** A student's line is the summary of their report, and they have one
      exactly when they have a report. */
  lemma {:induction false} LineForMembers(t: Tables, s: Student, row: ClassRow)
    requires MaxMarksNonZero(t.marks)
    ensures row in LineFor(t, s) <==>
            ReportOf(t, s.id).Some? && row == ClassRowOf(ReportOf(t, s.id).value)
  {
  }

  /** The report of a stored student carries that student's roll. */
  lemma {:induction false} ReportRoll(t: Tables, s: Student)
    requires WellFormed(t) && MaxMarksNonZero(t.marks)
    requires s in t.students && ReportOf(t, s.id).Some?
    ensures ReportOf(t, s.id).value.summary.roll == s.roll
  {
    ReportAbsentIffNoMarks(t, s.id);
    var k :| 0 <= k < |t.students| && t.students[k] == s;
    var f := FirstIndex(t.students, StudentId, s.id);
    assert f.Some? && t.students[f.value].id == s.id;
    assert f.value == k;
  }

  /** A stored student has at most one line, and it carries their roll. */
  lemma {:induction false} LineRolls(t: Tables, s: Student)
    requires WellFormed(t) && MaxMarksNonZero(t.marks) && s in t.students
    ensures |Lines(t)(s)| <= 1
    ensures forall r | r in Lines(t)(s) :: LineRoll(r) == Roll(s)
  {
    if ReportOf(t, s.id).Some? {
      ReportRoll(t, s);
    }
  }

  /** The listing of a store's students holds stored students with distinct
      rolls. */
  lemma {:induction false} ListingIsStored(t: Tables)
    requires WellFormed(t)
    ensures forall i | 0 <= i < |StudentsByRoll(t.students)| :: StudentsByRoll(t.students)[i] in t.students
    ensures UniqueKeys(StudentsByRoll(t.students), Roll)
  {
    var ss := StudentsByRoll(t.students);
    forall i | 0 <= i < |ss| ensures ss[i] in t.students {
      assert ss[i] in multiset(ss);
    }
    UniqueKeysPermutation(t.students, ss, Roll);
  }

  /** The class table of a well-formed store has no roll twice: one line per
      student with a report. */
  lemma {:induction false} ClassTableRollsDistinct(t: Tables)
    requires WellFormed(t) && MaxMarksNonZero(t.marks)
    ensures UniqueKeys(ClassRows(t, StudentsByRoll(t.students)), LineRoll)
  {
    var ss := StudentsByRoll(t.students);
    ListingIsStored(t);
    forall i | 0 <= i < |ss|
      ensures |Lines(t)(ss[i])| <= 1
      ensures forall r | r in Lines(t)(ss[i]) :: LineRoll(r) == Roll(ss[i])
    {
      LineRolls(t, ss[i]);
    }
    ConcatUniqueKeys(ss, Lines(t), Roll, LineRoll);
  }

  /** The class table of a store holds exactly the lines of the stored
      students, whatever the order of the table (see `LineForMembers`). */
  lemma {:induction false} ClassTableMembers(t: Tables, row: ClassRow)
    requires MaxMarksNonZero(t.marks)
    ensures row in ClassRows(t, StudentsByRoll(t.students)) <==>
            exists k | 0 <= k < |t.students| :: row in LineFor(t, t.students[k])
  {
    var ss := StudentsByRoll(t.students);
    ConcatMembers(ss, Lines(t), row);
    ExistsInPermutation(ss, t.students, s => row in LineFor(t, s));
  }
}
