/** The record store: the students, subjects and marks tables, their key
    constraints, the three write operations and the reset, the ordered
    listings, and the join the report engine reads. */
module Store {
  import opened Optional
  import opened Lookup
  import opened Sorting
  import opened Report

  datatype Student = Student(id: int, roll: string, name: string, program: string)
  datatype Subject = Subject(id: int, code: string, title: string, credits: real)
  datatype Mark = Mark(id: int, studentId: int, subjectId: int, marks: real, maxMarks: real)

  /** The three tables at one moment, each in insertion order. */
  datatype Tables = Tables(students: seq<Student>, subjects: seq<Subject>, marks: seq<Mark>)

  /** What `add_student` and `add_subject` report back. */
  datatype AddOutcome = Added | DuplicateKey

  /** What `add_marks` reports back. */
  datatype MarksOutcome = MarksSaved | StudentNotFound | SubjectNotFound

  // Key columns, as functions a lookup can take.
  function StudentId(s: Student): int { s.id }
  function Roll(s: Student): string { s.roll }
  function SubjectId(s: Subject): int { s.id }
  function Code(s: Subject): string { s.code }
  function MarkId(m: Mark): int { m.id }
  function Pair(m: Mark): (int, int) { (m.studentId, m.subjectId) }

  /** Row identifiers grow along the table and stay below the next one to hand
      out (what AUTOINCREMENT guarantees). */
  predicate IdsIncreasing<T>(s: seq<T>, id: T -> int, next: int)
  {
    (forall i, j | 0 <= i < j < |s| :: id(s[i]) < id(s[j])) &&
    (forall i | 0 <= i < |s| :: id(s[i]) < next)
  }

  /** No two rows share a key. */
  predicate UniqueKeys<T, K(==)>(s: seq<T>, key: T -> K)
  {
    forall i, j | 0 <= i < j < |s| :: key(s[i]) != key(s[j])
  }

  /** Taking a row out keeps keys unique. */
  lemma {:induction false} UniqueKeysWithout<T, K>(s: seq<T>, key: T -> K, k: nat)
    requires UniqueKeys(s, key) && k < |s|
    ensures UniqueKeys(s[..k] + s[k + 1..], key)
    ensures forall x | x in multiset(s[..k] + s[k + 1..]) :: key(x) != key(s[k])
  {
    var s' := s[..k] + s[k + 1..];
    assert forall j | 0 <= j < |s'| :: s'[j] == if j < k then s[j] else s[j + 1];
    forall x | x in multiset(s') ensures key(x) != key(s[k]) {
      var j :| 0 <= j < |s'| && s'[j] == x;
    }
  }

  /** Unique keys do not depend on the order of the rows. */
  lemma {:induction false} UniqueKeysPermutation<T, K>(a: seq<T>, b: seq<T>, key: T -> K)
    requires multiset(a) == multiset(b) && UniqueKeys(a, key)
    ensures UniqueKeys(b, key)
  {
    if b != [] {
      var n := |b|;
      var y := b[n - 1];
      assert y in multiset(a);
      var k :| 0 <= k < |a| && a[k] == y;
      var a' := a[..k] + a[k + 1..];
      PermutationWithout(b, a, k);
      UniqueKeysWithout(a, key, k);
      UniqueKeysPermutation(a', b[..n - 1], key);
      forall i | 0 <= i < n - 1 ensures key(b[i]) != key(y) {
        assert b[..n - 1][i] in multiset(a');
      }
      forall i, j | 0 <= i < j < n ensures key(b[i]) != key(b[j]) {
        if j < n - 1 {
          assert b[..n - 1][i] == b[i] && b[..n - 1][j] == b[j];
        }
      }
    }
  }

  /** Every mark refers to a student and a subject that exist. */
  predicate MarksReferToRows(ss: seq<Student>, subs: seq<Subject>, ms: seq<Mark>)
  {
    forall i | 0 <= i < |ms| ::
      FirstIndex(ss, StudentId, ms[i].studentId).Some? &&
      FirstIndex(subs, SubjectId, ms[i].subjectId).Some?
  }

  /** The constraints of the three tables: unique ids, unique roll, unique code,
      marks that refer to existing rows, and at most one mark per
      (student, subject) pair. */
  predicate WellFormed(t: Tables)
  {
    UniqueKeys(t.students, StudentId) && UniqueKeys(t.students, Roll) &&
    UniqueKeys(t.subjects, SubjectId) && UniqueKeys(t.subjects, Code) &&
    UniqueKeys(t.marks, MarkId) && UniqueKeys(t.marks, Pair) &&
    MarksReferToRows(t.students, t.subjects, t.marks)
  }

  /** The store's invariant: the table constraints, and identifiers that
      grow along each table and stay below the one it hands out next. */
  predicate Consistent(t: Tables, nextStudent: int, nextSubject: int, nextMark: int)
  {
    WellFormed(t) &&
    IdsIncreasing(t.students, StudentId, nextStudent) &&
    IdsIncreasing(t.subjects, SubjectId, nextSubject) &&
    IdsIncreasing(t.marks, MarkId, nextMark)
  }

  /** Every mark has a non-zero maximum, so every percentage is defined. */
  predicate MaxMarksNonZero(ms: seq<Mark>)
  {
    forall i | 0 <= i < |ms| :: ms[i].maxMarks != 0.0
  }

  // ---------------------------------------------------------------------
  // Inserting a student or a subject

  /** Appending a student with a new roll and the next identifier keeps the
      store consistent, the identifier counter moving on by one. */
  lemma {:induction false} AppendStudentKeepsConsistent(t: Tables, s: Student, ns: int, nsub: int, nm: int)
    requires Consistent(t, ns, nsub, nm)
    requires s.id == ns && FirstIndex(t.students, Roll, s.roll).None?
    ensures Consistent(t.(students := t.students + [s]), ns + 1, nsub, nm)
  {
    var ss := t.students + [s];
    assert forall i | 0 <= i < |t.students| :: ss[i] == t.students[i];
    forall i | 0 <= i < |t.marks|
      ensures FirstIndex(ss, StudentId, t.marks[i].studentId).Some?
    {
      FirstIndexAppend(t.students, [s], StudentId, t.marks[i].studentId);
    }
  }

  /** Appending a subject with a new code and the next identifier keeps the
      store consistent, the identifier counter moving on by one. */
  lemma {:induction false} AppendSubjectKeepsConsistent(t: Tables, s: Subject, ns: int, nsub: int, nm: int)
    requires Consistent(t, ns, nsub, nm)
    requires s.id == nsub && FirstIndex(t.subjects, Code, s.code).None?
    ensures Consistent(t.(subjects := t.subjects + [s]), ns, nsub + 1, nm)
  {
    var subs := t.subjects + [s];
    assert forall i | 0 <= i < |t.subjects| :: subs[i] == t.subjects[i];
    forall i | 0 <= i < |t.marks|
      ensures FirstIndex(subs, SubjectId, t.marks[i].subjectId).Some?
    {
      FirstIndexAppend(t.subjects, [s], SubjectId, t.marks[i].subjectId);
    }
  }

  // ---------------------------------------------------------------------
  // The upsert of a mark

  /** The marks table after saving `mk` out of `mx` for the pair
      (`sid`, `subid`): the pair's mark is overwritten in place if there is
      one, otherwise a new mark with identifier `freshId` is appended. */
  function Upsert(ms: seq<Mark>, sid: int, subid: int, mk: real, mx: real, freshId: int): seq<Mark>
  {
    match FirstIndex(ms, Pair, (sid, subid))
    case Some(k) => ms[k := ms[k].(marks := mk, maxMarks := mx)]
    case None => ms + [Mark(freshId, sid, subid, mk, mx)]
  }

  /** After the upsert the pair has a mark holding exactly the saved values;
      an existing mark keeps its identifier and position, and a new one takes
      the fresh identifier. */
  lemma {:induction false} UpsertSaves(ms: seq<Mark>, sid: int, subid: int, mk: real, mx: real, freshId: int)
    ensures var r := Upsert(ms, sid, subid, mk, mx, freshId);
            var k := FirstIndex(r, Pair, (sid, subid));
            k.Some? && r[k.value].marks == mk && r[k.value].maxMarks == mx &&
            r[k.value].id == (if FirstIndex(ms, Pair, (sid, subid)).Some? then ms[k.value].id else freshId)
  {
    var r := Upsert(ms, sid, subid, mk, mx, freshId);
    match FirstIndex(ms, Pair, (sid, subid))
    case Some(k) =>
      assert Pair(r[k]) == (sid, subid);
      assert forall j | 0 <= j < k :: r[j] == ms[j];
    case None =>
      assert Pair(r[|ms|]) == (sid, subid);
      assert forall j | 0 <= j < |ms| :: r[j] == ms[j];
  }

  /** The upsert leaves every other pair's mark as it was, where it was, and
      adds at most one row. */
  lemma {:induction false} UpsertFrame(ms: seq<Mark>, sid: int, subid: int, mk: real, mx: real, freshId: int)
    ensures var r := Upsert(ms, sid, subid, mk, mx, freshId);
            |r| == |ms| + (if FirstIndex(ms, Pair, (sid, subid)).Some? then 0 else 1) &&
            forall i | 0 <= i < |ms| :: Pair(ms[i]) != (sid, subid) ==> r[i] == ms[i]
  {
  }

  /** The upsert keeps "at most one mark per pair", and keeps mark identifiers
      unique when the fresh one is above all of them. */
  lemma {:induction false} UpsertKeepsKeys(ms: seq<Mark>, sid: int, subid: int, mk: real, mx: real, freshId: int)
    requires UniqueKeys(ms, Pair) && UniqueKeys(ms, MarkId)
    requires forall i | 0 <= i < |ms| :: ms[i].id < freshId
    ensures UniqueKeys(Upsert(ms, sid, subid, mk, mx, freshId), Pair)
    ensures UniqueKeys(Upsert(ms, sid, subid, mk, mx, freshId), MarkId)
  {
    var r := Upsert(ms, sid, subid, mk, mx, freshId);
    match FirstIndex(ms, Pair, (sid, subid))
    case Some(k) =>
      assert forall i | 0 <= i < |ms| :: Pair(r[i]) == Pair(ms[i]) && MarkId(r[i]) == MarkId(ms[i]);
    case None =>
      assert forall i | 0 <= i < |ms| :: r[i] == ms[i];
  }

  /** The upsert keeps identifiers increasing, handing out the fresh one
      only when it inserts. */
  lemma {:induction false} UpsertKeepsIds(ms: seq<Mark>, sid: int, subid: int, mk: real, mx: real, next: int)
    requires IdsIncreasing(ms, MarkId, next)
    ensures IdsIncreasing(Upsert(ms, sid, subid, mk, mx, next), MarkId,
                          next + (if FirstIndex(ms, Pair, (sid, subid)).Some? then 0 else 1))
  {
    var r := Upsert(ms, sid, subid, mk, mx, next);
    match FirstIndex(ms, Pair, (sid, subid))
    case Some(k) =>
      assert forall i | 0 <= i < |ms| :: MarkId(r[i]) == MarkId(ms[i]);
    case None =>
      assert forall i | 0 <= i < |ms| :: r[i] == ms[i];
  }

  /** An upsert for an existing student and subject keeps every mark
      referring to existing rows. */
  lemma {:induction false} UpsertKeepsReferences(ss: seq<Student>, subs: seq<Subject>, ms: seq<Mark>,
                                                 sid: int, subid: int, mk: real, mx: real, freshId: int)
    requires MarksReferToRows(ss, subs, ms)
    requires FirstIndex(ss, StudentId, sid).Some? && FirstIndex(subs, SubjectId, subid).Some?
    ensures MarksReferToRows(ss, subs, Upsert(ms, sid, subid, mk, mx, freshId))
  {
    var r := Upsert(ms, sid, subid, mk, mx, freshId);
    match FirstIndex(ms, Pair, (sid, subid))
    case Some(k) =>
      assert forall i | 0 <= i < |ms| :: Pair(r[i]) == Pair(ms[i]);
    case None =>
      assert forall i | 0 <= i < |ms| :: r[i] == ms[i];
  }

  /** An upsert for an existing student and subject keeps the store
      consistent; the mark counter moves on only when a mark is inserted. */
  lemma {:induction false} UpsertKeepsConsistent(t: Tables, sid: int, subid: int, mk: real, mx: real,
                                                 ns: int, nsub: int, nm: int)
    requires Consistent(t, ns, nsub, nm)
    requires FirstIndex(t.students, StudentId, sid).Some? && FirstIndex(t.subjects, SubjectId, subid).Some?
    ensures Consistent(t.(marks := Upsert(t.marks, sid, subid, mk, mx, nm)), ns, nsub,
                       nm + (if FirstIndex(t.marks, Pair, (sid, subid)).Some? then 0 else 1))
  {
    UpsertKeepsKeys(t.marks, sid, subid, mk, mx, nm);
    UpsertKeepsIds(t.marks, sid, subid, mk, mx, nm);
    UpsertKeepsReferences(t.students, t.subjects, t.marks, sid, subid, mk, mx, nm);
  }

  /** Saving the same marks twice is the same as saving them once. */
  lemma {:induction false} UpsertIdempotent(ms: seq<Mark>, sid: int, subid: int, mk: real, mx: real, id1: int, id2: int)
    ensures var once := Upsert(ms, sid, subid, mk, mx, id1);
            Upsert(once, sid, subid, mk, mx, id2) == once
  {
    var once := Upsert(ms, sid, subid, mk, mx, id1);
    UpsertSaves(ms, sid, subid, mk, mx, id1);
    var k := FirstIndex(once, Pair, (sid, subid)).value;
    assert once[k].(marks := mk, maxMarks := mx) == once[k];
  }

  // ---------------------------------------------------------------------
  // Listings

  function ByRoll(a: Student, b: Student): bool { StrLe(a.roll, b.roll) }
  function ByCode(a: Subject, b: Subject): bool { StrLe(a.code, b.code) }

  lemma {:induction false} ByRollIsTotalPreorder()
    ensures TotalPreorder(ByRoll)
  {
    forall a: Student, b: Student ensures ByRoll(a, b) || ByRoll(b, a) {
      StrLeTotal(a.roll, b.roll);
    }
    forall a: Student, b: Student, c: Student | ByRoll(a, b) && ByRoll(b, c) ensures ByRoll(a, c) {
      StrLeTransitive(a.roll, b.roll, c.roll);
    }
  }

  lemma {:induction false} ByCodeIsTotalPreorder()
    ensures TotalPreorder(ByCode)
  {
    forall a: Subject, b: Subject ensures ByCode(a, b) || ByCode(b, a) {
      StrLeTotal(a.code, b.code);
    }
    forall a: Subject, b: Subject, c: Subject | ByCode(a, b) && ByCode(b, c) ensures ByCode(a, c) {
      StrLeTransitive(a.code, b.code, c.code);
    }
  }

  /** The students table ordered by roll: the same rows, in roll order. */
  function StudentsByRoll(ss: seq<Student>): (r: seq<Student>)
    ensures multiset(r) == multiset(ss)
    ensures forall i, j | 0 <= i < j < |r| :: StrLe(r[i].roll, r[j].roll)
  {
    ByRollIsTotalPreorder();
    SortBy(ss, ByRoll)
  }

  /** The subjects table ordered by code: the same rows, in code order. */
  function SubjectsByCode(subs: seq<Subject>): (r: seq<Subject>)
    ensures multiset(r) == multiset(subs)
    ensures forall i, j | 0 <= i < j < |r| :: StrLe(r[i].code, r[j].code)
  {
    ByCodeIsTotalPreorder();
    SortBy(subs, ByCode)
  }

  /** Ordering by a unique text key leaves no choice: two orderings of the
      same rows by that key are the same sequence. */
  lemma {:induction false} SortedByUniqueKeyIsDetermined<T>(a: seq<T>, b: seq<T>, key: T -> string)
    requires multiset(a) == multiset(b) && UniqueKeys(a, key)
    requires forall i, j | 0 <= i < j < |a| :: StrLe(key(a[i]), key(a[j]))
    requires forall i, j | 0 <= i < j < |b| :: StrLe(key(b[i]), key(b[j]))
    ensures a == b
  {
    if a == [] {
      assert |b| == |multiset(b)| == 0;
    } else {
      assert |b| == |multiset(b)| == |a|;
      SameFirst(a, b, key);
      SameTails(a, b);
      TailKeys(a, key);
      TailKeys(b, key);
      SortedByUniqueKeyIsDetermined(a[1..], b[1..], key);
      assert a == [a[0]] + a[1..] && b == [b[0]] + b[1..];
    }
  }

  /** Two permutations of each other that start alike continue alike. */
  lemma {:induction false} SameTails<T>(a: seq<T>, b: seq<T>)
    requires multiset(a) == multiset(b) && a != [] && b != [] && a[0] == b[0]
    ensures multiset(a[1..]) == multiset(b[1..])
  {
    assert a == [a[0]] + a[1..] && b == [b[0]] + b[1..];
    assert multiset(a[1..]) == multiset(a) - multiset{a[0]};
    assert multiset(b[1..]) == multiset(b) - multiset{b[0]};
  }

  /** The rest of a sequence ordered by a key is ordered by it, and keeps its
      keys unique. */
  lemma {:induction false} TailKeys<T>(a: seq<T>, key: T -> string)
    requires a != []
    requires forall i, j | 0 <= i < j < |a| :: StrLe(key(a[i]), key(a[j]))
    ensures forall i, j | 0 <= i < j < |a[1..]| :: StrLe(key(a[1..][i]), key(a[1..][j]))
    ensures UniqueKeys(a, key) ==> UniqueKeys(a[1..], key)
  {
    assert forall i | 0 <= i < |a| - 1 :: a[1..][i] == a[i + 1];
  }

  /** Two orderings of the same non-empty rows by a unique key start alike. */
  lemma {:induction false} SameFirst<T>(a: seq<T>, b: seq<T>, key: T -> string)
    requires multiset(a) == multiset(b) && UniqueKeys(a, key) && a != []
    requires forall i, j | 0 <= i < j < |a| :: StrLe(key(a[i]), key(a[j]))
    requires forall i, j | 0 <= i < j < |b| :: StrLe(key(b[i]), key(b[j]))
    ensures b != [] && a[0] == b[0]
  {
    assert a[0] in multiset(b);
    var q :| 0 <= q < |b| && b[q] == a[0];
    assert b[0] in multiset(a);
    var p :| 0 <= p < |a| && a[p] == b[0];
    if q > 0 { assert StrLe(key(b[0]), key(a[0])); } else { StrLeReflexive(key(b[0])); }
    if p > 0 { assert StrLe(key(a[0]), key(b[0])); } else { StrLeReflexive(key(a[0])); }
    StrLeAntisymmetric(key(a[0]), key(b[0]));
  }

  /** The students listing is the only ordering of the table by roll. */
  lemma {:induction false} StudentListingIsDetermined(ss: seq<Student>, other: seq<Student>)
    requires UniqueKeys(ss, Roll) && multiset(other) == multiset(ss)
    requires forall i, j | 0 <= i < j < |other| :: StrLe(other[i].roll, other[j].roll)
    ensures other == StudentsByRoll(ss)
  {
    var r := StudentsByRoll(ss);
    UniqueKeysPermutation(ss, r, Roll);
    SortedByUniqueKeyIsDetermined(r, other, Roll);
  }

  /** The subjects listing is the only ordering of the table by code. */
  lemma {:induction false} SubjectListingIsDetermined(subs: seq<Subject>, other: seq<Subject>)
    requires UniqueKeys(subs, Code) && multiset(other) == multiset(subs)
    requires forall i, j | 0 <= i < j < |other| :: StrLe(other[i].code, other[j].code)
    ensures other == SubjectsByCode(subs)
  {
    var r := SubjectsByCode(subs);
    UniqueKeysPermutation(subs, r, Code);
    SortedByUniqueKeyIsDetermined(r, other, Code);
  }

  // ---------------------------------------------------------------------
  // The join read by the report engine

  /** `row` belongs to student `sid` and carries the roll and name of that
      student's row in `ss`. */
  predicate OfStudent(ss: seq<Student>, sid: int, row: JoinedRow)
  {
    row.studentId == sid &&
    match FirstIndex(ss, StudentId, sid)
    case None => false
    case Some(k) => row.roll == ss[k].roll && row.name == ss[k].name
  }

  /** The joined rows of student `sid`: one per mark of that student whose
      student and subject rows exist, in marks-table order. */
  function JoinRows(ss: seq<Student>, subs: seq<Subject>, ms: seq<Mark>, sid: int): (rows: seq<JoinedRow>)
    ensures forall i | 0 <= i < |rows| :: OfStudent(ss, sid, rows[i])
    ensures |rows| <= |ms|
    ensures MaxMarksNonZero(ms) ==> PercentDefined(rows)
  {
    if ms == [] then []
    else
      var rest := JoinRows(ss, subs, ms[..|ms| - 1], sid);
      var m := ms[|ms| - 1];
      var si := FirstIndex(ss, StudentId, m.studentId);
      var ci := FirstIndex(subs, SubjectId, m.subjectId);
      if m.studentId == sid && si.Some? && ci.Some? then
        var s, sub := ss[si.value], subs[ci.value];
        rest + [JoinedRow(s.id, s.roll, s.name, sub.code, sub.title, sub.credits, m.marks, m.maxMarks)]
      else rest
  }

  /** Mark `m` is one of student `sid`'s and both rows it refers to exist:
      the join of the report query keeps it. */
  predicate Joins(ss: seq<Student>, subs: seq<Subject>, m: Mark, sid: int)
  {
    m.studentId == sid &&
    FirstIndex(ss, StudentId, m.studentId).Some? &&
    FirstIndex(subs, SubjectId, m.subjectId).Some?
  }

  /** `row` holds the marks and maximum of mark `m` and the code, title and
      credits of the subject `m` refers to. */
  predicate CopiesMark(subs: seq<Subject>, m: Mark, row: JoinedRow)
  {
    row.studentId == m.studentId && row.marks == m.marks && row.maxMarks == m.maxMarks &&
    match FirstIndex(subs, SubjectId, m.subjectId)
    case None => false
    case Some(c) => row.code == subs[c].code && row.title == subs[c].title && row.credits == subs[c].credits
  }

  /** The positions, in increasing order, of the marks the join keeps. */
  function JoinIndices(ss: seq<Student>, subs: seq<Subject>, ms: seq<Mark>, sid: int): (idx: seq<nat>)
    ensures forall i | 0 <= i < |idx| :: idx[i] < |ms| && Joins(ss, subs, ms[idx[i]], sid)
    ensures forall i, k | 0 <= i < k < |idx| :: idx[i] < idx[k]
    ensures forall j | 0 <= j < |ms| && Joins(ss, subs, ms[j], sid) :: j in idx
  {
    if ms == [] then []
    else
      var n := |ms| - 1;
      var init := ms[..n];
      assert forall j | 0 <= j < n :: init[j] == ms[j];
      var rest := JoinIndices(ss, subs, init, sid);
      if Joins(ss, subs, ms[n], sid) then rest + [n] else rest
  }

  /** The joined rows of `sid` are, one for one and in order, the marks the
      join keeps: row i copies the student's roll and name, mark
      `JoinIndices(..)[i]`'s marks and maximum, and its subject's fields. */
  lemma {:induction false} JoinRowsContents(ss: seq<Student>, subs: seq<Subject>, ms: seq<Mark>, sid: int)
    ensures |JoinRows(ss, subs, ms, sid)| == |JoinIndices(ss, subs, ms, sid)|
    ensures forall i | 0 <= i < |JoinRows(ss, subs, ms, sid)| ::
              CopiesMark(subs, ms[JoinIndices(ss, subs, ms, sid)[i]], JoinRows(ss, subs, ms, sid)[i])
  {
    if ms != [] {
      var n := |ms| - 1;
      var init := ms[..n];
      assert forall j | 0 <= j < n :: init[j] == ms[j];
      JoinRowsContents(ss, subs, init, sid);
    }
  }

  /** Every mark of `sid` whose student and subject rows exist is copied by
      some joined row. */
  lemma {:induction false} JoinKeepsEveryMark(ss: seq<Student>, subs: seq<Subject>, ms: seq<Mark>, sid: int, j: nat)
    requires j < |ms| && Joins(ss, subs, ms[j], sid)
    ensures exists i | 0 <= i < |JoinRows(ss, subs, ms, sid)| :: CopiesMark(subs, ms[j], JoinRows(ss, subs, ms, sid)[i])
  {
    JoinRowsContents(ss, subs, ms, sid);
    var rows, idx := JoinRows(ss, subs, ms, sid), JoinIndices(ss, subs, ms, sid);
    var i :| 0 <= i < |idx| && idx[i] == j;
    assert CopiesMark(subs, ms[idx[i]], rows[i]);
  }

  /** The report of student `sid` over the tables `t`. */
  function ReportOf(t: Tables, sid: int): Option<StudentReport>
    requires MaxMarksNonZero(t.marks)
  {
    ComputeReport(JoinRows(t.students, t.subjects, t.marks, sid))
  }

  /** When every mark refers to existing rows, a student has joined rows
      exactly when some mark is theirs. */
  lemma {:induction false} JoinEmptyIffNoMarks(ss: seq<Student>, subs: seq<Subject>, ms: seq<Mark>, sid: int)
    requires MarksReferToRows(ss, subs, ms)
    ensures JoinRows(ss, subs, ms, sid) == [] <==> forall i | 0 <= i < |ms| :: ms[i].studentId != sid
  {
    if ms != [] {
      var init := ms[..|ms| - 1];
      assert MarksReferToRows(ss, subs, init) by {
        assert forall i | 0 <= i < |init| :: init[i] == ms[i];
      }
      JoinEmptyIffNoMarks(ss, subs, init, sid);
      assert forall i | 0 <= i < |init| :: init[i] == ms[i];
    }
  }

  /** A student has no report exactly when no mark is theirs; the report
      otherwise carries that student's roll and name. */
  lemma {:induction false} ReportAbsentIffNoMarks(t: Tables, sid: int)
    requires WellFormed(t) && MaxMarksNonZero(t.marks)
    ensures ReportOf(t, sid).None? <==> forall i | 0 <= i < |t.marks| :: t.marks[i].studentId != sid
    ensures ReportOf(t, sid).Some? ==>
              var k := FirstIndex(t.students, StudentId, sid);
              k.Some? && ReportOf(t, sid).value.summary.roll == t.students[k.value].roll &&
              ReportOf(t, sid).value.summary.name == t.students[k.value].name
  {
    JoinEmptyIffNoMarks(t.students, t.subjects, t.marks, sid);
  }

  // ---------------------------------------------------------------------
  // The store

  /** The database: three tables and the identifier each hands out next. */
  class Store {
    var students: seq<Student>
    var subjects: seq<Subject>
    var marks: seq<Mark>
    var nextStudentId: int
    var nextSubjectId: int
    var nextMarkId: int

    function Snapshot(): Tables
      reads this
    {
      Tables(students, subjects, marks)
    }

    ghost predicate Valid()
      reads this
    {
      Consistent(Snapshot(), nextStudentId, nextSubjectId, nextMarkId)
    }

    /** A fresh database: empty tables, identifiers starting at 1. */
    constructor ()
      ensures Valid()
      ensures Snapshot() == Tables([], [], [])
      ensures nextStudentId == 1 && nextSubjectId == 1 && nextMarkId == 1
    {
      students, subjects, marks := [], [], [];
      nextStudentId, nextSubjectId, nextMarkId := 1, 1, 1;
    }

    /** Insert a student; a roll already present is rejected and nothing
        changes, so the existing row keeps its name. */
    method AddStudent(roll: string, name: string, program: string) returns (outcome: AddOutcome)
      requires Valid()
      modifies this
      ensures Valid()
      ensures outcome == DuplicateKey <==> FirstIndex(old(students), Roll, roll).Some?
      ensures outcome == DuplicateKey ==>
                students == old(students) && nextStudentId == old(nextStudentId)
      ensures outcome == Added ==>
                students == old(students) + [Student(old(nextStudentId), roll, name, program)] &&
                nextStudentId == old(nextStudentId) + 1
      ensures subjects == old(subjects) && marks == old(marks)
      ensures nextSubjectId == old(nextSubjectId) && nextMarkId == old(nextMarkId)
    {
      var existing := Find(students, Roll, roll);
      if existing.Some? {
        return DuplicateKey;
      }
      var s := Student(nextStudentId, roll, name, program);
      ghost var t := Snapshot();
      AppendStudentKeepsConsistent(t, s, nextStudentId, nextSubjectId, nextMarkId);
      students := students + [s];
      nextStudentId := nextStudentId + 1;
      assert Snapshot() == t.(students := t.students + [s]);
      outcome := Added;
    }

    /** Insert a subject; a code already present is rejected and nothing
        changes, so the existing row keeps its title and credits. */
    method AddSubject(code: string, title: string, credits: real) returns (outcome: AddOutcome)
      requires Valid()
      modifies this
      ensures Valid()
      ensures outcome == DuplicateKey <==> FirstIndex(old(subjects), Code, code).Some?
      ensures outcome == DuplicateKey ==>
                subjects == old(subjects) && nextSubjectId == old(nextSubjectId)
      ensures outcome == Added ==>
                subjects == old(subjects) + [Subject(old(nextSubjectId), code, title, credits)] &&
                nextSubjectId == old(nextSubjectId) + 1
      ensures students == old(students) && marks == old(marks)
      ensures nextStudentId == old(nextStudentId) && nextMarkId == old(nextMarkId)
    {
      var existing := Find(subjects, Code, code);
      if existing.Some? {
        return DuplicateKey;
      }
      var s := Subject(nextSubjectId, code, title, credits);
      ghost var t := Snapshot();
      AppendSubjectKeepsConsistent(t, s, nextStudentId, nextSubjectId, nextMarkId);
      subjects := subjects + [s];
      nextSubjectId := nextSubjectId + 1;
      assert Snapshot() == t.(subjects := t.subjects + [s]);
      outcome := Added;
    }

    /** Save `mk` out of `mx` for the student with roll `roll` in the subject
        with code `code`: nothing changes unless both exist; then the pair's
        mark is upserted. */
    method AddMarks(roll: string, code: string, mk: real, mx: real) returns (outcome: MarksOutcome)
      requires Valid()
      modifies this
      ensures Valid()
      ensures students == old(students) && subjects == old(subjects)
      ensures nextStudentId == old(nextStudentId) && nextSubjectId == old(nextSubjectId)
      ensures outcome == StudentNotFound <==> FirstIndex(old(students), Roll, roll).None?
      ensures outcome == SubjectNotFound <==>
                FirstIndex(old(students), Roll, roll).Some? && FirstIndex(old(subjects), Code, code).None?
      ensures outcome != MarksSaved ==> marks == old(marks) && nextMarkId == old(nextMarkId)
      ensures outcome == MarksSaved ==>
                var sid := old(students)[FirstIndex(old(students), Roll, roll).value].id;
                var subid := old(subjects)[FirstIndex(old(subjects), Code, code).value].id;
                marks == Upsert(old(marks), sid, subid, mk, mx, old(nextMarkId)) &&
                nextMarkId == old(nextMarkId) + (if FirstIndex(old(marks), Pair, (sid, subid)).Some? then 0 else 1)
    {
      var s := Find(students, Roll, roll);
      if s.None? {
        return StudentNotFound;
      }
      var sub := Find(subjects, Code, code);
      if sub.None? {
        return SubjectNotFound;
      }
      SaveMark(s.value, sub.value, mk, mx);
      outcome := MarksSaved;
    }

    /** The write of `add_marks` once the student row `si` and the subject
        row `ci` are resolved: update the pair's mark in place, or insert a
        new one with the next identifier. */
    method SaveMark(si: nat, ci: nat, mk: real, mx: real)
      requires Valid() && si < |students| && ci < |subjects|
      modifies this
      ensures Valid()
      ensures students == old(students) && subjects == old(subjects)
      ensures nextStudentId == old(nextStudentId) && nextSubjectId == old(nextSubjectId)
      ensures var sid, subid := students[si].id, subjects[ci].id;
              marks == Upsert(old(marks), sid, subid, mk, mx, old(nextMarkId)) &&
              nextMarkId == old(nextMarkId) + (if FirstIndex(old(marks), Pair, (sid, subid)).Some? then 0 else 1)
    {
      var sid, subid := students[si].id, subjects[ci].id;
      assert FirstIndex(students, StudentId, sid).Some?;
      assert FirstIndex(subjects, SubjectId, subid).Some?;
      var existing := Find(marks, Pair, (sid, subid));
      ghost var t := Snapshot();
      ghost var updated := Upsert(marks, sid, subid, mk, mx, nextMarkId);
      ghost var next := nextMarkId + (if existing.Some? then 0 else 1);
      UpsertKeepsConsistent(t, sid, subid, mk, mx, nextStudentId, nextSubjectId, nextMarkId);
      if existing.Some? {
        var k := existing.value;
        marks := marks[k := marks[k].(marks := mk, maxMarks := mx)];
      } else {
        marks := marks + [Mark(nextMarkId, sid, subid, mk, mx)];
        nextMarkId := nextMarkId + 1;
      }
      assert marks == updated && nextMarkId == next;
      assert Snapshot() == t.(marks := updated);
    }

    /** Drop and recreate the three tables: everything is gone and the
        identifiers start again at 1. */
    method Reset()
      modifies this
      ensures Valid()
      ensures Snapshot() == Tables([], [], [])
      ensures nextStudentId == 1 && nextSubjectId == 1 && nextMarkId == 1
    {
      marks := [];
      subjects := [];
      students := [];
      nextStudentId, nextSubjectId, nextMarkId := 1, 1, 1;
    }
  }

  /** After a reset a roll that existed before can be added again. */
  method ResetThenAddStudent(store: Store, roll: string, name: string, program: string)
    returns (outcome: AddOutcome)
    requires store.Valid()
    modifies store
    ensures outcome == Added
    ensures store.Valid() && store.students == [Student(1, roll, name, program)]
  {
    store.Reset();
    outcome := store.AddStudent(roll, name, program);
  }
}
