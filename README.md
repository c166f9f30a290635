# Digital Result Processor — verified model of the grading core

The repository is a small result-processing tool: it keeps students,
subjects and marks in three database tables, turns a student's marks into
percentages, letter grades and grade points, averages the grade points
weighted by subject credits (the CGPA), and ranks the class by CGPA. This
project models that core of `app.py` in Dafny and proves its properties:

- `Grades` — the fixed grade table (`grade_from_percent`): a total,
  first-match scale, highest threshold first, each band closed below.
- `Report` — the aggregation of `compute_student_report` over the joined
  rows of one student: percent, grade, credit points, total credits, total
  credit points and the CGPA (zero when there are no credits); no report at
  all when there are no rows.
- `Lookup` — the `SELECT ... WHERE key = ?` / `fetchone()` lookups, as a
  first-match function and a scanning method proved against it.
- `Sorting` — the text order of `ORDER BY` on a TEXT column (binary
  collation: code-point lexicographic, a prefix first), and an insertion sort
  by any total preorder (sorted and a permutation).
- `Store` — the three tables as sequences with AUTOINCREMENT counters in a
  `Store` class: `add_student`, `add_subject`, `add_marks` (lookup, then
  update-or-insert), the reset that drops and recreates the tables, the
  listings ordered by roll and by code, and the join the report reads. The
  invariant `Consistent` holds unique roll, unique code, unique row ids
  growing along each table below the next one handed out, marks referring to
  existing rows, and at most one mark per (student, subject) pair (which the
  schema itself does not enforce; `add_marks` keeps it when calls do not
  overlap, see "Left out").
- Each store operation is modelled as atomic and running alone.
- `Ranking` — the dashboard loop: students in roll order, those with a
  report kept, one line each, then ordered by CGPA, highest first.

Success and warning messages of the write operations are result values
(`AddOutcome`, `MarksOutcome`). Floats are Dafny `real`s.

## Model

| member | source | states |
|---|---|---|
| Grades.GradeFromPercent | app.py:59-67 | total on every real; the grade point is one of 0, 5, 6, 7, 8, 9, 10; F (0) exactly below 40; A+ (10) exactly from 90 up, above 100 included |
| Grades.GradeIsFirstMatch | app.py:59-67 | the chain of conditionals equals the first-match reading of the table 90/80/70/60/50/40 → A+/A/B+/B/C/D, else F |
| Grades.GradeInBand | app.py:61-66 | band k is earned exactly when p reaches its threshold and not the one above (closed below, open above) |
| Grades.GradeFails | app.py:66-67 | F exactly when p is below the lowest threshold, 40 |
| Grades.GradePointMonotone | app.py:61-67 | a higher percentage never earns a lower grade point |
| Report.Percent | app.py:84 | percent × max_marks = marks × 100 |
| Report.GradeRowOf | app.py:84-89 | a detail row copies the subject and the marks, has percent × max_marks = marks × 100, the grade and point of that percent, and credit points = credits × point |
| Report.GradeRows | app.py:84-89 | one detail row per joined row, in the same order, each graded on its own percentage |
| Report.Cgpa | app.py:93 | with positive total credits, cgpa × credits = credit points; otherwise 0 |
| Report.ComputeReport | app.py:80-100 | no report exactly when there are no rows; otherwise one detail row per joined row, each graded from its own marks as in GradeRowOf, and a summary with the first row's roll and name and the totals and CGPA of the detail rows |
| Report.WeightedSumBounds | app.py:89-92 | with non-negative credits and grade points in [lo, hi], lo × credits ≤ credit points ≤ hi × credits in total |
| Report.SumAtLeast | app.py:91-92 | when every row earns at least k credit points per credit, so does the total |
| Report.SumAtMost | app.py:91-92 | when every row earns at most k credit points per credit, so does the total |
| Report.CgpaBetween | app.py:91-93 | the CGPA is a weighted average: it lies between the lowest and the highest grade point |
| Report.CgpaInRange | app.py:89-93 | with non-negative credits the CGPA lies in [0, 10] |
| Report.TotalsWithout | app.py:91-92 | taking a row out takes its credits and credit points out of the totals |
| Report.TotalsIgnoreOrder | app.py:91-92 | any rearrangement of the detail rows has the same totals |
| Report.GradeRowsWithout | app.py:84-89 | grading commutes with taking a row out |
| Report.GradeRowsIgnoreOrder | app.py:84-89 | grading a rearrangement of the joined rows gives a rearrangement of the detail rows |
| Report.SummaryIgnoresRowOrder | app.py:71-100 | the summary (roll, name, totals, CGPA) is the same for every order in which the join, which has no ORDER BY, returns the student's rows |
| Report.WorkedExample | app.py:84-93 | 95/100 at 4 credits and 65/100 at 3 credits give A+ and B, 7 credits, 61 credit points and CGPA 61/7 |
| Sorting.StrLeReflexive | app.py:165 | every text is ordered before itself |
| Sorting.StrLeTotal | app.py:165 | any two rolls or codes are ordered one way or the other |
| Sorting.StrLeTransitive | app.py:165 | the text order is transitive |
| Sorting.StrLeAntisymmetric | app.py:165 | two texts each ordered before the other are equal |
| Sorting.SortBy | app.py:222 | the result is ordered by the given total preorder and is a permutation of the input |
| Sorting.ExistsInPermutation | app.py:211 | whether some row has a property does not depend on the row order |
| Lookup.FirstIndex | app.py:136-137 | the position found holds the key and no earlier row does; nothing is found exactly when no row holds the key |
| Lookup.Find | app.py:149-152 | the scan returns exactly the first row with the key, or nothing |
| Lookup.FirstIndexAppend | app.py:112 | appending rows does not change where an existing key is found |
| Store.UniqueKeysWithout | app.py:25 | removing a row keeps a key unique, and no remaining row has the removed row's key |
| Store.UniqueKeysPermutation | app.py:165 | a unique key stays unique in any reordering of the rows |
| Store.AppendStudentKeepsConsistent | app.py:108-118 | inserting a student with a new roll and the next id keeps every table constraint and the id order; the counter moves on by one |
| Store.AppendSubjectKeepsConsistent | app.py:120-130 | inserting a subject with a new code and the next id keeps every table constraint and the id order; the counter moves on by one |
| Store.UpsertSaves | app.py:148-157 | after saving, the pair has a mark holding exactly the new marks and max_marks; an existing mark keeps its id, a new one takes the fresh id |
| Store.UpsertFrame | app.py:148-157 | every other pair's mark is unchanged in place, and at most one row is added (none when the pair had a mark) |
| Store.UpsertKeepsKeys | app.py:148-157 | "at most one mark per (student, subject) pair" and unique mark ids are preserved |
| Store.UpsertKeepsIds | app.py:153-157 | mark ids stay increasing; the counter moves on only on insert |
| Store.UpsertKeepsReferences | app.py:136-157 | a mark written for a resolved student and subject keeps every mark referring to existing rows |
| Store.UpsertKeepsConsistent | app.py:132-157 | an upsert for existing rows keeps every table constraint and the id order |
| Store.UpsertIdempotent | app.py:148-157 | saving the same marks twice leaves the table as saving them once |
| Store.StudentsByRoll | app.py:163-167 | the students listing holds the table's rows, ordered by roll |
| Store.SubjectsByCode | app.py:169-173 | the subjects listing holds the table's rows, ordered by code |
| Store.SortedByUniqueKeyIsDetermined | app.py:165 | two orderings of the same rows by a unique text key are the same sequence |
| Store.SameFirst | app.py:165 | two such orderings start with the same row |
| Store.StudentListingIsDetermined | app.py:163-167 | the students listing is the one ordering of the table by roll |
| Store.SubjectListingIsDetermined | app.py:169-173 | the subjects listing is the one ordering of the table by code |
| Store.JoinRows | app.py:71-78 | every joined row is the student's and carries that student's roll and name; there are no more rows than marks; percentages are defined when every maximum is non-zero |
| Store.JoinIndices | app.py:74-76 | the positions, strictly increasing, of exactly the marks of the student whose student and subject rows both exist (every such mark is listed, and only such marks) |
| Store.JoinRowsContents | app.py:72-76 | the joined rows correspond one for one, in order, to those positions: row i holds the marks and max_marks of the mark at the i-th of those positions, and the code, title and credits of that mark's subject |
| Store.JoinKeepsEveryMark | app.py:74-76 | every mark of the student whose student and subject rows exist is copied by some joined row |
| Store.JoinEmptyIffNoMarks | app.py:72-81 | with referential integrity, the join is empty exactly when no mark belongs to the student |
| Store.ReportAbsentIffNoMarks | app.py:69-97 | a student has no report exactly when they have no marks; a report carries that student's roll and name |
| Store.Store.constructor | app.py:18-54 | a new database has empty tables, ids from 1, and satisfies the store invariant |
| Store.Store.AddStudent | app.py:108-118 | a duplicate roll is rejected and changes nothing; otherwise exactly one student with the next id is appended; the other tables are untouched; the invariant is kept |
| Store.Store.AddSubject | app.py:120-130 | a duplicate code is rejected and changes nothing; otherwise exactly one subject with the next id is appended; the other tables are untouched; the invariant is kept |
| Store.Store.AddMarks | app.py:132-161 | an unknown roll, then an unknown code, changes nothing; otherwise the marks table becomes the upsert for the resolved pair; students and subjects are untouched; the invariant is kept |
| Store.Store.SaveMark | app.py:146-157 | with the student and subject resolved, the marks table becomes the upsert for their pair and the counter moves on only on insert |
| Store.Store.Reset | app.py:331-338 | all three tables are empty and ids start again at 1 |
| Store.ResetThenAddStudent | app.py:331-338 | after a reset, a roll that existed before is added again without a duplicate error and gets id 1 |
| Ranking.CollectLines | app.py:210-220 | the loop collects exactly the lines of the visited students that have a report, in visiting order |
| Ranking.RankAll | app.py:209-222 | the class table is a permutation of the lines of the students with a report, taken in roll order, and is ordered by CGPA, highest first |
| Ranking.ConcatMembers | app.py:211-220 | a line is collected exactly when some visited student yields it |
| Ranking.ConcatUniqueKeys | app.py:211-220 | students with distinct rolls, each yielding at most one line with their roll, yield lines with distinct rolls |
| Ranking.LineForMembers | app.py:212-220 | a student's line is the summary of their report (roll, name, CGPA, total credits), and they have one exactly when they have a report |
| Ranking.ReportRoll | app.py:96 | the report of a stored student carries that student's roll |
| Ranking.LineRolls | app.py:212-220 | a stored student has at most one line, and it carries their roll |
| Ranking.ListingIsStored | app.py:163-167 | the roll-ordered listing holds stored students with distinct rolls |
| Ranking.ClassTableRollsDistinct | app.py:209-220 | the store's class table has no roll twice: one line per student with a report |
| Ranking.ClassTableMembers | app.py:209-220 | the store's class table holds exactly the lines of the stored students, whatever order the listing visits them in |

## Left out

- The Streamlit user interface (pages, forms, input trimming and emptiness checks, tables, messages, app.py:185-344): the messages of the write operations are the returned outcomes instead.
- The SQLite connection, SQL text, commits and durability (app.py:12-54): the tables are in-memory sequences; a failed insert leaves the AUTOINCREMENT counter unchanged, and a reset (which drops the tables and with them their counters) restarts ids at 1.
- pandas mechanics, the CSV download, the Excel export (`export_df_to_excel_bytes`, app.py:175-180) and the export page's join (app.py:296-325): foreign library calls and output formatting.
- The `generated_at` timestamp (app.py:101): it reads the clock.
- The reset confirmation: `st.confirm` (app.py:330) is not a Streamlit function, so the call raises AttributeError before any table is dropped, and the reset as written never clears anything. Store.Store.Reset and Store.ResetThenAddStudent model the clearing that app.py:331-338 intends.
- Store.Store.AddMarks: modelled as atomic and running alone, as is every store operation. In the source each call opens its own connection (app.py:133), and the check for an existing mark (app.py:149-152) and the INSERT (app.py:156) are separate statements with no lock between them. Streamlit serves each browser session in its own thread. So two overlapping calls for the same new (student, subject) pair can both insert, leaving two marks for the pair. The "at most one mark per pair" part of `Consistent` is proved for one call at a time only.
- The default arguments `program=""` and `max_marks=100`: every call passes all arguments.
- Report.ComputeReport: requires every maximum to be non-zero, because a zero maximum gives an infinite or undefined float percentage in the source; the input form keeps it at 1 or more (app.py:264).
- Report.ComputeReport: the summary's CGPA is the unrounded value; `round(cgpa, 2)` (app.py:100) and binary floating point are not modelled.
- Ranking.RankAll: orders by the unrounded CGPA, so two students whose CGPAs round to the same two decimals are tied in the source but may be strictly ordered here; and, like pandas' default sort, which is not stable, it promises nothing about the order of equal CGPAs: the loop visits students in roll order, and the sort need not keep that order among equal CGPAs.
- Store.JoinRows: the SQL join has no ORDER BY; the model returns rows in marks-table order, and Report.SummaryIgnoresRowOrder shows that the summary does not depend on that order.
- The foreign keys of the marks table are not enforced by SQLite by default; the model's referential-integrity invariant holds because `add_marks` only writes resolved ids and no row is ever deleted except by the reset.
- Subject credits: the form accepts any credits from 0 up (app.py:245) and `add_subject` accepts any number; the model accepts any real, and Report.CgpaInRange assumes non-negative credits.
