# Academic records: a verified model

This project models the core of a small academic-records keeper, written in Python. The keeper holds:

- students, each with a unique e-mail address;
- courses, each with a unique upper-case code and a number of credits;
- enrollments, which pair one student with one course;
- grades, each a score for one student in one course.

The model is written in Dafny and has three parts:

- **Grade rules**, in module `Rules`:
  - the letter grade of a score;
  - the grade-point table;
  - the e-mail shape check.
- **The GPA engine**, in module `Gpa`:
  - a credit-weighted mean of grade points;
  - the report's standing label, which is good standing from 2.0 upwards.
- **The store**, in module `Records`, class `Store`.
  - Its six changing operations are add student, create course, enroll, record grade, update student and delete student.
  - Its two read-only operations are the GPA and the student report.
  - Every operation checks its conditions in the source's order. On failure it reports a distinguishable `Error` and leaves the store exactly as it was. On success it makes exactly one change: a new row, a new pair, an appended grade, one rewritten row, or a delete that cascades.
  - A class invariant `Valid()` holds the constraints that the schema and the operations keep together. The schema supplies primary keys, required columns, and unique e-mails and codes. The operations' own checks, and the ORM's delete, keep everything else: non-empty texts, upper-case codes, the e-mail shape, the score range, enrollments and grades that name existing rows, and the rule that a grade needs an enrollment. The foreign-key clauses are not among the schema's constraints, because SQLite ignores them unless foreign keys are switched on, and the engine at lib/models/__init__.py:7 does not switch them on:
    - keys match ids;
    - required texts are non-empty;
    - e-mails are unique;
    - codes are unique and upper-case;
    - every enrollment names an existing student and course;
    - every grade belongs to an enrollment, has a score in [0, 100], and has an id no other grade has.

  Every changing operation preserves `Valid()`.

Helper modules:

- `Text` models the Python built-ins the operations rely on, on ASCII text:
  - `str.upper()` and `str.lower()`;
  - `int()` on a decimal text, with an optional sign and single underscores between digits;
  - `str()` of an integer.
- `Entities` holds the three record types and the error type.
- `Wrappers` holds `Option`, `Result` and `Outcome`.
- `Scenarios` runs short sessions against a fresh store. For example, the first enrollment of a pair succeeds and the second is refused. These sessions show what the contracts add up to over several calls.

The operations take the texts the user typed, already stripped of surrounding blanks, except the delete confirmation. That answer is taken raw, as typed, because `delete_student` only lower-cases it: ` y` cancels the delete. The ids and credits are parsed by the model of `int()`. The score arrives as `Option<real>`: `None` is a text that `float()` rejects or that reads as NaN or infinity.

The model follows the code in these places:

- `calculate_gpa` answers 0.0 not only when the total credits are zero, but whenever they are not positive. The code tests `total_credits > 0`.
- Credits may be any integer the database can store (64 bits), including 0 and negative ones.
- The relationships in lib/models/student.py:17 and lib/models/course.py:15 name `enrollments`, which those files never import. The model follows the evident intent: both views read the association table at lib/models/__init__.py:12-18.
- `update_student` keeps a field's current value when the answer is blank.
- The delete runs only on a confirmation that lower-cases to exactly `y`.
- Two grades in the same course count that course's credits twice.

## Model

| member | source | states |
|---|---|---|
| Rules.LetterGrade | lib/helpers.py:20-31 | each letter holds exactly on its band: A from 90, B on [80, 90), C on [70, 80), D on [60, 70), F below 60; lower bounds inclusive, total over all scores |
| Rules.GradePoints | lib/helpers.py:45 | the points of a letter lie on the 0 to 4 scale |
| Rules.LetterGradeMonotone | lib/helpers.py:20-31 | a lower score never earns more grade points than a higher one |
| Rules.GradePointsInjective | lib/helpers.py:45 | distinct letters are worth distinct points |
| Rules.BandBoundaries | lib/helpers.py:22-31 | 90, 80, 70, 60 get A, B, C, D, and the scores just below them get the next letter down |
| Rules.ValidEmail | lib/helpers.py:52-54 | an address is accepted iff it holds an '@' at some index and a '.' at some index, so it has at least two characters |
| Gpa.WeightedGpa | lib/helpers.py:34-49 | 0.0 for no grades and whenever total credits are not positive; otherwise the GPA times the total credits is the total of points times credits |
| Gpa.GpaInRange | lib/helpers.py:43-49 | with no negative credits the GPA lies in [0, 4] |
| Gpa.GpaIgnoresOrder | lib/helpers.py:43-49 | any arrangement of the same GPA entries gives the same GPA |
| Records.EntriesAppend | lib/helpers.py:43-47 | the entries of two joined grade lists are the entries of each list, joined |
| Records.EntriesMultiset | lib/helpers.py:43-47 | any arrangement of the same grades has the same entries, arranged alike |
| Records.LastEntryOut | lib/helpers.py:43-47 | taking the last grade off takes exactly its entry off the entries |
| Records.EntryOutAt | lib/helpers.py:43-47 | taking out the grade at one position takes exactly its entry out of the entries |
| Records.Store.GpaIgnoresGradeOrder | lib/helpers.py:36-49 | whatever order the unordered query returns a student's grades in, the GPA is the same |
| Gpa.TotalsIgnoreOrder | lib/helpers.py:43-47 | equal multisets of grades have equal point and credit totals |
| Gpa.TotalsWithout | lib/helpers.py:43-47 | taking one grade out removes exactly its weighted points and its credits from the totals |
| Gpa.PointsBetween | lib/helpers.py:43-47 | when every grade earns between lo and hi points, the weighted total lies between lo and hi times the credits |
| Gpa.PositiveCredits | lib/helpers.py:47-49 | grades in courses with credits give a positive credit total, so the division branch is taken |
| Gpa.TwoCourseExample | lib/helpers.py:43-49 | scores 95 (3 credits) and 70 (4 credits) give 20/7 |
| Gpa.ProbationExample | lib/helpers.py:43-49 | scores 92 (3 credits) and 55 (4 credits) give 12/7, which is on probation |
| Gpa.RepeatedCourseExample | lib/helpers.py:43-49 | two grades in one course count its credits twice: 95 and 85 in a 3-credit course give 3.5 |
| Gpa.CancellingCreditsExample | lib/helpers.py:49 | credits that add up to 0 give exactly 0.0 |
| Gpa.StandingOf | lib/helpers.py:72 | good standing iff the GPA is at least 2.0, probation iff it is below |
| Gpa.AllCOrBetterIsGoodStanding | lib/helpers.py:43-49 | a student whose every grade is a C or better, in courses with credits, is in good standing |
| Text.Upper | lib/helpers.py:263 | same length, each character upper-cased, no lower-case ASCII letter left |
| Text.UpperIdempotent | lib/helpers.py:263 | upper-casing a code twice is upper-casing it once |
| Text.UpperIgnoresCase | lib/helpers.py:290 | codes typed with different letter case look up the same course |
| Text.Lower | lib/helpers.py:211 | same length, each character lower-cased |
| Text.LowerIsY | lib/helpers.py:211-212 | the confirmation is accepted iff it is exactly `y` or `Y` |
| Text.ParseShowRoundTrip | lib/helpers.py:167 | every id that `str()` prints reads back through `int()` as the same id |
| Text.ParseIntRejectsStray | lib/helpers.py:167-170 | a text holding a character that is not a digit, an underscore or a leading sign is an invalid id |
| Text.ParseInt | lib/helpers.py:167 | an accepted text is non-empty, ends in a digit and holds only digits, underscores and one leading sign; a negative value has a leading minus; every non-empty all-digit text is accepted as a natural number |
| Text.ShowInt | lib/helpers.py:117 | `str()` of an integer is non-empty, starts with a minus exactly when the integer is negative, and is all digits after the first character |
| Text.ShowNatValue | lib/helpers.py:117 | the decimal form of a natural number is a well-formed digit text whose value is that number |
| Entities.AssignmentOrNone | lib/helpers.py:374 | a blank assignment name is stored as no name, and any other name is stored as typed |
| Entities.KeepIfBlank | lib/helpers.py:178-180 | a blank answer keeps the current value and any other answer replaces it; a non-empty field stays non-empty |
| Records.CodesUnique | lib/models/course.py:9 | under the code index no two courses share a code |
| Records.GradesReferToRows | lib/models/grade.py:10-11 | every grade names a student and a course that exist |
| Records.CourseStudents | lib/models/course.py:15 | a student is among a course's students iff that pair is in the enrollment table |
| Records.StudentCourses | lib/models/student.py:17 | a course is among a student's courses iff that pair is in the enrollment table |
| Records.EmailCheckIsUniqueColumn | lib/helpers.py:135-142 | adding a student keeps e-mails unique iff its e-mail is not in use, so the pre-check refuses exactly what the unique column at lib/models/student.py:12 refuses |
| Records.EmailCheckOnRewrite | lib/helpers.py:186-194 | rewriting one student keeps e-mails unique iff no other student holds the new e-mail, so the pre-check refuses exactly what the unique column refuses |
| Records.ViewsAgree | lib/models/course.py:15 | a student is among a course's students iff the course is among the student's courses |
| Records.SelectByStudent | lib/models/student.py:16 | the grades kept are exactly those of the chosen side, and the result is never longer than the input |
| Records.SelectKeepsCounts | lib/models/student.py:16 | selection keeps every grade of the chosen side as often as it was recorded and drops every other one |
| Records.Entries | lib/helpers.py:43-47 | one GPA entry per grade, carrying the grade's score and its course's credits |
| Records.WithoutStudent | lib/models/student.py:17 | the enrollment table keeps exactly the pairs of other students, with their dates |
| Records.GradeIdsStayUnique | lib/models/student.py:16 | removing one student's grades keeps grade ids distinct |
| Records.CascadeKeepsGradesWellFormed | lib/helpers.py:212-214 | after the cascade every remaining grade still belongs to a remaining enrollment |
| Records.Store.Valid | lib/models/student.py:9-12 | a valid store has pairwise distinct e-mails, indexes every course under its code, and has every grade naming an existing student and course |
| Records.Store.GradesOf | lib/helpers.py:36 | the grades of one student are exactly those of the log with that student id, never more than the log holds |
| Records.Store.constructor | lib/models/__init__.py:12-18 | an empty store is valid and holds no rows |
| Records.Accumulate | lib/helpers.py:40-47 | the loop's running sums end as the total weighted points and the total credits of the grades |
| Records.Store.CalculateGpa | lib/helpers.py:34-49 | the result is the weighted GPA of exactly the student's grades, each counted with its course's credits |
| Records.Store.StudentReport | lib/helpers.py:401-415 | invalid id and unknown student are errors; succeeds iff the student exists; then one line per grade with code, name, letter and score, and a summary iff there are grades, holding the weighted GPA and its standing |
| Records.Store.AddStudent | lib/helpers.py:120-142 | missing field, then bad e-mail, then e-mail in use, each with the store unchanged; otherwise exactly one new student under a fresh id |
| Records.Store.CreateCourse | lib/helpers.py:260-284 | the code is upper-cased; missing field, then non-integer credits, then duplicate code, each with no change; otherwise exactly one new course, indexed by its code |
| Records.Store.Enroll | lib/helpers.py:287-314 | invalid id, then unknown student, then unknown course, then already enrolled, each with no change; otherwise exactly that pair is added with its date |
| Records.Store.RecordGrade | lib/helpers.py:338-377 | invalid id, unknown student, unknown course, not enrolled, then score outside [0, 100], each with no change; otherwise one grade with a fresh id is appended and every earlier grade is kept |
| Records.Store.UpdateStudent | lib/helpers.py:163-194 | invalid id, unknown student, bad e-mail, then e-mail held by another student, each with no change; otherwise only that row is rewritten, blanks keeping the current values, and every other student is untouched |
| Records.Store.DeleteStudent | lib/helpers.py:197-217 | invalid id or unknown student is an error with no change; any answer other than `y` or `Y` cancels with no change; on delete the row, all its grades and all its pairs go, while other students' pairs and all courses stay |
| Scenarios.ProbationTranscript | lib/helpers.py:57-74 | two grades recorded through the store give a report with two lines and a GPA of 12/7 on probation |
| Scenarios.EnrollTwice | lib/helpers.py:308-312 | enrolling the same pair twice succeeds and then reports already enrolled, whatever the case of the code |
| Scenarios.GradeNeedsEnrollment | lib/helpers.py:359-361 | a grade before the enrollment is refused, and the same grade after it is accepted |
| Scenarios.DuplicateEmail | lib/models/student.py:12 | a second student with a used e-mail is refused, and exactly one student holds that e-mail |
| Scenarios.DeleteGradedStudent | lib/models/student.py:16-17 | after deleting a graded, enrolled student the report finds no such student, and no grade or enrollment is left |
| Scenarios.TwoGrades | lib/helpers.py:338-377 | two grades recorded through the store are appended in order, with fresh ids, a blank assignment stored as no name |
| Scenarios.OneCourse | lib/helpers.py:120-142 | a fresh store after one student and one course holds exactly those rows |
| Scenarios.TwoCourses | lib/helpers.py:287-314 | one student enrolled in two courses, with no grades yet |

## Left out

- Menus, prompts, printing and `strip()` are terminal input and output. Each operation takes the stripped texts as parameters, the delete confirmation excepted, which it takes raw, and reports its outcome as a value.
- `search_student` is left out. Its matching is SQL `ILIKE` with `%` wildcards, and those semantics belong to the database.
- `list_students`, `list_courses`, `view_course_enrollment`, `course_grade_report`, `specific_student_gpa` and `all_students_gpa` are left out as printing. The enrollment of a course is the function `CourseStudents`, and a student's GPA is `CalculateGpa`. The per-course grade sheet of `course_grade_report` is not modelled: it selects the grades by `course_id` at lib/helpers.py:427.
- Text layout is not modelled: `:.1f`/`:.2f` rounding, `strftime`, `ljust`, name truncation and the "N/A" placeholder.
- Listing order is not modelled. The queries have no `ORDER BY`, so no order is promised. The GPA is proved the same for every order of a student's grades (`Records.Store.GpaIgnoresGradeOrder`).
- Records.Store.StudentReport: the report lines come in the order the grades were recorded. That is one of the orders the unordered query at lib/helpers.py:64 may return, and the model does not cover the others.
- Wall-clock readings from `datetime.now` are `Timestamp` parameters that are never inspected.
- Scores are exact reals, not IEEE floats. The parsing done by `float()`, including NaN and infinity, becomes the `Option<real>` argument.
- `Text.Upper`, `Text.Lower`, `Text.ParseInt`, `Text.ParseIntRejectsStray`: Unicode case mapping, Unicode digits and surrounding whitespace are not modelled. These cover ASCII only.
- Records.Store.AddStudent, Records.Store.RecordGrade: ids come from counters that only grow. SQLite hands out the largest remaining rowid plus one, which falls below the counter after a delete removes the newest students, or a cascade removes the newest grades. That reuse is not modelled.
- Records.Store.StudentReport, Records.Store.CreateCourse, Records.Store.Enroll, Records.Store.RecordGrade, Records.Store.UpdateStudent, Records.Store.DeleteStudent: ids and credits are unbounded integers. Two limits are not modelled. First, the driver binds only 64-bit integers: an id or credits outside [-2^63, 2^63-1] raises an uncaught `OverflowError` and stops the program, where the model reports `StudentNotFound` or creates the course. Second, Python's `int()` refuses texts of more than 4300 digits, where the model parses them.
- The credits default of 3 on the course table is not modelled. `create_course` always supplies the credits, so no path reaches the default.
- Sessions, commit, rollback and `IntegrityError` handling become explicit uniqueness checks, with the store unchanged on failure. Concurrent sessions are not modelled.
- The seeding script, the debugging script, `exit_program` and `clear_screen` are left out. They are sample data, inspection and process side effects.
