/**
 * The academic-records store: students, courses, the enrollment relation and
 * the grade log, with the operations that change them. Every operation runs
 * its checks in the order the record keeper does; the first check that fails
 * decides the error, and a failed operation leaves the store exactly as it was.
 */
module Records {

  import opened Wrappers
  import opened Text
  import opened Rules
  import opened Entities
  import opened Gpa

  /** A student id paired with a course id: the key of one enrollment. */
  type Pair = (int, int)

  /** How a delete ends when the id names a student: removed, or declined at the confirmation. */
  datatype Removal = Deleted | Cancelled

  /** One line of a student report: the course, the letter and the score of one grade. */
  datatype ReportLine = ReportLine(code: string, name: string, letter: Letter, score: real)

  /** The closing part of a student report, present only when the student has grades. */
  datatype Summary = Summary(gpa: real, standing: Standing)

  datatype Report = Report(student: Student, lines: seq<ReportLine>, summary: Option<Summary>)

  // ---------------------------------------------------------------------------
  // The invariants of the stored data
  // ---------------------------------------------------------------------------

  /** Student rows sit under their own id, below the next free id, with names and a valid e-mail. */
  ghost predicate StudentsWellFormed(students: map<int, Student>, nextId: int) {
    forall id :: id in students ==>
      && students[id].id == id
      && 1 <= id < nextId
      && students[id].firstName != ""
      && students[id].lastName != ""
      && ValidEmail(students[id].email)
  }

  /** No two students share an e-mail address. */
  ghost predicate EmailsUnique(students: map<int, Student>) {
    forall a, b :: a in students && b in students && a != b ==> students[a].email != students[b].email
  }

  /** Course rows sit under their own id, below the next free id, with an upper-case code and a name. */
  ghost predicate CoursesWellFormed(courses: map<int, Course>, nextId: int) {
    forall id :: id in courses ==>
      && courses[id].id == id
      && 1 <= id < nextId
      && courses[id].code != ""
      && Upper(courses[id].code) == courses[id].code
      && courses[id].name != ""
  }

  /** The unique index on course codes: each code leads to the one course that carries it. */
  ghost predicate CodeIndexed(courses: map<int, Course>, codeIndex: map<string, int>) {
    && (forall code :: code in codeIndex ==> codeIndex[code] in courses && courses[codeIndex[code]].code == code)
    && (forall id :: id in courses ==> courses[id].code in codeIndex && codeIndex[courses[id].code] == id)
  }

  /** Both columns of the enrollment table are foreign keys. */
  ghost predicate EnrollmentsReferToRows(
    enrollments: map<Pair, Timestamp>, students: map<int, Student>, courses: map<int, Course>)
  {
    forall p :: p in enrollments ==> p.0 in students && p.1 in courses
  }

  /**
   * Every grade belongs to an enrolled pair, has a score on the 0 to 100
   * scale and an assignment name that is absent rather than blank.
   */
  ghost predicate GradesWellFormed(grades: seq<Grade>, enrollments: map<Pair, Timestamp>, nextId: int) {
    && (forall g :: g in grades ==>
          && (g.studentId, g.courseId) in enrollments
          && 0.0 <= g.score <= 100.0
          && 1 <= g.id < nextId
          && (g.assignmentName.Some? ==> g.assignmentName.value != ""))
    && IdsDistinct(grades)
  }

  /** No two positions of the grade log hold the same grade id. */
  ghost predicate IdsDistinct(grades: seq<Grade>) {
    forall i, j :: 0 <= i < j < |grades| ==> grades[i].id != grades[j].id
  }

  /** With the code index in place no two courses share a code. */
  lemma CodesUnique(courses: map<int, Course>, codeIndex: map<string, int>, a: int, b: int)
    requires CodeIndexed(courses, codeIndex)
    requires a in courses && b in courses && a != b
    ensures courses[a].code != courses[b].code
  {
    assert codeIndex[courses[a].code] == a;
    assert codeIndex[courses[b].code] == b;
  }

  /** Every grade names a student and a course that exist. */
  lemma GradesReferToRows(
    grades: seq<Grade>, enrollments: map<Pair, Timestamp>, students: map<int, Student>,
    courses: map<int, Course>, nextId: int, g: Grade)
    requires GradesWellFormed(grades, enrollments, nextId)
    requires EnrollmentsReferToRows(enrollments, students, courses)
    requires g in grades
    ensures g.studentId in students && g.courseId in courses
  {
    assert (g.studentId, g.courseId) in enrollments;
  }

  // ---------------------------------------------------------------------------
  // Derived views
  // ---------------------------------------------------------------------------

  /** `course.students`: the students enrolled in a course. */
  function CourseStudents(enrollments: map<Pair, Timestamp>, cid: int): (r: set<int>)
    ensures forall sid :: sid in r <==> (sid, cid) in enrollments
  {
    set p | p in enrollments && p.1 == cid :: p.0
  }

  /** `student.courses`: the courses a student is enrolled in. */
  function StudentCourses(enrollments: map<Pair, Timestamp>, sid: int): (r: set<int>)
    ensures forall cid :: cid in r <==> (sid, cid) in enrollments
  {
    set p | p in enrollments && p.0 == sid :: p.1
  }

  /** Both sides of the relationship read the one enrollment table, so they always agree. */
  lemma ViewsAgree(enrollments: map<Pair, Timestamp>, sid: int, cid: int)
    ensures sid in CourseStudents(enrollments, cid) <==> cid in StudentCourses(enrollments, sid)
  {
  }

  /**
   * The grades of one student (`keep`) or of everyone else (`!keep`), in the
   * order they were recorded: every grade kept as often as it occurs, every
   * other grade dropped.
   */
  function SelectByStudent(gs: seq<Grade>, sid: int, keep: bool): (r: seq<Grade>)
    ensures |r| <= |gs|
    ensures forall g :: g in r <==> g in gs && (g.studentId == sid) == keep
  {
    if gs == [] then []
    else
      assert gs == [gs[0]] + gs[1..];
      (if (gs[0].studentId == sid) == keep then [gs[0]] else []) + SelectByStudent(gs[1..], sid, keep)
  }

  /** Selecting keeps every grade of the chosen side exactly as often as it was recorded, and no other. */
  lemma {:induction false} SelectKeepsCounts(gs: seq<Grade>, sid: int, keep: bool, g: Grade)
    ensures multiset(SelectByStudent(gs, sid, keep))[g] ==
      if (g.studentId == sid) == keep then multiset(gs)[g] else 0
  {
    if gs != [] {
      SelectKeepsCounts(gs[1..], sid, keep, g);
      assert gs == [gs[0]] + gs[1..];
    }
  }

  /** The GPA entries of a list of grades: each grade's score with its course's credits. */
  function Entries(gs: seq<Grade>, courses: map<int, Course>): (es: seq<Entry>)
    requires forall g :: g in gs ==> g.courseId in courses
    ensures |es| == |gs|
    ensures forall i :: 0 <= i < |gs| ==> es[i] == Entry(gs[i].score, courses[gs[i].courseId].credits)
  {
    seq(|gs|, i requires 0 <= i < |gs| => Entry(gs[i].score, courses[gs[i].courseId].credits))
  }

  /** The weighted points and the credits of a list of grades, summed grade by grade as `calculate_gpa` does. */
  method Accumulate(gs: seq<Grade>, courses: map<int, Course>) returns (totalPoints: real, totalCredits: int)
    requires forall g :: g in gs ==> g.courseId in courses
    ensures totalPoints == TotalPoints(Entries(gs, courses))
    ensures totalCredits == TotalCredits(Entries(gs, courses))
  {
    ghost var es := Entries(gs, courses);
    totalPoints, totalCredits := 0.0, 0;
    for i := 0 to |gs|
      invariant totalPoints == TotalPoints(es[..i])
      invariant totalCredits == TotalCredits(es[..i])
    {
      var course := courses[gs[i].courseId];
      var points := GradePoints(LetterGrade(gs[i].score));
      assert es[..i + 1][..i] == es[..i];
      assert Weighted(es[i]) == points * (course.credits as real);
      totalPoints := totalPoints + points * (course.credits as real);
      totalCredits := totalCredits + course.credits;
    }
    assert es[..|gs|] == es;
  }

  /** The entries of two lists of grades joined are the entries of each, joined. */
  lemma EntriesAppend(a: seq<Grade>, b: seq<Grade>, courses: map<int, Course>)
    requires forall g :: g in a + b ==> g.courseId in courses
    ensures forall g :: g in a ==> g.courseId in courses
    ensures forall g :: g in b ==> g.courseId in courses
    ensures Entries(a + b, courses) == Entries(a, courses) + Entries(b, courses)
  {
    assert forall g :: g in a ==> g in a + b;
    assert forall g :: g in b ==> g in a + b;
  }

  /** Any arrangement of the same grades has the same entries, arranged alike. */
  lemma {:induction false} EntriesMultiset(gs: seq<Grade>, hs: seq<Grade>, courses: map<int, Course>)
    requires forall g :: g in gs ==> g.courseId in courses
    requires multiset(gs) == multiset(hs)
    ensures forall g :: g in hs ==> g.courseId in courses
    ensures multiset(Entries(gs, courses)) == multiset(Entries(hs, courses))
  {
    assert forall g :: g in hs ==> g in multiset(hs);
    if gs == [] {
      assert |hs| == |multiset(hs)| == 0;
    } else {
      var init, last := gs[..|gs| - 1], gs[|gs| - 1];
      assert last in multiset(hs) by {
        assert gs == init + [last];
      }
      var j :| 0 <= j < |hs| && hs[j] == last;
      var before, after := hs[..j], hs[j + 1..];
      RemoveMatching(gs, hs, j);
      assert forall g :: g in init ==> g in gs;
      EntriesMultiset(init, before + after, courses);
      LastEntryOut(gs, courses);
      EntryOutAt(hs, j, courses);
    }
  }

  /** Taking the last grade off takes its entry off the entries. */
  lemma LastEntryOut(gs: seq<Grade>, courses: map<int, Course>)
    requires gs != [] && forall g :: g in gs ==> g.courseId in courses
    ensures forall g :: g in gs[..|gs| - 1] ==> g.courseId in courses
    ensures multiset(Entries(gs, courses)) ==
      multiset(Entries(gs[..|gs| - 1], courses)) + multiset{Entry(gs[|gs| - 1].score, courses[gs[|gs| - 1].courseId].credits)}
  {
    var init := gs[..|gs| - 1];
    assert gs == init + [gs[|gs| - 1]];
    EntriesAppend(init, [gs[|gs| - 1]], courses);
  }

  /** Taking the grade at `j` out takes its entry out of the entries. */
  lemma EntryOutAt(hs: seq<Grade>, j: nat, courses: map<int, Course>)
    requires j < |hs| && forall g :: g in hs ==> g.courseId in courses
    ensures forall g :: g in hs[..j] + hs[j + 1..] ==> g.courseId in courses
    ensures multiset(Entries(hs, courses)) ==
      multiset(Entries(hs[..j] + hs[j + 1..], courses)) + multiset{Entry(hs[j].score, courses[hs[j].courseId].credits)}
  {
    var before, after := hs[..j], hs[j + 1..];
    assert hs == (before + [hs[j]]) + after;
    EntriesAppend(before + [hs[j]], after, courses);
    EntriesAppend(before, [hs[j]], courses);
    EntriesAppend(before, after, courses);
    var eb, ex, ea := Entries(before, courses), Entries([hs[j]], courses), Entries(after, courses);
    assert Entries(hs, courses) == eb + ex + ea;
    assert Entries(before + after, courses) == eb + ea;
    assert ex == [Entry(hs[j].score, courses[hs[j].courseId].credits)];
    assert multiset(eb + ex + ea) == multiset(eb) + multiset(ex) + multiset(ea);
    assert multiset(eb + ea) == multiset(eb) + multiset(ea);
  }

  /** A student's e-mail address is already taken by some row of `students`. */
  predicate EmailInUse(students: map<int, Student>, email: string)
    ensures EmailInUse(students, email) <==> email in (set id | id in students :: students[id].email)
  {
    exists id :: id in students && students[id].email == email
  }

  /**
   * The pre-check on a new student is the unique column, in both directions:
   * the new row keeps e-mails unique exactly when its e-mail is not in use.
   */
  lemma EmailCheckIsUniqueColumn(students: map<int, Student>, s: Student)
    requires EmailsUnique(students) && s.id !in students
    ensures EmailsUnique(students[s.id := s]) <==> !EmailInUse(students, s.email)
  {
    if EmailInUse(students, s.email) {
      var other :| other in students && students[other].email == s.email;
      var after := students[s.id := s];
      assert other != s.id && other in after && s.id in after;
      assert after[other].email == after[s.id].email;
    } else {
      var after := students[s.id := s];
      forall a, b | a in after && b in after && a != b
        ensures after[a].email != after[b].email
      {
        if a == s.id {
          assert b in students && students[b].email != s.email;
        } else if b == s.id {
          assert a in students && students[a].email != s.email;
        }
      }
    }
  }

  /**
   * The pre-check on a rewritten student is the unique column too: the row
   * rewritten under `id` keeps e-mails unique exactly when no other student
   * holds its e-mail.
   */
  lemma EmailCheckOnRewrite(students: map<int, Student>, id: int, s: Student)
    requires EmailsUnique(students) && id in students
    ensures EmailsUnique(students[id := s]) <==> !EmailInUse(students - {id}, s.email)
  {
    if EmailInUse(students - {id}, s.email) {
      var other :| other in students - {id} && students[other].email == s.email;
      var after := students[id := s];
      assert other != id && other in after && id in after;
      assert after[other].email == after[id].email;
    } else {
      var after := students[id := s];
      forall a, b | a in after && b in after && a != b
        ensures after[a].email != after[b].email
      {
        if a == id {
          assert b in students - {id} && students[b].email != s.email;
        } else if b == id {
          assert a in students - {id} && students[a].email != s.email;
        }
      }
    }
  }

  // ---------------------------------------------------------------------------
  // The store
  // ---------------------------------------------------------------------------

  class Store {
    var students: map<int, Student>
    var courses: map<int, Course>
    var codeIndex: map<string, int>
    var enrollments: map<Pair, Timestamp>
    var grades: seq<Grade>
    var nextStudentId: int
    var nextCourseId: int
    var nextGradeId: int

    /**
     * The constraints the schema and the operations keep together: rows under
     * their own ids, required texts present, unique e-mails and codes, and
     * enrollments and grades that refer to existing rows.
     */
    ghost predicate Valid()
      reads this
      ensures Valid() ==> forall a, b :: a in students && b in students && a != b ==>
        students[a].email != students[b].email
      ensures Valid() ==> forall id :: id in courses ==>
        courses[id].code in codeIndex && codeIndex[courses[id].code] == id
      ensures Valid() ==> forall g :: g in grades ==> g.studentId in students && g.courseId in courses
    {
      && StudentsWellFormed(students, nextStudentId)
      && EmailsUnique(students)
      && CoursesWellFormed(courses, nextCourseId)
      && CodeIndexed(courses, codeIndex)
      && EnrollmentsReferToRows(enrollments, students, courses)
      && GradesWellFormed(grades, enrollments, nextGradeId)
      && 1 <= nextStudentId && 1 <= nextCourseId && 1 <= nextGradeId
    }

    /** An empty store. */
    constructor ()
      ensures Valid()
      ensures students == map[] && courses == map[] && codeIndex == map[]
      ensures enrollments == map[] && grades == []
      ensures nextStudentId == 1 && nextCourseId == 1 && nextGradeId == 1
    {
      students, courses, codeIndex := map[], map[], map[];
      enrollments, grades := map[], [];
      nextStudentId, nextCourseId, nextGradeId := 1, 1, 1;
    }

    /**
     * The query behind `calculate_gpa` promises no order; whatever order it
     * returns the student's grades in, the GPA is the same.
     */
    lemma GpaIgnoresGradeOrder(sid: int, hs: seq<Grade>)
      requires Valid()
      requires multiset(hs) == multiset(GradesOf(sid))
      ensures forall g :: g in hs ==> g.courseId in courses
      ensures WeightedGpa(Entries(hs, courses)) == WeightedGpa(Entries(GradesOf(sid), courses))
    {
      EntriesMultiset(GradesOf(sid), hs, courses);
      GpaIgnoresOrder(Entries(hs, courses), Entries(GradesOf(sid), courses));
    }

    /** The grades of one student, as the GPA and the report read them. */
    function GradesOf(sid: int): (r: seq<Grade>)
      reads this
      ensures |r| <= |grades|
      ensures forall g :: g in r <==> g in grades && g.studentId == sid
    {
      SelectByStudent(grades, sid, true)
    }

    /** `calculate_gpa`: the credit-weighted mean of the grade points of all of a student's grades. */
    method CalculateGpa(sid: int) returns (gpa: real)
      requires Valid()
      ensures gpa == WeightedGpa(Entries(GradesOf(sid), courses))
    {
      var mine := SelectByStudent(grades, sid, true);
      if |mine| == 0 {
        return 0.0;
      }
      var totalPoints, totalCredits := Accumulate(mine, courses);
      gpa := if totalCredits > 0 then totalPoints / (totalCredits as real) else 0.0;
    }

    /**
     * `student_performance_report`: the student's row, one line per grade and,
     * when there are grades, the GPA with its standing label.
     */
    method StudentReport(idText: string) returns (r: Result<Report, Error>)
      requires Valid()
      ensures ParseInt(idText).None? ==> r == Err(InvalidId)
      ensures ParseInt(idText).Some? && ParseInt(idText).value !in students ==> r == Err(StudentNotFound)
      ensures r.Ok? <==> ParseInt(idText).Some? && ParseInt(idText).value in students
      ensures r.Ok? ==>
        var id := ParseInt(idText).value;
        var mine := GradesOf(id);
        && (forall g :: g in mine ==> g.courseId in courses)
        && r.value.student == students[id]
        && |r.value.lines| == |mine|
        && (forall i :: 0 <= i < |mine| ==>
              var c := courses[mine[i].courseId];
              r.value.lines[i] == ReportLine(c.code, c.name, LetterGrade(mine[i].score), mine[i].score))
        && (r.value.summary.None? <==> mine == [])
        && (r.value.summary.Some? ==>
              && r.value.summary.value.gpa == WeightedGpa(Entries(mine, courses))
              && r.value.summary.value.standing == StandingOf(r.value.summary.value.gpa))
    {
      var parsed := ParseInt(idText);
      if parsed.None? {
        return Err(InvalidId);
      }
      var id := parsed.value;
      if id !in students {
        return Err(StudentNotFound);
      }
      var mine := SelectByStudent(grades, id, true);
      var lines: seq<ReportLine> := [];
      for i := 0 to |mine|
        invariant |lines| == i
        invariant forall k :: 0 <= k < i ==>
          var c := courses[mine[k].courseId];
          lines[k] == ReportLine(c.code, c.name, LetterGrade(mine[k].score), mine[k].score)
      {
        var c := courses[mine[i].courseId];
        lines := lines + [ReportLine(c.code, c.name, LetterGrade(mine[i].score), mine[i].score)];
      }
      var summary: Option<Summary> := None;
      if |mine| > 0 {
        var gpa := CalculateGpa(id);
        summary := Some(Summary(gpa, StandingOf(gpa)));
      }
      r := Ok(Report(students[id], lines, summary));
    }

    /**
     * `add_student`: all three fields are required, the e-mail must look like
     * one and must not be in use; then one new row is added.
     */
    method AddStudent(first: string, last: string, email: string, now: Timestamp) returns (r: Result<int, Error>)
      requires Valid()
      modifies this
      ensures Valid()
      ensures r == if first == "" || last == "" || email == "" then Err(MissingField)
                   else if !ValidEmail(email) then Err(InvalidEmail)
                   else if EmailInUse(old(students), email) then Err(DuplicateEmail)
                   else Ok(old(nextStudentId))
      ensures r.Err? ==> unchanged(this)
      ensures r.Ok? ==>
        && r.value !in old(students)
        && students == old(students)[r.value := Student(r.value, first, last, email, now)]
        && courses == old(courses) && codeIndex == old(codeIndex)
        && enrollments == old(enrollments) && grades == old(grades)
        && nextStudentId == old(nextStudentId) + 1
        && nextCourseId == old(nextCourseId) && nextGradeId == old(nextGradeId)
    {
      if first == "" || last == "" || email == "" {
        return Err(MissingField);
      }
      if !ValidEmail(email) {
        return Err(InvalidEmail);
      }
      if EmailInUse(students, email) {
        return Err(DuplicateEmail);
      }
      var id := nextStudentId;
      students := students[id := Student(id, first, last, email, now)];
      nextStudentId := nextStudentId + 1;
      r := Ok(id);
    }

    /**
     * `create_course`: the code is upper-cased; code, name and credits are
     * required, the credits must be an integer (any integer), and the code
     * must be new; then one new row is added.
     */
    method CreateCourse(codeText: string, name: string, creditsText: string) returns (r: Result<int, Error>)
      requires Valid()
      modifies this
      ensures Valid()
      ensures r == if Upper(codeText) == "" || name == "" || creditsText == "" then Err(MissingField)
                   else if ParseInt(creditsText).None? then Err(InvalidCredits)
                   else if Upper(codeText) in old(codeIndex) then Err(DuplicateCode)
                   else Ok(old(nextCourseId))
      ensures r.Err? ==> unchanged(this)
      ensures r.Ok? ==>
        && r.value !in old(courses)
        && courses == old(courses)[r.value := Course(r.value, Upper(codeText), name, ParseInt(creditsText).value)]
        && codeIndex == old(codeIndex)[Upper(codeText) := r.value]
        && students == old(students) && enrollments == old(enrollments) && grades == old(grades)
        && nextCourseId == old(nextCourseId) + 1
        && nextStudentId == old(nextStudentId) && nextGradeId == old(nextGradeId)
    {
      var code := Upper(codeText);
      if code == "" || name == "" || creditsText == "" {
        return Err(MissingField);
      }
      var credits := ParseInt(creditsText);
      if credits.None? {
        return Err(InvalidCredits);
      }
      if code in codeIndex {
        return Err(DuplicateCode);
      }
      UpperIdempotent(codeText);
      var id := nextCourseId;
      courses := courses[id := Course(id, code, name, credits.value)];
      codeIndex := codeIndex[code := id];
      nextCourseId := nextCourseId + 1;
      r := Ok(id);
    }

    /**
     * `enroll_student`: the id must parse and name a student, the upper-cased
     * code must name a course, and the pair must not be enrolled yet; then
     * exactly that pair is added, stamped with the time of enrollment.
     */
    method Enroll(idText: string, codeText: string, now: Timestamp) returns (r: Outcome<Error>)
      requires Valid()
      modifies this
      ensures Valid()
      ensures r == if ParseInt(idText).None? then Fail(InvalidId)
                   else if ParseInt(idText).value !in old(students) then Fail(StudentNotFound)
                   else if Upper(codeText) !in old(codeIndex) then Fail(CourseNotFound)
                   else if (ParseInt(idText).value, old(codeIndex)[Upper(codeText)]) in old(enrollments)
                   then Fail(AlreadyEnrolled)
                   else Pass
      ensures r.Fail? ==> unchanged(this)
      ensures r.Pass? ==>
        && enrollments == old(enrollments)[(ParseInt(idText).value, old(codeIndex)[Upper(codeText)]) := now]
        && students == old(students) && courses == old(courses) && codeIndex == old(codeIndex)
        && grades == old(grades)
        && nextStudentId == old(nextStudentId) && nextCourseId == old(nextCourseId)
        && nextGradeId == old(nextGradeId)
    {
      var code := Upper(codeText);
      var parsed := ParseInt(idText);
      if parsed.None? {
        return Fail(InvalidId);
      }
      var id := parsed.value;
      if id !in students {
        return Fail(StudentNotFound);
      }
      if code !in codeIndex {
        return Fail(CourseNotFound);
      }
      var cid := codeIndex[code];
      if (id, cid) in enrollments {
        return Fail(AlreadyEnrolled);
      }
      enrollments := enrollments[(id, cid) := now];
      r := Pass;
    }

    /**
     * `record_grades`: the id must parse and name a student, the code a
     * course, the pair must be enrolled and the score must be a number from 0
     * to 100; then one grade is appended and every earlier grade is kept.
     * `score` is `None` when the typed text is not a finite number.
     */
    method RecordGrade(idText: string, codeText: string, score: Option<real>, assignment: string, now: Timestamp)
      returns (r: Result<int, Error>)
      requires Valid()
      modifies this
      ensures Valid()
      ensures r == if ParseInt(idText).None? then Err(InvalidId)
                   else if ParseInt(idText).value !in old(students) then Err(StudentNotFound)
                   else if Upper(codeText) !in old(codeIndex) then Err(CourseNotFound)
                   else if (ParseInt(idText).value, old(codeIndex)[Upper(codeText)]) !in old(enrollments)
                   then Err(NotEnrolled)
                   else if score.None? || !(0.0 <= score.value <= 100.0) then Err(ScoreOutOfRange)
                   else Ok(old(nextGradeId))
      ensures r.Err? ==> unchanged(this)
      ensures r.Ok? ==>
        && (forall g :: g in old(grades) ==> g.id != r.value)
        && grades == old(grades) + [Grade(r.value, ParseInt(idText).value, old(codeIndex)[Upper(codeText)],
                                          score.value, AssignmentOrNone(assignment), now)]
        && students == old(students) && courses == old(courses) && codeIndex == old(codeIndex)
        && enrollments == old(enrollments)
        && nextGradeId == old(nextGradeId) + 1
        && nextStudentId == old(nextStudentId) && nextCourseId == old(nextCourseId)
    {
      var code := Upper(codeText);
      var parsed := ParseInt(idText);
      if parsed.None? {
        return Err(InvalidId);
      }
      var id := parsed.value;
      if id !in students {
        return Err(StudentNotFound);
      }
      if code !in codeIndex {
        return Err(CourseNotFound);
      }
      var cid := codeIndex[code];
      if (id, cid) !in enrollments {
        return Err(NotEnrolled);
      }
      if score.None? || !(0.0 <= score.value <= 100.0) {
        return Err(ScoreOutOfRange);
      }
      var gid := nextGradeId;
      grades := grades + [Grade(gid, id, cid, score.value, AssignmentOrNone(assignment), now)];
      nextGradeId := nextGradeId + 1;
      r := Ok(gid);
    }

    /**
     * `update_student`: the id must parse and name a student; a blank answer
     * keeps a field's current value; the resulting e-mail must look like one
     * and must not belong to another student; then that one row is rewritten.
     */
    method UpdateStudent(idText: string, first: string, last: string, email: string) returns (r: Outcome<Error>)
      requires Valid()
      modifies this
      ensures Valid()
      ensures r == if ParseInt(idText).None? then Fail(InvalidId)
                   else if ParseInt(idText).value !in old(students) then Fail(StudentNotFound)
                   else
                     var id := ParseInt(idText).value;
                     var newEmail := KeepIfBlank(email, old(students)[id].email);
                     if !ValidEmail(newEmail) then Fail(InvalidEmail)
                     else if EmailInUse(old(students) - {id}, newEmail) then Fail(DuplicateEmail)
                     else Pass
      ensures r.Fail? ==> unchanged(this)
      ensures r.Pass? ==>
        var id := ParseInt(idText).value;
        var current := old(students)[id];
        && students == old(students)[id := current.(
              firstName := KeepIfBlank(first, current.firstName),
              lastName := KeepIfBlank(last, current.lastName),
              email := KeepIfBlank(email, current.email))]
        && courses == old(courses) && codeIndex == old(codeIndex)
        && enrollments == old(enrollments) && grades == old(grades)
        && nextStudentId == old(nextStudentId) && nextCourseId == old(nextCourseId)
        && nextGradeId == old(nextGradeId)
      ensures forall other :: other in old(students) && (r.Fail? || other != ParseInt(idText).value) ==>
        other in students && students[other] == old(students)[other]
    {
      var parsed := ParseInt(idText);
      if parsed.None? {
        return Fail(InvalidId);
      }
      var id := parsed.value;
      if id !in students {
        return Fail(StudentNotFound);
      }
      var current := students[id];
      var newFirst := KeepIfBlank(first, current.firstName);
      var newLast := KeepIfBlank(last, current.lastName);
      var newEmail := KeepIfBlank(email, current.email);
      if !ValidEmail(newEmail) {
        return Fail(InvalidEmail);
      }
      if EmailInUse(students - {id}, newEmail) {
        return Fail(DuplicateEmail);
      }
      forall b | b in students && b != id
        ensures students[b].email != newEmail
      {
        assert b in students - {id};
      }
      students := students[id := current.(firstName := newFirst, lastName := newLast, email := newEmail)];
      r := Pass;
    }

    /**
     * `delete_student`: the id must parse and name a student; unless the
     * confirmation is `y` (either case) nothing happens; otherwise the row
     * goes, and with it every grade and every enrollment of that student.
     */
    method DeleteStudent(idText: string, confirm: string) returns (r: Result<Removal, Error>)
      requires Valid()
      modifies this
      ensures Valid()
      ensures r == if ParseInt(idText).None? then Err(InvalidId)
                   else if ParseInt(idText).value !in old(students) then Err(StudentNotFound)
                   else if Lower(confirm) == "y" then Ok(Deleted)
                   else Ok(Cancelled)
      ensures r != Ok(Deleted) ==> unchanged(this)
      ensures r == Ok(Deleted) ==>
        var id := ParseInt(idText).value;
        && students == old(students) - {id}
        && grades == SelectByStudent(old(grades), id, false)
        && enrollments == WithoutStudent(old(enrollments), id)
        && courses == old(courses) && codeIndex == old(codeIndex)
        && nextStudentId == old(nextStudentId) && nextCourseId == old(nextCourseId)
        && nextGradeId == old(nextGradeId)
      ensures r == Ok(Deleted) ==>
        var id := ParseInt(idText).value;
        && (forall g :: g in grades ==> g.studentId != id)
        && (forall p: Pair :: p.0 != id ==> (p in enrollments <==> p in old(enrollments)))
        && (forall p: Pair :: p.0 == id ==> p !in enrollments)
    {
      var parsed := ParseInt(idText);
      if parsed.None? {
        return Err(InvalidId);
      }
      var id := parsed.value;
      if id !in students {
        return Err(StudentNotFound);
      }
      if Lower(confirm) != "y" {
        return Ok(Cancelled);
      }
      ghost var before := grades;
      students := students - {id};
      grades := SelectByStudent(grades, id, false);
      enrollments := WithoutStudent(enrollments, id);
      CascadeKeepsGradesWellFormed(before, old(enrollments), nextGradeId, id);
      r := Ok(Deleted);
    }
  }

  /** The enrollment table without the rows of one student: what the cascade leaves. */
  function WithoutStudent(enrollments: map<Pair, Timestamp>, sid: int): (r: map<Pair, Timestamp>)
    ensures forall p :: p in r <==> p in enrollments && p.0 != sid
    ensures forall p :: p in r ==> r[p] == enrollments[p]
  {
    map p | p in enrollments && p.0 != sid :: enrollments[p]
  }

  /** After a student's cascade the remaining grades still belong to remaining enrollments, with distinct ids. */
  lemma CascadeKeepsGradesWellFormed(grades: seq<Grade>, enrollments: map<Pair, Timestamp>, nextId: int, sid: int)
    requires GradesWellFormed(grades, enrollments, nextId)
    ensures GradesWellFormed(SelectByStudent(grades, sid, false), WithoutStudent(enrollments, sid), nextId)
  {
    GradeIdsStayUnique(grades, sid);
  }

  /** Dropping grades keeps the ids of those that remain distinct. */
  lemma {:induction false} GradeIdsStayUnique(gs: seq<Grade>, sid: int)
    requires IdsDistinct(gs)
    ensures IdsDistinct(SelectByStudent(gs, sid, false))
  {
    if gs != [] {
      var tail := gs[1..];
      assert IdsDistinct(tail) by {
        forall i, j | 0 <= i < j < |tail|
          ensures tail[i].id != tail[j].id
        {
          assert tail[i] == gs[i + 1] && tail[j] == gs[j + 1];
        }
      }
      GradeIdsStayUnique(tail, sid);
      var rest := SelectByStudent(tail, sid, false);
      assert forall i, j :: 0 <= i < j < |rest| ==> rest[i].id != rest[j].id;
      forall g | g in rest
        ensures g.id != gs[0].id
      {
        var k :| 0 <= k < |tail| && tail[k] == g;
        assert gs[k + 1] == g;
      }
      var r := SelectByStudent(gs, sid, false);
      if gs[0].studentId != sid {
        assert r == [gs[0]] + rest;
        forall i, j | 0 <= i < j < |r|
          ensures r[i].id != r[j].id
        {
          assert r[j] == rest[j - 1];
          if i > 0 {
            assert r[i] == rest[i - 1];
            assert rest[i - 1].id != rest[j - 1].id;
          } else {
            assert r[0] == gs[0];
            assert rest[j - 1] in rest;
          }
        }
      } else {
        assert r == rest;
      }
    }
  }
}
