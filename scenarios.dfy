/**
 * Sessions with the record keeper, each run against a fresh store, showing
 * what the operations' contracts add up to over several calls. Ids are the
 * store's counters, so the first student, course and grade are each number 1.
 */
module Scenarios {

  import opened Wrappers
  import opened Text
  import opened Rules
  import opened Entities
  import opened Gpa
  import opened Records

  lemma ParseDigit(s: string, d: int)
    requires |s| == 1 && IsDigit(s[0]) && DigitValue(s[0]) == d
    ensures ParseInt(s) == Some(d)
  {
    assert DigitGroups(s);
    assert s[..|s| - 1] == [];
    assert DigitsValue(s) == 10 * DigitsValue([]) + DigitValue(s[0]);
  }

  lemma UpperCodes()
    ensures Upper("cs101") == "CS101" && Upper("CS101") == "CS101"
    ensures Upper("math201") == "MATH201" && Upper("MATH201") == "MATH201"
  {
    assert Upper("cs101") == "CS101";
    assert Upper("CS101") == "CS101";
    assert Upper("math201") == "MATH201";
    assert Upper("MATH201") == "MATH201";
  }

  /** A fresh store holding student 1 and course 1, CS101 of 3 credits, and nothing else. */
  method OneCourse() returns (s: Store)
    ensures fresh(s) && s.Valid()
    ensures s.students.Keys == {1}
    ensures s.codeIndex == map["CS101" := 1]
    ensures s.courses == map[1 := Course(1, "CS101", "Introduction to Programming", 3)]
    ensures s.enrollments == map[] && s.grades == []
    ensures s.nextCourseId == 2 && s.nextGradeId == 1
  {
    ParseDigit("3", 3);
    UpperCodes();
    s := new Store();
    var sid := s.AddStudent("Ada", "Lovelace", "ada@example.edu", 0);
    assert ValidEmail("ada@example.edu");
    assert sid == Ok(1);
    var cs := s.CreateCourse("cs101", "Introduction to Programming", "3");
    assert cs == Ok(1);
  }

  /** Student 1 enrolled in CS101 (3 credits) and MATH201 (4 credits), and no grades yet. */
  method TwoCourses() returns (s: Store)
    ensures fresh(s) && s.Valid()
    ensures 1 in s.students
    ensures s.codeIndex == map["CS101" := 1, "MATH201" := 2]
    ensures s.courses == map[1 := Course(1, "CS101", "Introduction to Programming", 3),
                             2 := Course(2, "MATH201", "Calculus II", 4)]
    ensures (1, 1) in s.enrollments && (1, 2) in s.enrollments
    ensures s.grades == [] && s.nextGradeId == 1
  {
    ParseDigit("1", 1);
    ParseDigit("4", 4);
    UpperCodes();
    s := OneCourse();
    var math := s.CreateCourse("MATH201", "Calculus II", "4");
    assert math == Ok(2);
    assert s.codeIndex == map["CS101" := 1, "MATH201" := 2];
    var e1 := s.Enroll("1", "CS101", 1);
    assert e1 == Pass;
    var e2 := s.Enroll("1", "math201", 1);
    assert e2 == Pass;
  }

  /** Student 1 with 92 in CS101 (3 credits) and 55 in MATH201 (4 credits), codes typed in either case. */
  method TwoGrades() returns (s: Store)
    ensures fresh(s) && s.Valid()
    ensures 1 in s.students
    ensures s.courses == map[1 := Course(1, "CS101", "Introduction to Programming", 3),
                             2 := Course(2, "MATH201", "Calculus II", 4)]
    ensures s.grades == [Grade(1, 1, 1, 92.0, Some("Final"), 2), Grade(2, 1, 2, 55.0, None, 2)]
  {
    ParseDigit("1", 1);
    UpperCodes();
    s := TwoCourses();
    var g1 := s.RecordGrade("1", "cs101", Some(92.0), "Final", 2);
    assert g1 == Ok(1);
    var g2 := s.RecordGrade("1", "MATH201", Some(55.0), "", 2);
    assert g2 == Ok(2);
  }

  /**
   * A student with 92 in CS101 (3 credits) and 55 in MATH201 (4 credits):
   * the report lists both grades and shows a GPA of 12/7, on probation.
   */
  method ProbationTranscript() returns (report: Result<Report, Error>)
    ensures report.Ok?
    ensures |report.value.lines| == 2
    ensures report.value.lines[0] == ReportLine("CS101", "Introduction to Programming", A, 92.0)
    ensures report.value.lines[1] == ReportLine("MATH201", "Calculus II", F, 55.0)
    ensures report.value.summary == Some(Summary(12.0 / 7.0, AcademicProbation))
  {
    ParseDigit("1", 1);
    var s := TwoGrades();
    var first := Grade(1, 1, 1, 92.0, Some("Final"), 2);
    var second := Grade(2, 1, 2, 55.0, None, 2);
    assert s.GradesOf(1) == [first, second] by {
      assert [first, second][1..] == [second];
    }
    var es := Entries([first, second], s.courses);
    assert es == [Entry(92.0, 3), Entry(55.0, 4)];
    ProbationExample();
    report := s.StudentReport("1");
  }

  /** Enrolling the same pair twice: the first call succeeds, the second reports `AlreadyEnrolled`. */
  method EnrollTwice() returns (first: Outcome<Error>, second: Outcome<Error>)
    ensures first == Pass && second == Fail(AlreadyEnrolled)
  {
    ParseDigit("1", 1);
    UpperCodes();
    var s := OneCourse();
    first := s.Enroll("1", "CS101", 1);
    assert first == Pass;
    second := s.Enroll("1", "cs101", 2);
  }

  /** A grade before the enrollment is refused; after enrolling, the same grade is accepted. */
  method GradeNeedsEnrollment() returns (before: Result<int, Error>, after: Result<int, Error>)
    ensures before == Err(NotEnrolled) && after == Ok(1)
  {
    ParseDigit("1", 1);
    UpperCodes();
    var s := OneCourse();
    before := s.RecordGrade("1", "CS101", Some(88.0), "Quiz", 1);
    assert before == Err(NotEnrolled);
    var enrolled := s.Enroll("1", "CS101", 2);
    assert enrolled == Pass;
    after := s.RecordGrade("1", "CS101", Some(88.0), "Quiz", 3);
  }

  /**
   * Two students with one e-mail: the second is refused and the store holds
   * exactly one student with that address.
   */
  method DuplicateEmail() returns (first: Result<int, Error>, second: Result<int, Error>, holders: set<int>)
    ensures first == Ok(1) && second == Err(Entities.DuplicateEmail)
    ensures holders == {1}
  {
    var s := new Store();
    first := s.AddStudent("Ada", "Lovelace", "ada@example.edu", 0);
    assert ValidEmail("ada@example.edu");
    assert first == Ok(1) && s.students == map[1 := Student(1, "Ada", "Lovelace", "ada@example.edu", 0)];
    assert EmailInUse(s.students, "ada@example.edu") by {
      assert s.students[1].email == "ada@example.edu";
    }
    second := s.AddStudent("Augusta", "King", "ada@example.edu", 1);
    holders := set id | id in s.students && s.students[id].email == "ada@example.edu";
  }

  /**
   * Deleting a graded student: the report then finds no such student, and no
   * grade or enrollment is left.
   */
  method DeleteGradedStudent() returns (removal: Result<Removal, Error>, report: Result<Report, Error>,
                                        grades: seq<Grade>, enrolled: map<Pair, Timestamp>)
    ensures removal == Ok(Deleted)
    ensures report == Err(StudentNotFound)
    ensures grades == [] && enrolled == map[]
  {
    ParseDigit("1", 1);
    UpperCodes();
    var s := OneCourse();
    var e := s.Enroll("1", "CS101", 1);
    assert e == Pass;
    assert s.enrollments == map[(1, 1) := 1];
    var g := s.RecordGrade("1", "CS101", Some(74.0), "", 2);
    assert g == Ok(1);
    LowerIsY("Y");
    removal := s.DeleteStudent("1", "Y");
    assert removal == Ok(Deleted);
    report := s.StudentReport("1");
    grades, enrolled := s.grades, s.enrollments;
  }
}
