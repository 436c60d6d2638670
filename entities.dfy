/**
 * The records the store keeps. Student rows are replaced field by field by
 * `UpdateStudent`; course and grade rows are written once and never altered.
 * Ids are the store's own numbers; timestamps are wall-clock readings passed
 * in by the caller and never inspected.
 */
module Entities {

  import opened Wrappers

  /** A reading of the wall clock, opaque to the model. */
  type Timestamp = int

  /** A student row: names and e-mail are required, the e-mail is unique across students. */
  datatype Student = Student(
    id: int,
    firstName: string,
    lastName: string,
    email: string,
    enrollmentDate: Timestamp)

  /** A course row: the code is upper-case and unique, the name required, the credits any integer. */
  datatype Course = Course(id: int, code: string, name: string, credits: int)

  /**
   * A grade row: one score for one student in one course, with an optional
   * assignment name. Several grades may share the same student and course.
   */
  datatype Grade = Grade(
    id: int,
    studentId: int,
    courseId: int,
    score: real,
    assignmentName: Option<string>,
    dateRecorded: Timestamp)

  /** The failures an operation reports; each one leaves the store as it was. */
  datatype Error =
    | MissingField      // a required text was left blank
    | InvalidEmail      // the e-mail lacks an '@' or a '.'
    | DuplicateEmail    // another student already has this e-mail
    | InvalidCredits    // the credits text is not an integer
    | DuplicateCode     // a course with this code already exists
    | InvalidId         // the student id text is not an integer
    | StudentNotFound
    | CourseNotFound
    | AlreadyEnrolled
    | NotEnrolled
    | ScoreOutOfRange   // the score is not a number in [0, 100]

  /** The assignment name a grade stores: a blank answer is recorded as no name at all. */
  function AssignmentOrNone(text: string): (a: Option<string>)
    ensures a.None? <==> text == ""
    ensures a.Some? ==> a.value == text
  {
    if text == "" then None else Some(text)
  }

  /** The value a partial update keeps for one field: a blank answer keeps the current value. */
  function KeepIfBlank(answer: string, current: string): (v: string)
    ensures answer != "" ==> v == answer
    ensures answer == "" ==> v == current
    ensures current != "" ==> v != ""
  {
    if answer == "" then current else answer
  }
}
