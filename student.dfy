/** The student record of src/exam/student.rs. */
module StudentRecord {
  import opened Wrappers

  /** A student: a display name, a grade and the percentile attached to it. */
  datatype Student = Student(name: string, grade: real, percentile: real)

  /**
   * The record as a later revision of the crate shaped it: percentile and rank
   * are optional and stay absent until the statistics have been attached.
   * The table printers of src/exam/mod.rs and src/exam/summary.rs read this shape.
   */
  datatype Entry = Entry(name: string, grade: real, percentile: Option<real>, rank: Option<nat>)

  /** `Student::new`: keeps name and grade as given and starts the percentile at 0. */
  function NewStudent(name: string, grade: real): (s: Student)
    ensures s.name == name && s.grade == grade && s.percentile == 0.0
  {
    Student(name, grade, 0.0)
  }

  /** The derived `PartialEq`: two students are equal exactly when all three fields are. */
  lemma StudentEquality(a: Student, b: Student)
    ensures a == b <==> (a.name == b.name && a.grade == b.grade && a.percentile == b.percentile)
  {
  }

  /** Two freshly created students are equal exactly when they were given the same name and grade. */
  lemma NewStudentInjective(n1: string, g1: real, n2: string, g2: real)
    ensures NewStudent(n1, g1) == NewStudent(n2, g2) <==> (n1 == n2 && g1 == g2)
  {
  }
}
