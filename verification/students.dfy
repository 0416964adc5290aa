/** The student record of `student.py`. */
module Students {

  /**
   * A student. The source stores the GPA as a Python float; it is only ever
   * negated and compared, so it is modelled here as an integer number of
   * hundredths (3.85 is 385), which keeps the order of all two-decimal GPAs.
   */
  datatype Student = Student(id: string, name: string, course: string, year: int, gpa: int)
}
