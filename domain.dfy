/**
 * The records the dashboard pages read, with the properties they use. The stores hold plain
 * objects (see the Tables module); the pages assume the shapes below, which the stored sample
 * data has: integer ids, text fields as strings, percentages as numbers.
 */
module Domain {

  /** A student as the student table, the attendance page and the reports read it. */
  datatype Student = Student(
    id: int, firstName: string, lastName: string, email: string, studentId: string,
    enrollmentStatus: string, enrollmentDate: string)

  /** A recorded grade. */
  datatype Grade = Grade(
    id: int, studentId: int, courseId: int, assignmentName: string,
    percentage: real, letterGrade: string)

  /** A course. */
  datatype Course = Course(
    id: int, courseName: string, courseCode: string, teacher: string, enrolledStudents: seq<int>)

  /** One attendance mark. */
  datatype Mark = Mark(id: int, studentId: int, courseId: int, date: string, status: string)
}
