/** The records the services look up but do not change here: students, teachers
    and classes, with the existence checks of src/service/class.service.js and
    src/service/student.service.js. */
module School {
  import opened Wrappers
  import opened Errors

  datatype Student = Student(id: int, nisn: string, name: string)

  datatype Teacher = Teacher(id: int, nip: string, name: string)

  datatype Parent = Parent(id: int, name: string)

  /** A class as the attendance service reads it: its roster is the sequence of
      its enrolled students, in the order the store lists them. */
  datatype ClassInfo = ClassInfo(id: int, name: string, teacher: Option<Teacher>, roster: seq<Student>)

  /** The class and student tables, by id, and the parent of each student who
      has one, by student id. */
  datatype Directory = Directory(
    classes: map<int, ClassInfo>, students: map<int, Student>, parentOf: map<int, Parent>)

  /** Every record is stored under its own id, as a table keyed by id is. */
  predicate Keyed(dir: Directory) {
    && (forall k :: k in dir.classes ==> dir.classes[k].id == k)
    && (forall k :: k in dir.students ==> dir.students[k].id == k)
  }

  /** The truthiness of a numeric id: null (None) and 0 are falsy. */
  predicate IdPresent(id: Option<int>) {
    id.Some? && id.value != 0
  }

  /** The truthiness of a request string: undefined (None) and "" are falsy. */
  predicate TextPresent(s: Option<string>) {
    s.Some? && s.value != ""
  }

  /** `ClassService.checkClassMustBeExist(classId)`: the class with that id, or
      BadRequest for a missing id, or NotFound for an unknown one. */
  function CheckClassMustBeExist(dir: Directory, classId: Option<int>): (r: Result<ClassInfo, Failure>)
    ensures r.Success? <==> IdPresent(classId) && classId.value in dir.classes
    ensures r.Success? ==> r.value == dir.classes[classId.value]
    ensures !IdPresent(classId) ==> r == Failure(ApiError(BadRequest, "Class id is required"))
    ensures IdPresent(classId) && classId.value !in dir.classes ==> r == Failure(ApiError(NotFound, "Class not found"))
  {
    if !IdPresent(classId) then Failure(ApiError(BadRequest, "Class id is required"))
    else if classId.value !in dir.classes then Failure(ApiError(NotFound, "Class not found"))
    else Success(dir.classes[classId.value])
  }

  /** `StudentService.checkStudentMustBeExist(studentId)`: the student with that
      id, or BadRequest for a missing id, or NotFound for an unknown one. */
  function CheckStudentMustBeExist(dir: Directory, studentId: Option<int>): (r: Result<Student, Failure>)
    ensures r.Success? <==> IdPresent(studentId) && studentId.value in dir.students
    ensures r.Success? ==> r.value == dir.students[studentId.value]
    ensures !IdPresent(studentId) ==> r == Failure(ApiError(BadRequest, "Student id is required"))
    ensures IdPresent(studentId) && studentId.value !in dir.students ==> r == Failure(ApiError(NotFound, "Student not found"))
  {
    if !IdPresent(studentId) then Failure(ApiError(BadRequest, "Student id is required"))
    else if studentId.value !in dir.students then Failure(ApiError(NotFound, "Student not found"))
    else Success(dir.students[studentId.value])
  }
}
