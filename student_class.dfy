/** The enrollment service (src/service/student-class.service.js): the
    studentClass table that links students to classes, its lookup, the add and
    remove operations, and the JSON shapes the service answers with. */
module StudentClass {
  import opened Wrappers
  import opened Errors
  import opened CheckRole
  import opened School

  // ---------------------------------------------------------------------
  // JSON shapes

  /** `x || null` for a number: 0 becomes null. */
  function IntOrNull(x: int): (r: Option<int>)
    ensures r.Some? <==> x != 0
    ensures r.Some? ==> r.value == x
  {
    if x != 0 then Some(x) else None
  }

  /** `x || null` for a string: "" becomes null. */
  function TextOrNull(s: string): (r: Option<string>)
    ensures r.Some? <==> s != ""
    ensures r.Some? ==> r.value == s
  {
    if s != "" then Some(s) else None
  }

  datatype StudentRef = StudentRef(id: Option<int>, name: Option<string>, nisn: Option<string>)
  datatype ClassRef = ClassRef(id: Option<int>, name: Option<string>)
  datatype TeacherRef = TeacherRef(id: Option<int>, nip: Option<string>, name: Option<string>)
  datatype ParentRef = ParentRef(id: Option<int>, name: Option<string>)

  function StudentRefOf(s: Student): StudentRef {
    StudentRef(IntOrNull(s.id), TextOrNull(s.name), TextOrNull(s.nisn))
  }

  function ClassRefOf(c: ClassInfo): ClassRef {
    ClassRef(IntOrNull(c.id), TextOrNull(c.name))
  }

  /** The answer of findStudentClass and addStudentToClass. */
  datatype StudentClassJson = StudentClassJson(id: int, student: StudentRef, cls: ClassRef)

  /** `toStudentClassJSON(studentClass)`, the row with its student and class. */
  function ToStudentClassJson(id: int, student: Student, cls: ClassInfo): (j: StudentClassJson)
    ensures j.id == id
    ensures j.student.id == IntOrNull(student.id) && j.student.nisn == TextOrNull(student.nisn)
    ensures j.student.name == TextOrNull(student.name)
    ensures j.cls.id == IntOrNull(cls.id) && j.cls.name == TextOrNull(cls.name)
  {
    StudentClassJson(id, StudentRefOf(student), ClassRefOf(cls))
  }

  datatype ClassSummary = ClassSummary(id: int, name: string, teacher: TeacherRef)

  /** `{ id: teacher?.id || null, nip: teacher?.nip || null, name: teacher?.name || null }`. */
  function TeacherRefOf(teacher: Option<Teacher>): (r: TeacherRef)
    ensures teacher.None? ==> r == TeacherRef(None, None, None)
    ensures teacher.Some? ==> r.id == IntOrNull(teacher.value.id)
    ensures teacher.Some? ==> r.nip == TextOrNull(teacher.value.nip) && r.name == TextOrNull(teacher.value.name)
  {
    match teacher
    case None => TeacherRef(None, None, None)
    case Some(t) => TeacherRef(IntOrNull(t.id), TextOrNull(t.nip), TextOrNull(t.name))
  }

  /** The answer of findStudentsInClass. */
  datatype StudentInClassJson = StudentInClassJson(
    cls: ClassSummary, studentCount: nat, students: Option<seq<StudentRef>>)

  /** `toStudentInClassJSON(classes, studentClass, { isWithStudent })`: the class
      with its teacher, the number of enrollment rows, and, when asked for, one
      entry per row in row order. */
  function ToStudentInClassJson(classes: ClassInfo, studentClass: seq<Student>, isWithStudent: bool)
    : (j: StudentInClassJson)
    ensures j.cls.id == classes.id && j.cls.name == classes.name
    ensures classes.teacher.None? ==> j.cls.teacher == TeacherRef(None, None, None)
    ensures classes.teacher.Some? ==> var t := classes.teacher.value;
      j.cls.teacher == TeacherRef(IntOrNull(t.id), TextOrNull(t.nip), TextOrNull(t.name))
    ensures j.studentCount == |studentClass|
    ensures j.students.Some? <==> isWithStudent
    ensures j.students.Some? ==> |j.students.value| == |studentClass|
    ensures j.students.Some? ==> forall i :: 0 <= i < |studentClass| ==> j.students.value[i] == StudentRefOf(studentClass[i])
  {
    StudentInClassJson(
      ClassSummary(classes.id, classes.name, TeacherRefOf(classes.teacher)),
      |studentClass|,
      if isWithStudent then Some(seq(|studentClass|, i requires 0 <= i < |studentClass| => StudentRefOf(studentClass[i])))
      else None)
  }

  datatype StudentSummary = StudentSummary(id: int, name: string, nisn: Option<string>, parent: ParentRef)

  /** The answer of findClassesOfStudent. */
  datatype ClassInStudentJson = ClassInStudentJson(
    student: StudentSummary, classCount: nat, classes: Option<seq<ClassRef>>)

  /** `toClassInStudentJSON(student, studentClass, { isWithClass })`: the student
      with the parent, the number of enrollment rows, and, when asked for, one
      entry per row in row order. */
  function ToClassInStudentJson(student: Student, parent: Option<Parent>, studentClass: seq<ClassInfo>, isWithClass: bool)
    : (j: ClassInStudentJson)
    ensures j.student.id == student.id && j.student.name == student.name
    ensures j.student.nisn == TextOrNull(student.nisn)
    ensures parent.None? ==> j.student.parent == ParentRef(None, None)
    ensures parent.Some? ==> j.student.parent == ParentRef(IntOrNull(parent.value.id), TextOrNull(parent.value.name))
    ensures j.classCount == |studentClass|
    ensures j.classes.Some? <==> isWithClass
    ensures j.classes.Some? ==> |j.classes.value| == |studentClass|
    ensures j.classes.Some? ==> forall i :: 0 <= i < |studentClass| ==> j.classes.value[i] == ClassRefOf(studentClass[i])
  {
    var parentRef := match parent
      case None => ParentRef(None, None)
      case Some(p) => ParentRef(IntOrNull(p.id), TextOrNull(p.name));
    ClassInStudentJson(
      StudentSummary(student.id, student.name, TextOrNull(student.nisn), parentRef),
      |studentClass|,
      if isWithClass then Some(seq(|studentClass|, i requires 0 <= i < |studentClass| => ClassRefOf(studentClass[i])))
      else None)
  }

  // ---------------------------------------------------------------------
  // The studentClass table as a sequence of rows

  datatype Enrollment = Enrollment(id: int, studentId: int, classId: int)

  predicate Links(e: Enrollment, studentId: int, classId: int) {
    e.studentId == studentId && e.classId == classId
  }

  /** The enrollment relation: the (student, class) pairs of the rows. */
  function PairsOf(rows: seq<Enrollment>): set<(int, int)> {
    set i | 0 <= i < |rows| :: (rows[i].studentId, rows[i].classId)
  }

  /** `findFirst({ studentId, classId })`: the position of the first row linking
      the student to the class. */
  function FindFirst(rows: seq<Enrollment>, studentId: int, classId: int): (r: Option<nat>)
    ensures r.Some? ==> r.value < |rows| && Links(rows[r.value], studentId, classId)
    ensures r.Some? ==> forall i :: 0 <= i < r.value ==> !Links(rows[i], studentId, classId)
    ensures r.None? <==> forall i :: 0 <= i < |rows| ==> !Links(rows[i], studentId, classId)
  {
    if rows == [] then None
    else if Links(rows[0], studentId, classId) then Some(0)
    else match FindFirst(rows[1..], studentId, classId)
      case None => None
      case Some(k) => Some(k + 1)
  }

  /** `delete({ where: { id } })`: the rows without the one of that id. */
  function DeleteById(rows: seq<Enrollment>, id: int): (r: seq<Enrollment>)
    ensures forall e :: e in r <==> e in rows && e.id != id
  {
    if rows == [] then []
    else if rows[0].id == id then DeleteById(rows[1..], id)
    else [rows[0]] + DeleteById(rows[1..], id)
  }

  /** No two rows share an id. */
  predicate DistinctIds(rows: seq<Enrollment>) {
    forall i, j :: 0 <= i < j < |rows| ==> rows[i].id != rows[j].id
  }

  /** No two rows link the same student to the same class. */
  predicate DistinctPairs(rows: seq<Enrollment>) {
    forall i, j :: 0 <= i < j < |rows| ==> !Links(rows[j], rows[i].studentId, rows[i].classId)
  }

  lemma {:induction false} DeleteAbsentId(rows: seq<Enrollment>, id: int)
    requires forall i :: 0 <= i < |rows| ==> rows[i].id != id
    ensures DeleteById(rows, id) == rows
    decreases |rows|
  {
    if rows != [] {
      DeleteAbsentId(rows[1..], id);
    }
  }

  /** With distinct ids, deleting the id of row k removes that row alone. */
  lemma {:induction false} DeleteByIdAt(rows: seq<Enrollment>, k: nat)
    requires k < |rows| && DistinctIds(rows)
    ensures DeleteById(rows, rows[k].id) == rows[..k] + rows[k + 1..]
    decreases k
  {
    if k == 0 {
      DeleteAbsentId(rows[1..], rows[0].id);
    } else {
      DistinctIdsTail(rows);
      DeleteByIdAt(rows[1..], k - 1);
      SplitAround(rows, k);
    }
  }

  lemma DistinctIdsTail(rows: seq<Enrollment>)
    requires rows != [] && DistinctIds(rows)
    ensures DistinctIds(rows[1..]) && rows[1..] != [] ==> rows[1..][0].id != rows[0].id
  {
    forall i, j | 0 <= i < j < |rows| - 1 ensures rows[1..][i].id != rows[1..][j].id {
      assert rows[1..][i] == rows[i + 1] && rows[1..][j] == rows[j + 1];
    }
  }

  /** Row k of a sequence and the rows around it, seen from its tail. */
  lemma SplitAround(rows: seq<Enrollment>, k: nat)
    requires 0 < k < |rows|
    ensures rows[1..][k - 1] == rows[k]
    ensures rows[..k] + rows[k + 1..] == [rows[0]] + (rows[1..][..k - 1] + rows[1..][k..])
  {
    assert rows[..k] == [rows[0]] + rows[1..][..k - 1];
    assert rows[k + 1..] == rows[1..][k..];
  }

  /** Round trip: a row appended for a pair that was not enrolled is the row the
      next removal of that pair finds, and deleting it gives the rows back. */
  lemma AddThenRemove(rows: seq<Enrollment>, e: Enrollment)
    requires (e.studentId, e.classId) !in PairsOf(rows)
    requires forall i :: 0 <= i < |rows| ==> rows[i].id != e.id
    ensures FindFirst(rows + [e], e.studentId, e.classId) == Some(|rows|)
    ensures DeleteById(rows + [e], e.id) == rows
  {
    var s := rows + [e];
    forall i | 0 <= i < |rows| ensures !Links(s[i], e.studentId, e.classId) {
      assert s[i] == rows[i];
      assert (rows[i].studentId, rows[i].classId) in PairsOf(rows);
    }
    assert Links(s[|rows|], e.studentId, e.classId);
    DeleteAppended(rows, e);
  }

  lemma {:induction false} DeleteAppended(rows: seq<Enrollment>, e: Enrollment)
    requires forall i :: 0 <= i < |rows| ==> rows[i].id != e.id
    ensures DeleteById(rows + [e], e.id) == rows
    decreases |rows|
  {
    if rows == [] {
      assert [e][1..] == [];
    } else {
      assert (rows + [e])[1..] == rows[1..] + [e];
      DeleteAppended(rows[1..], e);
    }
  }

  /** Appending a row adds its pair to the relation. */
  lemma PairsAppend(rows: seq<Enrollment>, e: Enrollment)
    ensures PairsOf(rows + [e]) == PairsOf(rows) + {(e.studentId, e.classId)}
  {
    var s := rows + [e];
    forall pr | pr in PairsOf(s) ensures pr in PairsOf(rows) + {(e.studentId, e.classId)} {
      var i :| 0 <= i < |s| && pr == (s[i].studentId, s[i].classId);
      if i < |rows| {
        assert s[i] == rows[i];
      }
    }
    forall pr | pr in PairsOf(rows) ensures pr in PairsOf(s) {
      var i :| 0 <= i < |rows| && pr == (rows[i].studentId, rows[i].classId);
      assert s[i] == rows[i];
    }
    assert s[|rows|] == e;
  }

  /** Removing the one row of a pair takes that pair, and only it, out of the relation. */
  lemma PairsRemoveAt(rows: seq<Enrollment>, k: nat)
    requires k < |rows| && DistinctPairs(rows)
    ensures PairsOf(rows[..k] + rows[k + 1..]) == PairsOf(rows) - {(rows[k].studentId, rows[k].classId)}
  {
    var s := rows[..k] + rows[k + 1..];
    var gone := (rows[k].studentId, rows[k].classId);
    forall pr | pr in PairsOf(s) ensures pr in PairsOf(rows) - {gone} {
      var i :| 0 <= i < |s| && pr == (s[i].studentId, s[i].classId);
      var j := if i < k then i else i + 1;
      assert s[i] == rows[j];
      assert j != k;
    }
    forall pr | pr in PairsOf(rows) - {gone} ensures pr in PairsOf(s) {
      var j :| 0 <= j < |rows| && pr == (rows[j].studentId, rows[j].classId);
      assert j != k;
      var i := if j < k then j else j - 1;
      assert s[i] == rows[j];
    }
  }

  /** Removing a row keeps the ids and the pairs of the others distinct. */
  lemma RemoveAtKeepsDistinct(rows: seq<Enrollment>, k: nat, bound: int)
    requires k < |rows| && DistinctIds(rows) && DistinctPairs(rows)
    requires forall i :: 0 <= i < |rows| ==> rows[i].id < bound
    ensures var s := rows[..k] + rows[k + 1..];
      DistinctIds(s) && DistinctPairs(s) && forall i :: 0 <= i < |s| ==> s[i].id < bound
  {
    var s := rows[..k] + rows[k + 1..];
    forall i | 0 <= i < |s| ensures s[i] == rows[if i < k then i else i + 1] {
    }
  }

  /** The relation of a non-empty table is the first row's pair and the rest's. */
  lemma PairsOfCons(rows: seq<Enrollment>)
    requires rows != []
    ensures PairsOf(rows) == {(rows[0].studentId, rows[0].classId)} + PairsOf(rows[1..])
  {
    forall pr | pr in PairsOf(rows) ensures pr in {(rows[0].studentId, rows[0].classId)} + PairsOf(rows[1..]) {
      var i :| 0 <= i < |rows| && pr == (rows[i].studentId, rows[i].classId);
      if i > 0 { assert rows[i] == rows[1..][i - 1]; }
    }
    forall pr | pr in PairsOf(rows[1..]) ensures pr in PairsOf(rows) {
      var i :| 0 <= i < |rows[1..]| && pr == (rows[1..][i].studentId, rows[1..][i].classId);
      assert rows[1..][i] == rows[i + 1];
    }
  }

  /** The students of the rows of a class, in row order: the class roster. */
  function StudentsIn(rows: seq<Enrollment>, classId: int): (ids: seq<int>)
    ensures forall sid :: sid in ids <==> (sid, classId) in PairsOf(rows)
  {
    if rows == [] then []
    else
      assert PairsOf(rows) == {(rows[0].studentId, rows[0].classId)} + PairsOf(rows[1..]) by {
        PairsOfCons(rows);
      }
      (if rows[0].classId == classId then [rows[0].studentId] else []) + StudentsIn(rows[1..], classId)
  }

  /** Appending a row for a class puts its student last in that class's roster
      and leaves the rosters of the other classes as they were. */
  lemma {:induction false} StudentsInAppend(rows: seq<Enrollment>, e: Enrollment, classId: int)
    ensures StudentsIn(rows + [e], classId)
         == StudentsIn(rows, classId) + (if e.classId == classId then [e.studentId] else [])
    decreases |rows|
  {
    if rows != [] {
      assert (rows + [e])[1..] == rows[1..] + [e];
      StudentsInAppend(rows[1..], e, classId);
    } else {
      assert [e][1..] == [];
    }
  }

  /** The classes of the rows of a student, in row order. */
  function ClassesOf(rows: seq<Enrollment>, studentId: int): (ids: seq<int>)
    ensures forall cid :: cid in ids <==> (studentId, cid) in PairsOf(rows)
  {
    if rows == [] then []
    else
      assert PairsOf(rows) == {(rows[0].studentId, rows[0].classId)} + PairsOf(rows[1..]) by {
        PairsOfCons(rows);
      }
      (if rows[0].studentId == studentId then [rows[0].classId] else []) + ClassesOf(rows[1..], studentId)
  }

  // ---------------------------------------------------------------------
  // The service

  datatype EnrollRequest = EnrollRequest(studentId: Option<int>, classId: Option<int>, loggedUserRole: Option<string>)

  const IdsMissing: Failure := ApiError(BadRequest, "Student id and class id is required")
  const AlreadyInClass: Failure := ApiError(BadRequest, "Student already in class!")
  const NotInClass: Failure := ApiError(BadRequest, "Student not in class!")
  const NotAFunction: Failure := TypeError("ClassService.findClassMustExist is not a function")

  /** `findStudentClass` as written: once both ids are present it calls
      `ClassService.findClassMustExist`, which ClassService does not define, so
      the call throws a TypeError whatever the table holds. */
  function FindStudentClassAsWritten(studentId: Option<int>, classId: Option<int>): (r: Result<Option<StudentClassJson>, Failure>)
    ensures !IdPresent(studentId) || !IdPresent(classId) ==> r == Failure(IdsMissing)
    ensures IdPresent(studentId) && IdPresent(classId) ==> r == Failure(NotAFunction)
  {
    if !IdPresent(studentId) || !IdPresent(classId) then Failure(IdsMissing)
    else Failure(NotAFunction)
  }

  /** `findStudentClass` with the existence checks the services define (the class,
      then the student): the enrollment of the pair as JSON, or null when the
      student is not in the class. */
  function FindStudentClass(dir: Directory, rows: seq<Enrollment>, studentId: Option<int>, classId: Option<int>)
    : (r: Result<Option<StudentClassJson>, Failure>)
    ensures !IdPresent(studentId) || !IdPresent(classId) ==> r == Failure(IdsMissing)
    ensures IdPresent(studentId) && IdPresent(classId) && classId.value !in dir.classes
        ==> r == Failure(ApiError(NotFound, "Class not found"))
    ensures IdPresent(studentId) && IdPresent(classId) && classId.value in dir.classes && studentId.value !in dir.students
        ==> r == Failure(ApiError(NotFound, "Student not found"))
    ensures r.Success? <==>
      IdPresent(studentId) && IdPresent(classId) && classId.value in dir.classes && studentId.value in dir.students
    ensures r.Success? ==> (r.value.None? <==> (dir.students[studentId.value].id, dir.classes[classId.value].id) !in PairsOf(rows))
    ensures r.Success? && r.value.Some? ==>
      var s, c := dir.students[studentId.value], dir.classes[classId.value];
      && FindFirst(rows, s.id, c.id).Some?
      && r.value.value == ToStudentClassJson(rows[FindFirst(rows, s.id, c.id).value].id, s, c)
  {
    if !IdPresent(studentId) || !IdPresent(classId) then Failure(IdsMissing)
    else
      var existedClass := CheckClassMustBeExist(dir, classId);
      if existedClass.Failure? then Failure(existedClass.error)
      else
        var existedStudent := CheckStudentMustBeExist(dir, studentId);
        if existedStudent.Failure? then Failure(existedStudent.error)
        else
          var s, c := existedStudent.value, existedClass.value;
          match FindFirst(rows, s.id, c.id)
          case None =>
            assert (s.id, c.id) !in PairsOf(rows);
            Success(None)
          case Some(k) =>
            assert (rows[k].studentId, rows[k].classId) in PairsOf(rows);
            Success(Some(ToStudentClassJson(rows[k].id, s, c)))
  }

  /** An enrolled pair that the corrected lookup finds is one the lookup as
      written rejects with a TypeError. */
  lemma AsWrittenRejectsEnrolledPair()
    ensures var dir := Directory(
        map[1 := ClassInfo(1, "1A", None, [])], map[7 := Student(7, "0001", "Ani")], map[]);
      var rows := [Enrollment(3, 7, 1)];
      && FindStudentClass(dir, rows, Some(7), Some(1)) == Success(Some(ToStudentClassJson(3, Student(7, "0001", "Ani"), ClassInfo(1, "1A", None, []))))
      && FindStudentClassAsWritten(Some(7), Some(1)) == Failure(NotAFunction)
  {
    var rows := [Enrollment(3, 7, 1)];
    assert FindFirst(rows, 7, 1) == Some(0);
  }

  /** The class as checkClassMustBeExist selects it: the teacher's id and nip,
      and the teacher's name only under `teacher.user`. A `teacher.name` read by
      the mapper is then undefined, which `|| null` treats like an empty name. */
  function SelectedByClassLookup(c: ClassInfo): (r: ClassInfo)
    ensures r.id == c.id && r.name == c.name && r.roster == c.roster
    ensures r.teacher.Some? <==> c.teacher.Some?
    ensures c.teacher.Some? ==> && r.teacher.value.id == c.teacher.value.id && r.teacher.value.nip == c.teacher.value.nip
                                && TextOrNull(r.teacher.value.name) == None
  {
    match c.teacher
    case None => c
    case Some(t) => c.(teacher := Some(t.(name := "")))
  }

  /** Students are found in a class with the lookups the services define. */
  function FindStudentsInClass(dir: Directory, rows: seq<Enrollment>, classId: Option<int>, loggedUserRole: Option<string>)
    : (r: Result<StudentInClassJson, Failure>)
    requires forall i :: 0 <= i < |rows| ==> rows[i].studentId in dir.students
    ensures !Allowed(Some(IsAllRole), loggedUserRole) ==> r.Failure? && r.error.ApiError? && r.error.code == Forbidden
    ensures r.Success? <==> Allowed(Some(IsAllRole), loggedUserRole) && IdPresent(classId) && classId.value in dir.classes
    ensures r.Success? ==> r.value.studentCount == |StudentsIn(rows, dir.classes[classId.value].id)|
    ensures r.Success? ==> r.value.students.Some? && |r.value.students.value| == r.value.studentCount
    ensures r.Success? ==> var c := dir.classes[classId.value];
      && r.value.cls.id == c.id && r.value.cls.name == c.name
      && r.value.cls.teacher.id == (if c.teacher.Some? then IntOrNull(c.teacher.value.id) else None)
      && r.value.cls.teacher.nip == (if c.teacher.Some? then TextOrNull(c.teacher.value.nip) else None)
      && r.value.cls.teacher.name == None
    ensures r.Success? && Keyed(dir) ==> r.value.cls.id == classId.value
    ensures r.Success? ==> var ids := StudentsIn(rows, dir.classes[classId.value].id);
      forall i :: 0 <= i < |ids| ==> ids[i] in dir.students && r.value.students.value[i] == StudentRefOf(dir.students[ids[i]])
  {
    var role := CheckAllowedRole(Some(IsAllRole), loggedUserRole);
    if role.Failure? then Failure(role.error)
    else
      var existedClass := CheckClassMustBeExist(dir, classId);
      if existedClass.Failure? then Failure(existedClass.error)
      else
        var ids := StudentsIn(rows, existedClass.value.id);
        assert forall i :: 0 <= i < |ids| ==> ids[i] in dir.students by {
          forall i | 0 <= i < |ids| ensures ids[i] in dir.students {
            assert ids[i] in ids;
            var j :| 0 <= j < |rows| && (ids[i], existedClass.value.id) == (rows[j].studentId, rows[j].classId);
          }
        }
        var students := seq(|ids|, i requires 0 <= i < |ids| => dir.students[ids[i]]);
        Success(ToStudentInClassJson(SelectedByClassLookup(existedClass.value), students, true))
  }

  /** `findClassesOfStudent` with the existence check the student service
      defines: the student with the parent, and the classes of its rows. */
  function FindClassesOfStudent(dir: Directory, rows: seq<Enrollment>, studentId: Option<int>, loggedUserRole: Option<string>)
    : (r: Result<ClassInStudentJson, Failure>)
    requires forall i :: 0 <= i < |rows| ==> rows[i].classId in dir.classes
    ensures !Allowed(Some(IsAllRole), loggedUserRole) ==> r.Failure? && r.error.ApiError? && r.error.code == Forbidden
    ensures Allowed(Some(IsAllRole), loggedUserRole) && !IdPresent(studentId)
        ==> r == Failure(ApiError(BadRequest, "Student id is required"))
    ensures r.Success? <==> Allowed(Some(IsAllRole), loggedUserRole) && IdPresent(studentId) && studentId.value in dir.students
    ensures r.Success? ==> var s := dir.students[studentId.value];
      && r.value.student.id == s.id && r.value.student.name == s.name && r.value.student.nisn == TextOrNull(s.nisn)
    ensures r.Success? && dir.students[studentId.value].id in dir.parentOf ==>
      var p := dir.parentOf[dir.students[studentId.value].id];
      r.value.student.parent == ParentRef(IntOrNull(p.id), TextOrNull(p.name))
    ensures r.Success? && dir.students[studentId.value].id !in dir.parentOf ==> r.value.student.parent == ParentRef(None, None)
    ensures r.Success? ==> var ids := ClassesOf(rows, dir.students[studentId.value].id);
      && r.value.classCount == |ids| && r.value.classes.Some? && |r.value.classes.value| == |ids|
      && forall i :: 0 <= i < |ids| ==> ids[i] in dir.classes && r.value.classes.value[i] == ClassRefOf(dir.classes[ids[i]])
  {
    var role := CheckAllowedRole(Some(IsAllRole), loggedUserRole);
    if role.Failure? then Failure(role.error)
    else
      var existedStudent := CheckStudentMustBeExist(dir, studentId);
      if existedStudent.Failure? then Failure(existedStudent.error)
      else
        var s := existedStudent.value;
        var ids := ClassesOf(rows, s.id);
        assert forall i :: 0 <= i < |ids| ==> ids[i] in dir.classes by {
          forall i | 0 <= i < |ids| ensures ids[i] in dir.classes {
            assert ids[i] in ids;
            var j :| 0 <= j < |rows| && (s.id, ids[i]) == (rows[j].studentId, rows[j].classId);
          }
        }
        var classes := seq(|ids|, i requires 0 <= i < |ids| => dir.classes[ids[i]]);
        var parent := if s.id in dir.parentOf then Some(dir.parentOf[s.id]) else None;
        Success(ToClassInStudentJson(s, parent, classes, true))
  }

  class EnrollmentTable {
    var rows: seq<Enrollment>
    var nextId: int

    /** Row ids are below the next id to hand out and distinct, and no pair is
        enrolled twice. */
    ghost predicate Valid()
      reads this
    {
      && (forall i :: 0 <= i < |rows| ==> rows[i].id < nextId)
      && DistinctIds(rows)
      && DistinctPairs(rows)
    }

    constructor ()
      ensures Valid() && rows == [] && nextId == 1
    {
      rows := [];
      nextId := 1;
    }

    /** `addStudentToClass`: the role must be one of all roles, and the pair must
        not be enrolled yet; then one row is appended for it. A failure writes
        nothing. */
    method AddStudentToClass(dir: Directory, req: EnrollRequest) returns (r: Result<StudentClassJson, Failure>)
      requires Valid()
      modifies this
      ensures Valid()
      ensures var role := CheckAllowedRole(Some(IsAllRole), req.loggedUserRole);
        var found := FindStudentClass(dir, old(rows), req.studentId, req.classId);
        && (role.Failure? ==> r == Failure(role.error))
        && (role.Success? && found.Failure? ==> r == Failure(found.error))
        && (role.Success? && found.Success? && found.value.Some? ==> r == Failure(AlreadyInClass))
        && (r.Success? <==> role.Success? && found.Success? && found.value.None?)
      ensures r.Failure? ==> rows == old(rows) && nextId == old(nextId)
      ensures r.Success? ==>
        var s, c := dir.students[req.studentId.value], dir.classes[req.classId.value];
        && rows == old(rows) + [Enrollment(old(nextId), s.id, c.id)]
        && nextId == old(nextId) + 1
        && PairsOf(rows) == PairsOf(old(rows)) + {(s.id, c.id)}
        && r.value == ToStudentClassJson(old(nextId), s, c)
    {
      var role := CheckAllowedRole(Some(IsAllRole), req.loggedUserRole);
      if role.Failure? {
        return Failure(role.error);
      }
      var existed := FindStudentClass(dir, rows, req.studentId, req.classId);
      if existed.Failure? {
        return Failure(existed.error);
      }
      if existed.value.Some? {
        return Failure(AlreadyInClass);
      }
      var s, c := dir.students[req.studentId.value], dir.classes[req.classId.value];
      var e := Enrollment(nextId, s.id, c.id);
      PairsAppend(rows, e);
      forall i | 0 <= i < |rows| ensures !Links(e, rows[i].studentId, rows[i].classId) {
        assert (rows[i].studentId, rows[i].classId) in PairsOf(rows);
      }
      rows := rows + [e];
      nextId := nextId + 1;
      r := Success(ToStudentClassJson(e.id, s, c));
    }

    /** `removeStudentFromClass`: the role must be one of all roles, and the pair
        must be enrolled; then its row is deleted and returned. A failure writes
        nothing. */
    method RemoveStudentFromClass(dir: Directory, req: EnrollRequest) returns (r: Result<StudentClassJson, Failure>)
      requires Valid()
      modifies this
      ensures Valid() && nextId == old(nextId)
      ensures var role := CheckAllowedRole(Some(IsAllRole), req.loggedUserRole);
        var found := FindStudentClass(dir, old(rows), req.studentId, req.classId);
        && (role.Failure? ==> r == Failure(role.error))
        && (role.Success? && found.Failure? ==> r == Failure(found.error))
        && (role.Success? && found.Success? && found.value.None? ==> r == Failure(NotInClass))
        && (r.Success? <==> role.Success? && found.Success? && found.value.Some?)
        && (r.Success? ==> r == Success(found.value.value))
      ensures r.Failure? ==> rows == old(rows)
      ensures r.Success? ==>
        var s, c := dir.students[req.studentId.value], dir.classes[req.classId.value];
        && rows == DeleteById(old(rows), r.value.id)
        && PairsOf(rows) == PairsOf(old(rows)) - {(s.id, c.id)}
    {
      var role := CheckAllowedRole(Some(IsAllRole), req.loggedUserRole);
      if role.Failure? {
        return Failure(role.error);
      }
      var existed := FindStudentClass(dir, rows, req.studentId, req.classId);
      if existed.Failure? {
        return Failure(existed.error);
      }
      if existed.value.None? {
        return Failure(NotInClass);
      }
      var s, c := dir.students[req.studentId.value], dir.classes[req.classId.value];
      var k := FindFirst(rows, s.id, c.id).value;
      DeleteByIdAt(rows, k);
      PairsRemoveAt(rows, k);
      RemoveAtKeepsDistinct(rows, k, nextId);
      rows := DeleteById(rows, existed.value.value.id);
      r := Success(existed.value.value);
    }
  }
}
