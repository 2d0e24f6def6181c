/** The attendance service (src/service/attendance.service.js): the daily
    attendance sheet of a class, which reconciles the stored records with the
    class roster, and the single-record create-or-update. */
module Attendance {
  import opened Wrappers
  import opened Errors
  import opened JsText
  import opened EcmaDate
  import opened DateHelper
  import opened CheckRole
  import opened School

  // ---------------------------------------------------------------------
  // Stored records

  /** The attendance table is keyed by class, student and day. */
  datatype Key = Key(classId: int, studentId: int, date: int)

  datatype StoredRecord = StoredRecord(id: int, status: string)

  const Absent: string := "ABSENT"

  /** The records stored for a class on a day, by student id: the attendance map
      the service builds from its query. */
  function AttendanceMap(records: map<Key, StoredRecord>, classId: int, day: int): (m: map<int, StoredRecord>)
    ensures forall sid :: sid in m <==> Key(classId, sid, day) in records
    ensures forall sid :: sid in m ==> m[sid] == records[Key(classId, sid, day)]
  {
    map k | k in records && k.classId == classId && k.date == day :: k.studentId := records[k]
  }

  // ---------------------------------------------------------------------
  // Sheet rows and the order of student names

  /** One row of `student_attendance`: the 1-based roster position, the stored
      record's id (none for a default row), the status, the day and the student. */
  datatype Row = Row(noStudent: int, recordId: Option<int>, status: string, date: JsDate, student: Student)

  /** JavaScript's `<` on strings: lexicographic by character, a proper prefix first. */
  predicate NameLess(a: string, b: string)
    decreases |a|
  {
    if a == [] then b != []
    else if b == [] then false
    else if a[0] != b[0] then a[0] < b[0]
    else NameLess(a[1..], b[1..])
  }

  lemma {:induction false} NameLessIrreflexive(a: string)
    ensures !NameLess(a, a)
    decreases |a|
  {
    if a != [] {
      NameLessIrreflexive(a[1..]);
    }
  }

  lemma {:induction false} NameLessTransitive(a: string, b: string, c: string)
    requires NameLess(a, b) && NameLess(b, c)
    ensures NameLess(a, c)
    decreases |a|
  {
    if a != [] && a[0] == b[0] && b[0] == c[0] {
      NameLessTransitive(a[1..], b[1..], c[1..]);
    }
  }

  lemma {:induction false} NameLessTotal(a: string, b: string)
    ensures a == b || NameLess(a, b) || NameLess(b, a)
    decreases |a|
  {
    if a != [] && b != [] && a[0] == b[0] {
      NameLessTotal(a[1..], b[1..]);
      if a[1..] == b[1..] {
        assert a == [a[0]] + a[1..] && b == [b[0]] + b[1..];
      }
    }
  }

  /** The order a stable sort by name leaves the rows in: by name, and rows of
      equal names by roster position. */
  predicate Before(x: Row, y: Row) {
    NameLess(x.student.name, y.student.name)
    || (x.student.name == y.student.name && x.noStudent < y.noStudent)
  }

  lemma BeforeIrreflexive(x: Row)
    ensures !Before(x, x)
  {
    NameLessIrreflexive(x.student.name);
  }

  lemma BeforeTransitive(x: Row, y: Row, z: Row)
    requires Before(x, y) && Before(y, z)
    ensures Before(x, z)
  {
    var a, b, c := x.student.name, y.student.name, z.student.name;
    if NameLess(a, b) && NameLess(b, c) {
      NameLessTransitive(a, b, c);
    }
  }

  /** Rows strictly in the Before order. */
  predicate SortedRows(s: seq<Row>) {
    forall p, q :: 0 <= p < q < |s| ==> Before(s[p], s[q])
  }

  /** The first of strictly sorted rows comes before every other row among them. */
  lemma SortedHeadFirst(s: seq<Row>, x: Row)
    requires SortedRows(s) && x in multiset(s) && x != s[0]
    ensures Before(s[0], x)
  {
    var i :| 0 <= i < |s| && s[i] == x;
  }

  /** Strictly sorted rows are determined by their multiset: sorting has one
      possible result. */
  lemma {:induction false} SortedRowsUnique(s: seq<Row>, t: seq<Row>)
    requires SortedRows(s) && SortedRows(t) && multiset(s) == multiset(t)
    ensures s == t
    decreases |s|
  {
    if s != [] {
      SortedHeadsAgree(s, t);
      MultisetTail(s, t);
      SortedTail(s);
      SortedTail(t);
      SortedRowsUnique(s[1..], t[1..]);
      assert s == [s[0]] + s[1..] && t == [t[0]] + t[1..];
    }
  }

  /** Sorted rows with the same multiset start with the same row. */
  lemma SortedHeadsAgree(s: seq<Row>, t: seq<Row>)
    requires SortedRows(s) && SortedRows(t) && multiset(s) == multiset(t) && s != []
    ensures t != [] && s[0] == t[0]
  {
    assert s[0] in multiset(t);
    if s[0] != t[0] {
      SortedHeadFirst(s, t[0]);
      SortedHeadFirst(t, s[0]);
      BeforeTransitive(s[0], t[0], s[0]);
      BeforeIrreflexive(s[0]);
    }
  }

  lemma MultisetTail(s: seq<Row>, t: seq<Row>)
    requires multiset(s) == multiset(t) && s != [] && t != [] && s[0] == t[0]
    ensures multiset(s[1..]) == multiset(t[1..])
  {
    assert s == [s[0]] + s[1..] && t == [t[0]] + t[1..];
    assert multiset(s[1..]) == multiset(s) - multiset{s[0]};
    assert multiset(t[1..]) == multiset(t) - multiset{t[0]};
  }

  /** Rows in the Before order are non-decreasing by student name. */
  lemma SortedRowsByName(s: seq<Row>)
    requires SortedRows(s)
    ensures forall p, q :: 0 <= p < q < |s| ==> !NameLess(s[q].student.name, s[p].student.name)
  {
    forall p, q | 0 <= p < q < |s| ensures !NameLess(s[q].student.name, s[p].student.name) {
      var a, b := s[p].student.name, s[q].student.name;
      NameLessIrreflexive(a);
      if NameLess(a, b) && NameLess(b, a) {
        NameLessTransitive(a, b, a);
      }
    }
  }

  lemma SortedTail(s: seq<Row>)
    requires SortedRows(s) && s != []
    ensures SortedRows(s[1..])
  {
    forall p, q | 0 <= p < q < |s| - 1
      ensures Before(s[1..][p], s[1..][q])
    {
      assert s[1..][p] == s[p + 1] && s[1..][q] == s[q + 1];
    }
  }

  // ---------------------------------------------------------------------
  // attd.sort(by student name)

  /** `attd.sort(compare by student.name)` on the rows as the roster loop builds
      them (numbered 1, 2, ... in order): an insertion sort that moves a row left
      only past rows of a greater name, so rows of equal names keep their order,
      as the stable sort of JavaScript does. */
  method SortByStudentName(a: array<Row>)
    requires forall k :: 0 <= k < a.Length ==> a[k].noStudent == k + 1
    modifies a
    ensures SortedRows(a[..])
    ensures multiset(a[..]) == multiset(old(a[..]))
  {
    for i := 0 to a.Length
      invariant SortedRows(a[..i])
      invariant multiset(a[..]) == multiset(old(a[..]))
      invariant forall k :: 0 <= k < i ==> a[k].noStudent <= i
      invariant forall k :: i <= k < a.Length ==> a[k] == old(a[k])
    {
      InsertIntoSorted(a, i);
    }
    assert a[..a.Length] == a[..];
  }

  /** One step of the insertion sort: row i moves left into the sorted prefix. */
  method InsertIntoSorted(a: array<Row>, i: nat)
    requires i < a.Length && SortedRows(a[..i])
    requires forall k :: 0 <= k < i ==> a[k].noStudent <= i
    requires a[i].noStudent == i + 1
    modifies a
    ensures SortedRows(a[..i + 1])
    ensures multiset(a[..]) == multiset(old(a[..]))
    ensures forall k :: 0 <= k <= i ==> a[k].noStudent <= i + 1
    ensures forall k :: i < k < a.Length ==> a[k] == old(a[k])
  {
    var j: nat := i;
    StartInserting(a[..], i);
    while j > 0 && NameLess(a[j].student.name, a[j - 1].student.name)
      invariant Inserting(a[..], j, i)
      invariant a[j].noStudent == i + 1
      invariant multiset(a[..]) == multiset(old(a[..]))
      invariant forall k :: i < k < a.Length ==> a[k] == old(a[k])
    {
      ghost var s := a[..];
      a[j - 1], a[j] := a[j], a[j - 1];
      assert a[..] == Swapped(s, j);
      SwapKeepsInserting(s, j, i);
      j := j - 1;
    }
    FinishInserting(a[..], j, i);
  }

  /** The state of an insertion of row i that has reached position j: the rows
      other than the moving one are in order, the moving one comes before every
      row to its right, and every other row of the prefix has a smaller
      roster position than the moving one. */
  ghost predicate Inserting(s: seq<Row>, j: nat, i: nat) {
    && j <= i < |s|
    && (forall p, q :: 0 <= p < q <= i && p != j && q != j ==> Before(s[p], s[q]))
    && (forall q :: j < q <= i ==> Before(s[j], s[q]))
    && (forall k :: 0 <= k <= i && k != j ==> s[k].noStudent < s[j].noStudent)
  }

  function Swapped(s: seq<Row>, j: nat): (r: seq<Row>)
    requires 0 < j < |s|
    ensures |r| == |s| && multiset(r) == multiset(s)
  {
    s[j - 1 := s[j]][j := s[j - 1]]
  }

  lemma StartInserting(s: seq<Row>, i: nat)
    requires i < |s| && SortedRows(s[..i])
    requires forall k :: 0 <= k < i ==> s[k].noStudent <= i
    requires s[i].noStudent == i + 1
    ensures Inserting(s, i, i)
  {
    forall p, q | 0 <= p < q < i ensures Before(s[p], s[q]) {
      assert s[..i][p] == s[p] && s[..i][q] == s[q];
    }
  }

  lemma SwapKeepsInserting(s: seq<Row>, j: nat, i: nat)
    requires Inserting(s, j, i) && 0 < j
    requires NameLess(s[j].student.name, s[j - 1].student.name)
    ensures Inserting(Swapped(s, j), j - 1, i)
  {
    var r := Swapped(s, j);
    assert r[j - 1] == s[j] && r[j] == s[j - 1];
    assert forall k :: 0 <= k < |s| && k != j - 1 && k != j ==> r[k] == s[k];
  }

  lemma FinishInserting(s: seq<Row>, j: nat, i: nat)
    requires Inserting(s, j, i) && s[j].noStudent == i + 1
    requires j == 0 || !NameLess(s[j].student.name, s[j - 1].student.name)
    ensures SortedRows(s[..i + 1])
    ensures forall k :: 0 <= k <= i ==> s[k].noStudent <= i + 1
  {
    if j > 0 {
      NameLessTotal(s[j].student.name, s[j - 1].student.name);
      forall p | 0 <= p < j ensures Before(s[p], s[j]) {
        if p < j - 1 {
          BeforeTransitive(s[p], s[j - 1], s[j]);
        }
      }
    }
    var t := s[..i + 1];
    forall p, q | 0 <= p < q < |t| ensures Before(t[p], t[q]) {
      assert t[p] == s[p] && t[q] == s[q];
    }
  }

  // ---------------------------------------------------------------------
  // The roster loop

  /** The row of the roster student at position k: the stored record's id and
      status when the attendance map has one for that student, otherwise a
      default ABSENT row for the requested day. */
  function RosterRow(k: nat, student: Student, found: map<int, StoredRecord>, date: JsDate): (row: Row)
    ensures row.noStudent == k + 1 && row.student == student && row.date == date
    ensures student.id in found ==> row.recordId == Some(found[student.id].id) && row.status == found[student.id].status
    ensures student.id !in found ==> row.recordId.None? && row.status == Absent
  {
    if student.id in found then Row(k + 1, Some(found[student.id].id), found[student.id].status, date, student)
    else Row(k + 1, None, Absent, date, student)
  }

  /** The list the roster loop builds: one row per roster student, in roster order. */
  function Reconciled(roster: seq<Student>, found: map<int, StoredRecord>, date: JsDate): (rows: seq<Row>)
    ensures |rows| == |roster|
    ensures forall k :: 0 <= k < |roster| ==> rows[k] == RosterRow(k, roster[k], found, date)
  {
    seq(|roster|, k requires 0 <= k < |roster| => RosterRow(k, roster[k], found, date))
  }

  /** `existedClass.student.forEach(...)`: push one row per roster student. */
  method BuildSheet(roster: seq<Student>, found: map<int, StoredRecord>, date: JsDate) returns (attd: seq<Row>)
    ensures attd == Reconciled(roster, found, date)
  {
    attd := [];
    for index := 0 to |roster|
      invariant attd == Reconciled(roster, found, date)[..index]
    {
      var student := roster[index];
      if student.id in found {
        var att := found[student.id];
        attd := attd + [Row(index + 1, Some(att.id), att.status, date, student)];
      } else {
        attd := attd + [Row(index + 1, None, Absent, date, student)];
      }
    }
  }

  /** A permutation of the built rows holds the row of every roster student, and
      nothing else: as many rows as students, none for an empty roster. */
  lemma SheetCoversRoster(sheet: seq<Row>, roster: seq<Student>, found: map<int, StoredRecord>, date: JsDate)
    requires multiset(sheet) == multiset(Reconciled(roster, found, date))
    ensures |sheet| == |roster|
    ensures forall k :: 0 <= k < |roster| ==> RosterRow(k, roster[k], found, date) in sheet
    ensures forall row :: row in sheet ==> exists k :: 0 <= k < |roster| && row == RosterRow(k, roster[k], found, date)
  {
    var rows := Reconciled(roster, found, date);
    assert |multiset(sheet)| == |sheet| && |multiset(rows)| == |rows|;
    forall k | 0 <= k < |roster| ensures RosterRow(k, roster[k], found, date) in sheet {
      assert rows[k] in multiset(rows);
    }
    forall row | row in sheet ensures exists k :: 0 <= k < |roster| && row == RosterRow(k, roster[k], found, date) {
      assert row in multiset(rows);
      var k :| 0 <= k < |rows| && rows[k] == row;
    }
  }

  /** A row of the sheet carries its student's stored status for the requested
      day, or ABSENT when there is none. */
  lemma SheetStatus(records: map<Key, StoredRecord>, cls: ClassInfo, day: int, k: nat)
    requires k < |cls.roster|
    ensures var row := Reconciled(cls.roster, AttendanceMap(records, cls.id, day), Valid(day))[k];
      && row.noStudent == k + 1 && row.student == cls.roster[k]
      && (Key(cls.id, cls.roster[k].id, day) in records ==> row.status == records[Key(cls.id, cls.roster[k].id, day)].status)
      && (Key(cls.id, cls.roster[k].id, day) !in records ==> row.status == Absent && row.date == Valid(day))
  {
  }

  // ---------------------------------------------------------------------
  // Requests and the checks before any store access

  datatype DetailsRequest = DetailsRequest(
    classId: Option<int>, studentId: Option<int>, date: Option<string>, loggedUserRole: Option<string>)

  datatype Details = Details(
    date: JsDate, teacherId: Option<int>, teacherName: Option<string>, className: string,
    studentAttendance: seq<Row>)

  datatype UpsertRequest = UpsertRequest(
    classId: Option<int>, studentId: Option<int>, date: Option<string>, status: Option<string>,
    loggedUserRole: Option<string>)

  datatype Saved = Saved(date: JsDate, status: string, student: Student)

  const ClassIdMissing: Failure := ApiError(BadRequest, "Class Id not inputted!")
  const StudentIdMissing: Failure := ApiError(BadRequest, "Student Id not inputted!")
  const DateMissing: Failure := ApiError(BadRequest, "date not inputted!")
  const StatusMissing: Failure := ApiError(BadRequest, "absent status not inputted!")

  /** The checks of getAttendanceDaitails, in order: role, classId, the class,
      studentId, the student, date, and the parse of the date (an Invalid Date
      in the query filter is rejected by the store). On success, the class and
      the day asked for. */
  function DetailsTarget(dir: Directory, req: DetailsRequest): (r: Result<(ClassInfo, int), Failure>)
    ensures !Allowed(Some(IsAdminTeacher), req.loggedUserRole)
        ==> r == Failure(CheckAllowedRole(Some(IsAdminTeacher), req.loggedUserRole).error)
    ensures r.Failure? && r.error.ApiError? && r.error.code == Forbidden
        ==> !Allowed(Some(IsAdminTeacher), req.loggedUserRole)
    ensures r.Success? ==>
      && Allowed(Some(IsAdminTeacher), req.loggedUserRole)
      && IdPresent(req.classId) && req.classId.value in dir.classes
      && r.value.0 == dir.classes[req.classId.value]
      && IdPresent(req.studentId) && req.studentId.value in dir.students
      && TextPresent(req.date) && TransformDate(req.date.value) == Success(Valid(r.value.1))
  {
    var role := CheckAllowedRole(Some(IsAdminTeacher), req.loggedUserRole);
    if role.Failure? then Failure(role.error)
    else if !IdPresent(req.classId) then Failure(ClassIdMissing)
    else
      var existedClass := CheckClassMustBeExist(dir, req.classId);
      if existedClass.Failure? then Failure(existedClass.error)
      else if !IdPresent(req.studentId) then Failure(StudentIdMissing)
      else
        var existedStudent := CheckStudentMustBeExist(dir, req.studentId);
        if existedStudent.Failure? then Failure(existedStudent.error)
        else if !TextPresent(req.date) then Failure(DateMissing)
        else
          match TransformDate(req.date.value)
          case Failure(e) => Failure(e)
          case Success(InvalidDate) => Failure(StoreRejected)
          case Success(Valid(day)) => Success((existedClass.value, day))
  }

  /** The checks fail in order: each one is reported only when all earlier ones pass. */
  lemma DetailsCheckOrder(dir: Directory, req: DetailsRequest)
    requires Allowed(Some(IsAdminTeacher), req.loggedUserRole)
    ensures !IdPresent(req.classId) ==> DetailsTarget(dir, req) == Failure(ClassIdMissing)
    ensures IdPresent(req.classId) && req.classId.value !in dir.classes
        ==> DetailsTarget(dir, req) == Failure(ApiError(NotFound, "Class not found"))
    ensures IdPresent(req.classId) && req.classId.value in dir.classes && !IdPresent(req.studentId)
        ==> DetailsTarget(dir, req) == Failure(StudentIdMissing)
    ensures IdPresent(req.classId) && req.classId.value in dir.classes
        && IdPresent(req.studentId) && req.studentId.value !in dir.students
        ==> DetailsTarget(dir, req) == Failure(ApiError(NotFound, "Student not found"))
    ensures IdPresent(req.classId) && req.classId.value in dir.classes
        && IdPresent(req.studentId) && req.studentId.value in dir.students && !TextPresent(req.date)
        ==> DetailsTarget(dir, req) == Failure(DateMissing)
  {
  }

  /** `new Date(s)` for the date-only ISO form `YYYY-MM-DD` of a calendar date:
      UTC midnight of that day, the year taken as written; any other text is
      an Invalid Date here. */
  function ParseIsoDate(s: string): (d: JsDate)
    ensures d.Valid? ==> IsIsoDateText(s)
    ensures d.Valid? ==> IsCalendarDate(DigitsValue(s[..4]), DigitsValue(s[5..7]), DigitsValue(s[8..]))
  {
    if IsIsoDateText(s) && IsCalendarDate(DigitsValue(s[..4]), DigitsValue(s[5..7]), DigitsValue(s[8..])) then
      Clip(MakeDay(DigitsValue(s[..4]), DigitsValue(s[5..7]) - 1, DigitsValue(s[8..])))
    else InvalidDate
  }

  /** For years 1000 to 9999 both parsers read a `YYYY-MM-DD` calendar date as
      the same day, so the sheet reads the records that createOrUpdate writes. */
  lemma ParseAgreesWithTransform(s: string)
    requires IsIsoDateText(s) && s[0] != '0'
    requires IsCalendarDate(DigitsValue(s[..4]), DigitsValue(s[5..7]), DigitsValue(s[8..]))
    ensures ParseIsoDate(s).Valid? && TransformDate(s) == Success(ParseIsoDate(s))
  {
    var yv, mv, dv := DigitsValue(s[..4]), DigitsValue(s[5..7]), DigitsValue(s[8..]);
    TransformIsoDate(s);
    FourDigitsAtLeast1000(s[..4]);
    CalendarDayInRange(yv, mv, dv);
  }

  /** The checks of createOrUpdate, in order: role, date, status, classId, the
      class, studentId, the student, and the parse of the date for the lookup.
      On success, the student and the key of the record to write. */
  function UpsertTarget(dir: Directory, req: UpsertRequest): (r: Result<(Student, Key), Failure>)
    ensures !Allowed(Some(IsAdminTeacher), req.loggedUserRole)
        ==> r == Failure(CheckAllowedRole(Some(IsAdminTeacher), req.loggedUserRole).error)
    ensures r.Failure? && r.error.ApiError? && r.error.code == Forbidden
        ==> !Allowed(Some(IsAdminTeacher), req.loggedUserRole)
    ensures r.Success? ==>
      && Allowed(Some(IsAdminTeacher), req.loggedUserRole)
      && TextPresent(req.date) && TextPresent(req.status)
      && IdPresent(req.classId) && req.classId.value in dir.classes
      && IdPresent(req.studentId) && req.studentId.value in dir.students
      && r.value.0 == dir.students[req.studentId.value]
      && r.value.1.classId == req.classId.value && r.value.1.studentId == req.studentId.value
      && ParseIsoDate(req.date.value) == Valid(r.value.1.date)
    ensures r.Success? && Keyed(dir) ==>
      r.value.1.classId == dir.classes[req.classId.value].id && r.value.1.studentId == r.value.0.id
  {
    var role := CheckAllowedRole(Some(IsAdminTeacher), req.loggedUserRole);
    if role.Failure? then Failure(role.error)
    else if !TextPresent(req.date) then Failure(DateMissing)
    else if !TextPresent(req.status) then Failure(StatusMissing)
    else if !IdPresent(req.classId) then Failure(ClassIdMissing)
    else
      var existedClass := CheckClassMustBeExist(dir, req.classId);
      if existedClass.Failure? then Failure(existedClass.error)
      else if !IdPresent(req.studentId) then Failure(StudentIdMissing)
      else
        var existedStudent := CheckStudentMustBeExist(dir, req.studentId);
        if existedStudent.Failure? then Failure(existedStudent.error)
        else
          match ParseIsoDate(req.date.value)
          case InvalidDate => Failure(StoreRejected)
          case Valid(day) => Success((existedStudent.value, Key(req.classId.value, req.studentId.value, day)))
  }

  /** The checks of createOrUpdate fail in order. */
  lemma UpsertCheckOrder(dir: Directory, req: UpsertRequest)
    requires Allowed(Some(IsAdminTeacher), req.loggedUserRole)
    ensures !TextPresent(req.date) ==> UpsertTarget(dir, req) == Failure(DateMissing)
    ensures TextPresent(req.date) && !TextPresent(req.status) ==> UpsertTarget(dir, req) == Failure(StatusMissing)
    ensures TextPresent(req.date) && TextPresent(req.status) && !IdPresent(req.classId)
        ==> UpsertTarget(dir, req) == Failure(ClassIdMissing)
    ensures TextPresent(req.date) && TextPresent(req.status)
        && IdPresent(req.classId) && req.classId.value !in dir.classes
        ==> UpsertTarget(dir, req) == Failure(ApiError(NotFound, "Class not found"))
    ensures TextPresent(req.date) && TextPresent(req.status)
        && IdPresent(req.classId) && req.classId.value in dir.classes && !IdPresent(req.studentId)
        ==> UpsertTarget(dir, req) == Failure(StudentIdMissing)
    ensures TextPresent(req.date) && TextPresent(req.status)
        && IdPresent(req.classId) && req.classId.value in dir.classes
        && IdPresent(req.studentId) && req.studentId.value !in dir.students
        ==> UpsertTarget(dir, req) == Failure(ApiError(NotFound, "Student not found"))
  {
  }

  // ---------------------------------------------------------------------
  // The upsert

  /** The store after writing status under key: the existing record keeps its
      id and takes the new status, or a record with a fresh id is created. */
  function Upserted(m: map<Key, StoredRecord>, key: Key, status: string, freshId: int): (r: map<Key, StoredRecord>)
    ensures r.Keys == m.Keys + {key}
    ensures r[key].status == status
    ensures r[key].id == if key in m then m[key].id else freshId
    ensures forall k :: k in m && k != key ==> r[k] == m[k]
  {
    if key in m then m[key := StoredRecord(m[key].id, status)]
    else m[key := StoredRecord(freshId, status)]
  }

  /** An upsert adds at most one record: exactly one when the key was absent. */
  lemma UpsertedSize(m: map<Key, StoredRecord>, key: Key, status: string, freshId: int)
    ensures |Upserted(m, key, status, freshId)| == if key in m then |m| else |m| + 1
  {
    var r := Upserted(m, key, status, freshId);
    if key !in m {
      assert r.Keys == m.Keys + {key};
      assert |r.Keys| == |m.Keys| + 1;
    } else {
      assert r.Keys == m.Keys;
    }
  }

  /** Writing the same status under the same key again changes nothing. */
  lemma UpsertedIdempotent(m: map<Key, StoredRecord>, key: Key, status: string, id1: int, id2: int)
    ensures Upserted(Upserted(m, key, status, id1), key, status, id2) == Upserted(m, key, status, id1)
  {
  }

  /** A status written by createOrUpdate is the status the sheet of the same
      class and date shows for that student, for years 1000 to 9999. */
  lemma WriteThenRead(dir: Directory, records: map<Key, StoredRecord>, freshId: int,
                      ureq: UpsertRequest, dreq: DetailsRequest, k: nat)
    requires Keyed(dir)
    requires UpsertTarget(dir, ureq).Success? && DetailsTarget(dir, dreq).Success?
    requires dreq.classId == ureq.classId && dreq.date == ureq.date && ureq.date.value[0] != '0'
    requires k < |dir.classes[ureq.classId.value].roster|
    requires dir.classes[ureq.classId.value].roster[k].id == ureq.studentId.value
    ensures var (cls, day) := DetailsTarget(dir, dreq).value;
      var key := UpsertTarget(dir, ureq).value.1;
      var found := AttendanceMap(Upserted(records, key, ureq.status.value, freshId), cls.id, day);
      && Reconciled(cls.roster, found, Valid(day))[k].status == ureq.status.value
      && Reconciled(cls.roster, found, Valid(day))[k].student.id == ureq.studentId.value
  {
    var s := ureq.date.value;
    ParseAgreesWithTransform(s);
    var (cls, day) := DetailsTarget(dir, dreq).value;
    var key := UpsertTarget(dir, ureq).value.1;
    assert day == key.date;
    assert cls.id == key.classId;
    assert Key(cls.id, cls.roster[k].id, day) == key;
  }

  /** The answer of getAttendanceDaitails for class cls on day: the day, the
      teacher and name of the class, and the reconciled rows sorted by name. */
  predicate IsSheet(d: Details, cls: ClassInfo, day: int, records: map<Key, StoredRecord>) {
    && d.date == Valid(day)
    && d.className == cls.name
    && d.teacherId == (if cls.teacher.Some? then Some(cls.teacher.value.id) else None)
    && d.teacherName == (if cls.teacher.Some? then Some(cls.teacher.value.name) else None)
    && SortedRows(d.studentAttendance)
    && multiset(d.studentAttendance) == multiset(Reconciled(cls.roster, AttendanceMap(records, cls.id, day), Valid(day)))
  }

  class AttendanceStore {
    var records: map<Key, StoredRecord>
    var nextId: int

    /** Record ids are below the next id to hand out and differ between records. */
    ghost predicate WellFormed()
      reads this
    {
      && (forall k :: k in records ==> records[k].id < nextId)
      && (forall k1, k2 :: k1 in records && k2 in records && k1 != k2 ==> records[k1].id != records[k2].id)
    }

    constructor ()
      ensures WellFormed() && records == map[] && nextId == 1
    {
      records := map[];
      nextId := 1;
    }

    /** `getAttendanceDaitails`: after the checks, the class's sheet for the day,
        one row per roster student, sorted by student name. */
    method GetAttendanceDetails(dir: Directory, req: DetailsRequest) returns (r: Result<Details, Failure>)
      ensures DetailsTarget(dir, req).Failure? ==> r == Failure(DetailsTarget(dir, req).error)
      ensures DetailsTarget(dir, req).Success? ==>
        r.Success? && IsSheet(r.value, DetailsTarget(dir, req).value.0, DetailsTarget(dir, req).value.1, records)
    {
      var target := DetailsTarget(dir, req);
      if target.Failure? {
        return Failure(target.error);
      }
      var (existedClass, day) := target.value;
      var date := Valid(day);
      var attendanceMap := AttendanceMap(records, existedClass.id, day);
      var attd := BuildSheet(existedClass.roster, attendanceMap, date);
      var sorted := SortSheet(attd, existedClass.roster, attendanceMap, date);
      var teacherId := if existedClass.teacher.Some? then Some(existedClass.teacher.value.id) else None;
      var teacherName := if existedClass.teacher.Some? then Some(existedClass.teacher.value.name) else None;
      r := Success(Details(date, teacherId, teacherName, existedClass.name, sorted));
    }

    /** `createOrUpdate`: after the checks, write the status under the request's
        key, creating the record when there is none, and return what was saved.
        A failed check writes nothing. */
    method CreateOrUpdate(dir: Directory, req: UpsertRequest) returns (r: Result<Saved, Failure>)
      requires WellFormed()
      modifies this
      ensures WellFormed()
      ensures UpsertTarget(dir, req).Failure? ==>
        r == Failure(UpsertTarget(dir, req).error) && records == old(records) && nextId == old(nextId)
      ensures UpsertTarget(dir, req).Success? ==>
        var (student, key) := UpsertTarget(dir, req).value;
        && r == Success(Saved(Valid(key.date), req.status.value, student))
        && records == Upserted(old(records), key, req.status.value, old(nextId))
        && nextId == if key in old(records) then old(nextId) else old(nextId) + 1
    {
      var target := UpsertTarget(dir, req);
      if target.Failure? {
        return Failure(target.error);
      }
      var (student, key) := target.value;
      var status := req.status.value;
      if key !in records {
        records := records[key := StoredRecord(nextId, status)];
        nextId := nextId + 1;
      } else {
        records := records[key := StoredRecord(records[key].id, status)];
      }
      r := Success(Saved(Valid(key.date), status, student));
    }
  }

  const RosterUndefined: Failure := TypeError("Cannot read properties of undefined (reading 'forEach')")

  /** `getAttendanceDaitails` as written: the class that the existence check
      returns carries its enrollments as `studentClass` and has no `student`
      field, so once every check passes the roster loop calls `forEach` on
      undefined and throws a TypeError. */
  function GetAttendanceDetailsAsWritten(dir: Directory, req: DetailsRequest): (r: Result<Details, Failure>)
    ensures r.Failure?
    ensures DetailsTarget(dir, req).Failure? ==> r == Failure(DetailsTarget(dir, req).error)
    ensures DetailsTarget(dir, req).Success? ==> r == Failure(RosterUndefined)
  {
    match DetailsTarget(dir, req)
    case Failure(e) => Failure(e)
    case Success(_) => Failure(RosterUndefined)
  }

  /** The sample day 2024-03-04 is read as a valid Date. */
  lemma SampleDateParses()
    ensures TransformDate("2024-03-04").Success? && TransformDate("2024-03-04").value.Valid?
  {
    var s := "2024-03-04";
    assert IsIsoDateText(s);
    var y, m, d := s[..4], s[5..7], s[8..];
    assert y == "2024" && m == "03" && d == "04";
    DigitsValueOfFour(y);
    DigitsValueOfTwo(m);
    DigitsValueOfTwo(d);
    assert IsCalendarDate(DigitsValue(y), DigitsValue(m), DigitsValue(d));
    ParseAgreesWithTransform(s);
  }

  /** A request that passes every check, so the corrected service answers it
      with the sheet, while the service as written throws. */
  lemma AsWrittenNeverListsRoster()
    ensures var ani := Student(7, "0001", "Ani");
      var dir := Directory(map[1 := ClassInfo(1, "1A", None, [ani])], map[7 := ani], map[]);
      var req := DetailsRequest(Some(1), Some(7), Some("2024-03-04"), Some(Admin));
      && DetailsTarget(dir, req).Success?
      && GetAttendanceDetailsAsWritten(dir, req) == Failure(RosterUndefined)
  {
    var ani := Student(7, "0001", "Ani");
    var cls := ClassInfo(1, "1A", None, [ani]);
    var dir := Directory(map[1 := cls], map[7 := ani], map[]);
    var req := DetailsRequest(Some(1), Some(7), Some("2024-03-04"), Some(Admin));
    SampleDateParses();
    PassingDetailsChecks(dir, req);
  }

  /** A request whose ids name a class and a student and whose date parses to a
      valid Date passes the checks of getAttendanceDaitails. */
  lemma PassingDetailsChecks(dir: Directory, req: DetailsRequest)
    requires Allowed(Some(IsAdminTeacher), req.loggedUserRole)
    requires IdPresent(req.classId) && req.classId.value in dir.classes
    requires IdPresent(req.studentId) && req.studentId.value in dir.students
    requires TextPresent(req.date) && TransformDate(req.date.value).Success? && TransformDate(req.date.value).value.Valid?
    ensures DetailsTarget(dir, req) == Success((dir.classes[req.classId.value], TransformDate(req.date.value).value.day))
  {
  }

  /** `attd.length > 0 ? attd.sort(...) : []`, the sort done in place on an array. */
  method SortSheet(attd: seq<Row>, ghost roster: seq<Student>, ghost found: map<int, StoredRecord>, ghost date: JsDate)
    returns (sorted: seq<Row>)
    requires attd == Reconciled(roster, found, date)
    ensures SortedRows(sorted) && multiset(sorted) == multiset(attd)
  {
    if |attd| == 0 {
      return [];
    }
    var a := new Row[|attd|](k requires 0 <= k < |attd| => attd[k]);
    assert a[..] == attd;
    SortByStudentName(a);
    sorted := a[..];
  }
}
