# Elementary-school attendance backend: a Dafny model of its core

The backend keeps attendance for an elementary school. Classes have a
teacher and a roster of students. Students are linked to classes through a
`studentClass` table. For a class and a day, teachers and administrators
read a sheet with one row per student in the class, and they record one
attendance status per student per day. This project models four parts of
it and proves properties of the model:

- **The date helper** (`src/helper/date.helper.js`):
  - the Monday-to-Saturday days of a given week of a month;
  - all Monday-starting weeks of a month, each labelled `DD-MM-YYYY - DD-MM-YYYY`;
  - `formattedDateStr`;
  - `transformDate`.

  The week functions are loops in the source, so they are methods with loop
  invariants here. The formatting and parsing are functions.
- **The role gate** (`src/helper/check-role.helper.js`): the `ROLE` lists
  and the throwing and boolean membership checks.
- **The attendance service** (`src/service/attendance.service.js`):
  - the checks before any store access, in their order;
  - the roster loop that pairs stored records with the class's students, or
    gives a default `ABSENT` row;
  - the stable sort by student name;
  - the create-or-update of one record, modelled as a class that owns the
    record store.
- **The enrollment service** (`src/service/student-class.service.js`):
  - the JSON mappers;
  - the lookup of one enrollment;
  - the students of a class;
  - adding and removing a student, as a class that owns the `studentClass`
    rows.

### Modules

- `Wrappers`: `Option` and `Result`.
- `Errors`: the thrown errors, as `Failure`.
  - `ApiError` carries a status code and a message.
  - `PlainError` is a plain `Error`.
  - `TypeError` is a JavaScript type error.
  - `StoreRejected` is a query the database rejects.
- `JsText`: the built-ins the date helper calls: `split`, `Number`, `String`, `padStart`.
- `EcmaDate`: ECMAScript's UTC calendar arithmetic (MakeDay, Date.UTC,
  TimeClip, getUTCDay, getUTCDate, getUTCMonth, getUTCFullYear, setUTCDate).
  - A `Date` at UTC midnight is its day number, with 1970-01-01 as day 0.
  - Years are counted from 1 January of year 0, which is day -719528.
  - An Invalid Date is `InvalidDate`.
- `DateHelper`, `CheckRole`, `School`, `Attendance`, `StudentClass`: the
  core itself. `School` holds the existence checks of
  `src/service/class.service.js` and `src/service/student.service.js`, which
  both services call.

### Properties proved

- The week helpers return exactly the days that the functions
  `WeekDates` and `IsMonthWeeks` describe. Each listed week:
  - runs Monday to Saturday;
  - is numbered from 1;
  - starts inside the month.

  Every Monday of the month starts a listed week, a month has four or five
  weeks, and the answer is unique.
- A `YYYY-MM-DD` calendar date (years 1000 to 9999) passes through
  `transformDate` and `formattedDateStr` and comes back as `DD-MM-YYYY` with
  the same digits.
- Both role checks admit exactly the roles of their list, and the throwing
  check reports its three errors in their order.
- The attendance sheet is the roster-reconciled row list, sorted by name.
  Because the JavaScript sort is stable, rows with equal names keep their
  roster order. The sorted result is unique.
- Create-or-update writes one key, keeps the record id on an update, hands
  out a fresh id on a create, and is idempotent. A failed check writes
  nothing.
- Adding a student appends a row for the pair, and removing takes that pair
  out of the relation. Enrolling a pair and then removing it gives the rows
  back.

## Model

| member | source | states |
|---|---|---|
| JsText.Split | src/helper/date.helper.js:47 | `split("-")` gives at least one piece; the pieces contain no separator and joined with it give the string back |
| JsText.SplitJoin | src/helper/date.helper.js:47 | splitting a join of separator-free pieces gives the pieces back |
| JsText.NatStrOfDigits | src/helper/date.helper.js:40 | `String(year)` of a digit string's value, without a leading zero, is that digit string |
| JsText.TwoDigitsRoundTrip | src/helper/date.helper.js:34-37 | `String(v).padStart(2, "0")` of a two-digit string's value is that string |
| JsText.Pad2OfSmall | src/helper/date.helper.js:34-37 | for a value below 100, the padded text is two digits whose value is the number |
| JsText.ToNumber | src/helper/date.helper.js:50-52 | `Number(undefined)` is NaN, `Number("")` is 0, a non-empty string is a number exactly when it is all digits, and a digit string's number is its decimal value |
| EcmaDate.UtcDayAdd | src/helper/date.helper.js:5-8 | moving k days moves getUTCDay by k modulo 7 |
| EcmaDate.SetUtcDateAdds | src/helper/date.helper.js:7 | `setUTCDate(getUTCDate() + k)` moves a valid date by exactly k days, across month and year ends, and gives an Invalid Date when that day is outside the Date range |
| EcmaDate.CivilOfMakeDay | src/helper/date.helper.js:60 | Date.UTC of a calendar date (y, m - 1, d) has UTC year y, month m and date d |
| EcmaDate.MakeDayOfCivil | src/helper/date.helper.js:2 | every day is Date.UTC of its own UTC year, zero-based month and date |
| EcmaDate.DateOfIsCalendarDate | src/helper/date.helper.js:34-40 | the UTC date, month and year of any day form a calendar date |
| EcmaDate.YearOf | src/helper/date.helper.js:40 | getUTCFullYear gives the year whose 1 January is on or before the day, with the next year's 1 January after it |
| EcmaDate.YearOfUnique | src/helper/date.helper.js:40 | that year is the only one |
| EcmaDate.Clip | src/helper/date.helper.js:60 | TimeClip gives a valid date exactly when the day number is within 10^8 days of the epoch |
| EcmaDate.MakeFullYear | src/helper/date.helper.js:60 | Date.UTC reads years 0 to 99 as 1900 to 1999 and leaves every other year as it is |
| EcmaDate.DayFromYearMonotone | src/helper/date.helper.js:60 | between two 1 Januaries lie 365 to 366 days per year |
| DateHelper.FormattedDateStr | src/helper/date.helper.js:30-43 | an Invalid Date prints `NaN-NaN-NaN` |
| DateHelper.FormattedDateStrFields | src/helper/date.helper.js:30-43 | the text of a valid date is two digits of its UTC date, `-`, two digits of its UTC month, `-`, then its UTC year |
| DateHelper.TransformDate | src/helper/date.helper.js:45-63 | it throws "Invalid date format" exactly when one of the first three `-` fields is missing or not a number |
| DateHelper.TransformDateOfFields | src/helper/date.helper.js:45-63 | three digit fields joined by `-` give Date.UTC(year, month - 1, day) |
| DateHelper.TransformDateNeedsTwoSeparators | src/helper/date.helper.js:47-57 | text with fewer than two `-` is rejected |
| DateHelper.TransformIsoDate | src/helper/date.helper.js:45-63 | a `YYYY-MM-DD` text gives Date.UTC of its three numbers |
| DateHelper.CalendarDayInRange | src/helper/date.helper.js:60 | a calendar date of the years 1000 to 9999 is a valid Date |
| DateHelper.FormatCalendarDay | src/helper/date.helper.js:30-43 | the text of Date.UTC(y, m - 1, d) for a calendar date is d and m padded to two digits, then y |
| DateHelper.FormatAfterTransform | src/helper/date.helper.js:30-63 | round trip: `YYYY-MM-DD` through transformDate and formattedDateStr comes back as `DD-MM-YYYY` with the same digits |
| DateHelper.FirstMondayOnOrAfter | src/helper/date.helper.js:5-8 | the first day on or after n whose getUTCDay is 1, within six days of n |
| DateHelper.NoMondayBefore | src/helper/date.helper.js:5-8 | no day before that one, from n on, is a Monday |
| DateHelper.NextMonday | src/helper/date.helper.js:99-104 | a week after a Monday is a Monday, and the re-snap loop leaves it in place |
| DateHelper.AddUtcDays | src/helper/date.helper.js:7 | the day-of-month update moves a valid date by exactly k days, or to an Invalid Date outside the range; an Invalid Date stays invalid |
| DateHelper.AdvanceToMonday | src/helper/date.helper.js:5-8 | the loop stops on the first Monday on or after its start |
| DateHelper.FirstMondayInFirstWeek | src/helper/date.helper.js:2-8 | the first Monday of a month lies in that month, on one of its first seven days |
| DateHelper.WeekDates | src/helper/date.helper.js:17-24 | six dates |
| DateHelper.GetWeekMonToSaturdayDates | src/helper/date.helper.js:1-28 | the result is the kept days from the first Monday of the month plus (week - 1) * 7 days: none when that Monday is outside the Date range, only those up to the range's end otherwise, and all six when the week is in range |
| DateHelper.KeepMondayToSaturday | src/helper/date.helper.js:17-24 | of the seven days from a Monday, the loop keeps, in order, those that are valid and have getUTCDay 1 to 6; from an Invalid Date it keeps none |
| DateHelper.KeptWeekDay | src/helper/date.helper.js:17-24 | kept date i is the Monday plus i days, inside the Date range, with getUTCDay i + 1 |
| DateHelper.KeptWeekLength | src/helper/date.helper.js:17-24 | fewer than six dates are kept exactly when the Saturday is past the range's end, and then every day up to that end is kept |
| DateHelper.FullWeekKept | src/helper/date.helper.js:17-24 | with Monday to Saturday in range, all six days are kept |
| DateHelper.OffsetPastRangeKeepsNothing | src/helper/date.helper.js:11-27 | week 20000000 of March 2024 moves the Monday out of range, and the result is empty |
| DateHelper.WeekRunsMondayToSaturday | src/helper/date.helper.js:17-24 | day i of the week has getUTCDay i + 1 |
| DateHelper.CollectWeekDays | src/helper/date.helper.js:84-88 | the inner loop collects the six consecutive days from the week's Monday |
| DateHelper.GetAllWeeksInMonth | src/helper/date.helper.js:65-108 | the result is the month's week list and each entry is labelled with its first and last day |
| DateHelper.CollectMonthWeeks | src/helper/date.helper.js:79-105 | the outer loop lists, numbered from 1, one entry for each Monday from the first of the month up to the first of the next, and nothing for a month number outside 1 to 12 |
| DateHelper.MonthWeekIsWeekDates | src/helper/date.helper.js:79-97 | week k is numbered k + 1 and holds the days getWeekMonToSaturdayDates gives for week k + 1 |
| DateHelper.MonthWeekDays | src/helper/date.helper.js:84-88 | every listed week runs Monday to Saturday |
| DateHelper.MonthWeekStartsInMonth | src/helper/date.helper.js:79 | every listed week starts inside the month |
| DateHelper.MondayHasWeek | src/helper/date.helper.js:79-105 | every Monday of the month starts a listed week |
| DateHelper.MonthHasFourOrFiveWeeks | src/helper/date.helper.js:79-105 | a month has four or five weeks |
| DateHelper.MonthWeeksUnique | src/helper/date.helper.js:65-108 | two week lists that both satisfy the description of the month are equal |
| DateHelper.WeekRunUnique | src/helper/date.helper.js:79-105 | a run of weeks is determined by its two ends |
| DateHelper.WeekRunCoversMondays | src/helper/date.helper.js:79-105 | every Monday in the window is the first day of the entry (n - first Monday) / 7 |
| DateHelper.MondayCountBounds | src/helper/date.helper.js:79-105 | 28 to 31 consecutive days hold four or five Mondays |
| DateHelper.MonthLength | src/helper/date.helper.js:79 | the next month starts as many days later as the month has, between 28 and 31 |
| DateHelper.MonthOfNearMonth | src/helper/date.helper.js:79 | from the first of the month up to a week past its end, a day is in the month exactly when it is before the first of the next |
| DateHelper.MonthStartDate | src/helper/date.helper.js:66-71 | Date.UTC(year, month - 1, 1) is the month's first day, and its first Monday comes before the next month |
| CheckRole.CheckAllowedRole | src/helper/check-role.helper.js:13-29 | succeeds exactly when the role is present, the list is present and holds the role; otherwise Forbidden for a missing role, then a missing list, then a role not in the list |
| CheckRole.CheckAllowedRoleWithoutThrowError | src/helper/check-role.helper.js:31-47 | true exactly when the throwing check succeeds |
| CheckRole.AdminTeacherGate | src/helper/check-role.helper.js:4-11 | IS_ADMIN_TEACHER admits exactly ADMIN and TEACHER |
| CheckRole.AdminGate | src/helper/check-role.helper.js:4-11 | IS_ADMIN admits exactly ADMIN |
| CheckRole.AllRoleGate | src/helper/check-role.helper.js:4-11 | IS_ALL_ROLE admits exactly the three roles |
| CheckRole.RoleListsWithinAllRole | src/helper/check-role.helper.js:4-11 | every ROLE list lies within IS_ALL_ROLE, so what one admits IS_ALL_ROLE admits |
| School.CheckClassMustBeExist | src/service/class.service.js:8-46 | the class of that id exactly when the id is present and known; BadRequest for a missing id, NotFound for an unknown one |
| School.CheckStudentMustBeExist | src/service/student.service.js:8-73 | the student of that id exactly when the id is present and known; BadRequest for a missing id, NotFound for an unknown one |
| Attendance.AttendanceMap | src/service/attendance.service.js:31-58 | a student has an entry exactly when a record is stored for the class, the student and the day, and the entry is that record |
| Attendance.NameLessIrreflexive | src/service/attendance.service.js:93-97 | no name sorts before itself |
| Attendance.NameLessTransitive | src/service/attendance.service.js:93-97 | the name order is transitive |
| Attendance.NameLessTotal | src/service/attendance.service.js:93-97 | of two different names one sorts first |
| Attendance.BeforeTransitive | src/service/attendance.service.js:93-97 | the row order is transitive |
| Attendance.SortedRowsUnique | src/service/attendance.service.js:91-98 | two strictly sorted row lists with the same rows are equal, so the sort has one result |
| Attendance.SortedRowsByName | src/service/attendance.service.js:91-98 | sorted rows are in non-decreasing name order |
| Attendance.SortByStudentName | src/service/attendance.service.js:93-97 | the array ends sorted by name, equal names in roster order, and is a permutation of its old contents |
| Attendance.InsertIntoSorted | src/service/attendance.service.js:93-97 | one step of the sort extends the sorted prefix by one row, permutes the array and leaves the rest alone |
| Attendance.RosterRow | src/service/attendance.service.js:63-81 | position k + 1; the stored record's id and status when there is one, otherwise ABSENT on the requested day |
| Attendance.Reconciled | src/service/attendance.service.js:60-82 | one row per roster student, in roster order |
| Attendance.BuildSheet | src/service/attendance.service.js:60-82 | the roster loop builds exactly that list |
| Attendance.SheetCoversRoster | src/service/attendance.service.js:60-98 | a permutation of the built rows has one row per student and no other |
| Attendance.SheetStatus | src/service/attendance.service.js:58-81 | row k carries the stored status of its student for the day, or ABSENT |
| Attendance.DetailsTarget | src/service/attendance.service.js:13-41 | Forbidden exactly when the role is not ADMIN or TEACHER, reported first; on success the class exists, the student exists, a date was given and transformDate returned a valid date |
| Attendance.DetailsCheckOrder | src/service/attendance.service.js:15-29 | once the role passes: classId missing, unknown class, studentId missing, unknown student, date missing, in that order |
| Attendance.PassingDetailsChecks | src/service/attendance.service.js:13-41 | a request that meets every check is answered with its class and day |
| Attendance.ParseIsoDate | src/service/attendance.service.js:130 | only `YYYY-MM-DD` text of a calendar date is read as a date |
| Attendance.ParseAgreesWithTransform | src/service/attendance.service.js:41 | for years 1000 to 9999, `new Date(s)` and transformDate read a `YYYY-MM-DD` calendar date as the same day |
| Attendance.UpsertTarget | src/service/attendance.service.js:105-133 | Forbidden exactly when the role is not ADMIN or TEACHER; on success every field is present, both ids are known, and the key is the request's class, student and parsed day; in a table keyed by id these are the found class's and student's ids that the create writes |
| Attendance.UpsertCheckOrder | src/service/attendance.service.js:107-125 | once the role passes: date, status, classId, class, studentId, student, in that order |
| Attendance.Upserted | src/service/attendance.service.js:127-174 | one key is added or changed and takes the status; an update keeps the record's id, a create uses the fresh id; every other record is unchanged |
| Attendance.UpsertedSize | src/service/attendance.service.js:137-174 | a create adds one record and an update adds none |
| Attendance.WriteThenRead | src/service/attendance.service.js:31-81 | after a status is written for a class, student and date (years 1000 to 9999), the sheet of that class and date shows that status in the student's row |
| Attendance.UpsertedIdempotent | src/service/attendance.service.js:127-174 | writing the same status under the same key twice is writing it once |
| Attendance.AttendanceStore.constructor | src/service/attendance.service.js:9 | the empty store is well-formed |
| Attendance.AttendanceStore.GetAttendanceDetails | src/service/attendance.service.js:10-100 | a failed check is returned unchanged; otherwise the day, the class's teacher and name, and the reconciled rows sorted by name |
| Attendance.AttendanceStore.CreateOrUpdate | src/service/attendance.service.js:102-185 | a failed check changes nothing; otherwise the store is `Upserted` under the key, the next id moves only on a create, ids stay distinct, and the answer is the date, status and student |
| Attendance.SortSheet | src/service/attendance.service.js:91-98 | an empty list stays empty; otherwise the rows come back sorted by name as a permutation |
| Attendance.GetAttendanceDetailsAsWritten | src/service/attendance.service.js:63 | as written, every request that passes the checks throws a TypeError |
| Attendance.AsWrittenNeverListsRoster | src/service/attendance.service.js:63 | a request for class 1, student 7 and day 2024-03-04 passes every check and still throws as written |
| StudentClass.IntOrNull | src/service/student-class.service.js:20 | `x \|\| null`: null exactly for 0, otherwise x |
| StudentClass.TextOrNull | src/service/student-class.service.js:21-22 | `s \|\| null`: null exactly for "", otherwise s |
| StudentClass.ToStudentClassJson | src/service/student-class.service.js:77-90 | the row id, the student's id, nisn and name, and the class's id and name, each falsy value as null |
| StudentClass.TeacherRefOf | src/service/student-class.service.js:19-23 | the teacher's id, nip and name, each falsy value as null, and all null without a teacher |
| StudentClass.ToStudentInClassJson | src/service/student-class.service.js:8-41 | the class id and name, the teacher's id, nip and name (null when falsy, all null without a teacher), the row count, and, when asked, one student entry per row in order |
| StudentClass.ToClassInStudentJson | src/service/student-class.service.js:43-75 | the student's id and name, the nisn or null, the parent's id and name (null when falsy, all null without a parent), the row count, and, when asked, one class entry per row in order |
| StudentClass.FindFirst | src/service/student-class.service.js:105-114 | the position of the first row linking the student to the class; none exactly when no row does |
| StudentClass.DeleteById | src/service/student-class.service.js:219-223 | the rows are those of the old rows whose id differs |
| StudentClass.DeleteByIdAt | src/service/student-class.service.js:219-223 | with distinct ids, deleting a row's id removes that row alone |
| StudentClass.AddThenRemove | src/service/student-class.service.js:190-223 | a row appended for a new pair is the one the next lookup finds, and deleting it gives the rows back |
| StudentClass.PairsAppend | src/service/student-class.service.js:190-199 | appending a row adds its pair to the relation |
| StudentClass.PairsRemoveAt | src/service/student-class.service.js:219-223 | removing the one row of a pair removes that pair and no other |
| StudentClass.RemoveAtKeepsDistinct | src/service/student-class.service.js:219-223 | removing a row keeps ids and pairs distinct |
| StudentClass.StudentsIn | src/service/student-class.service.js:135-142 | the students of a class's rows: a student is listed exactly when it is enrolled in the class |
| StudentClass.PairsOfCons | src/service/student-class.service.js:135-142 | the relation of a table is its first row's pair together with the rest's |
| StudentClass.ClassesOf | src/service/student-class.service.js:161-168 | the classes of a student's rows: a class is listed exactly when the student is enrolled in it |
| StudentClass.StudentsInAppend | src/service/student-class.service.js:190-199 | a new row puts its student last in its own class's list and leaves the other classes' lists alone |
| StudentClass.FindStudentClassAsWritten | src/service/student-class.service.js:93-102 | as written, BadRequest for a missing id, and a TypeError for any two present ids |
| StudentClass.FindStudentClass | src/service/student-class.service.js:93-121 | BadRequest for a missing id, then NotFound for an unknown class, then for an unknown student; on success null exactly when the pair is not enrolled, and otherwise the JSON of the first row linking the student to the class |
| StudentClass.AsWrittenRejectsEnrolledPair | src/service/student-class.service.js:99-102 | an enrolled pair that the corrected lookup returns makes the lookup as written throw |
| StudentClass.SelectedByClassLookup | src/service/class.service.js:17-38 | the class keeps its id, name, roster and the teacher's id and nip, and the teacher's `name` reads as null, because the select holds it only under `teacher.user` |
| StudentClass.FindStudentsInClass | src/service/student-class.service.js:123-147 | Forbidden for a role outside IS_ALL_ROLE; success exactly for an allowed role and a known class; the class's id and name, the teacher's id and nip, and a null teacher name; the count is the number of the class's rows, and entry i is the student of the class's i-th row |
| StudentClass.FindClassesOfStudent | src/service/student-class.service.js:149-173 | Forbidden for a role outside IS_ALL_ROLE, then BadRequest for a missing id; success exactly for an allowed role and a known student; the student's id, name and nisn, the parent on record or nulls, the count of the student's rows, and entry i is the class of the student's i-th row |
| StudentClass.EnrollmentTable.constructor | src/service/student-class.service.js:92 | the empty table has distinct ids and pairs |
| StudentClass.EnrollmentTable.AddStudentToClass | src/service/student-class.service.js:175-202 | the role error, then the lookup's error, then "Student already in class!"; success exactly when the pair is new; it then appends one row with the next id, adds the pair to the relation, keeps ids and pairs distinct, and answers with the row's JSON; a failure changes nothing |
| StudentClass.EnrollmentTable.RemoveStudentFromClass | src/service/student-class.service.js:204-226 | the role error, then the lookup's error, then "Student not in class!"; success exactly when the pair is enrolled; it then deletes that row by id, takes the pair out of the relation, and answers with the lookup's JSON of the deleted row; a failure changes nothing |

## Left out

- Database access, `async`/`await`, HTTP and the controllers are not part of this model.
  - The tables are values: a `Directory` of classes and students, a map of attendance records, and a sequence of `studentClass` rows.
  - Queries are functions over these values.
- `createdAt` and the other selected columns that no modelled operation reads are not part of the result types.
- `Number(...)` is modelled only for undefined, the empty string and strings of decimal digits. Signs, decimals, exponents, surrounding whitespace, `0x`/`0o`/`0b` prefixes and `Infinity` in a date field count as NaN, which is "Invalid date format", although JavaScript reads them as numbers.
- `Attendance.ParseIsoDate` models `new Date(s)` only for the date-only `YYYY-MM-DD` form of a calendar date. Every other text is an Invalid Date. Node's parser accepts more:
  - the same form with a day up to 31 past the month's end, rolled over: `"2024-02-30"` is 1 March 2024, so `createOrUpdate` writes a record for 1 March, and the model answers StoreRejected;
  - non-ISO forms such as `"2024-3-4"`, read in local time, which the model also rejects;
  - date-time forms and the other legacy formats.
- `DateHelper.GetWeekMonToSaturdayDates`: requires the first of the month and its first Monday to lie inside the Date range. Otherwise the `getUTCDay() !== 1` loop at src/helper/date.helper.js:5-8 never ends, because an Invalid Date has no Monday. The move by whole weeks and the scan after it may leave the range; that case is modelled.
- `DateHelper.GetAllWeeksInMonth`: requires every day it touches to lie inside the Date range. Outside it the Monday loops at src/helper/date.helper.js:69-71 and :102-104 spin on an Invalid Date.
- The loops of `getAllWeeksInMonth` and the `for` loop of `getWeekMonToSaturdayDates` are separate methods (`CollectMonthWeeks`, `CollectWeekDays`, `KeepMondayToSaturday`), each with its own invariants.
- The week entries hold day numbers. The JavaScript `Date` objects are mutable, but the source pushes fresh copies, so no aliasing is lost.
- `Attendance.SortByStudentName`: proved only for rows numbered 1, 2, ... in order, which is every list the roster loop builds. It is an insertion sort, not the engine's algorithm. The result is the same because the stable sort's result is unique (`SortedRowsUnique`).
- Names are compared character by character as Unicode scalar values. JavaScript compares UTF-16 code units, which differs only outside the Basic Multilingual Plane.
- Attendance statuses are any non-empty string. The database enum of statuses is not part of this model.
- In a sheet row, the stored record's student fields come from the roster entry of that student, which is the same database row. Its `date` is the requested day, which is the stored record's day.
- The teacher's name on the sheet is modelled as the teacher's own name field. The source reads `teacher.user.name`.
- `StudentClass.EnrollmentTable.AddStudentToClass`: the created row uses the ids of the found student and class. The source passes the request's ids, which are the same ids in a `Keyed` directory.
- `FindStudentsInClass`: the class comes from `checkClassMustBeExist`, whose select has the teacher's name only as `teacher.user.name`. The mapper at src/service/student-class.service.js:22 reads `teacher.name`, so the answer's teacher name is always null (`SelectedByClassLookup`). The intended `findClassMustExist(classId, { isWithTeacher: true })` is not defined, so what it would select is unknown.
- `FindClassesOfStudent`, `FindStudentsInClass`: the corrected versions, with the existence checks the services define. As written, both call the undefined lookups of the first finding below, at lines 130 and 156. Both require every row to name a known student or class, as the foreign keys of the table guarantee; the source's `|| null` for a row without one is not modelled.
- `CreateOrUpdate`: the record is keyed by the request's class and student ids, which the lookup at src/service/attendance.service.js:127-133 also uses. The create at lines 141-142 writes the found class's and student's ids instead. `UpsertTarget` proves the two agree in a `Keyed` directory, where every record sits under its own id. The model does not promise it for other directories.
- `WriteThenRead`, `ParseAgreesWithTransform`: proved for years 1000 to 9999. For years 0 to 99, `transformDate` goes through Date.UTC, which reads them as 1900 to 1999, while `new Date(s)` does not. A record written for such a date is not on that date's sheet. Years 100 to 999 are not covered by the proof.
- `School.CheckStudentMustBeExist`: does not model the TypeError for a student without a parent. src/service/student.service.js:57-61 reads `existedStudent.parent.id` unguarded.
- The services as the source writes them throw at the points listed under Findings. The rest of the model uses the corrected versions.

## Findings

| source | as written | input that shows it | evidently intended | confidence | as-written member | corrected member |
|---|---|---|---|---|---|---|
| src/service/student-class.service.js:99-102 | `findStudentClass` calls `ClassService.findClassMustExist` and `StudentService.findStudentMustExist`, which neither service defines, so every call with both ids present throws a TypeError. `addStudentToClass` and `removeStudentFromClass` call it and never succeed. The same calls appear at lines 130 and 156 | studentId 7 and classId 1, both known, with student 7 enrolled in class 1 | call `checkClassMustBeExist` and `checkStudentMustBeExist`, then return the enrollment or null | not executed | StudentClass.FindStudentClassAsWritten, StudentClass.AsWrittenRejectsEnrolledPair | StudentClass.FindStudentClass |
| src/service/attendance.service.js:63 | the roster loop reads `existedClass.student`, but the class returned by `checkClassMustBeExist` (src/service/class.service.js:13-39) selects its enrollments as `studentClass` and has no `student` field, so `forEach` on undefined throws whenever every check passes | classId 1 (existing), studentId 7 (existing), date "2024-03-04", role ADMIN | iterate over the class's enrolled students | not executed | Attendance.GetAttendanceDetailsAsWritten, Attendance.AsWrittenNeverListsRoster | Attendance.AttendanceStore.GetAttendanceDetails |
