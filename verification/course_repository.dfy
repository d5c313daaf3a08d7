/**
 * `CourseRepositoryImpl`: the course queries and the operations that link
 * courses to students and teachers.
 *
 * The link operations read and write two tables, so they work on a `Db`
 * holding the user table and the course table. A course's roster is the
 * owning side of the course-student association; a student's list of
 * enrolled courses is its in-memory inverse. `Symmetric` says the two agree,
 * and every link operation keeps it.
 */
module CourseRepository {
  import opened Wrappers
  import opened CrudRepository
  import opened Calendar
  import opened Users
  import opened Courses
  import Lists
  import Text

  datatype Db = Db(users: Table<User>, courses: Table<Course>)

  predicate DbValid(db: Db)
  {
    Valid(db.users) && Valid(db.courses)
  }

  /** `entityManager.find(Student.class, id)`: only a stored student counts. */
  function FindStudent(users: Table<User>, id: Id): (r: Option<User>)
    ensures r.Some? <==> FindById(users, id).Some? && FindById(users, id).value.Student?
    ensures r.Some? ==> r.value.Student? && Row(id, r.value) in users.rows
  {
    match FindById(users, id)
    case Some(u) => if u.Student? then Some(u) else None
    case None => None
  }

  /** `entityManager.find(Teacher.class, id)`: only a stored teacher counts. */
  function FindTeacher(users: Table<User>, id: Id): (r: Option<User>)
    ensures r.Some? <==> FindById(users, id).Some? && FindById(users, id).value.Teacher?
    ensures r.Some? ==> r.value.Teacher? && Row(id, r.value) in users.rows
  {
    match FindById(users, id)
    case Some(u) => if u.Teacher? then Some(u) else None
    case None => None
  }

  /**
   * The in-memory inverse side agrees with the rosters: for every stored
   * course and stored student, the course lists the student exactly when the
   * student lists the course.
   */
  ghost predicate Symmetric(db: Db)
  {
    forall cid, sid ::
      FindById(db.courses, cid).Some? && FindById(db.users, sid).Some? && FindById(db.users, sid).value.Student? ==>
        Linked(FindById(db.courses, cid).value, cid, FindById(db.users, sid).value, sid)
  }

  /** Neither a roster nor a student's course list holds an entry twice. */
  ghost predicate NoRepeats(db: Db)
  {
    && (forall cid :: FindById(db.courses, cid).Some? ==> Lists.NoDup(FindById(db.courses, cid).value.students))
    && (forall sid :: FindById(db.users, sid).Some? && FindById(db.users, sid).value.Student? ==>
          Lists.NoDup(FindById(db.users, sid).value.enrolledCourses))
  }

  // ---------------------------------------------------------------- queries

  /** The unique constraint on the course-code column. */
  predicate UniqueCourseCodes(t: Table<Course>)
  {
    forall i, j :: 0 <= i < j < |t.rows| ==> t.rows[i].entity.courseCode != t.rows[j].entity.courseCode
  }

  /**
   * `findByCourseCode`: a single-result query. With unique codes it never
   * fails, and it finds a course exactly when one has the code.
   */
  function FindByCourseCode(t: Table<Course>, courseCode: string): (r: Result<Option<Row<Course>>>)
    ensures UniqueCourseCodes(t) ==> r.Success?
    ensures r.Success? ==> (r.value.None? <==> forall row :: row in t.rows ==> row.entity.courseCode != courseCode)
    ensures r.Success? && r.value.Some? ==> r.value.value in t.rows && r.value.value.entity.courseCode == courseCode
  {
    SingleResult(t.rows, (c: Course) => c.courseCode == courseCode)
  }

  /** `findByTitle`: the courses whose title is exactly `title`. */
  function FindByTitle(t: Table<Course>, title: string): (r: seq<Row<Course>>)
    ensures forall row :: row in r <==> row in t.rows && row.entity.title == title
    ensures forall row :: multiset(r)[row] == if row.entity.title == title then multiset(t.rows)[row] else 0
  {
    var p := (c: Course) => c.title == title;
    forall row
      ensures multiset(Where(t.rows, p))[row] == if row.entity.title == title then multiset(t.rows)[row] else 0
    {
      WhereMultiset(t.rows, p, row);
    }
    Where(t.rows, p)
  }

  /** `findByStatus`. */
  function FindByStatus(t: Table<Course>, status: CourseStatus): (r: seq<Row<Course>>)
    ensures forall row :: row in r <==> row in t.rows && row.entity.status == status
  {
    Where(t.rows, (c: Course) => c.status == status)
  }

  /** The identifiers of the stored courses with this status. */
  function IdsWithStatus(t: Table<Course>, status: CourseStatus): set<Id>
  {
    set i | 0 <= i < |t.rows| && t.rows[i].entity.status == status :: t.rows[i].id
  }

  /** `findByStatus` returns one row per stored course with the status. */
  lemma CountByStatus(t: Table<Course>, status: CourseStatus)
    requires Valid(t)
    ensures |FindByStatus(t, status)| == |IdsWithStatus(t, status)|
  {
    var p := (c: Course) => c.status == status;
    CountWhere(t.rows, p);
    assert IdsWhere(t.rows, p) == IdsWithStatus(t, status);
  }

  /** `findByTeacher`: the courses assigned to the teacher with this id. */
  function FindByTeacher(t: Table<Course>, teacherId: Id): (r: seq<Row<Course>>)
    ensures forall row :: row in r <==> row in t.rows && row.entity.teacher == Some(teacherId)
    ensures forall row :: multiset(r)[row] == if row.entity.teacher == Some(teacherId) then multiset(t.rows)[row] else 0
  {
    var p := (c: Course) => c.teacher == Some(teacherId);
    forall row
      ensures multiset(Where(t.rows, p))[row] == if row.entity.teacher == Some(teacherId) then multiset(t.rows)[row] else 0
    {
      WhereMultiset(t.rows, p, row);
    }
    Where(t.rows, p)
  }

  /** `findByStudent`: the courses whose roster holds the student with this id. */
  function FindByStudent(t: Table<Course>, studentId: Id): (r: seq<Row<Course>>)
    ensures forall row :: row in r <==> row in t.rows && studentId in row.entity.students
    ensures forall row :: multiset(r)[row] == if studentId in row.entity.students then multiset(t.rows)[row] else 0
  {
    var p := (c: Course) => studentId in c.students;
    forall row
      ensures multiset(Where(t.rows, p))[row] == if studentId in row.entity.students then multiset(t.rows)[row] else 0
    {
      WhereMultiset(t.rows, p, row);
    }
    Where(t.rows, p)
  }

  /** The rows satisfying `p`, each as often as it is stored, ordered by `key`; ties in any order. */
  function SortedWhere(rows: seq<Row<Course>>, p: Course -> bool, key: Row<Course> -> int): (r: seq<Row<Course>>)
    ensures forall row :: row in r <==> row in rows && p(row.entity)
    ensures multiset(r) == multiset(Where(rows, p))
    ensures Lists.SortedBy(r, key)
    ensures |r| <= |rows|
  {
    var w := Where(rows, p);
    var s := Lists.SortBy(w, key);
    assert |s| == |multiset(s)|;
    forall row
      ensures row in s <==> row in w
    {
      assert row in s <==> row in multiset(s);
      assert row in w <==> row in multiset(w);
    }
    s
  }

  /** The condition of `findActiveCourses`: active, and running on `today` (start and end inclusive). */
  function ActiveOn(today: Date): Course -> bool
  {
    (c: Course) => c.status == ACTIVE && c.startDate <= today <= c.endDate
  }

  /** The condition of `findUpcomingCourses`: planned, and starting after `today`. */
  function UpcomingAfter(today: Date): Course -> bool
  {
    (c: Course) => c.status == PLANNED && c.startDate > today
  }

  /**
   * `findActiveCourses`: the active courses running today (start and end
   * inclusive), each once per stored row, earliest start first. `today`
   * stands for `LocalDate.now()`.
   */
  function FindActiveCourses(t: Table<Course>, today: Date): (r: seq<Row<Course>>)
    ensures forall row :: row in r <==>
      row in t.rows && row.entity.status == ACTIVE && row.entity.startDate <= today <= row.entity.endDate
    ensures multiset(r) == multiset(Where(t.rows, ActiveOn(today)))
    ensures forall i, j :: 0 <= i < j < |r| ==> r[i].entity.startDate <= r[j].entity.startDate
  {
    var r := SortedWhere(t.rows, ActiveOn(today), (row: Row<Course>) => row.entity.startDate);
    r
  }

  /**
   * `findUpcomingCourses`: the planned courses starting after today, each
   * once per stored row, earliest start first.
   */
  function FindUpcomingCourses(t: Table<Course>, today: Date): (r: seq<Row<Course>>)
    ensures forall row :: row in r <==> row in t.rows && row.entity.status == PLANNED && row.entity.startDate > today
    ensures multiset(r) == multiset(Where(t.rows, UpcomingAfter(today)))
    ensures forall i, j :: 0 <= i < j < |r| ==> r[i].entity.startDate <= r[j].entity.startDate
  {
    var r := SortedWhere(t.rows, UpcomingAfter(today), (row: Row<Course>) => row.entity.startDate);
    r
  }

  /** The title filter of `searchCourses` is on when the title has a non-blank trimmed form. */
  predicate TitleFilterOn(title: Option<string>)
  {
    title.Some? && Text.Trim(title.value) != []
  }

  /** The conjunction of the filters `searchCourses` is given; with none, every course passes. */
  function SearchFilter(title: Option<string>, status: Option<CourseStatus>,
                        startDate: Option<Date>, endDate: Option<Date>): Course -> bool
  {
    var pattern := if TitleFilterOn(title) then Text.Lower(Text.Trim(title.value)) else [];
    (c: Course) =>
      && (TitleFilterOn(title) ==> Text.IsInfix(pattern, Text.Lower(c.title)))
      && (status.Some? ==> c.status == status.value)
      && (startDate.Some? ==> c.startDate >= startDate.value)
      && (endDate.Some? ==> c.endDate <= endDate.value)
  }

  /**
   * `searchCourses`: every filter that is given must hold — the trimmed,
   * lower-cased title occurs in the lower-cased course title; the status is
   * equal; the course starts on or after `startDate`; it ends on or before
   * `endDate`. Each matching row is listed once per stored row, the latest
   * start first. With no filter at all, every course is returned.
   */
  function SearchCourses(t: Table<Course>, title: Option<string>, status: Option<CourseStatus>,
                         startDate: Option<Date>, endDate: Option<Date>): (r: seq<Row<Course>>)
    ensures forall row :: row in r ==> row in t.rows
    ensures forall row :: row in r && TitleFilterOn(title) ==>
      Text.IsInfix(Text.Lower(Text.Trim(title.value)), Text.Lower(row.entity.title))
    ensures forall row :: row in r && status.Some? ==> row.entity.status == status.value
    ensures forall row :: row in r && startDate.Some? ==> row.entity.startDate >= startDate.value
    ensures forall row :: row in r && endDate.Some? ==> row.entity.endDate <= endDate.value
    ensures forall row ::
      (&& row in t.rows
       && (TitleFilterOn(title) ==> Text.IsInfix(Text.Lower(Text.Trim(title.value)), Text.Lower(row.entity.title)))
       && (status.Some? ==> row.entity.status == status.value)
       && (startDate.Some? ==> row.entity.startDate >= startDate.value)
       && (endDate.Some? ==> row.entity.endDate <= endDate.value))
      ==> row in r
    ensures multiset(r) == multiset(Where(t.rows, SearchFilter(title, status, startDate, endDate)))
    ensures forall i, j :: 0 <= i < j < |r| ==> r[i].entity.startDate >= r[j].entity.startDate
    ensures !TitleFilterOn(title) && status.None? && startDate.None? && endDate.None? ==>
      multiset(r) == multiset(t.rows)
  {
    var p := SearchFilter(title, status, startDate, endDate);
    var key := (row: Row<Course>) => -row.entity.startDate;
    if !TitleFilterOn(title) && status.None? && startDate.None? && endDate.None? then
      var s := Lists.SortBy(t.rows, key);
      forall row
        ensures row in s <==> row in t.rows
      {
        assert row in s <==> row in multiset(s);
        assert row in t.rows <==> row in multiset(t.rows);
      }
      forall row
        ensures multiset(s)[row] == multiset(Where(t.rows, p))[row]
      {
        WhereMultiset(t.rows, p, row);
      }
      assert multiset(s) == multiset(Where(t.rows, p));
      s
    else
      SortedWhere(t.rows, p, key)
  }

  // ------------------------------------------------------- student links

  /**
   * `isStudentEnrolled`: the count of course-student join rows for this pair
   * is positive — the course's roster lists a stored student with this id.
   */
  function IsStudentEnrolled(db: Db, courseId: Id, studentId: Id): (b: bool)
    requires Valid(db.courses)
    ensures b <==> (FindStudent(db.users, studentId).Some? &&
                    exists row :: row in db.courses.rows && row.id == courseId && studentId in row.entity.students)
  {
    match FindById(db.courses, courseId)
    case None => false
    case Some(c) =>
      FindAllAgreesWithFindById(db.courses, courseId, c);
      forall row | row in db.courses.rows && row.id == courseId
        ensures row.entity == c
      {
        FindAllAgreesWithFindById(db.courses, courseId, row.entity);
      }
      FindStudent(db.users, studentId).Some? && studentId in c.students
  }

  /**
   * `addStudentToCourse`: an existing enrolment is left alone (checked before
   * anything is looked up); otherwise the course and the student must exist,
   * the student joins the roster, the course joins the student's list, and
   * both are stored.
   */
  function AddStudentToCourse(db: Db, courseId: Id, studentId: Id): (r: Result<Db>)
    requires DbValid(db)
    ensures IsStudentEnrolled(db, courseId, studentId) ==> r == Success(db)
    ensures r.Failure? <==>
      (!IsStudentEnrolled(db, courseId, studentId) &&
       (FindById(db.courses, courseId).None? || FindStudent(db.users, studentId).None?))
    ensures r.Failure? && FindById(db.courses, courseId).None? ==> r.error == NotFound("Course not found with id: ")
    ensures r.Failure? && FindById(db.courses, courseId).Some? ==> r.error == NotFound("Student not found with id: ")
    ensures r.Success? ==> DbValid(r.value) && IsStudentEnrolled(r.value, courseId, studentId)
    ensures r.Success? ==>
      FindStudent(r.value.users, studentId).value.account == FindStudent(db.users, studentId).value.account
    ensures r.Success? ==>
      && (forall k :: k != courseId ==> FindById(r.value.courses, k) == FindById(db.courses, k))
      && (forall k :: k != studentId ==> FindById(r.value.users, k) == FindById(db.users, k))
    ensures r.Success? && Symmetric(db) ==> Symmetric(r.value)
    ensures r.Success? && NoRepeats(db) ==> NoRepeats(r.value)
  {
    if IsStudentEnrolled(db, courseId, studentId) then Success(db)
    else
      match FindById(db.courses, courseId)
      case None => Failure(NotFound("Course not found with id: "))
      case Some(c) =>
        match FindStudent(db.users, studentId)
        case None => Failure(NotFound("Student not found with id: "))
        case Some(s) =>
          var (c', s') := AddStudent(c, courseId, s, studentId);
          var db' := Db(Save(db.users, Some(studentId), s').0, Save(db.courses, Some(courseId), c').0);
          assert FindById(db'.courses, courseId) == Some(c');
          assert FindById(db'.users, studentId) == Some(s');
          LinkedAfterUpdate(db, db', courseId, c', studentId, s');
          Success(db')
  }

  /**
   * `removeStudentFromCourse`: the course and the student must exist; a
   * student on the roster is taken off it, and the course off the student's
   * list; otherwise nothing changes.
   */
  function RemoveStudentFromCourse(db: Db, courseId: Id, studentId: Id): (r: Result<Db>)
    requires DbValid(db)
    ensures r.Failure? <==> FindById(db.courses, courseId).None? || FindStudent(db.users, studentId).None?
    ensures r.Failure? && FindById(db.courses, courseId).None? ==> r.error == NotFound("Course not found with id: ")
    ensures r.Failure? && FindById(db.courses, courseId).Some? ==> r.error == NotFound("Student not found with id: ")
    ensures r.Success? && !IsStudentEnrolled(db, courseId, studentId) ==> r.value == db
    ensures r.Success? ==> DbValid(r.value)
    ensures r.Success? ==>
      && (forall k :: k != courseId ==> FindById(r.value.courses, k) == FindById(db.courses, k))
      && (forall k :: k != studentId ==> FindById(r.value.users, k) == FindById(db.users, k))
    ensures r.Success? && NoRepeats(db) ==> NoRepeats(r.value) && !IsStudentEnrolled(r.value, courseId, studentId)
    ensures r.Success? && NoRepeats(db) && Symmetric(db) ==> Symmetric(r.value)
  {
    match FindById(db.courses, courseId)
    case None => Failure(NotFound("Course not found with id: "))
    case Some(c) =>
      match FindStudent(db.users, studentId)
      case None => Failure(NotFound("Student not found with id: "))
      case Some(s) =>
        if studentId !in c.students then Success(db)
        else
          var (c', s') := RemoveStudent(c, courseId, s, studentId);
          var db' := Db(Save(db.users, Some(studentId), s').0, Save(db.courses, Some(courseId), c').0);
          assert FindById(db'.courses, courseId) == Some(c');
          assert FindById(db'.users, studentId) == Some(s');
          LinkedAfterUpdate(db, db', courseId, c', studentId, s');
          Success(db')
  }

  /**
   * After one course and one student are rewritten — each side's list
   * changing only in the entry for the other — the tables still agree where
   * they agreed before, and repeats appear only where the new lists have them.
   */
  lemma LinkedAfterUpdate(db: Db, db': Db, courseId: Id, c': Course, studentId: Id, s': User)
    requires FindById(db.courses, courseId).Some? && FindStudent(db.users, studentId).Some?
    requires s'.Student?
    requires FindById(db'.courses, courseId) == Some(c') && FindById(db'.users, studentId) == Some(s')
    requires forall k :: k != courseId ==> FindById(db'.courses, k) == FindById(db.courses, k)
    requires forall k :: k != studentId ==> FindById(db'.users, k) == FindById(db.users, k)
    requires forall x :: x != studentId ==> (x in c'.students <==> x in FindById(db.courses, courseId).value.students)
    requires forall x :: x != courseId ==>
      (x in s'.enrolledCourses <==> x in FindById(db.users, studentId).value.enrolledCourses)
    ensures Symmetric(db) && Linked(c', courseId, s', studentId) ==> Symmetric(db')
    ensures NoRepeats(db) && Lists.NoDup(c'.students) && Lists.NoDup(s'.enrolledCourses) ==> NoRepeats(db')
  {
    if Symmetric(db) && Linked(c', courseId, s', studentId) {
      forall cid, sid | FindById(db'.courses, cid).Some? && FindById(db'.users, sid).Some? && FindById(db'.users, sid).value.Student?
        ensures Linked(FindById(db'.courses, cid).value, cid, FindById(db'.users, sid).value, sid)
      {
        if cid != courseId && sid != studentId {
          assert FindById(db'.courses, cid) == FindById(db.courses, cid);
          assert FindById(db'.users, sid) == FindById(db.users, sid);
        } else if cid != courseId {
          assert FindById(db'.courses, cid) == FindById(db.courses, cid);
        } else if sid != studentId {
          assert FindById(db'.users, sid) == FindById(db.users, sid);
        }
      }
    }
  }

  /**
   * `getCourseStudents`: the stored students on the course's roster; none
   * for a course that does not exist. The order by last and first name is
   * not modelled.
   */
  function GetCourseStudents(db: Db, courseId: Id): (r: seq<Row<User>>)
    requires DbValid(db)
    ensures forall row :: row in r <==> row in db.users.rows && IsStudentEnrolled(db, courseId, row.id)
    ensures forall row ::
              multiset(r)[row] == if IsStudentEnrolled(db, courseId, row.id) then multiset(db.users.rows)[row] else 0
  {
    match FindById(db.courses, courseId)
    case None => []
    case Some(c) =>
      var q := (row: Row<User>) => row.entity.Student? && row.id in c.students;
      var r := Lists.Filter(db.users.rows, q);
      forall row | row in db.users.rows
        ensures row.entity.Student? <==> FindStudent(db.users, row.id).Some?
      {
        FindAllAgreesWithFindById(db.users, row.id, row.entity);
      }
      forall row
        ensures multiset(r)[row] == if IsStudentEnrolled(db, courseId, row.id) then multiset(db.users.rows)[row] else 0
      {
        Lists.FilterMultiset(db.users.rows, q, row);
      }
      r
  }

  // ------------------------------------------------------- teacher links

  /** `assignTeacherToCourse`: the course and the teacher must exist; the course is then taught by the teacher. */
  function AssignTeacherToCourse(db: Db, courseId: Id, teacherId: Id): (r: Result<Db>)
    requires DbValid(db)
    ensures r.Failure? <==> FindById(db.courses, courseId).None? || FindTeacher(db.users, teacherId).None?
    ensures r.Failure? && FindById(db.courses, courseId).None? ==> r.error == NotFound("Course not found with id: ")
    ensures r.Failure? && FindById(db.courses, courseId).Some? ==> r.error == NotFound("Teacher not found with id: ")
    ensures r.Success? ==> DbValid(r.value) && r.value.users == db.users
    ensures r.Success? ==>
      FindById(r.value.courses, courseId) == Some(FindById(db.courses, courseId).value.(teacher := Some(teacherId)))
    ensures r.Success? ==> forall k :: k != courseId ==> FindById(r.value.courses, k) == FindById(db.courses, k)
    ensures r.Success? && Symmetric(db) ==> Symmetric(r.value)
  {
    match FindById(db.courses, courseId)
    case None => Failure(NotFound("Course not found with id: "))
    case Some(c) =>
      if FindTeacher(db.users, teacherId).None? then Failure(NotFound("Teacher not found with id: "))
      else
        var db' := Db(db.users, Save(db.courses, Some(courseId), c.(teacher := Some(teacherId))).0);
        assert FindById(db'.courses, courseId) == Some(c.(teacher := Some(teacherId)));
        assert Symmetric(db) ==> Symmetric(db') by {
          if Symmetric(db) {
            forall cid, sid | FindById(db'.courses, cid).Some? && FindById(db'.users, sid).Some? && FindById(db'.users, sid).value.Student?
              ensures Linked(FindById(db'.courses, cid).value, cid, FindById(db'.users, sid).value, sid)
            {
              if cid != courseId {
                assert FindById(db'.courses, cid) == FindById(db.courses, cid);
              }
            }
          }
        }
        Success(db')
  }

  /** `removeTeacherFromCourse`: the course must exist; it is left without a teacher. */
  function RemoveTeacherFromCourse(db: Db, courseId: Id): (r: Result<Db>)
    requires DbValid(db)
    ensures r.Failure? <==> FindById(db.courses, courseId).None?
    ensures r.Failure? ==> r.error == NotFound("Course not found with id: ")
    ensures r.Success? && FindById(db.courses, courseId).value.teacher.None? ==> r.value == db
    ensures r.Success? ==> DbValid(r.value) && r.value.users == db.users
    ensures r.Success? ==>
      FindById(r.value.courses, courseId) == Some(FindById(db.courses, courseId).value.(teacher := None))
    ensures r.Success? ==> forall k :: k != courseId ==> FindById(r.value.courses, k) == FindById(db.courses, k)
  {
    match FindById(db.courses, courseId)
    case None => Failure(NotFound("Course not found with id: "))
    case Some(c) =>
      if c.teacher.None? then Success(db)
      else Success(Db(db.users, Save(db.courses, Some(courseId), c.(teacher := None)).0))
  }

  /**
   * `getCourseTeacher` as written: a left-join query selects the course's
   * teacher, and the first result is wrapped with `Optional.of`. A missing
   * course gives no rows, hence empty. A course without a teacher gives one
   * row holding null, `Optional.of(null)` throws, and the catch block turns
   * that into a runtime failure.
   */
  function GetCourseTeacherAsWritten(db: Db, courseId: Id): (r: Result<Option<Row<User>>>)
    ensures FindById(db.courses, courseId).None? ==> r == Success(None)
    ensures r.Failure? <==>
      (&& FindById(db.courses, courseId).Some?
       && (|| FindById(db.courses, courseId).value.teacher.None?
           || FindTeacher(db.users, FindById(db.courses, courseId).value.teacher.value).None?))
    ensures r.Failure? ==> r.error == Internal("Failed to get course teacher")
    ensures r.Success? && r.value.Some? ==> r.value.value.entity.Teacher? && r.value.value in db.users.rows
  {
    match FindById(db.courses, courseId)
    case None => Success(None)
    case Some(c) =>
      match c.teacher
      case None => Failure(Internal("Failed to get course teacher"))
      case Some(tid) =>
        match FindTeacher(db.users, tid)
        case None => Failure(Internal("Failed to get course teacher"))
        case Some(u) => Success(Some(Row(tid, u)))
  }

  /**
   * `getCourseTeacher` as intended: the teacher of the course, and empty when
   * the course does not exist or has no teacher. It agrees with the code as
   * written wherever that does not fail.
   */
  function GetCourseTeacher(db: Db, courseId: Id): (r: Option<Row<User>>)
    ensures r.Some? <==>
      (&& FindById(db.courses, courseId).Some?
       && FindById(db.courses, courseId).value.teacher.Some?
       && FindTeacher(db.users, FindById(db.courses, courseId).value.teacher.value).Some?)
    ensures r.Some? ==> r.value.entity.Teacher? && r.value.id == FindById(db.courses, courseId).value.teacher.value
    ensures GetCourseTeacherAsWritten(db, courseId).Success? ==> GetCourseTeacherAsWritten(db, courseId).value == r
  {
    match GetCourseTeacherAsWritten(db, courseId)
    case Success(t) => t
    case Failure(_) => None
  }

  /** Once a teacher is assigned, the course's teacher is that teacher, both as written and as intended. */
  lemma AssignThenGetTeacher(db: Db, courseId: Id, teacherId: Id)
    requires DbValid(db)
    ensures AssignTeacherToCourse(db, courseId, teacherId).Success? ==>
            var db' := AssignTeacherToCourse(db, courseId, teacherId).value;
            && GetCourseTeacherAsWritten(db', courseId) == Success(Some(Row(teacherId, FindTeacher(db.users, teacherId).value)))
            && GetCourseTeacher(db', courseId) == Some(Row(teacherId, FindTeacher(db.users, teacherId).value))
  {
  }

  /**
   * The discrepancy: after a course's teacher is removed, the code as written
   * fails to report the teacher, while the intended answer is empty.
   */
  lemma RemoveThenGetTeacherFails(db: Db, courseId: Id)
    requires DbValid(db)
    requires RemoveTeacherFromCourse(db, courseId).Success?
    ensures var db' := RemoveTeacherFromCourse(db, courseId).value;
            && GetCourseTeacherAsWritten(db', courseId) == Failure(Internal("Failed to get course teacher"))
            && GetCourseTeacher(db', courseId).None?
  {
  }
}
