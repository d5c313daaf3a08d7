/**
 * `CourseService`: creating and updating courses from the course form,
 * assigning teachers and enrolling students, with the approval checks the
 * repository layer does not make.
 */
module CourseService {
  import opened Wrappers
  import opened CrudRepository
  import opened Calendar
  import opened Users
  import opened Courses
  import opened CourseDtos
  import opened CourseRepository
  import DtoValidator

  /** A stored teacher who has been approved: the only kind a course may be given. */
  predicate ApprovedTeacher(users: Table<User>, teacherId: Id)
  {
    FindTeacher(users, teacherId).Some? && IsApproved(FindTeacher(users, teacherId).value)
  }

  /** The course a valid form describes, before any teacher is attached. */
  function CourseFrom(d: CourseDto, today: Date, students: seq<Id>, teacher: Option<Id>): (c: Course)
    requires CourseValid(d, today)
    ensures c.courseCode == d.courseCode.value && c.title == d.title.value && c.description == d.description
    ensures c.startDate == d.startDate.value && c.endDate == d.endDate.value
    ensures c.credit == d.credit && c.status == d.status.value
    ensures c.students == students && c.teacher == teacher
  {
    Course(d.courseCode.value, d.title.value, d.description, d.startDate.value, d.endDate.value,
           d.status.value, d.credit, teacher, students)
  }

  /**
   * `createCourse`: the form is validated; the code must be free (a
   * non-unique lookup fails as it is); the end may not precede the start;
   * a given teacher must be a stored, approved teacher. The course is then
   * stored under a fresh identifier with an empty roster.
   */
  function CreateCourse(db: Db, d: CourseDto, today: Date): (r: Result<(Db, Id)>)
    requires DbValid(db)
    ensures !CourseValid(d, today) ==> r.Failure? && r.error.Invalid?
    ensures CourseValid(d, today) ==> r == AddCourse(db, d, today)
  {
    var violations := CourseViolations(d, today);
    if violations == [] then AddCourse(db, d, today)
    else Failure(DtoValidator.ValidateOrThrow(violations).error)
  }

  /** The part of `createCourse` after validation. */
  function AddCourse(db: Db, d: CourseDto, today: Date): (r: Result<(Db, Id)>)
    requires DbValid(db) && CourseValid(d, today)
    ensures r.Success? <==>
      && FindByCourseCode(db.courses, d.courseCode.value) == Success(None)
      && d.startDate.value <= d.endDate.value
      && (d.teacherId.Some? ==> ApprovedTeacher(db.users, d.teacherId.value))
    ensures FindByCourseCode(db.courses, d.courseCode.value).Failure? ==>
      r == Failure(FindByCourseCode(db.courses, d.courseCode.value).error)
    ensures FindByCourseCode(db.courses, d.courseCode.value).Success? &&
            FindByCourseCode(db.courses, d.courseCode.value).value.Some? ==>
      r == Failure(Conflict("Course code already exists: "))
    ensures FindByCourseCode(db.courses, d.courseCode.value) == Success(None) && d.endDate.value < d.startDate.value ==>
      r == Failure(Conflict("End date must be after start date"))
    ensures r.Success? ==>
      && DbValid(r.value.0) && r.value.0.users == db.users
      && FindById(db.courses, r.value.1).None?
      && FindById(r.value.0.courses, r.value.1) == Some(CourseFrom(d, today, [], d.teacherId))
      && (forall k :: k != r.value.1 ==> FindById(r.value.0.courses, k) == FindById(db.courses, k))
    ensures r.Success? ==> r.value.0.courses.rows == db.courses.rows + [Row(db.courses.nextId, CourseFrom(d, today, [], d.teacherId))]
  {
    var existing :- FindByCourseCode(db.courses, d.courseCode.value);
    if existing.Some? then Failure(Conflict("Course code already exists: "))
    else if IsBefore(d.endDate.value, d.startDate.value) then Failure(Conflict("End date must be after start date"))
    else if d.teacherId.Some? && !ApprovedTeacher(db.users, d.teacherId.value) then
      Failure(Conflict("Teacher not found or not approved with id: "))
    else
      var (courses, id) := Insert(db.courses, CourseFrom(d, today, [], d.teacherId));
      Success((Db(db.users, courses), id))
  }

  /** Creating a course never gives two courses the same code. */
  lemma CreateCourseKeepsCodesUnique(db: Db, d: CourseDto, today: Date)
    requires DbValid(db) && UniqueCourseCodes(db.courses)
    ensures CreateCourse(db, d, today).Success? ==> UniqueCourseCodes(CreateCourse(db, d, today).value.0.courses)
  {
    if CreateCourse(db, d, today).Success? {
      AddCourseKeepsCodesUnique(db, d, today);
    }
  }

  lemma AddCourseKeepsCodesUnique(db: Db, d: CourseDto, today: Date)
    requires DbValid(db) && UniqueCourseCodes(db.courses)
    requires CourseValid(d, today) && AddCourse(db, d, today).Success?
    ensures UniqueCourseCodes(AddCourse(db, d, today).value.0.courses)
  {
    var rows := db.courses.rows;
    forall i | 0 <= i < |rows|
      ensures rows[i].entity.courseCode != d.courseCode.value
    {
      assert rows[i] in rows;
    }
  }

  /**
   * `updateCourse`: the form is validated; the course must exist; its new
   * code may belong to no other course; the end may not precede the start.
   * Every form field is copied; a given teacher must be a stored, approved
   * teacher, and without one the course keeps its teacher. The roster is
   * untouched.
   */
  function UpdateCourse(db: Db, courseId: Id, d: CourseDto, today: Date): (r: Result<Db>)
    requires DbValid(db)
    ensures !CourseValid(d, today) ==> r.Failure? && r.error.Invalid?
    ensures CourseValid(d, today) ==> r == ChangeCourse(db, courseId, d, today)
  {
    var violations := CourseViolations(d, today);
    if violations == [] then ChangeCourse(db, courseId, d, today)
    else Failure(DtoValidator.ValidateOrThrow(violations).error)
  }

  /** The code check of `updateCourse`: the code is free, or it is this course's own. */
  predicate CodeAvailable(courses: Table<Course>, courseId: Id, code: string)
  {
    match FindByCourseCode(courses, code)
    case Success(found) => found.None? || found.value.id == courseId
    case Failure(_) => false
  }

  /** The part of `updateCourse` after validation. */
  function ChangeCourse(db: Db, courseId: Id, d: CourseDto, today: Date): (r: Result<Db>)
    requires DbValid(db) && CourseValid(d, today)
    ensures FindById(db.courses, courseId).None? ==> r == Failure(NotFound("Course not found with id: "))
    ensures r.Success? <==>
      && FindById(db.courses, courseId).Some?
      && CodeAvailable(db.courses, courseId, d.courseCode.value)
      && d.startDate.value <= d.endDate.value
      && (d.teacherId.Some? ==> ApprovedTeacher(db.users, d.teacherId.value))
    ensures r.Success? ==>
      var c := FindById(db.courses, courseId).value;
      var teacher := if d.teacherId.Some? then d.teacherId else c.teacher;
      && DbValid(r.value) && r.value.users == db.users
      && FindById(r.value.courses, courseId) == Some(CourseFrom(d, today, c.students, teacher))
      && (forall k :: k != courseId ==> FindById(r.value.courses, k) == FindById(db.courses, k))
  {
    match FindById(db.courses, courseId)
    case None => Failure(NotFound("Course not found with id: "))
    case Some(c) =>
      var existing :- FindByCourseCode(db.courses, d.courseCode.value);
      if existing.Some? && existing.value.id != courseId then Failure(Conflict("Course code already exists: "))
      else if IsBefore(d.endDate.value, d.startDate.value) then Failure(Conflict("End date must be after start date"))
      else if d.teacherId.Some? && !ApprovedTeacher(db.users, d.teacherId.value) then
        Failure(Conflict("Teacher not found or not approved with id: "))
      else
        var teacher := if d.teacherId.Some? then d.teacherId else c.teacher;
        Success(Db(db.users, Save(db.courses, Some(courseId), CourseFrom(d, today, c.students, teacher)).0))
  }

  /** Updating a course never gives it a code another course already has. */
  lemma UpdateCourseKeepsCodesUnique(db: Db, courseId: Id, d: CourseDto, today: Date)
    requires DbValid(db) && UniqueCourseCodes(db.courses)
    ensures UpdateCourse(db, courseId, d, today).Success? ==> UniqueCourseCodes(UpdateCourse(db, courseId, d, today).value.courses)
  {
    if UpdateCourse(db, courseId, d, today).Success? {
      ChangeCourseKeepsCodesUnique(db, courseId, d, today);
    }
  }

  lemma ChangeCourseKeepsCodesUnique(db: Db, courseId: Id, d: CourseDto, today: Date)
    requires DbValid(db) && UniqueCourseCodes(db.courses) && CourseValid(d, today)
    requires ChangeCourse(db, courseId, d, today).Success?
    ensures UniqueCourseCodes(ChangeCourse(db, courseId, d, today).value.courses)
  {
    var code := d.courseCode.value;
    var c := FindById(db.courses, courseId).value;
    var teacher := if d.teacherId.Some? then d.teacherId else c.teacher;
    var updated := CourseFrom(d, today, c.students, teacher);
    CodeFreeElsewhere(db.courses, courseId, code);
    ReplaceKeepsCodesUnique(db.courses.rows, courseId, updated);
    ChangeCourseRows(db, courseId, d, today);
  }

  /** A successful change overwrites the course's row in place. */
  lemma ChangeCourseRows(db: Db, courseId: Id, d: CourseDto, today: Date)
    requires DbValid(db) && CourseValid(d, today)
    requires ChangeCourse(db, courseId, d, today).Success?
    ensures var c := FindById(db.courses, courseId).value;
      var teacher := if d.teacherId.Some? then d.teacherId else c.teacher;
      ChangeCourse(db, courseId, d, today).value.courses.rows == Replace(db.courses.rows, courseId, CourseFrom(d, today, c.students, teacher))
  {
  }

  /** An available code is carried by no course other than `courseId`. */
  lemma CodeFreeElsewhere(courses: Table<Course>, courseId: Id, code: string)
    requires Valid(courses) && UniqueCourseCodes(courses) && CodeAvailable(courses, courseId, code)
    ensures forall i :: 0 <= i < |courses.rows| && courses.rows[i].id != courseId ==>
      courses.rows[i].entity.courseCode != code
  {
    var rows := courses.rows;
    var found := FindByCourseCode(courses, code).value;
    forall i | 0 <= i < |rows| && rows[i].id != courseId
      ensures rows[i].entity.courseCode != code
    {
      if found.Some? {
        var j :| 0 <= j < |rows| && rows[j] == found.value;
        assert rows[j].entity.courseCode == code && rows[j].id == courseId;
      } else {
        assert rows[i] in rows;
      }
    }
  }

  /** Overwriting one course with a code no other course has keeps codes unique. */
  lemma ReplaceKeepsCodesUnique(rows: seq<Row<Course>>, courseId: Id, updated: Course)
    requires IdsIncreasing(rows)
    requires forall i, j :: 0 <= i < j < |rows| ==> rows[i].entity.courseCode != rows[j].entity.courseCode
    requires forall i :: 0 <= i < |rows| && rows[i].id != courseId ==> rows[i].entity.courseCode != updated.courseCode
    ensures var rows' := Replace(rows, courseId, updated);
      forall i, j :: 0 <= i < j < |rows'| ==> rows'[i].entity.courseCode != rows'[j].entity.courseCode
  {
    var rows' := Replace(rows, courseId, updated);
    forall i, j | 0 <= i < j < |rows'|
      ensures rows'[i].entity.courseCode != rows'[j].entity.courseCode
    {
      assert rows[i].id < rows[j].id;
    }
  }

  /** Updating a course leaves every roster where it was, so the links stay symmetric. */
  lemma UpdateCourseKeepsLinks(db: Db, courseId: Id, d: CourseDto, today: Date)
    requires DbValid(db) && Symmetric(db)
    ensures UpdateCourse(db, courseId, d, today).Success? ==> Symmetric(UpdateCourse(db, courseId, d, today).value)
  {
    if CourseValid(d, today) {
      ChangeCourseKeepsLinks(db, courseId, d, today);
    }
  }

  lemma ChangeCourseKeepsLinks(db: Db, courseId: Id, d: CourseDto, today: Date)
    requires DbValid(db) && Symmetric(db) && CourseValid(d, today)
    ensures ChangeCourse(db, courseId, d, today).Success? ==> Symmetric(ChangeCourse(db, courseId, d, today).value)
  {
    if ChangeCourse(db, courseId, d, today).Success? {
      var db' := ChangeCourse(db, courseId, d, today).value;
      forall cid, sid | FindById(db'.courses, cid).Some? && FindById(db'.users, sid).Some? && FindById(db'.users, sid).value.Student?
        ensures Linked(FindById(db'.courses, cid).value, cid, FindById(db'.users, sid).value, sid)
      {
        if cid != courseId {
          assert FindById(db'.courses, cid) == FindById(db.courses, cid);
        }
      }
    }
  }

  /**
   * `assignTeacherToCourse`: the course and the teacher must both exist, and
   * the teacher must be approved; the repository then assigns the teacher.
   */
  function AssignTeacherToCourse(db: Db, courseId: Id, teacherId: Id): (r: Result<Db>)
    requires DbValid(db)
    ensures r.Success? <==> FindById(db.courses, courseId).Some? && ApprovedTeacher(db.users, teacherId)
    ensures FindById(db.courses, courseId).None? || FindTeacher(db.users, teacherId).None? ==>
      r == Failure(NotFound("Course or Teacher not found"))
    ensures FindById(db.courses, courseId).Some? && FindTeacher(db.users, teacherId).Some? &&
            !IsApproved(FindTeacher(db.users, teacherId).value) ==>
      r == Failure(Conflict("Teacher is not approved: "))
    ensures r.Success? ==>
      && DbValid(r.value) && r.value.users == db.users
      && FindById(r.value.courses, courseId).Some?
      && FindById(r.value.courses, courseId).value.teacher == Some(teacherId)
      && FindById(r.value.courses, courseId).value.students == FindById(db.courses, courseId).value.students
      && (forall k :: k != courseId ==> FindById(r.value.courses, k) == FindById(db.courses, k))
  {
    if FindById(db.courses, courseId).None? || FindTeacher(db.users, teacherId).None? then
      Failure(NotFound("Course or Teacher not found"))
    else if !IsApproved(FindTeacher(db.users, teacherId).value) then
      Failure(Conflict("Teacher is not approved: "))
    else
      CourseRepository.AssignTeacherToCourse(db, courseId, teacherId)
  }

  /** Through the service, a course only ever gets an approved teacher, and reports that teacher back. */
  lemma AssignedTeacherIsApproved(db: Db, courseId: Id, teacherId: Id)
    requires DbValid(db)
    ensures AssignTeacherToCourse(db, courseId, teacherId).Success? ==>
            var db' := AssignTeacherToCourse(db, courseId, teacherId).value;
            && GetCourseTeacher(db', courseId).Some?
            && GetCourseTeacher(db', courseId).value.id == teacherId
            && IsApproved(GetCourseTeacher(db', courseId).value.entity)
  {
  }

  /**
   * `enrollStudentInCourse`: the form needs both ids; the course and the
   * student must exist; the student must be approved and not yet enrolled.
   * The repository then adds the student to the course.
   */
  function EnrollStudentInCourse(db: Db, d: CourseEnrollmentDto): (r: Result<Db>)
    requires DbValid(db)
    ensures d.courseId.None? || d.studentId.None? ==> r.Failure? && r.error.Invalid?
    ensures r.Success? <==>
      && d.courseId.Some? && d.studentId.Some?
      && FindById(db.courses, d.courseId.value).Some?
      && FindStudent(db.users, d.studentId.value).Some?
      && IsApproved(FindStudent(db.users, d.studentId.value).value)
      && !IsStudentEnrolled(db, d.courseId.value, d.studentId.value)
    ensures d.courseId.Some? && d.studentId.Some? && IsStudentEnrolled(db, d.courseId.value, d.studentId.value) &&
            IsApproved(FindStudent(db.users, d.studentId.value).value) ==>
      r == Failure(Conflict("Student is already enrolled in this course"))
    ensures r.Success? ==>
      && DbValid(r.value)
      && IsStudentEnrolled(r.value, d.courseId.value, d.studentId.value)
      && FindStudent(r.value.users, d.studentId.value).value.account == FindStudent(db.users, d.studentId.value).value.account
      && (forall k :: k != d.courseId.value ==> FindById(r.value.courses, k) == FindById(db.courses, k))
      && (forall k :: k != d.studentId.value ==> FindById(r.value.users, k) == FindById(db.users, k))
    ensures r.Success? && Symmetric(db) ==> Symmetric(r.value)
    ensures r.Success? && NoRepeats(db) ==> NoRepeats(r.value)
  {
    match DtoValidator.ValidateOrThrow(CourseEnrollmentViolations(d))
    case Fail(e) => Failure(e)
    case Pass =>
      var courseId, studentId := d.courseId.value, d.studentId.value;
      if FindById(db.courses, courseId).None? || FindStudent(db.users, studentId).None? then
        Failure(NotFound("Course or Student not found"))
      else if !IsApproved(FindStudent(db.users, studentId).value) then
        Failure(Conflict("Student is not approved: "))
      else if IsStudentEnrolled(db, courseId, studentId) then
        Failure(Conflict("Student is already enrolled in this course"))
      else
        AddStudentToCourse(db, courseId, studentId)
  }

  /** Enrolling the same student twice fails the second time. */
  lemma EnrollTwiceFails(db: Db, d: CourseEnrollmentDto)
    requires DbValid(db)
    ensures EnrollStudentInCourse(db, d).Success? ==>
      EnrollStudentInCourse(EnrollStudentInCourse(db, d).value, d) == Failure(Conflict("Student is already enrolled in this course"))
  {
    if EnrollStudentInCourse(db, d).Success? {
      var db' := EnrollStudentInCourse(db, d).value;
      assert IsApproved(FindStudent(db'.users, d.studentId.value).value);
    }
  }

  /** `getTotalCourses`. */
  function TotalCourses(t: Table<Course>): nat
  {
    |FindAll(t)|
  }

  /** `getTotalCoursesByStatus`. */
  function TotalCoursesByStatus(t: Table<Course>, status: CourseStatus): nat
  {
    |FindByStatus(t, status)|
  }
}
