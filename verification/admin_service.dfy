/**
 * `AdminService`: the default administrator, role changes, enrolment on an
 * administrator's behalf, and the dashboard statistics.
 */
module AdminService {
  import opened Wrappers
  import opened CrudRepository
  import opened Users
  import opened UserRepository
  import opened Courses
  import opened CourseRepository
  import opened CourseDtos
  import UserService
  import CourseService

  /**
   * The account `initializeAdminAccount` creates: `admin`/`admin123`, approved
   * by the `Admin` constructor, self-approved by the user with id 1 at level 1
   * of the IT department.
   */
  const DefaultAdmin: User :=
    var u := NewAdmin("admin", "admin123", "System", "Administrator", "admin@university.edu");
    u.(account := u.account.(phoneNumber := Some("09123456789"), nationalId := Some("1234567890"),
                             approvedBy := Some(1), approvedDateSet := true),
       adminLevel := Some(1), department := Some("IT Department"))

  /**
   * `initializeAdminAccount`: when no user has the ADMIN role, store the
   * default administrator under a fresh id; otherwise change nothing.
   * Either way some administrator exists afterwards.
   */
  function InitializeAdminAccount(t: Table<User>): (r: Table<User>)
    requires Valid(t)
    ensures Valid(r)
    ensures FindByRole(r, ADMIN) != []
    ensures FindByRole(t, ADMIN) != [] ==> r == t
    ensures FindByRole(t, ADMIN) == [] ==>
      && FindById(t, t.nextId).None?
      && FindById(r, t.nextId) == Some(DefaultAdmin)
      && (forall k :: k != t.nextId ==> FindById(r, k) == FindById(t, k))
  {
    if FindByRole(t, ADMIN) != [] then t
    else
      var (r, id) := Insert(t, DefaultAdmin);
      assert Row(id, DefaultAdmin) in r.rows by {
        assert r.rows == t.rows + [Row(id, DefaultAdmin)];
      }
      r
  }

  /** Running the initialisation again changes nothing. */
  lemma InitializeAdminAccountIdempotent(t: Table<User>)
    requires Valid(t)
    ensures InitializeAdminAccount(InitializeAdminAccount(t)) == InitializeAdminAccount(t)
  {
  }

  /**
   * On a table without administrators whose usernames are unique and which
   * has no `admin` yet, the default administrator can log in straight away.
   */
  lemma DefaultAdminCanAuthenticate(t: Table<User>)
    requires Valid(t) && UniqueUsernames(t)
    requires FindByRole(t, ADMIN) == [] && !ExistsByUsername(t, "admin")
    ensures UniqueUsernames(InitializeAdminAccount(t))
    ensures UserService.Authenticate(InitializeAdminAccount(t), "admin", "admin123")
  {
    var r := InitializeAdminAccount(t);
    assert r.rows == t.rows + [Row(t.nextId, DefaultAdmin)];
    var last := |t.rows|;
    forall i, j | 0 <= i < j < |r.rows|
      ensures r.rows[i].entity.account.username != r.rows[j].entity.account.username
    {
      if j == last {
        assert t.rows[i] in t.rows;
      }
    }
    assert r.rows[last] in r.rows;
  }

  /**
   * `updateUserRole`: the user must exist; only the role changes. The
   * subclass (the stored discriminator) stays what it was.
   */
  function UpdateUserRole(t: Table<User>, userId: Id, role: UserRole): (r: Result<Table<User>>)
    requires Valid(t)
    ensures r.Success? <==> FindById(t, userId).Some?
    ensures r.Failure? ==> r.error == NotFound("User not found with id: ")
    ensures r.Success? ==> Valid(r.value) && FindById(r.value, userId).Some?
    ensures r.Success? ==>
      var u, u' := FindById(t, userId).value, FindById(r.value, userId).value;
      && u'.account.role == role
      && u' == u.(account := u.account.(role := role))
      && SameClass(u, u')
      && (forall k :: k != userId ==> FindById(r.value, k) == FindById(t, k))
  {
    match FindById(t, userId)
    case None => Failure(NotFound("User not found with id: "))
    case Some(u) => Success(Save(t, Some(userId), u.(account := u.account.(role := role))).0)
  }

  /**
   * `enrollStudentInCourse(courseId, studentId)`: the service's enrolment with
   * a form carrying both ids, so the form never fails validation.
   */
  function EnrollStudentInCourse(db: Db, courseId: Id, studentId: Id): (r: Result<Db>)
    requires DbValid(db)
    ensures r.Success? <==>
      && FindById(db.courses, courseId).Some?
      && FindStudent(db.users, studentId).Some?
      && IsApproved(FindStudent(db.users, studentId).value)
      && !IsStudentEnrolled(db, courseId, studentId)
    ensures r.Success? ==> DbValid(r.value) && IsStudentEnrolled(r.value, courseId, studentId)
    ensures r.Success? && NoRepeats(db) && Symmetric(db) ==> NoRepeats(r.value) && Symmetric(r.value)
  {
    CourseService.EnrollStudentInCourse(db, CourseEnrollmentDto(Some(courseId), Some(studentId)))
  }

  /** `AdminStatistics`: eight counters over the user and course tables. */
  datatype Statistics = Statistics(
    totalUsers: nat,
    totalStudents: nat,
    totalTeachers: nat,
    totalAdmins: nat,
    pendingApprovals: nat,
    totalCourses: nat,
    activeCourses: nat,
    plannedCourses: nat)

  /**
   * `getStatistics`: each counter is the size of the query the matching
   * service count runs. Every user has exactly one role, so the three role
   * counts add up to the number of users; pending users and active or planned
   * courses are part of their totals.
   */
  function GetStatistics(db: Db): (s: Statistics)
    ensures s.totalUsers == |db.users.rows| && s.totalCourses == |db.courses.rows|
    ensures s.totalStudents == |FindByRole(db.users, STUDENT)|
    ensures s.totalTeachers == |FindByRole(db.users, TEACHER)|
    ensures s.totalAdmins == |FindByRole(db.users, ADMIN)|
    ensures s.pendingApprovals == |FindPendingUsers(db.users)|
    ensures s.activeCourses == |CourseRepository.FindByStatus(db.courses, ACTIVE)|
    ensures s.plannedCourses == |CourseRepository.FindByStatus(db.courses, PLANNED)|
    ensures s.totalStudents + s.totalTeachers + s.totalAdmins == s.totalUsers
    ensures s.pendingApprovals <= s.totalUsers
    ensures s.activeCourses + s.plannedCourses <= s.totalCourses
    ensures s.totalAdmins == 0 <==> forall row :: row in db.users.rows ==> row.entity.account.role != ADMIN
  {
    RolesPartitionUsers(db.users.rows, db.users.nextId);
    StatusesWithinCourses(db.courses.rows, db.courses.nextId);
    assert FindByRole(db.users, ADMIN) != [] ==> FindByRole(db.users, ADMIN)[0] in FindByRole(db.users, ADMIN);
    Statistics(
      UserService.TotalUsers(db.users),
      UserService.TotalUsersByRole(db.users, STUDENT),
      UserService.TotalUsersByRole(db.users, TEACHER),
      UserService.TotalUsersByRole(db.users, ADMIN),
      UserService.PendingCount(db.users),
      CourseService.TotalCourses(db.courses),
      CourseService.TotalCoursesByStatus(db.courses, ACTIVE),
      CourseService.TotalCoursesByStatus(db.courses, PLANNED))
  }

  /**
   * In a consistent store, each counter counts stored entities: the users
   * with the role or status, and the courses with the status.
   */
  lemma StatisticsCountStoredEntities(db: Db)
    requires DbValid(db)
    ensures var s := GetStatistics(db);
      && s.totalStudents == |IdsWithRole(db.users, STUDENT)|
      && s.totalTeachers == |IdsWithRole(db.users, TEACHER)|
      && s.totalAdmins == |IdsWithRole(db.users, ADMIN)|
      && s.pendingApprovals == |UserRepository.IdsWithStatus(db.users, PENDING)|
      && s.activeCourses == |CourseRepository.IdsWithStatus(db.courses, ACTIVE)|
      && s.plannedCourses == |CourseRepository.IdsWithStatus(db.courses, PLANNED)|
  {
    CountByRole(db.users, STUDENT);
    CountByRole(db.users, TEACHER);
    CountByRole(db.users, ADMIN);
    UserRepository.CountByStatus(db.users, PENDING);
    CourseRepository.CountByStatus(db.courses, ACTIVE);
    CourseRepository.CountByStatus(db.courses, PLANNED);
  }

  /** Each user is counted under exactly one of the three roles. */
  lemma {:induction false} RolesPartitionUsers(rows: seq<Row<User>>, n: Id)
    ensures var t := Table(rows, n);
      |FindByRole(t, STUDENT)| + |FindByRole(t, TEACHER)| + |FindByRole(t, ADMIN)| == |rows|
  {
    if |rows| > 0 {
      RolesPartitionUsers(rows[1..], n);
    }
  }

  /** No course is both active and planned. */
  lemma {:induction false} StatusesWithinCourses(rows: seq<Row<Course>>, n: Id)
    ensures var t := Table(rows, n);
      |CourseRepository.FindByStatus(t, ACTIVE)| + |CourseRepository.FindByStatus(t, PLANNED)| <= |rows|
  {
    if |rows| > 0 {
      StatusesWithinCourses(rows[1..], n);
    }
  }
}
