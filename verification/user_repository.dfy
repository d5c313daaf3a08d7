/**
 * `UserRepositoryImpl`: the user queries, as filters over the user table's
 * rows. Each criteria query becomes a predicate on the stored user.
 */
module UserRepository {
  import opened Wrappers
  import opened CrudRepository
  import opened Users

  /** The unique constraint on the username column. */
  predicate UniqueUsernames(t: Table<User>)
  {
    forall i, j :: 0 <= i < j < |t.rows| ==> t.rows[i].entity.account.username != t.rows[j].entity.account.username
  }

  /** No two stored users share an email (the column itself has no unique constraint). */
  predicate UniqueEmails(t: Table<User>)
  {
    forall i, j :: 0 <= i < j < |t.rows| ==> t.rows[i].entity.account.email != t.rows[j].entity.account.email
  }

  /** The unique constraint on the national-ID column; users without one do not clash. */
  predicate UniqueNationalIds(t: Table<User>)
  {
    forall i, j :: 0 <= i < j < |t.rows| && t.rows[i].entity.account.nationalId.Some? ==>
      t.rows[i].entity.account.nationalId != t.rows[j].entity.account.nationalId
  }

  /** `existsByUsername`: some stored user has this username. */
  function ExistsByUsername(t: Table<User>, username: string): (b: bool)
    ensures b <==> exists row :: row in t.rows && row.entity.account.username == username
  {
    AnyWhere(t.rows, (u: User) => u.account.username == username)
  }

  /** `existsByEmail`: some stored user has this email. */
  function ExistsByEmail(t: Table<User>, email: string): (b: bool)
    ensures b <==> exists row :: row in t.rows && row.entity.account.email == email
  {
    AnyWhere(t.rows, (u: User) => u.account.email == email)
  }

  /** `existsByNationalId`: some stored user has this national ID. */
  function ExistsByNationalId(t: Table<User>, nationalId: string): (b: bool)
    ensures b <==> exists row :: row in t.rows && row.entity.account.nationalId == Some(nationalId)
  {
    AnyWhere(t.rows, (u: User) => u.account.nationalId == Some(nationalId))
  }

  /**
   * `findByUsername`: a single-result query. With unique usernames it never
   * fails, and it finds a user exactly when one has the username.
   */
  function FindByUsername(t: Table<User>, username: string): (r: Result<Option<Row<User>>>)
    ensures UniqueUsernames(t) ==> r.Success?
    ensures r.Success? ==> (r.value.Some? <==> ExistsByUsername(t, username))
    ensures r.Success? && r.value.Some? ==>
      r.value.value in t.rows && r.value.value.entity.account.username == username
  {
    SingleResult(t.rows, (u: User) => u.account.username == username)
  }

  /**
   * `findByEmail`: a single-result query on a column with no unique
   * constraint, so it fails when two stored users share the email.
   */
  function FindByEmail(t: Table<User>, email: string): (r: Result<Option<Row<User>>>)
    ensures UniqueEmails(t) ==> r.Success?
    ensures r.Failure? <==>
      exists i, j :: 0 <= i < j < |t.rows| && t.rows[i].entity.account.email == email && t.rows[j].entity.account.email == email
    ensures r.Success? ==> (r.value.Some? <==> ExistsByEmail(t, email))
    ensures r.Success? && r.value.Some? ==>
      r.value.value in t.rows && r.value.value.entity.account.email == email
  {
    var p := (u: User) => u.account.email == email;
    var r := SingleResult(t.rows, p);
    assert r.Failure? <==> TwoMatches(t.rows, p);
    r
  }

  /** `findByRole` (and `findUsersByRole`, which only delegates to it): exactly the users with this role. */
  function FindByRole(t: Table<User>, role: UserRole): (r: seq<Row<User>>)
    ensures |r| <= |t.rows|
    ensures forall row :: row in r <==> row in t.rows && row.entity.account.role == role
  {
    Where(t.rows, (u: User) => u.account.role == role)
  }

  /** `findByStatus`: exactly the users with this status. */
  function FindByStatus(t: Table<User>, status: UserStatus): (r: seq<Row<User>>)
    ensures |r| <= |t.rows|
    ensures forall row :: row in r <==> row in t.rows && row.entity.account.status == status
  {
    Where(t.rows, (u: User) => u.account.status == status)
  }

  /** The identifiers of the stored users with this role. */
  function IdsWithRole(t: Table<User>, role: UserRole): set<Id>
  {
    set i | 0 <= i < |t.rows| && t.rows[i].entity.account.role == role :: t.rows[i].id
  }

  /** The identifiers of the stored users with this status. */
  function IdsWithStatus(t: Table<User>, status: UserStatus): set<Id>
  {
    set i | 0 <= i < |t.rows| && t.rows[i].entity.account.status == status :: t.rows[i].id
  }

  /** `findByRole` returns one row per stored user with the role, so its size counts those users. */
  lemma CountByRole(t: Table<User>, role: UserRole)
    requires Valid(t)
    ensures |FindByRole(t, role)| == |IdsWithRole(t, role)|
  {
    var p := (u: User) => u.account.role == role;
    CountWhere(t.rows, p);
    assert IdsWhere(t.rows, p) == IdsWithRole(t, role);
  }

  /** `findByStatus` returns one row per stored user with the status. */
  lemma CountByStatus(t: Table<User>, status: UserStatus)
    requires Valid(t)
    ensures |FindByStatus(t, status)| == |IdsWithStatus(t, status)|
  {
    var p := (u: User) => u.account.status == status;
    CountWhere(t.rows, p);
    assert IdsWhere(t.rows, p) == IdsWithStatus(t, status);
  }

  /** `findPendingUsers`: exactly the users still awaiting a decision. */
  function FindPendingUsers(t: Table<User>): (r: seq<Row<User>>)
    ensures forall row :: row in r <==> row in t.rows && IsPending(row.entity)
  {
    FindByStatus(t, PENDING)
  }

  /** `findApprovedUsers`: exactly the approved users. */
  function FindApprovedUsers(t: Table<User>): (r: seq<Row<User>>)
    ensures forall row :: row in r <==> row in t.rows && IsApproved(row.entity)
  {
    FindByStatus(t, APPROVED)
  }

  /**
   * `findByStudentCode` as written: it delegates to `findByUsername`, so it
   * matches the code against usernames and never looks at student codes.
   */
  function FindByStudentCodeAsWritten(t: Table<User>, studentCode: string): (r: Result<Option<Row<User>>>)
    ensures UniqueUsernames(t) ==> r.Success?
    ensures r.Success? ==> (r.value.Some? <==> ExistsByUsername(t, studentCode))
  {
    FindByUsername(t, studentCode)
  }

  /** `findByTeacherCode` as written: also a username lookup. */
  function FindByTeacherCodeAsWritten(t: Table<User>, teacherCode: string): (r: Result<Option<Row<User>>>)
    ensures UniqueUsernames(t) ==> r.Success?
    ensures r.Success? ==> (r.value.Some? <==> ExistsByUsername(t, teacherCode))
  {
    FindByUsername(t, teacherCode)
  }

  /**
   * The student lookup the disabled query in `findByStudentCode` describes:
   * the first stored student whose code is `studentCode`.
   */
  function FindByStudentCode(t: Table<User>, studentCode: string): (r: Option<Row<User>>)
    ensures r.None? <==> forall row :: row in t.rows ==>
      !(row.entity.Student? && row.entity.studentCode == Some(studentCode))
    ensures r.Some? ==> r.value in t.rows && r.value.entity.Student? && r.value.entity.studentCode == Some(studentCode)
  {
    FirstWhere(t.rows, (u: User) => u.Student? && u.studentCode == Some(studentCode))
  }

  /** The teacher lookup the disabled query in `findByTeacherCode` describes. */
  function FindByTeacherCode(t: Table<User>, teacherCode: string): (r: Option<Row<User>>)
    ensures r.None? <==> forall row :: row in t.rows ==>
      !(row.entity.Teacher? && row.entity.teacherCode == Some(teacherCode))
    ensures r.Some? ==> r.value in t.rows && r.value.entity.Teacher? && r.value.entity.teacherCode == Some(teacherCode)
  {
    FirstWhere(t.rows, (u: User) => u.Teacher? && u.teacherCode == Some(teacherCode))
  }

  /**
   * A stored student whose username differs from their code: the lookup as
   * written misses them, the intended lookup finds them.
   */
  lemma StudentCodeLookupMissesStudents()
    ensures var alice := Student(NewAccount("alice", "secret1", "Alice", "Smith", "alice@example.com", STUDENT),
                                 Some("0123456789"), None, None, []);
            var t := Table([Row(1, alice)], 2);
            && FindByStudentCodeAsWritten(t, "0123456789") == Success(None)
            && FindByStudentCode(t, "0123456789") == Some(Row(1, alice))
  {
    var alice := Student(NewAccount("alice", "secret1", "Alice", "Smith", "alice@example.com", STUDENT),
                         Some("0123456789"), None, None, []);
    var t := Table([Row(1, alice)], 2);
    assert !ExistsByUsername(t, "0123456789") by {
      assert t.rows[0].entity.account.username == "alice";
    }
  }

  /** The same for teachers: the code lookup as written misses a stored teacher with that code. */
  lemma TeacherCodeLookupMissesTeachers()
    ensures var bob := Teacher(NewAccount("bob", "secret1", "Bob", "Jones", "bob@example.com", TEACHER),
                               Some("T12345"), None, None, None, None);
            var t := Table([Row(1, bob)], 2);
            && FindByTeacherCodeAsWritten(t, "T12345") == Success(None)
            && FindByTeacherCode(t, "T12345") == Some(Row(1, bob))
  {
    var bob := Teacher(NewAccount("bob", "secret1", "Bob", "Jones", "bob@example.com", TEACHER),
                       Some("T12345"), None, None, None, None);
    var t := Table([Row(1, bob)], 2);
    assert !ExistsByUsername(t, "T12345") by {
      assert t.rows[0].entity.account.username == "bob";
    }
  }
}
