/**
 * `UserService`: sign-up, approval and rejection, profile update and
 * authentication, over the user table. Each operation returns the table it
 * leaves behind, or the exception it throws.
 */
module UserService {
  import opened Wrappers
  import opened CrudRepository
  import opened Users
  import opened UserRepository
  import opened UserDtos
  import DtoValidator
  import Text

  /** The stored identities stay apart: usernames, emails and national IDs. */
  predicate DistinctIdentities(t: Table<User>)
  {
    UniqueUsernames(t) && UniqueEmails(t) && UniqueNationalIds(t)
  }

  /** The student or teacher code a valid form gives for its own role, if any. */
  function GivenCode(d: UserSignUpDto): Option<string>
    requires UserSignUpValid(d)
  {
    match d.role.value
    case STUDENT => d.studentCode
    case TEACHER => d.teacherCode
    case ADMIN => None
  }

  /** A stored user of the form's role already holds `code` as their student or teacher code. */
  predicate HoldsCode(u: User, role: UserRole, code: string)
  {
    || (role == STUDENT && u.Student? && u.studentCode == Some(code))
    || (role == TEACHER && u.Teacher? && u.teacherCode == Some(code))
  }

  /**
   * The code check of `signUp` as written: a student form's code goes through
   * `findByStudentCode` and a teacher form's through `findByTeacherCode`, and
   * both of those are username lookups. So the check asks whether some stored
   * user's username equals the code; a repeated username makes the
   * single-result query itself fail.
   */
  function CodeTakenAsWritten(t: Table<User>, d: UserSignUpDto): (r: Result<bool>)
    requires UserSignUpValid(d)
    ensures GivenCode(d).None? ==> r == Success(false)
    ensures UniqueUsernames(t) ==> r.Success?
    ensures r.Failure? ==> r.error.Conflict?
    ensures r.Success? ==> (r.value <==> GivenCode(d).Some? && ExistsByUsername(t, GivenCode(d).value))
  {
    if d.role.value == STUDENT && d.studentCode.Some? then
      var found :- FindByStudentCodeAsWritten(t, d.studentCode.value);
      Success(found.Some?)
    else if d.role.value == TEACHER && d.teacherCode.Some? then
      var found :- FindByTeacherCodeAsWritten(t, d.teacherCode.value);
      Success(found.Some?)
    else
      Success(false)
  }

  /**
   * The code check `signUp` evidently intends: a student's code is taken when a
   * stored student holds it, a teacher's when a stored teacher does.
   */
  function CodeTakenIntended(t: Table<User>, d: UserSignUpDto): (b: bool)
    requires UserSignUpValid(d)
    ensures b <==> GivenCode(d).Some? && exists row :: row in t.rows && HoldsCode(row.entity, d.role.value, GivenCode(d).value)
  {
    if d.role.value == STUDENT && d.studentCode.Some? then FindByStudentCode(t, d.studentCode.value).Some?
    else if d.role.value == TEACHER && d.teacherCode.Some? then FindByTeacherCode(t, d.teacherCode.value).Some?
    else false
  }

  /** Why `signUp` refuses a valid form: something it would store is already taken, or the code lookup fails. */
  predicate Clash(t: Table<User>, d: UserSignUpDto)
    requires UserSignUpValid(d)
  {
    || ExistsByUsername(t, d.username.value)
    || ExistsByEmail(t, d.email.value)
    || (d.nationalId.Some? && ExistsByNationalId(t, d.nationalId.value))
    || CodeTakenAsWritten(t, d) != Success(false)
  }

  /** The same with the intended code check. */
  predicate ClashIntended(t: Table<User>, d: UserSignUpDto)
    requires UserSignUpValid(d)
  {
    || ExistsByUsername(t, d.username.value)
    || ExistsByEmail(t, d.email.value)
    || (d.nationalId.Some? && ExistsByNationalId(t, d.nationalId.value))
    || CodeTakenIntended(t, d)
  }

  /**
   * The user `signUp` builds from a valid form: a student, teacher or admin
   * according to the role, carrying the form's common fields and the optional
   * fields of its role. Only an admin starts out approved.
   */
  function NewUserFor(d: UserSignUpDto): (u: User)
    requires UserSignUpValid(d)
    ensures u.account.username == d.username.value && u.account.password == d.password.value
    ensures u.account.firstName == d.firstName.value && u.account.lastName == d.lastName.value
    ensures u.account.email == d.email.value && u.account.role == d.role.value
    ensures u.account.phoneNumber == d.phoneNumber && u.account.nationalId == d.nationalId
    ensures u.account.approvedBy.None? && !u.account.approvedDateSet
    ensures IsApproved(u) <==> d.role.value == ADMIN
    ensures d.role.value != ADMIN ==> IsPending(u)
    ensures d.role.value == STUDENT ==>
      && u.Student? && u.enrolledCourses == []
      && u.studentCode == d.studentCode && u.fieldOfStudy == d.fieldOfStudy && u.entryYear == d.entryYear
    ensures d.role.value == TEACHER ==>
      && u.Teacher? && u.academicDegree.None? && u.monthlySalary.None?
      && u.teacherCode == d.teacherCode && u.expertise == d.expertise && u.degree == d.degree
    ensures d.role.value == ADMIN ==> u.Admin? && u.adminLevel.None? && u.department.None?
  {
    var username, password, first, last, email :=
      d.username.value, d.password.value, d.firstName.value, d.lastName.value, d.email.value;
    var u := match d.role.value
      case STUDENT =>
        Student(NewAccount(username, password, first, last, email, STUDENT), d.studentCode, d.fieldOfStudy, d.entryYear, [])
      case TEACHER =>
        Teacher(NewAccount(username, password, first, last, email, TEACHER), d.teacherCode, d.expertise, d.degree, None, None)
      case ADMIN =>
        NewAdmin(username, password, first, last, email);
    var phone := if d.phoneNumber.Some? then d.phoneNumber else u.account.phoneNumber;
    var nationalId := if d.nationalId.Some? then d.nationalId else u.account.nationalId;
    u.(account := u.account.(phoneNumber := phone, nationalId := nationalId))
  }

  /**
   * `signUp`: the form is validated first; an invalid form is refused before
   * anything is looked up, and a valid one is registered.
   */
  function SignUp(t: Table<User>, d: UserSignUpDto): (r: Result<(Table<User>, Id)>)
    requires Valid(t)
    ensures !UserSignUpValid(d) ==> r.Failure? && r.error.Invalid?
    ensures UserSignUpValid(d) ==> r == Register(t, d)
  {
    var violations := UserSignUpViolations(d);
    if violations == [] then Register(t, d)
    else Failure(DtoValidator.ValidateOrThrow(violations).error)
  }

  /**
   * The part of `signUp` after validation: the username, the email and a
   * given national ID must be free, checked in that order, and then the code
   * check `codeTaken` must pass; the new user is stored under a fresh
   * identifier.
   */
  function RegisterWith(t: Table<User>, d: UserSignUpDto, codeTaken: Result<bool>): (r: Result<(Table<User>, Id)>)
    requires Valid(t) && UserSignUpValid(d)
    ensures r.Success? <==>
      && !ExistsByUsername(t, d.username.value) && !ExistsByEmail(t, d.email.value)
      && !(d.nationalId.Some? && ExistsByNationalId(t, d.nationalId.value))
      && codeTaken == Success(false)
    ensures ExistsByUsername(t, d.username.value) ==> r == Failure(Conflict("Username already exists: "))
    ensures !ExistsByUsername(t, d.username.value) && ExistsByEmail(t, d.email.value) ==>
      r == Failure(Conflict("Email already exists: "))
    ensures r.Success? ==>
      && Valid(r.value.0)
      && FindById(t, r.value.1).None?
      && FindById(r.value.0, r.value.1) == Some(NewUserFor(d))
      && (forall k :: k != r.value.1 ==> FindById(r.value.0, k) == FindById(t, k))
    ensures r.Success? ==> r.value.0.rows == t.rows + [Row(t.nextId, NewUserFor(d))]
  {
    if ExistsByUsername(t, d.username.value) then Failure(Conflict("Username already exists: "))
    else if ExistsByEmail(t, d.email.value) then Failure(Conflict("Email already exists: "))
    else if d.nationalId.Some? && ExistsByNationalId(t, d.nationalId.value) then
      Failure(Conflict("National ID already exists: "))
    else match codeTaken
      case Failure(e) => Failure(e)
      case Success(true) =>
        if d.role.value == STUDENT then Failure(Conflict("Student code already exists: "))
        else Failure(Conflict("Teacher code already exists: "))
      case Success(false) => Success(Insert(t, NewUserFor(d)))
  }

  /**
   * `signUp` after validation, as written: the student or teacher code is
   * checked against usernames. With unique usernames it succeeds exactly when
   * the username, the email, a given national ID are free and no stored
   * user's username equals the given code.
   */
  function Register(t: Table<User>, d: UserSignUpDto): (r: Result<(Table<User>, Id)>)
    requires Valid(t) && UserSignUpValid(d)
    ensures r.Success? <==> !Clash(t, d)
    ensures UniqueUsernames(t) ==>
      (r.Success? <==>
        && !ExistsByUsername(t, d.username.value) && !ExistsByEmail(t, d.email.value)
        && !(d.nationalId.Some? && ExistsByNationalId(t, d.nationalId.value))
        && !(GivenCode(d).Some? && ExistsByUsername(t, GivenCode(d).value)))
    ensures ExistsByUsername(t, d.username.value) ==> r == Failure(Conflict("Username already exists: "))
    ensures !ExistsByUsername(t, d.username.value) && ExistsByEmail(t, d.email.value) ==>
      r == Failure(Conflict("Email already exists: "))
    ensures r.Failure? ==> r.error.Conflict?
    ensures r.Success? ==>
      && Valid(r.value.0)
      && FindById(t, r.value.1).None?
      && FindById(r.value.0, r.value.1) == Some(NewUserFor(d))
      && (forall k :: k != r.value.1 ==> FindById(r.value.0, k) == FindById(t, k))
    ensures r.Success? ==> r.value.0.rows == t.rows + [Row(t.nextId, NewUserFor(d))]
  {
    RegisterWith(t, d, CodeTakenAsWritten(t, d))
  }

  /**
   * `signUp` after validation with the code check it evidently intends: a
   * student's code must not be held by a stored student, a teacher's by a
   * stored teacher.
   */
  function RegisterIntended(t: Table<User>, d: UserSignUpDto): (r: Result<(Table<User>, Id)>)
    requires Valid(t) && UserSignUpValid(d)
    ensures r.Success? <==> !ClashIntended(t, d)
    ensures r.Failure? ==> r.error.Conflict?
    ensures r.Success? ==>
      && Valid(r.value.0)
      && FindById(t, r.value.1).None?
      && FindById(r.value.0, r.value.1) == Some(NewUserFor(d))
      && (forall k :: k != r.value.1 ==> FindById(r.value.0, k) == FindById(t, k))
    ensures r.Success? ==> r.value.0.rows == t.rows + [Row(t.nextId, NewUserFor(d))]
  {
    RegisterWith(t, d, Success(CodeTakenIntended(t, d)))
  }

  /** Both users are students holding the same code, or both teachers holding the same code. */
  predicate SameCode(u: User, v: User)
  {
    || (u.Student? && v.Student? && u.studentCode.Some? && u.studentCode == v.studentCode)
    || (u.Teacher? && v.Teacher? && u.teacherCode.Some? && u.teacherCode == v.teacherCode)
  }

  /** No two stored students share a student code, and no two stored teachers a teacher code. */
  predicate UniqueCodes(t: Table<User>)
  {
    forall i, j :: 0 <= i < j < |t.rows| ==> !SameCode(t.rows[i].entity, t.rows[j].entity)
  }

  /** With the intended code check, sign-up never stores a student or teacher code twice. */
  lemma RegisterIntendedKeepsCodesUnique(t: Table<User>, d: UserSignUpDto)
    requires Valid(t) && UserSignUpValid(d) && UniqueCodes(t)
    ensures RegisterIntended(t, d).Success? ==> UniqueCodes(RegisterIntended(t, d).value.0)
  {
    if RegisterIntended(t, d).Success? {
      var rows := RegisterIntended(t, d).value.0.rows;
      var u := NewUserFor(d);
      assert rows == t.rows + [Row(t.nextId, u)];
      forall i, j | 0 <= i < j < |rows|
        ensures !SameCode(rows[i].entity, rows[j].entity)
      {
        assert rows[i] == t.rows[i] && t.rows[i] in t.rows;
        if j == |t.rows| && SameCode(rows[i].entity, u) {
          var code := GivenCode(d).value;
          assert HoldsCode(t.rows[i].entity, d.role.value, code);
          assert false;
        } else if j < |t.rows| {
          assert rows[j] == t.rows[j];
        }
      }
    }
  }

  /**
   * As written, sign-up accepts a student form whose code a stored student
   * already holds, as long as no username equals that code; the intended
   * check refuses it.
   */
  lemma RegisterRepeatsTakenStudentCode(t: Table<User>, d: UserSignUpDto, i: nat)
    requires Valid(t) && UniqueUsernames(t) && UserSignUpValid(d)
    requires d.role == Some(STUDENT) && d.studentCode.Some? && d.nationalId.None?
    requires !ExistsByUsername(t, d.username.value) && !ExistsByEmail(t, d.email.value)
    requires !ExistsByUsername(t, d.studentCode.value)
    requires i < |t.rows| && t.rows[i].entity.Student? && t.rows[i].entity.studentCode == d.studentCode
    ensures Register(t, d).Success? && !UniqueCodes(Register(t, d).value.0)
    ensures RegisterIntended(t, d) == Failure(Conflict("Student code already exists: "))
  {
    assert !Clash(t, d);
    var rows := Register(t, d).value.0.rows;
    assert rows == t.rows + [Row(t.nextId, NewUserFor(d))];
    assert rows[i] == t.rows[i];
    assert SameCode(rows[i].entity, rows[|t.rows|].entity);
    assert HoldsCode(t.rows[i].entity, STUDENT, d.studentCode.value) && t.rows[i] in t.rows;
  }

  /** A student "alice" holding code 0123456789. */
  function AliceTable(): Table<User>
  {
    Table([Row(1, Student(NewAccount("alice", "secret1", "Alice", "Smith", "alice@example.com", STUDENT),
                          Some("0123456789"), None, None, []))], 2)
  }

  /** The sign-up form of student "carol", giving code 0123456789. */
  function CarolForm(): (d: UserSignUpDto)
    ensures UserSignUpValid(d)
  {
    var d := UserSignUpDto(Some("carol"), Some("secret1"), Some("Carol"), Some("Brown"),
                           Some("carol@example.com"), None, None, Some(STUDENT),
                           Some("0123456789"), None, None, None, None, None);
    assert !Text.IsTrimmable(d.password.value[0]) && !Text.IsTrimmable(d.email.value[0]);
    assert Text.IsLetter(d.firstName.value[0]) && Text.IsLetter(d.lastName.value[0]);
    d
  }

  /** What the checks of `signUp` find in `AliceTable` for Carol's form. */
  lemma AliceTableFacts()
    ensures Valid(AliceTable()) && UniqueUsernames(AliceTable()) && UniqueCodes(AliceTable())
    ensures !ExistsByUsername(AliceTable(), "carol") && !ExistsByUsername(AliceTable(), "0123456789")
    ensures !ExistsByEmail(AliceTable(), "carol@example.com")
  {
    var t := AliceTable();
    assert t.rows[0].entity.account.username == "alice" && t.rows[0].entity.account.email == "alice@example.com";
  }

  /**
   * A concrete case: with student "alice" holding code 0123456789, the valid
   * form of student "carol" with the same code passes every check of
   * `signUp` as written, and the intended check refuses it.
   */
  lemma SignUpRepeatsStudentCode()
    ensures Valid(AliceTable()) && UniqueCodes(AliceTable())
    ensures Register(AliceTable(), CarolForm()).Success?
    ensures !UniqueCodes(Register(AliceTable(), CarolForm()).value.0)
    ensures RegisterIntended(AliceTable(), CarolForm()) == Failure(Conflict("Student code already exists: "))
  {
    AliceTableFacts();
    RegisterRepeatsTakenStudentCode(AliceTable(), CarolForm(), 0);
  }

  /** Appending a user whose username, email and national ID are all free keeps identities distinct. */
  lemma AppendKeepsIdentitiesDistinct(t: Table<User>, u: User, id: Id, nextId: Id)
    requires DistinctIdentities(t)
    requires forall row :: row in t.rows ==>
      && row.entity.account.username != u.account.username
      && row.entity.account.email != u.account.email
      && (u.account.nationalId.Some? ==> row.entity.account.nationalId != u.account.nationalId)
    ensures DistinctIdentities(Table(t.rows + [Row(id, u)], nextId))
  {
    var rows := t.rows + [Row(id, u)];
    forall i | 0 <= i < |t.rows|
      ensures rows[i] == t.rows[i] && t.rows[i] in t.rows
    {
    }
  }

  /** `signUp` never lets two users share a username, an email or a national ID. */
  lemma SignUpKeepsIdentitiesDistinct(t: Table<User>, d: UserSignUpDto)
    requires Valid(t) && DistinctIdentities(t)
    ensures SignUp(t, d).Success? ==> DistinctIdentities(SignUp(t, d).value.0)
  {
    if SignUp(t, d).Success? {
      RegisterKeepsIdentitiesDistinct(t, d);
    }
  }

  lemma RegisterKeepsIdentitiesDistinct(t: Table<User>, d: UserSignUpDto)
    requires Valid(t) && DistinctIdentities(t)
    requires UserSignUpValid(d) && Register(t, d).Success?
    ensures DistinctIdentities(Register(t, d).value.0)
  {
    AppendKeepsIdentitiesDistinct(t, NewUserFor(d), t.nextId, t.nextId + 1);
  }

  /**
   * `approveUser`: the user must exist and not be approved already; they
   * become approved by `adminId`, with the approval date recorded. A rejected
   * or suspended user can be approved too.
   */
  function ApproveUser(t: Table<User>, userId: Id, adminId: Id): (r: Result<Table<User>>)
    requires Valid(t)
    ensures r.Success? <==> FindById(t, userId).Some? && !IsApproved(FindById(t, userId).value)
    ensures FindById(t, userId).None? ==> r == Failure(NotFound("User not found with id: "))
    ensures FindById(t, userId).Some? && IsApproved(FindById(t, userId).value) ==>
      r == Failure(Conflict("User is already approved"))
    ensures r.Success? ==> Valid(r.value) && FindById(r.value, userId).Some?
    ensures r.Success? ==>
      var u, u' := FindById(t, userId).value, FindById(r.value, userId).value;
      && IsApproved(u') && u'.account.approvedBy == Some(adminId) && u'.account.approvedDateSet
      && u' == u.(account := u'.account)
      && u'.account == u.account.(status := APPROVED, approvedBy := Some(adminId), approvedDateSet := true)
      && (forall k :: k != userId ==> FindById(r.value, k) == FindById(t, k))
  {
    match FindById(t, userId)
    case None => Failure(NotFound("User not found with id: "))
    case Some(u) =>
      if IsApproved(u) then Failure(Conflict("User is already approved"))
      else
        var a := u.account.(status := APPROVED, approvedBy := Some(adminId), approvedDateSet := true);
        Success(Save(t, Some(userId), u.(account := a)).0)
  }

  /** `rejectUser`: any stored user, whatever their status, becomes rejected by `adminId`. */
  function RejectUser(t: Table<User>, userId: Id, adminId: Id): (r: Result<Table<User>>)
    requires Valid(t)
    ensures r.Success? <==> FindById(t, userId).Some?
    ensures r.Failure? ==> r.error == NotFound("User not found with id: ")
    ensures r.Success? ==> Valid(r.value) && FindById(r.value, userId).Some?
    ensures r.Success? ==>
      var u, u' := FindById(t, userId).value, FindById(r.value, userId).value;
      && u'.account.status == REJECTED && !IsApproved(u') && u'.account.approvedBy == Some(adminId)
      && u' == u.(account := u'.account)
      && u'.account == u.account.(status := REJECTED, approvedBy := Some(adminId), approvedDateSet := true)
      && (forall k :: k != userId ==> FindById(r.value, k) == FindById(t, k))
  {
    match FindById(t, userId)
    case None => Failure(NotFound("User not found with id: "))
    case Some(u) =>
      var a := u.account.(status := REJECTED, approvedBy := Some(adminId), approvedDateSet := true);
      Success(Save(t, Some(userId), u.(account := a)).0)
  }

  /** Approving the same user twice fails the second time. */
  lemma ApproveTwiceFails(t: Table<User>, userId: Id, first: Id, second: Id)
    requires Valid(t) && ApproveUser(t, userId, first).Success?
    ensures ApproveUser(ApproveUser(t, userId, first).value, userId, second) ==
      Failure(Conflict("User is already approved"))
  {
  }

  /** A rejection can be reversed: a rejected user can still be approved. */
  lemma RejectThenApprove(t: Table<User>, userId: Id, admin: Id)
    requires Valid(t) && FindById(t, userId).Some?
    ensures var rejected := RejectUser(t, userId, admin);
            rejected.Success? && ApproveUser(rejected.value, userId, admin).Success?
  {
  }

  /**
   * `updateUser`: the form is validated, then the user must exist (a missing
   * id finds nobody). Names, email, phone number, role and status are
   * overwritten; the fields of the user's own subclass are overwritten only
   * when the new role matches it. Username, password, national ID and the
   * approval record are kept.
   */
  function UpdateUser(t: Table<User>, d: UserUpdateDto): (r: Result<Table<User>>)
    requires Valid(t)
    ensures !UserUpdateValid(d) ==> r.Failure? && r.error.Invalid?
    ensures UserUpdateValid(d) ==> r == ChangeUser(t, d)
  {
    var violations := UserUpdateViolations(d);
    if violations == [] then ChangeUser(t, d)
    else Failure(DtoValidator.ValidateOrThrow(violations).error)
  }

  /** The part of `updateUser` after validation. */
  function ChangeUser(t: Table<User>, d: UserUpdateDto): (r: Result<Table<User>>)
    requires Valid(t) && UserUpdateValid(d)
    ensures r.Success? <==> d.id.Some? && FindById(t, d.id.value).Some?
    ensures r.Failure? ==> r.error == NotFound("User not found with id: ")
    ensures r.Success? ==> Valid(r.value) && FindById(r.value, d.id.value).Some?
    ensures r.Success? ==>
      var u, u' := FindById(t, d.id.value).value, FindById(r.value, d.id.value).value;
      && u'.account.firstName == d.firstName.value && u'.account.lastName == d.lastName.value
      && u'.account.email == d.email.value && u'.account.phoneNumber == d.phoneNumber
      && u'.account.role == d.role.value && u'.account.status == d.status.value
      && u'.account.username == u.account.username && u'.account.password == u.account.password
      && u'.account.nationalId == u.account.nationalId
      && u'.account.approvedBy == u.account.approvedBy && u'.account.approvedDateSet == u.account.approvedDateSet
      && SameClass(u, u')
      && (u.Student? && d.role.value == STUDENT ==>
            u' == u.(account := u'.account, studentCode := d.studentCode, fieldOfStudy := d.fieldOfStudy,
                     entryYear := d.entryYear))
      && (u.Teacher? && d.role.value == TEACHER ==>
            u' == u.(account := u'.account, teacherCode := d.teacherCode, expertise := d.expertise, degree := d.degree))
      && (!(u.Student? && d.role.value == STUDENT) && !(u.Teacher? && d.role.value == TEACHER) ==>
            u' == u.(account := u'.account))
      && (forall k :: k != d.id.value ==> FindById(r.value, k) == FindById(t, k))
  {
    if d.id.None? || FindById(t, d.id.value).None? then Failure(NotFound("User not found with id: "))
    else
      var u := FindById(t, d.id.value).value;
      var a := u.account.(firstName := d.firstName.value, lastName := d.lastName.value, email := d.email.value,
                          phoneNumber := d.phoneNumber, role := d.role.value, status := d.status.value);
      var u' :=
        if u.Student? && d.role.value == STUDENT then
          u.(account := a, studentCode := d.studentCode, fieldOfStudy := d.fieldOfStudy, entryYear := d.entryYear)
        else if u.Teacher? && d.role.value == TEACHER then
          u.(account := a, teacherCode := d.teacherCode, expertise := d.expertise, degree := d.degree)
        else
          u.(account := a);
      Success(Save(t, d.id, u').0)
  }

  /**
   * `updateUser` never touches usernames or national IDs, so it keeps both
   * unique (it does not check the new email, which is why emails are left out).
   */
  lemma UpdateUserKeepsIdentities(t: Table<User>, d: UserUpdateDto)
    requires Valid(t) && UniqueUsernames(t) && UniqueNationalIds(t)
    ensures UpdateUser(t, d).Success? ==>
      UniqueUsernames(UpdateUser(t, d).value) && UniqueNationalIds(UpdateUser(t, d).value)
  {
    if UserUpdateValid(d) {
      ChangeUserKeepsIdentities(t, d);
    }
  }

  lemma ChangeUserKeepsIdentities(t: Table<User>, d: UserUpdateDto)
    requires Valid(t) && UniqueUsernames(t) && UniqueNationalIds(t) && UserUpdateValid(d)
    ensures ChangeUser(t, d).Success? ==>
      UniqueUsernames(ChangeUser(t, d).value) && UniqueNationalIds(ChangeUser(t, d).value)
  {
    var r := ChangeUser(t, d);
    if r.Success? {
      var id := d.id.value;
      var u' := FindById(r.value, id).value;
      assert r.value == Table(Replace(t.rows, id, u'), t.nextId);
      KeptIdentitiesStayUnique(t, id, u');
    }
  }

  /** Overwriting a stored user with one of the same username and national ID keeps both unique. */
  lemma KeptIdentitiesStayUnique(t: Table<User>, id: Id, u': User)
    requires Valid(t) && FindById(t, id).Some?
    requires u'.account.username == FindById(t, id).value.account.username
    requires u'.account.nationalId == FindById(t, id).value.account.nationalId
    requires UniqueUsernames(t) && UniqueNationalIds(t)
    ensures var t' := Table(Replace(t.rows, id, u'), t.nextId);
      UniqueUsernames(t') && UniqueNationalIds(t')
  {
    var rows, v := t.rows, FindById(t, id).value;
    var rows' := Replace(rows, id, u');
    forall i | 0 <= i < |rows|
      ensures rows'[i].entity.account.username == rows[i].entity.account.username
      ensures rows'[i].entity.account.nationalId == rows[i].entity.account.nationalId
    {
      if rows[i].id == id {
        var k :| 0 <= k < |rows| && rows[k] == Row(id, v);
        assert k == i;
      }
    }
    forall i, j | 0 <= i < j < |rows'|
      ensures rows'[i].entity.account.username != rows'[j].entity.account.username
    {
    }
    forall i, j | 0 <= i < j < |rows'| && rows'[i].entity.account.nationalId.Some?
      ensures rows'[i].entity.account.nationalId != rows'[j].entity.account.nationalId
    {
    }
  }

  /** With unique usernames, `findByUsername` finds the one stored user with that username. */
  lemma FoundByUniqueUsername(t: Table<User>, username: string)
    ensures UniqueUsernames(t) ==> forall row :: row in t.rows && row.entity.account.username == username ==>
      FindByUsername(t, username) == Success(Some(row))
  {
    if UniqueUsernames(t) {
      var found := FindByUsername(t, username);
      forall row | row in t.rows && row.entity.account.username == username
        ensures found == Success(Some(row))
      {
        var i :| 0 <= i < |t.rows| && t.rows[i] == row;
        var other := found.value.value;
        var j :| 0 <= j < |t.rows| && t.rows[j] == other;
        assert i == j;
      }
    }
  }

  /**
   * `authenticate`: the user with this username exists, the password matches
   * exactly, and the user is approved. With unique usernames this is the
   * same as some stored user matching all three.
   */
  function Authenticate(t: Table<User>, username: string, password: string): (b: bool)
    ensures b ==> exists row :: row in t.rows && row.entity.account.username == username &&
                                row.entity.account.password == password && IsApproved(row.entity)
    ensures UniqueUsernames(t) ==>
      (b <==> exists row :: row in t.rows && row.entity.account.username == username &&
                            row.entity.account.password == password && IsApproved(row.entity))
  {
    var found := FindByUsername(t, username);
    FoundByUniqueUsername(t, username);
    found.Success? && found.value.Some? &&
      found.value.value.entity.account.password == password && IsApproved(found.value.value.entity)
  }

  /** `getTotalUsers`. */
  function TotalUsers(t: Table<User>): nat
  {
    |FindAll(t)|
  }

  /** `getTotalUsersByRole`. */
  function TotalUsersByRole(t: Table<User>, role: UserRole): nat
  {
    |FindByRole(t, role)|
  }

  /** `getPendingCount`. */
  function PendingCount(t: Table<User>): nat
  {
    |FindPendingUsers(t)|
  }
}
