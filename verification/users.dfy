/**
 * The `User` hierarchy: `User` with its `Student`, `Teacher` and `Admin`
 * subclasses, as one datatype with a variant per subclass. The variant plays
 * the part of the Java class (the stored discriminator); `role` is a separate
 * field that an update can set independently of it.
 */
module Users {
  import opened Wrappers
  import opened CrudRepository
  import Lists
  import opened Decimals

  datatype UserRole = STUDENT | TEACHER | ADMIN

  datatype UserStatus = PENDING | APPROVED | REJECTED | SUSPENDED

  datatype AcademicDegree = BACHELOR | MASTER | PHD | PROFESSOR

  /** The fields of the `User` base class. Timestamps are recorded only as set or not. */
  datatype Account = Account(
    username: string,
    password: string,
    firstName: string,
    lastName: string,
    email: string,
    phoneNumber: Option<string>,
    nationalId: Option<string>,
    role: UserRole,
    status: UserStatus,
    approvedBy: Option<Id>,
    approvedDateSet: bool)

  datatype User =
    | Student(
        account: Account,
        studentCode: Option<string>,
        fieldOfStudy: Option<string>,
        entryYear: Option<int>,
        enrolledCourses: seq<Id>)
    | Teacher(
        account: Account,
        teacherCode: Option<string>,
        expertise: Option<string>,
        degree: Option<string>,
        academicDegree: Option<AcademicDegree>,
        monthlySalary: Option<Decimal>)
    | Admin(
        account: Account,
        adminLevel: Option<int>,
        department: Option<string>)

  /** The five-argument `User` constructor: every new user starts PENDING, never approved. */
  function NewAccount(username: string, password: string, firstName: string, lastName: string,
                      email: string, role: UserRole): (a: Account)
    ensures a.status == PENDING && a.role == role
    ensures a.username == username && a.password == password && a.email == email
    ensures a.phoneNumber.None? && a.nationalId.None? && a.approvedBy.None? && !a.approvedDateSet
  {
    Account(username, password, firstName, lastName, email, None, None, role, PENDING, None, false)
  }

  function NewStudent(username: string, password: string, firstName: string, lastName: string,
                      email: string): (u: User)
    ensures u.Student? && u.account.role == STUDENT && IsPending(u)
    ensures u.enrolledCourses == [] && u.studentCode.None?
  {
    Student(NewAccount(username, password, firstName, lastName, email, STUDENT), None, None, None, [])
  }

  /** The constructor the services call on `Teacher`; it takes the same five arguments. */
  function NewTeacher(username: string, password: string, firstName: string, lastName: string,
                      email: string): (u: User)
    ensures u.Teacher? && u.account.role == TEACHER && IsPending(u)
    ensures u.teacherCode.None? && u.monthlySalary.None?
  {
    Teacher(NewAccount(username, password, firstName, lastName, email, TEACHER), None, None, None, None, None)
  }

  /** `Admin`'s constructor overrides the inherited PENDING with APPROVED. */
  function NewAdmin(username: string, password: string, firstName: string, lastName: string,
                    email: string): (u: User)
    ensures u.Admin? && u.account.role == ADMIN && IsApproved(u) && !IsPending(u)
    ensures u.account.username == username && u.account.approvedBy.None?
  {
    var a := NewAccount(username, password, firstName, lastName, email, ADMIN);
    Admin(a.(status := APPROVED), None, None)
  }

  function FullName(u: User): string
  {
    u.account.firstName + " " + u.account.lastName
  }

  /** Everything before the first space, and everything after it. */
  function SplitAtFirstSpace(s: string): (string, string)
  {
    if |s| == 0 then ("", "")
    else if s[0] == ' ' then ("", s[1..])
    else
      var (a, b) := SplitAtFirstSpace(s[1..]);
      ([s[0]] + a, b)
  }

  /** A first name without spaces can be read back out of the full name, and so can the last name. */
  lemma {:induction false} FullNameSplits(u: User)
    requires ' ' !in u.account.firstName
    ensures SplitAtFirstSpace(FullName(u)) == (u.account.firstName, u.account.lastName)
  {
    SplitAfterSpaceFree(u.account.firstName, u.account.lastName);
  }

  lemma {:induction false} SplitAfterSpaceFree(first: string, last: string)
    requires ' ' !in first
    ensures SplitAtFirstSpace(first + " " + last) == (first, last)
  {
    if |first| > 0 {
      assert (first + " " + last)[1..] == first[1..] + " " + last;
      SplitAfterSpaceFree(first[1..], last);
      assert [first[0]] + first[1..] == first;
    } else {
      assert first + " " + last == [' '] + last;
    }
  }

  predicate IsApproved(u: User)
  {
    u.account.status == APPROVED
  }

  predicate IsPending(u: User)
  {
    u.account.status == PENDING
  }

  /** The same concrete class: `getClass() == o.getClass()`. */
  predicate SameClass(u: User, v: User)
  {
    (u.Student? && v.Student?) || (u.Teacher? && v.Teacher?) || (u.Admin? && v.Admin?)
  }

  /** `User.equals`: same concrete class, same (possibly null) identifier, same username. */
  predicate SameUser(a: Option<Id>, u: User, b: Option<Id>, v: User)
  {
    SameClass(u, v) && a == b && u.account.username == v.account.username
  }

  /** `equals` is an equivalence, and equal users agree on everything `hashCode` reads. */
  lemma SameUserIsEquivalence(a: Option<Id>, u: User, b: Option<Id>, v: User, c: Option<Id>, w: User)
    ensures SameUser(a, u, a, u)
    ensures SameUser(a, u, b, v) <==> SameUser(b, v, a, u)
    ensures SameUser(a, u, b, v) && SameUser(b, v, c, w) ==> SameUser(a, u, c, w)
    ensures SameUser(a, u, b, v) ==> (a, u.account.username) == (b, v.account.username)
  {
  }

  /** `Student.enrollInCourse`: add the course to the student's list unless it is there. */
  function EnrollInCourse(u: User, courseId: Id): (r: User)
    requires u.Student?
    ensures r.Student? && courseId in r.enrolledCourses
    ensures forall c :: c in r.enrolledCourses <==> c in u.enrolledCourses || c == courseId
    ensures courseId in u.enrolledCourses ==> r == u
    ensures Lists.NoDup(u.enrolledCourses) ==> Lists.NoDup(r.enrolledCourses)
    ensures r == u.(enrolledCourses := r.enrolledCourses)
  {
    u.(enrolledCourses := Lists.AppendIfAbsent(u.enrolledCourses, courseId))
  }

  /** `Student.unenrollFromCourse`: drop the course from the student's list; a no-op if absent. */
  function UnenrollFromCourse(u: User, courseId: Id): (r: User)
    requires u.Student?
    ensures r.Student? && r == u.(enrolledCourses := r.enrolledCourses)
    ensures courseId !in u.enrolledCourses ==> r == u
    ensures Lists.NoDup(u.enrolledCourses) ==>
      && Lists.NoDup(r.enrolledCourses)
      && forall c :: c in r.enrolledCourses <==> c in u.enrolledCourses && c != courseId
    ensures forall c :: c != courseId ==> (c in r.enrolledCourses <==> c in u.enrolledCourses)
  {
    var r := u.(enrolledCourses := Lists.RemoveFirst(u.enrolledCourses, courseId));
    assert forall c :: c != courseId ==> (c in r.enrolledCourses <==> c in u.enrolledCourses) by {
      forall c | c != courseId
        ensures c in r.enrolledCourses <==> c in u.enrolledCourses
      {
        assert c in r.enrolledCourses <==> c in multiset(r.enrolledCourses);
        assert c in u.enrolledCourses <==> c in multiset(u.enrolledCourses);
      }
    }
    if courseId !in u.enrolledCourses then
      Lists.RemoveFirstAbsent(u.enrolledCourses, courseId);
      r
    else if Lists.NoDup(u.enrolledCourses) then
      Lists.RemoveFirstNoDup(u.enrolledCourses, courseId);
      r
    else
      r
  }

  /**
   * `Teacher.getAnnualSalary`: zero without a monthly salary, otherwise twelve
   * times it, exactly. `BigDecimal.multiply` by `new BigDecimal(12)`, whose
   * scale is 0, keeps the scale of the salary.
   */
  function AnnualSalary(monthlySalary: Option<Decimal>): (r: Decimal)
    ensures monthlySalary.None? ==> Value(r) == 0.0 && r.scale == 0
    ensures monthlySalary.Some? ==> Value(r) == 12.0 * Value(monthlySalary.value)
    ensures monthlySalary.Some? ==> r.scale == monthlySalary.value.scale
    ensures monthlySalary.Some? && NonNegative(monthlySalary.value) ==> NonNegative(r)
  {
    match monthlySalary
    case None => Decimal(0, 0)
    case Some(m) => Decimal(m.unscaled * 12, m.scale)
  }

  /** `Teacher.getAcademicTitle`. */
  function AcademicTitle(d: AcademicDegree): (r: string)
    ensures DegreeOfTitle(r) == Some(d)
  {
    match d
    case BACHELOR => "Bachelor"
    case MASTER => "Master"
    case PHD => "PhD"
    case PROFESSOR => "Professor"
  }

  /** The degree a title names, if any: the inverse of `AcademicTitle`. */
  function DegreeOfTitle(title: string): Option<AcademicDegree>
  {
    if title == "Bachelor" then Some(BACHELOR)
    else if title == "Master" then Some(MASTER)
    else if title == "PhD" then Some(PHD)
    else if title == "Professor" then Some(PROFESSOR)
    else None
  }
}
