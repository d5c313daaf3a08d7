/** `UserSignUpDTO` and `UserUpdateDTO`: the forms behind sign-up and profile update. */
module UserDtos {
  import opened Wrappers
  import opened CrudRepository
  import opened Constraints
  import opened FieldRules
  import opened Users

  /** The sign-up form. The role-specific fields at the end carry no constraint. */
  datatype UserSignUpDto = UserSignUpDto(
    username: Option<string>,
    password: Option<string>,
    firstName: Option<string>,
    lastName: Option<string>,
    email: Option<string>,
    phoneNumber: Option<string>,
    nationalId: Option<string>,
    role: Option<UserRole>,
    studentCode: Option<string>,
    teacherCode: Option<string>,
    fieldOfStudy: Option<string>,
    entryYear: Option<int>,
    expertise: Option<string>,
    degree: Option<string>)

  predicate UserSignUpValid(d: UserSignUpDto)
  {
    && UsernameValid(d.username)
    && PasswordValid(d.password)
    && NameValid(d.firstName)
    && NameValid(d.lastName)
    && EmailValid(d.email)
    && PhoneValid(d.phoneNumber)
    && NationalIdValid(d.nationalId)
    && d.role.Some?
  }

  /** Every message the sign-up form's annotations produce; none exactly when the form is valid. */
  function UserSignUpViolations(d: UserSignUpDto): (r: seq<string>)
    ensures r == [] <==> UserSignUpValid(d)
  {
    UsernameViolations(d.username)
    + PasswordViolations(d.password)
    + NameViolations(d.firstName, "First name", "First name can only contain letters")
    + NameViolations(d.lastName, "Last name", "Last name can only contain letters")
    + EmailViolations(d.email)
    + PhoneViolations(d.phoneNumber)
    + NationalIdViolations(d.nationalId)
    + Rule(NotNull(d.role), "Role cannot be empty")
  }

  /** The update form. The id and the role-specific fields carry no constraint. */
  datatype UserUpdateDto = UserUpdateDto(
    id: Option<Id>,
    firstName: Option<string>,
    lastName: Option<string>,
    email: Option<string>,
    phoneNumber: Option<string>,
    role: Option<UserRole>,
    status: Option<UserStatus>,
    studentCode: Option<string>,
    teacherCode: Option<string>,
    fieldOfStudy: Option<string>,
    entryYear: Option<int>,
    expertise: Option<string>,
    degree: Option<string>)

  predicate UserUpdateValid(d: UserUpdateDto)
  {
    && NameValid(d.firstName)
    && NameValid(d.lastName)
    && EmailValid(d.email)
    && PhoneValid(d.phoneNumber)
    && d.role.Some?
    && d.status.Some?
  }

  /** Every message the update form's annotations produce; none exactly when the form is valid. */
  function UserUpdateViolations(d: UserUpdateDto): (r: seq<string>)
    ensures r == [] <==> UserUpdateValid(d)
  {
    NameViolations(d.firstName, "First name", "First name can only contain letters")
    + NameViolations(d.lastName, "Last name", "Last name can only contain letters")
    + EmailViolations(d.email)
    + PhoneViolations(d.phoneNumber)
    + Rule(NotNull(d.role), "Role cannot be empty")
    + Rule(NotNull(d.status), "Status cannot be empty")
  }
}
