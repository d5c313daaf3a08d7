/**
 * `PersonDTO` and its two sign-up forms, `StudentSignUpDTO` and
 * `TeacherSignUpDTO`. Each form holds the inherited person fields as `person`.
 */
module PersonDtos {
  import opened Wrappers
  import opened Calendar
  import opened Decimals
  import opened Constraints
  import opened FieldRules
  import opened Users
  import Text

  datatype PersonDto = PersonDto(firstName: Option<string>, lastName: Option<string>, birthDate: Option<Date>)

  predicate PersonValid(p: PersonDto, today: Date)
  {
    NameValid(p.firstName) && NameValid(p.lastName) && p.birthDate.Some? && p.birthDate.value < today
  }

  /** The person fields' messages on `today`; none exactly when the names are valid and the birth date is past. */
  function PersonViolations(p: PersonDto, today: Date): (r: seq<string>)
    ensures r == [] <==> PersonValid(p, today)
  {
    NameViolations(p.firstName, "First name", "First name must contain only letters")
    + NameViolations(p.lastName, "Last name", "Last name must contain only letters")
    + Rule(NotNull(p.birthDate), "Birth date cannot be empty")
    + Rule(InPast(p.birthDate, today), "Birth date must be in the past")
  }

  /** The student form; the grade point average is not modelled. */
  datatype StudentSignUpDto = StudentSignUpDto(
    person: PersonDto,
    studentCode: Option<string>,
    major: Option<string>,
    entryYear: Option<int>,
    totalCredits: Option<int>)

  predicate StudentCodeValid(o: Option<string>)
  {
    o.Some? && |o.value| == 10 && Text.AllDigits(o.value)
  }

  /** `studentCode`: ten digits. */
  function StudentCodeViolations(o: Option<string>): (r: seq<string>)
    ensures r == [] <==> StudentCodeValid(o)
  {
    NotBlankWitness(o);
    Rule(NotBlank(o), "Student code cannot be empty")
    + Rule(Matches(o, TenDigitsPattern), "Student code must be 10 digits")
  }

  predicate MajorValid(o: Option<string>)
  {
    o.Some? && 2 <= |o.value| <= 100 && HasVisibleChar(o.value)
  }

  /** `major`: 2 to 100 characters, not all blank. */
  function MajorViolations(o: Option<string>): (r: seq<string>)
    ensures r == [] <==> MajorValid(o)
  {
    NotBlankWitness(o);
    Rule(NotBlank(o), "Major cannot be empty")
    + Rule(SizeBetween(o, 2, 100), "Major must be between 2 and 100 characters")
  }

  predicate StudentSignUpValid(d: StudentSignUpDto, today: Date)
  {
    && PersonValid(d.person, today)
    && StudentCodeValid(d.studentCode)
    && MajorValid(d.major)
    && d.entryYear.Some? && 1300 <= d.entryYear.value <= 2026
    && (d.totalCredits.None? || d.totalCredits.value >= 0)
  }

  /**
   * Every message of the student form; none exactly when it is valid. The
   * entry-year bound is 2026, though its message names 1500.
   */
  function StudentSignUpViolations(d: StudentSignUpDto, today: Date): (r: seq<string>)
    ensures r == [] <==> StudentSignUpValid(d, today)
  {
    PersonViolations(d.person, today) + StudentFieldViolations(d)
  }

  /** The messages about the fields `StudentSignUpDTO` adds to the person's. */
  function StudentFieldViolations(d: StudentSignUpDto): (r: seq<string>)
    ensures r == [] <==>
      && StudentCodeValid(d.studentCode)
      && MajorValid(d.major)
      && d.entryYear.Some? && 1300 <= d.entryYear.value <= 2026
      && (d.totalCredits.None? || d.totalCredits.value >= 0)
  {
    StudentCodeViolations(d.studentCode)
    + MajorViolations(d.major)
    + Rule(NotNull(d.entryYear), "Entry year cannot be empty")
    + Rule(AtLeast(d.entryYear, 1300), "Entry year must be at least 1300")
    + Rule(AtMost(d.entryYear, 2026), "Entry year cannot exceed 1500")
    + Rule(AtLeast(d.totalCredits, 0), "Total credits cannot be negative")
  }

  /** The teacher form. */
  datatype TeacherSignUpDto = TeacherSignUpDto(
    person: PersonDto,
    teacherCode: Option<string>,
    educationDegree: Option<string>,
    academicDegree: Option<AcademicDegree>,
    monthlySalary: Option<Decimal>,
    department: Option<string>,
    yearsOfExperience: Option<int>,
    isFullTime: Option<bool>)

  predicate TeacherCodeValid(o: Option<string>)
  {
    o.Some? && |o.value| == 6 && o.value[0] == 'T' && Text.AllDigits(o.value[1..])
  }

  /** `teacherCode`: "T" and five digits. */
  function TeacherCodeViolations(o: Option<string>): (r: seq<string>)
    ensures r == [] <==> TeacherCodeValid(o)
  {
    NotBlankWitness(o);
    Rule(NotBlank(o), "Teacher code cannot be empty")
    + Rule(Matches(o, TeacherCodePattern), "Teacher code must start with T and be 6 characters")
  }

  predicate SalaryValid(o: Option<Decimal>)
  {
    o.None? || (NonNegative(o.value) && FitsDigits(o.value, 10, 2))
  }

  /** `monthlySalary`: absent, or at least zero with at most ten integer and two fraction digits. */
  function SalaryViolations(o: Option<Decimal>): (r: seq<string>)
    ensures r == [] <==> SalaryValid(o)
  {
    Rule(o.None? || NonNegative(o.value), "Monthly salary cannot be negative")
    + Rule(o.None? || FitsDigits(o.value, 10, 2), "Invalid salary format")
  }

  /**
   * The fraction limit counts the scale, not the value: 1.000 is rejected
   * although it equals 1.00, which passes.
   */
  lemma SalaryScaleCounts()
    ensures Value(Decimal(1000, 3)) == Value(Decimal(100, 2))
    ensures SalaryViolations(Some(Decimal(1000, 3))) == ["Invalid salary format"]
    ensures SalaryViolations(Some(Decimal(100, 2))) == []
  {
    assert Pow10(3) == 1000 && Pow10(2) == 100;
  }

  predicate TeacherSignUpValid(d: TeacherSignUpDto, today: Date)
  {
    && PersonValid(d.person, today)
    && TeacherCodeValid(d.teacherCode)
    && (d.educationDegree.None? || |d.educationDegree.value| <= 100)
    && d.academicDegree.Some?
    && SalaryValid(d.monthlySalary)
    && (d.department.None? || |d.department.value| <= 100)
    && (d.yearsOfExperience.None? || 0 <= d.yearsOfExperience.value <= 50)
    && d.isFullTime.Some?
  }

  /** Every message of the teacher form; none exactly when it is valid. */
  function TeacherSignUpViolations(d: TeacherSignUpDto, today: Date): (r: seq<string>)
    ensures r == [] <==> TeacherSignUpValid(d, today)
  {
    PersonViolations(d.person, today) + TeacherFieldViolations(d) + EmploymentViolations(d)
  }

  /** The messages about the teacher's code, degrees and salary. */
  function TeacherFieldViolations(d: TeacherSignUpDto): (r: seq<string>)
    ensures r == [] <==>
      && TeacherCodeValid(d.teacherCode)
      && (d.educationDegree.None? || |d.educationDegree.value| <= 100)
      && d.academicDegree.Some?
      && SalaryValid(d.monthlySalary)
  {
    TeacherCodeViolations(d.teacherCode)
    + Rule(SizeBetween(d.educationDegree, 0, 100), "Education degree cannot exceed 100 characters")
    + Rule(NotNull(d.academicDegree), "Academic degree cannot be empty")
    + SalaryViolations(d.monthlySalary)
  }

  /** The messages about the department, experience and employment status. */
  function EmploymentViolations(d: TeacherSignUpDto): (r: seq<string>)
    ensures r == [] <==>
      && (d.department.None? || |d.department.value| <= 100)
      && (d.yearsOfExperience.None? || 0 <= d.yearsOfExperience.value <= 50)
      && d.isFullTime.Some?
  {
    Rule(SizeBetween(d.department, 0, 100), "Department name cannot exceed 100 characters")
    + Rule(AtLeast(d.yearsOfExperience, 0), "Experience years cannot be negative")
    + Rule(AtMost(d.yearsOfExperience, 50), "Experience years cannot exceed 50")
    + Rule(NotNull(d.isFullTime), "Employment status cannot be empty")
  }
}
