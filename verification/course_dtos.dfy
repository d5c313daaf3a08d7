/** `CourseDTO` and `CourseEnrollmentDTO`. Date constraints are judged against `today`. */
module CourseDtos {
  import opened Wrappers
  import opened CrudRepository
  import opened Calendar
  import opened Constraints
  import opened FieldRules
  import opened Courses

  /** The course form. The teacher id carries no constraint. */
  datatype CourseDto = CourseDto(
    courseCode: Option<string>,
    title: Option<string>,
    description: Option<string>,
    startDate: Option<Date>,
    endDate: Option<Date>,
    credit: Option<int>,
    teacherId: Option<Id>,
    status: Option<CourseStatus>)

  predicate CourseCodeValid(o: Option<string>)
  {
    o.Some? && 3 <= |o.value| <= 20 && forall i :: 0 <= i < |o.value| ==> IsCourseCodeChar(o.value[i])
  }

  /** `courseCode`: 3 to 20 letters, digits and hyphens. */
  function CourseCodeViolations(o: Option<string>): (r: seq<string>)
    ensures r == [] <==> CourseCodeValid(o)
  {
    NotBlankWitness(o);
    Rule(NotBlank(o), "Course code cannot be empty")
    + Rule(SizeBetween(o, 3, 20), "Course code must be between 3 and 20 characters")
    + Rule(Matches(o, CourseCodePattern), "Course code can only contain letters, numbers and hyphens")
  }

  predicate TitleValid(o: Option<string>)
  {
    o.Some? && 3 <= |o.value| <= 100 && HasVisibleChar(o.value)
  }

  /** `title`: 3 to 100 characters, not all blank. */
  function TitleViolations(o: Option<string>): (r: seq<string>)
    ensures r == [] <==> TitleValid(o)
  {
    NotBlankWitness(o);
    Rule(NotBlank(o), "Title cannot be empty")
    + Rule(SizeBetween(o, 3, 100), "Title must be between 3 and 100 characters")
  }

  predicate CourseValid(d: CourseDto, today: Date)
  {
    && CourseCodeValid(d.courseCode)
    && TitleValid(d.title)
    && (d.description.None? || |d.description.value| <= 500)
    && d.startDate.Some? && d.startDate.value >= today
    && d.endDate.Some? && d.endDate.value > today
    && (d.credit.None? || 1 <= d.credit.value <= 6)
    && d.status.Some?
  }

  /** Every message the course form's annotations produce on `today`; none exactly when the form is valid. */
  function CourseViolations(d: CourseDto, today: Date): (r: seq<string>)
    ensures r == [] <==> CourseValid(d, today)
  {
    CourseTextViolations(d) + CourseScheduleViolations(d, today)
  }

  /** The messages about the code, title and description. */
  function CourseTextViolations(d: CourseDto): (r: seq<string>)
    ensures r == [] <==>
      CourseCodeValid(d.courseCode) && TitleValid(d.title) && (d.description.None? || |d.description.value| <= 500)
  {
    CourseCodeViolations(d.courseCode)
    + TitleViolations(d.title)
    + Rule(SizeBetween(d.description, 0, 500), "Description cannot exceed 500 characters")
  }

  /** The messages about the dates, the credit and the status. */
  function CourseScheduleViolations(d: CourseDto, today: Date): (r: seq<string>)
    ensures r == [] <==>
      && d.startDate.Some? && d.startDate.value >= today
      && d.endDate.Some? && d.endDate.value > today
      && (d.credit.None? || 1 <= d.credit.value <= 6)
      && d.status.Some?
  {
    Rule(NotNull(d.startDate), "Start date cannot be empty")
    + Rule(TodayOrLater(d.startDate, today), "Start date must be today or in the future")
    + Rule(NotNull(d.endDate), "End date cannot be empty")
    + Rule(InFuture(d.endDate, today), "End date must be in the future")
    + Rule(AtLeast(d.credit, 1), "Credit must be at least 1")
    + Rule(AtMost(d.credit, 6), "Credit cannot exceed 6")
    + Rule(NotNull(d.status), "Status cannot be empty")
  }

  /** The enrollment form: both ids are required. */
  datatype CourseEnrollmentDto = CourseEnrollmentDto(courseId: Option<Id>, studentId: Option<Id>)

  function CourseEnrollmentViolations(d: CourseEnrollmentDto): (r: seq<string>)
    ensures r == [] <==> d.courseId.Some? && d.studentId.Some?
    ensures d.courseId.None? ==> "Course ID cannot be empty" in r
    ensures d.studentId.None? ==> "Student ID cannot be empty" in r
  {
    Rule(NotNull(d.courseId), "Course ID cannot be empty")
    + Rule(NotNull(d.studentId), "Student ID cannot be empty")
  }
}
