# Exam management core, modelled in Dafny

This project models the rules underneath the `ir.oliateaching` exam-management
system: a university application where students, teachers and administrators
register, administrators approve them, and courses are created, given a
teacher and filled with students. The model leaves out the console front end
and the JPA plumbing. What remains is a set of sequential rules over an
in-memory store:

- the generic CRUD store (`AbstractCrudRepository`) as a table of rows under
  identity-generated ids;
- the entity-manager transaction wrapper (`JpaUtil.executeInTransaction`) as
  a two-state machine with an explicit step trace;
- the `User` hierarchy (student, teacher, admin) as one datatype;
- `Course` and `Exam` with their relationship lists, and the answer
  validators of multiple-choice and essay questions;
- the user and course repository queries, as filters and sorts over the rows;
- the user, course and admin services: sign-up, approval and rejection,
  profile update, authentication, course creation and update, teacher
  assignment, enrolment, admin bootstrap and statistics;
- the bean-validation constraints of the DTO forms, as violation lists, and
  `DTOValidator`'s message formats.

Every operation is a pure function. A service call returns the tables it leaves
behind, or the exception it throws as a `Failure` with a `NotFound`, `Conflict`,
`Invalid` or `Internal` error. The clock (`LocalDate.now()`) is a `today`
parameter. The unit of work given to the transaction wrapper is a parameter too.

Modules follow the program's structure:

- `CrudRepository`, `JpaUtil`, `DtoValidator`;
- `Users`, `Courses`, `Exams`, `Questions`;
- `UserRepository`, `CourseRepository`;
- `UserService`, `CourseService`, `AdminService`;
- the DTO modules `FieldRules`, `UserDtos`, `CourseDtos`, `PersonDtos`;
- support modules: `Wrappers`, `Lists`, `Text`, `Calendar`, `Decimals`,
  `Constraints`.

Where the code departs from what it evidently intends, the model follows the
code. The places:

- `findByStudentCode`/`findByTeacherCode` look up usernames, so sign-up
  compares a student or teacher code with usernames (see Findings).
- The essay word count gives a blank answer one word (see Findings).
- `getCourseTeacher` throws on a course without a teacher (see Findings).
- `approveUser` lets a rejected user be approved; only an already-approved
  user is refused.
- `Teacher` extends `Person` in the code, but the services construct and store
  it as a `User`. The model follows the services and makes Teacher a variant
  of `User`.
- `UserRepositoryImpl` is declared `abstract`, yet `UserService`,
  `CourseService` and `AdminService` instantiate it directly, which does not
  compile as written. The model treats it as one concrete repository over the
  user table.
- Emails have no unique constraint. A single-result lookup by email fails when
  two users share one.

Source paths below are relative to the repository root, with the prefix
`src/main/java/ir/oliateaching/` written out.

## Model

| member | source | states |
|---|---|---|
| CrudRepository.EmptyTable | src/main/java/ir/oliateaching/repositories/base/AbstractCrudRepository.java:85-91 | an empty store is valid and `findById` finds nothing in it |
| CrudRepository.FindAllAgreesWithFindById | src/main/java/ir/oliateaching/repositories/base/AbstractCrudRepository.java:85-98 | a row is listed by `findAll` exactly when `findById` returns its entity for its id |
| CrudRepository.Insert | src/main/java/ir/oliateaching/repositories/base/AbstractCrudRepository.java:43-44 | `persist` stores the entity under the next identity value, an id nothing had; findById then returns it; all other ids are unaffected |
| CrudRepository.Save | src/main/java/ir/oliateaching/repositories/base/AbstractCrudRepository.java:39-51 | after `save`, findById on the returned id yields the saved entity; every other id maps as before; a merge of a stored entity keeps its id; a new entity gets a previously unused id |
| CrudRepository.DeleteById | src/main/java/ir/oliateaching/repositories/base/AbstractCrudRepository.java:59-68 | fails with not-found exactly when the id is absent; otherwise that id is gone and every other id maps as before |
| CrudRepository.Delete | src/main/java/ir/oliateaching/repositories/base/AbstractCrudRepository.java:54-56 | `delete(t)` equals `deleteById(t.id)`; an unsaved entity (no id) is a not-found failure |
| CrudRepository.DeleteAll | src/main/java/ir/oliateaching/repositories/base/AbstractCrudRepository.java:71-82 | the store is empty afterwards; the identity sequence is not reset |
| CrudRepository.Where | src/main/java/ir/oliateaching/repositories/UserRepositoryImpl.java:84-90 | a criteria `where` keeps exactly the rows satisfying the predicate |
| CrudRepository.SingleResult | src/main/java/ir/oliateaching/repositories/UserRepositoryImpl.java:66-72 | `getSingleResultOrNull`: empty iff no row matches, a non-unique error iff two rows match, else the matching row |
| CrudRepository.AnyWhere | src/main/java/ir/oliateaching/repositories/UserRepositoryImpl.java:27-37 | a count query compared with zero is true iff some row satisfies the predicate |
| CrudRepository.WhereMultiset | src/main/java/ir/oliateaching/repositories/UserRepositoryImpl.java:84-90 | a `where` keeps every copy of a matching row and none of a non-matching one |
| CrudRepository.CountWhere | src/main/java/ir/oliateaching/repositories/UserRepositoryImpl.java:84-90 | with distinct ids, a `where` query returns one row per stored entity satisfying the predicate, so its size counts those entities |
| CrudRepository.FirstWhere | src/main/java/ir/oliateaching/repositories/CourseRepositoryImpl.java:266-281 | `results.get(0)` of a list query: empty iff no row matches, else a matching row |
| JpaUtil.ExecuteInTransaction | src/main/java/ir/oliateaching/utils/JpaUtil.java:12-23 | steps follow the begin/commit protocol; the work runs once and its result is returned unchanged; on entry with an active transaction there is no begin and no commit; otherwise one begin, then one commit on success; on failure no commit and no rollback, so the transaction stays active |
| DtoValidator.IsValid | src/main/java/ir/oliateaching/validator/DTOValidator.java:20-22 | valid iff there are no violations |
| DtoValidator.ValidationMessages | src/main/java/ir/oliateaching/validator/DTOValidator.java:24-37 | "Data is valid." without violations; otherwise exactly the header "Validation errors:" followed by one bulleted line per violation, in order, so every violation has its line |
| DtoValidator.LinesContainEach | src/main/java/ir/oliateaching/validator/DTOValidator.java:31-36 | every message gets its own prefixed, newline-terminated line |
| DtoValidator.LinesSnoc | src/main/java/ir/oliateaching/validator/DTOValidator.java:32-34 | adding a violation at the end adds exactly its line at the end of the text |
| DtoValidator.AppendLines | src/main/java/ir/oliateaching/validator/DTOValidator.java:31-36 | the `StringBuilder` loop that appends one prefixed line per violation builds exactly the header followed by the lines of the message block |
| DtoValidator.ValidateOrThrow | src/main/java/ir/oliateaching/validator/DTOValidator.java:39-49 | fails iff there are violations; the failure is an invalid-argument error whose text is exactly "Validation failed:" followed by one dashed line per violation, so it lists every violation, not just the first |
| Lists.AppendIfAbsent | src/main/java/ir/oliateaching/domains/Student.java:53-57 | append only when absent: the element is present afterwards, nothing else is added, a present element leaves the list unchanged, and duplicate-freedom is kept |
| Lists.RemoveFirst | src/main/java/ir/oliateaching/domains/Student.java:59-61 | `List.remove` takes away one occurrence of the element and keeps the rest (as multisets) |
| Lists.RemoveFirstAbsent | src/main/java/ir/oliateaching/domains/Student.java:59-61 | removing an absent element is a no-op |
| Lists.RemoveFirstAppended | src/main/java/ir/oliateaching/domains/Course.java:83-97 | removing an element that was just appended restores the list |
| Lists.RemoveFirstNoDup | src/main/java/ir/oliateaching/domains/Course.java:91-97 | on a duplicate-free list the element disappears entirely, the rest stay, the length drops by one, and the list stays duplicate-free |
| Lists.Filter | src/main/java/ir/oliateaching/repositories/CourseRepositoryImpl.java:41-48 | a query filter keeps exactly the elements satisfying the predicate, and never more elements than it was given |
| Lists.FilterAppend | src/main/java/ir/oliateaching/repositories/CourseRepositoryImpl.java:41-48 | the filter keeps the input order: filtering a concatenation gives the filtered first part followed by the filtered second part |
| Lists.FilterMultiset | src/main/java/ir/oliateaching/repositories/CourseRepositoryImpl.java:41-48 | the filter keeps every copy of a matching element and no copy of another |
| Lists.InsertBy | src/main/java/ir/oliateaching/repositories/CourseRepositoryImpl.java:80 | inserting into a sorted list keeps it sorted and adds exactly that element |
| Lists.SortBy | src/main/java/ir/oliateaching/repositories/CourseRepositoryImpl.java:80 | `orderBy`: the result is sorted and is a permutation of the input |
| Text.Trim | src/main/java/ir/oliateaching/repositories/CourseRepositoryImpl.java:103 | `String.trim()` removes characters at or below U+0020 from the two ends and nothing else: the result is a slice of the input with only such characters before and after it, it starts and ends with a kept character, and it is empty iff every character is such |
| Text.TrimIdempotent | src/main/java/ir/oliateaching/repositories/CourseRepositoryImpl.java:103-104 | trimming an already trimmed text changes nothing |
| Text.Lower | src/main/java/ir/oliateaching/repositories/CourseRepositoryImpl.java:104-107 | lower-casing turns each upper-case ASCII letter into its lower-case letter, keeps every other character, keeps the length, and leaves no upper-case letter |
| Text.LowerIdempotent | src/main/java/ir/oliateaching/repositories/CourseRepositoryImpl.java:104-107 | lower-casing a lower-cased text changes nothing |
| Constraints.NotBlankWitness | src/main/java/ir/oliateaching/dto/UserSignUpDTO.java:21-23 | `@NotBlank` holds iff the value is present and has a character that `trim()` keeps |
| Users.NewAccount | src/main/java/ir/oliateaching/domains/User.java:72-82 | a new user is PENDING with the given role and credentials, and no approval recorded |
| Users.NewStudent | src/main/java/ir/oliateaching/domains/Student.java:48-51 | a new student has role STUDENT, is PENDING and enrolled nowhere |
| Users.NewTeacher | src/main/java/ir/oliateaching/services/UserService.java:72-78 | a new teacher has role TEACHER and is PENDING |
| Users.NewAdmin | src/main/java/ir/oliateaching/domains/Admin.java:34-38 | a new admin has role ADMIN and is APPROVED, overriding the inherited PENDING |
| Users.FullNameSplits | src/main/java/ir/oliateaching/domains/User.java:85-87 | the full name is first name, one space, last name: both parts can be read back when the first name has no space |
| Users.SameUserIsEquivalence | src/main/java/ir/oliateaching/domains/User.java:97-109 | `equals` (same class, id and username) is reflexive, symmetric and transitive, and equal users have equal hash inputs |
| Users.EnrollInCourse | src/main/java/ir/oliateaching/domains/Student.java:53-57 | the course is in the list afterwards; nothing else is added; an already enrolled course leaves the student unchanged; no duplicates appear |
| Users.UnenrollFromCourse | src/main/java/ir/oliateaching/domains/Student.java:59-61 | the course is removed; other courses are unaffected; an absent course is a no-op |
| Users.AnnualSalary | src/main/java/ir/oliateaching/domains/Teacher.java:80-85 | the annual salary is worth exactly twelve times the monthly salary, at the monthly salary's scale; without a monthly salary it is zero; a non-negative salary gives a non-negative annual salary |
| Users.AcademicTitle | src/main/java/ir/oliateaching/domains/Teacher.java:87-95 | each degree gets its own title, and the title maps back to the degree |
| Courses.NewCourse | src/main/java/ir/oliateaching/domains/Course.java:63-69 | a new course is PLANNED, with no teacher and no students |
| Courses.AddStudent | src/main/java/ir/oliateaching/domains/Course.java:83-89 | a student not on the roster joins it and the course joins the student's list; an enrolled student changes nothing; both lists stay duplicate-free; the link stays agreed on both sides |
| Courses.RemoveStudent | src/main/java/ir/oliateaching/domains/Course.java:91-97 | a student on the roster leaves it, and the course leaves the student's list; an absent student changes nothing; the count drops by one; neither side mentions the other afterwards |
| Courses.AddThenRemoveStudent | src/main/java/ir/oliateaching/domains/Course.java:83-97 | adding then removing a previously unlinked student restores both the course and the student |
| Exams.NewExam | src/main/java/ir/oliateaching/domains/Exam.java:67-74 | a new exam has no course and no questions |
| Exams.AddQuestion | src/main/java/ir/oliateaching/domains/Exam.java:81-87 | an absent question is appended and pointed at the exam; a present one changes nothing; the list stays duplicate-free |
| Exams.RemoveQuestion | src/main/java/ir/oliateaching/domains/Exam.java:89-95 | a present question is removed and its exam cleared; an absent one changes nothing |
| Exams.AddThenRemoveQuestion | src/main/java/ir/oliateaching/domains/Exam.java:81-95 | adding then removing a new question restores the question list |
| Questions.Wrap32 | src/main/java/ir/oliateaching/domains/MultipleChoiceQuestion.java:63 | Java `int` arithmetic: congruent to the exact value modulo 2^32, and equal to it when in range |
| Questions.SplitLengthCountsWords | src/main/java/ir/oliateaching/domains/EssayQuestion.java:54 | on a string with no white space at either end, `split("\\s+")` yields exactly its words |
| Questions.TrimmedSplit | src/main/java/ir/oliateaching/domains/EssayQuestion.java:54 | splitting a trimmed answer counts its words, except that a blank answer gives one piece and no words |
| Questions.EssayWordCountAsWritten | src/main/java/ir/oliateaching/domains/EssayQuestion.java:54 | the count as written is the number of words of the trimmed answer, and 1 for a blank answer |
| Questions.EssayWordCount | src/main/java/ir/oliateaching/domains/EssayQuestion.java:54 | the corrected count is zero exactly for a blank answer and agrees with the code elsewhere |
| Questions.BlankEssayAccepted | src/main/java/ir/oliateaching/domains/EssayQuestion.java:49-57 | with a one-word minimum, the blank answer passes as written and fails once corrected |
| Questions.ValidateAnswerAsWritten | src/main/java/ir/oliateaching/domains/EssayQuestion.java:49-57 | an essay answer must be a string whose count as written lies within both inclusive bounds; a choice must be an integer from 1 to the number of options |
| Questions.ValidateAnswer | src/main/java/ir/oliateaching/domains/MultipleChoiceQuestion.java:53-59 | a choice is valid iff it is an integer from 1 to the number of options; an essay answer is valid iff it is a string with a word count within both inclusive bounds, so a blank one fails any minimum of at least one |
| Questions.IsCorrect | src/main/java/ir/oliateaching/domains/MultipleChoiceQuestion.java:61-64 | correct iff the answer equals the 0-based stored index plus one, computed in `int` (so the largest index wraps to the smallest int); null is never correct |
| Questions.CorrectAnswerIsValid | src/main/java/ir/oliateaching/domains/MultipleChoiceQuestion.java:53-64 | when the stored index names an option, the correct answer is also a valid one |
| FieldRules.UsernameViolations | src/main/java/ir/oliateaching/dto/UserSignUpDTO.java:15-18 | no violation iff the username is 3-50 letters, digits or underscores |
| FieldRules.PasswordViolations | src/main/java/ir/oliateaching/dto/UserSignUpDTO.java:21-23 | no violation iff the password is non-blank and at least 6 characters |
| FieldRules.NameViolations | src/main/java/ir/oliateaching/dto/UserSignUpDTO.java:25-33 | no violation iff the name is 2-50 letters or white space with at least one letter |
| FieldRules.NameCharsVisible | src/main/java/ir/oliateaching/dto/UserSignUpDTO.java:25-33 | for letters and white space, not blank is the same as holding a letter |
| FieldRules.EmailViolations | src/main/java/ir/oliateaching/dto/UserSignUpDTO.java:35-38 | no violation iff the email is non-blank and at most 100 characters |
| FieldRules.PhoneViolations | src/main/java/ir/oliateaching/dto/UserSignUpDTO.java:40-41 | no violation iff the phone is absent or "09" plus nine digits |
| FieldRules.NationalIdViolations | src/main/java/ir/oliateaching/dto/UserSignUpDTO.java:43-44 | no violation iff the national ID is absent or ten digits |
| UserDtos.UserSignUpViolations | src/main/java/ir/oliateaching/dto/UserSignUpDTO.java:15-47 | no violation iff every sign-up field holds and the role is present |
| UserDtos.UserUpdateViolations | src/main/java/ir/oliateaching/dto/UserUpdateDTO.java:18-40 | no violation iff names, email and phone are valid and role and status are present |
| CourseDtos.CourseCodeViolations | src/main/java/ir/oliateaching/dto/CourseDTO.java:16-19 | no violation iff the code is 3-20 letters, digits or hyphens |
| CourseDtos.TitleViolations | src/main/java/ir/oliateaching/dto/CourseDTO.java:21-23 | no violation iff the title is non-blank and 3-100 characters |
| CourseDtos.CourseTextViolations | src/main/java/ir/oliateaching/dto/CourseDTO.java:16-26 | no violation iff code and title are valid and the description is absent or at most 500 characters |
| CourseDtos.CourseScheduleViolations | src/main/java/ir/oliateaching/dto/CourseDTO.java:28-43 | no violation iff the start is today or later, the end is after today, the credit is absent or 1-6, and the status is present |
| CourseDtos.CourseViolations | src/main/java/ir/oliateaching/dto/CourseDTO.java:16-43 | no violation iff the whole course form is valid on `today` |
| CourseDtos.CourseEnrollmentViolations | src/main/java/ir/oliateaching/services/CourseService.java:113-116 | no violation iff both ids are present, with a message for each missing one |
| PersonDtos.PersonViolations | src/main/java/ir/oliateaching/dto/PersonDTO.java:16-28 | no violation iff both names are valid and the birth date is strictly before today |
| PersonDtos.StudentCodeViolations | src/main/java/ir/oliateaching/dto/StudentSignUpDTO.java:14-16 | no violation iff the student code is ten digits |
| PersonDtos.MajorViolations | src/main/java/ir/oliateaching/dto/StudentSignUpDTO.java:18-20 | no violation iff the major is non-blank and 2-100 characters |
| PersonDtos.StudentFieldViolations | src/main/java/ir/oliateaching/dto/StudentSignUpDTO.java:14-32 | no violation iff code and major are valid, the entry year is present and in 1300..2026, and credits are absent or non-negative |
| PersonDtos.StudentSignUpViolations | src/main/java/ir/oliateaching/dto/StudentSignUpDTO.java:12-32 | no violation iff the person fields and the student fields are valid |
| PersonDtos.TeacherCodeViolations | src/main/java/ir/oliateaching/dto/TeacherSignUpDTO.java:16-18 | no violation iff the code is "T" plus five digits |
| PersonDtos.SalaryViolations | src/main/java/ir/oliateaching/dto/TeacherSignUpDTO.java:26-28 | no violation iff the salary is absent, or non-negative with a scale of at most 2 (trailing zeros count, as `@Digits` does on a `BigDecimal`) and at most 10 integer digits |
| PersonDtos.SalaryScaleCounts | src/main/java/ir/oliateaching/dto/TeacherSignUpDTO.java:26-28 | 1.000 is rejected with "Invalid salary format" while the equal 1.00 passes |
| PersonDtos.TeacherFieldViolations | src/main/java/ir/oliateaching/dto/TeacherSignUpDTO.java:16-28 | no violation iff code, degree texts, academic degree and salary are valid |
| PersonDtos.EmploymentViolations | src/main/java/ir/oliateaching/dto/TeacherSignUpDTO.java:30-38 | no violation iff the department is at most 100 characters, experience is 0..50, and the full-time flag is present |
| PersonDtos.TeacherSignUpViolations | src/main/java/ir/oliateaching/dto/TeacherSignUpDTO.java:16-38 | no violation iff the person fields and all teacher fields are valid |
| UserRepository.ExistsByUsername | src/main/java/ir/oliateaching/repositories/UserRepositoryImpl.java:27-37 | true iff some stored user has the username |
| UserRepository.ExistsByEmail | src/main/java/ir/oliateaching/repositories/UserRepositoryImpl.java:40-50 | true iff some stored user has the email |
| UserRepository.ExistsByNationalId | src/main/java/ir/oliateaching/repositories/UserRepositoryImpl.java:53-63 | true iff some stored user has the national ID |
| UserRepository.FindByUsername | src/main/java/ir/oliateaching/repositories/UserRepositoryImpl.java:66-72 | with unique usernames it never fails, and it finds a user iff one has the username; a found user has it |
| UserRepository.FindByEmail | src/main/java/ir/oliateaching/repositories/UserRepositoryImpl.java:75-81 | fails iff two users share the email; otherwise it finds a user iff one has the email |
| UserRepository.FindByRole | src/main/java/ir/oliateaching/repositories/UserRepositoryImpl.java:84-90 | exactly the users with the role (also `findUsersByRole`) |
| UserRepository.FindByStatus | src/main/java/ir/oliateaching/repositories/UserRepositoryImpl.java:93-99 | exactly the users with the status |
| UserRepository.FindPendingUsers | src/main/java/ir/oliateaching/repositories/UserRepositoryImpl.java:144-146 | exactly the pending users |
| UserRepository.FindApprovedUsers | src/main/java/ir/oliateaching/repositories/UserRepositoryImpl.java:149-151 | exactly the approved users |
| UserRepository.CountByRole | src/main/java/ir/oliateaching/repositories/UserRepositoryImpl.java:84-90 | the size of `findByRole` is the number of stored users with that role |
| UserRepository.CountByStatus | src/main/java/ir/oliateaching/repositories/UserRepositoryImpl.java:93-99 | the size of `findByStatus` is the number of stored users with that status |
| UserRepository.FindByStudentCodeAsWritten | src/main/java/ir/oliateaching/repositories/UserRepositoryImpl.java:159-175 | as written it finds a user iff some username equals the code |
| UserRepository.FindByTeacherCodeAsWritten | src/main/java/ir/oliateaching/repositories/UserRepositoryImpl.java:178-193 | as written it finds a user iff some username equals the code |
| UserRepository.FindByStudentCode | src/main/java/ir/oliateaching/repositories/UserRepositoryImpl.java:159-175 | corrected: finds a stored student with that student code iff there is one |
| UserRepository.FindByTeacherCode | src/main/java/ir/oliateaching/repositories/UserRepositoryImpl.java:178-193 | corrected: finds a stored teacher with that teacher code iff there is one |
| UserRepository.StudentCodeLookupMissesStudents | src/main/java/ir/oliateaching/repositories/UserRepositoryImpl.java:159-175 | a stored student whose code is not their username is missed as written and found once corrected |
| UserRepository.TeacherCodeLookupMissesTeachers | src/main/java/ir/oliateaching/repositories/UserRepositoryImpl.java:178-193 | the same for a stored teacher |
| CourseRepository.FindStudent | src/main/java/ir/oliateaching/services/CourseService.java:206-212 | finds a user by id only when the stored user is a student |
| CourseRepository.FindTeacher | src/main/java/ir/oliateaching/services/CourseService.java:198-204 | finds a user by id only when the stored user is a teacher |
| CourseRepository.FindByCourseCode | src/main/java/ir/oliateaching/repositories/CourseRepositoryImpl.java:23-30 | with unique codes it never fails, and it finds a course iff one has the code |
| CourseRepository.FindByTitle | src/main/java/ir/oliateaching/repositories/CourseRepositoryImpl.java:32-39 | exactly the courses with that title, each as often as it is stored (no row repeated) |
| CourseRepository.FindByStatus | src/main/java/ir/oliateaching/repositories/CourseRepositoryImpl.java:41-48 | exactly the courses with that status |
| CourseRepository.CountByStatus | src/main/java/ir/oliateaching/repositories/CourseRepositoryImpl.java:41-48 | the size of `findByStatus` is the number of stored courses with that status |
| CourseRepository.FindByTeacher | src/main/java/ir/oliateaching/repositories/CourseRepositoryImpl.java:50-57 | exactly the courses taught by that teacher, each as often as it is stored |
| CourseRepository.FindByStudent | src/main/java/ir/oliateaching/repositories/CourseRepositoryImpl.java:59-67 | exactly the courses whose roster holds the student, each as often as it is stored |
| CourseRepository.SortedWhere | src/main/java/ir/oliateaching/repositories/CourseRepositoryImpl.java:78-81 | a where clause plus an order-by: the same multiset of rows as the plain `where`, so each matching row appears exactly as often as it is stored, sorted by the key |
| CourseRepository.FindActiveCourses | src/main/java/ir/oliateaching/repositories/CourseRepositoryImpl.java:69-82 | exactly the ACTIVE courses with start <= today <= end, as a permutation of the plain `where` over that condition (no row repeated or dropped), earliest start first |
| CourseRepository.FindUpcomingCourses | src/main/java/ir/oliateaching/repositories/CourseRepositoryImpl.java:84-95 | exactly the PLANNED courses starting after today, as a permutation of the plain `where` over that condition, earliest start first |
| CourseRepository.SearchCourses | src/main/java/ir/oliateaching/repositories/CourseRepositoryImpl.java:97-134 | exactly the courses meeting every given filter (trimmed lower-case title substring, status, start on or after, end on or before), as a permutation of the plain `where` over the conjunction of the given filters, latest start first; with no filter, a permutation of all courses |
| CourseRepository.IsStudentEnrolled | src/main/java/ir/oliateaching/repositories/CourseRepositoryImpl.java:209-228 | true iff the course exists and its roster lists a stored student with that id |
| CourseRepository.AddStudentToCourse | src/main/java/ir/oliateaching/repositories/CourseRepositoryImpl.java:136-167 | a linked pair is a silent no-op; a missing course or student is not-found, the course checked first; otherwise both sides are linked; symmetry and freedom from repeats are kept |
| CourseRepository.RemoveStudentFromCourse | src/main/java/ir/oliateaching/repositories/CourseRepositoryImpl.java:169-187 | a missing course or student is not-found; an unenrolled student is a no-op; otherwise both sides are unlinked and symmetry is kept |
| CourseRepository.LinkedAfterUpdate | src/main/java/ir/oliateaching/repositories/CourseRepositoryImpl.java:156-164 | rewriting one course and one student whose lists change only in each other's entry keeps every other link's agreement |
| CourseRepository.GetCourseStudents | src/main/java/ir/oliateaching/repositories/CourseRepositoryImpl.java:189-207 | exactly the stored users enrolled in the course, each as often as it is stored |
| CourseRepository.AssignTeacherToCourse | src/main/java/ir/oliateaching/repositories/CourseRepositoryImpl.java:230-245 | a missing course or teacher is not-found; otherwise the course is taught by the teacher, and nothing else changes |
| CourseRepository.RemoveTeacherFromCourse | src/main/java/ir/oliateaching/repositories/CourseRepositoryImpl.java:247-264 | a missing course is not-found; a course without a teacher is a no-op; otherwise the teacher is cleared and nothing else changes |
| CourseRepository.GetCourseTeacherAsWritten | src/main/java/ir/oliateaching/repositories/CourseRepositoryImpl.java:266-281 | as written, a missing course gives empty, and a course without a teacher fails with "Failed to get course teacher" |
| CourseRepository.GetCourseTeacher | src/main/java/ir/oliateaching/repositories/CourseRepositoryImpl.java:266-281 | corrected: the course's teacher when there is one, else empty; agrees with the code wherever the code does not fail |
| CourseRepository.AssignThenGetTeacher | src/main/java/ir/oliateaching/repositories/CourseRepositoryImpl.java:230-281 | after an assignment, both readings return the assigned teacher |
| CourseRepository.RemoveThenGetTeacherFails | src/main/java/ir/oliateaching/repositories/CourseRepositoryImpl.java:247-281 | after the teacher is removed, the code as written fails while the corrected reading is empty |
| UserService.NewUserFor | src/main/java/ir/oliateaching/services/UserService.java:41-121 | the built user carries the form's fields and role-specific fields; only an admin starts approved, the others pending |
| UserService.CodeTakenAsWritten | src/main/java/ir/oliateaching/services/UserService.java:52-86 | as written, a student or teacher code counts as taken iff some stored username equals it; no code means not taken; a repeated username makes the lookup fail |
| UserService.CodeTakenIntended | src/main/java/ir/oliateaching/repositories/UserRepositoryImpl.java:159-193 | intended: a student code is taken iff a stored student holds it, a teacher code iff a stored teacher holds it |
| UserService.RegisterWith | src/main/java/ir/oliateaching/services/UserService.java:29-123 | the checks run in the code's order (username, email, national ID, then the code); it succeeds iff all pass, and then appends exactly the new user |
| UserService.SignUp | src/main/java/ir/oliateaching/services/UserService.java:26-27 | an invalid form is refused as invalid before any lookup; a valid one goes on to registration |
| UserService.Register | src/main/java/ir/oliateaching/services/UserService.java:29-123 | as written: with unique usernames, succeeds iff the username, the email and a given national ID are free and no stored username equals the given student or teacher code; the username is checked first, then the email; on success exactly the new user is appended under a fresh id |
| UserService.SignUpKeepsIdentitiesDistinct | src/main/java/ir/oliateaching/services/UserService.java:26-124 | sign-up never lets two users share a username, email or national ID |
| UserService.RegisterKeepsIdentitiesDistinct | src/main/java/ir/oliateaching/services/UserService.java:29-123 | registration keeps usernames, emails and national IDs distinct |
| UserService.RegisterIntended | src/main/java/ir/oliateaching/services/UserService.java:29-123 | corrected: succeeds iff the username, the email, a given national ID and the student or teacher code are free, the code checked against stored students or teachers |
| UserService.RegisterIntendedKeepsCodesUnique | src/main/java/ir/oliateaching/services/UserService.java:52-86 | with the corrected code check, sign-up never stores a student code or a teacher code twice |
| UserService.RegisterRepeatsTakenStudentCode | src/main/java/ir/oliateaching/services/UserService.java:52-58 | as written, a student form whose code a stored student holds, but no username equals, is accepted and leaves two students with that code; the corrected check refuses it |
| UserService.SignUpRepeatsStudentCode | src/main/java/ir/oliateaching/services/UserService.java:26-124 | a concrete case: with student "alice" holding code 0123456789, sign-up of student "carol" with that code succeeds and repeats the code |
| UserService.ApproveUser | src/main/java/ir/oliateaching/services/UserService.java:126-144 | fails on a missing or already approved user; otherwise the user becomes APPROVED by the admin with the date set, including from REJECTED, and nothing else changes |
| UserService.RejectUser | src/main/java/ir/oliateaching/services/UserService.java:146-159 | fails only on a missing user; otherwise the user becomes REJECTED by the admin, whatever the previous status |
| UserService.ApproveTwiceFails | src/main/java/ir/oliateaching/services/UserService.java:132-136 | approving the same user a second time fails |
| UserService.RejectThenApprove | src/main/java/ir/oliateaching/services/UserService.java:126-159 | a rejected user can then be approved |
| UserService.UpdateUser | src/main/java/ir/oliateaching/services/UserService.java:161-164 | an invalid form is refused as invalid; a valid one goes on to the change |
| UserService.ChangeUser | src/main/java/ir/oliateaching/services/UserService.java:165-194 | fails with not-found on a missing or null id; otherwise copies the common fields and overwrites the subclass fields only when the new role matches the stored subclass |
| UserService.UpdateUserKeepsIdentities | src/main/java/ir/oliateaching/services/UserService.java:161-194 | an update keeps usernames and national IDs unique |
| UserService.ChangeUserKeepsIdentities | src/main/java/ir/oliateaching/services/UserService.java:164-194 | the change after validation keeps usernames and national IDs unique |
| UserService.Authenticate | src/main/java/ir/oliateaching/services/UserService.java:232-237 | with unique usernames, true iff a stored user has that username, exactly that password, and is approved |
| CourseService.CourseFrom | src/main/java/ir/oliateaching/services/CourseService.java:43-52 | the course built from a form carries every form field |
| CourseService.CreateCourse | src/main/java/ir/oliateaching/services/CourseService.java:31-32 | an invalid form is refused as invalid; a valid one goes on to the add |
| CourseService.AddCourse | src/main/java/ir/oliateaching/services/CourseService.java:33-63 | succeeds iff the code is free, the end is not before the start, and any given teacher is a stored approved teacher; on success exactly the new course is appended |
| CourseService.CreateCourseKeepsCodesUnique | src/main/java/ir/oliateaching/services/CourseService.java:31-63 | creating a course keeps codes unique |
| CourseService.UpdateCourse | src/main/java/ir/oliateaching/services/CourseService.java:65-66 | an invalid form is refused as invalid; a valid one goes on to the change |
| CourseService.ChangeCourse | src/main/java/ir/oliateaching/services/CourseService.java:67-96 | a missing course is not-found; succeeds iff the code is free or the course's own, the end is not before the start, and any given teacher is approved; copies the form and keeps the roster |
| CourseService.UpdateCourseKeepsCodesUnique | src/main/java/ir/oliateaching/services/CourseService.java:65-96 | updating a course keeps codes unique |
| CourseService.UpdateCourseKeepsLinks | src/main/java/ir/oliateaching/services/CourseService.java:65-96 | updating a course keeps the course-student links symmetric |
| CourseService.ChangeCourseKeepsLinks | src/main/java/ir/oliateaching/services/CourseService.java:67-96 | the change after validation leaves every roster in place, so the links stay symmetric |
| CourseService.AssignTeacherToCourse | src/main/java/ir/oliateaching/services/CourseService.java:98-111 | succeeds iff the course exists and the teacher is a stored approved teacher; then the course is taught by that teacher |
| CourseService.AssignedTeacherIsApproved | src/main/java/ir/oliateaching/services/CourseService.java:98-111 | after a service assignment, the course's teacher is approved |
| CourseService.EnrollStudentInCourse | src/main/java/ir/oliateaching/services/CourseService.java:113-135 | missing ids are invalid; succeeds iff the course exists, the student exists and is approved, and is not yet enrolled (a duplicate is an error); symmetry and freedom from repeats are kept |
| CourseService.EnrollTwiceFails | src/main/java/ir/oliateaching/services/CourseService.java:128-130 | enrolling the same student twice fails the second time |
| AdminService.InitializeAdminAccount | src/main/java/ir/oliateaching/services/AdminService.java:26-47 | with an admin present nothing changes; otherwise the default admin is stored under a fresh id and nothing else changes; an admin exists afterwards |
| AdminService.InitializeAdminAccountIdempotent | src/main/java/ir/oliateaching/services/AdminService.java:26-47 | running the bootstrap twice is the same as once |
| AdminService.DefaultAdminCanAuthenticate | src/main/java/ir/oliateaching/services/AdminService.java:30-44 | the freshly created default admin authenticates with admin/admin123 and usernames stay unique |
| AdminService.UpdateUserRole | src/main/java/ir/oliateaching/services/AdminService.java:65-74 | a missing user is not-found; otherwise only the role changes, the subclass stays, and other users are untouched |
| AdminService.EnrollStudentInCourse | src/main/java/ir/oliateaching/services/AdminService.java:84-89 | the service enrolment with both ids given: succeeds iff the course exists and the student exists, is approved, and is not enrolled |
| AdminService.GetStatistics | src/main/java/ir/oliateaching/services/AdminService.java:100-113 | each counter is the size of its query: all users, the users of each role, the pending users, all courses, the active and the planned courses; the role counts add up to the user total; pending and active-plus-planned stay within their totals |
| AdminService.StatisticsCountStoredEntities | src/main/java/ir/oliateaching/services/AdminService.java:100-113 | in a consistent store, each role, pending, active and planned counter is the number of distinct stored users or courses with that role or status |
| AdminService.RolesPartitionUsers | src/main/java/ir/oliateaching/services/AdminService.java:103-106 | every user is counted under exactly one role |
| AdminService.StatusesWithinCourses | src/main/java/ir/oliateaching/services/AdminService.java:109-111 | active and planned courses together are at most all courses |

## Left out

- The console application (`ExamSystemApp`) and the `ApplicationContext` factory: pure input/output and wiring.
- ORM mechanics: criteria-query construction, persist/merge identity, cascades, lazy loading, reflection-based entity discovery. The store is a sequence of rows, and each query is a filter.
- Database constraints the store does not enforce: unique columns are stated as predicates (`UniqueUsernames`, `UniqueNationalIds`, `UniqueCourseCodes`). The Teacher columns `teacher_code` and `academic_degree` are NOT NULL, yet sign-up leaves them unset. The model does not reject that.
- The clock: `today` is a parameter. Of the timestamps only `approvedDate` appears, and only as set or not set. `createdAt`, `updatedAt` and `registrationDate` are not modelled.
- Floating point: `Exam.getTotalScores`, `Question.score` and the GPA bounds of the student form.
- `@Email` address syntax: defined by the validation library. Only the non-blank and length rules are modelled.
- `searchUsers` and `findByRoleAndStatus`: their chained `where` calls keep only the last restriction. Neither the services' counters nor any modelled operation depend on them.
- Enum status against string literals: `findActiveCourses` and `findUpcomingCourses` compare the status with "ACTIVE"/"PLANNED". The model uses enum equality.
- `LIKE` wildcards: a `%` or `_` typed into the search title acts as a wildcard in the code. The model uses plain substring search.
- Lower-casing: only ASCII letters are lower-cased. Lengths count Unicode scalar values rather than UTF-16 units.
- No-argument constructors, `display()`, `toString()`, `Exam.setCourse` and `Course.setTeacher`: used only by the ORM or for printing.
- Error messages: the ids and values that exceptions append to their messages are not modelled, only the fixed text.
- Null-pointer paths: a null `minWords`/`maxWords` in an essay question and a null enum in `getAcademicTitle` are not modelled.
- The transaction flag is not threaded through the services. `JpaUtil.ExecuteInTransaction` models the wrapper by itself, and the services' operations are atomic functions with no rollback.
- CrudRepository.Save: a merge of an entity whose row is gone is modelled as an insert under a fresh id. The persistence provider the code is built for (the one offering `getSingleResultOrNull`) fails such a merge with an optimistic-lock error instead. In the model every merge follows a successful `findById`, so this case does not arise.
- CourseService.ChangeCourse: when the teacher check fails, the code has already run the setters on the managed course. That change stays in the shared persistence context, and the next commit writes it. The model leaves the table unchanged on every failure.
- CourseRepository.GetCourseStudents: the order by last and first name is not modelled, only which students are returned.
- Decimals: negative scales of `BigDecimal` are not modelled.
- Violation order: the bean-validation provider reports violations in no fixed order. The model lists them in declaration order.
- Teacher extends `Person` in the code and lacks the five-argument constructor the services call. The model follows the services and treats Teacher as a `User` variant.
- Pass-through delegations are covered by the members they call:
  - `AdminService.getAllUsersForAdmin`, `getPendingRegistrations`, `approveUserRegistration`, `rejectUserRegistration`, `getAllCourses`, `assignTeacherToCourse`, `getCourseStudents`, `getCourseTeacher`;
  - `UserService.findById`, `findByUsername`, `findByEmail`, `getAllUsers`, `getUsersByRole`, `getPendingUsers`, `getApprovedUsers`, `deleteUser`;
  - `CourseService.findById`, `findByCourseCode`, `getAllCourses`, `getCoursesByStatus`, `getActiveCourses`, `getUpcomingCourses`, `getCoursesByTeacher`, `getCoursesByStudent`, `searchCourses`, `getCourseStudents`, `getCourseTeacher`, `deleteCourse`, `removeStudentFromCourse`.
- UserService.TotalUsers, UserService.TotalUsersByRole, UserService.PendingCount, CourseService.TotalCourses and CourseService.TotalCoursesByStatus: plain counts. Their properties are stated through AdminService.GetStatistics.
- UserService.SignUp: its contract covers validation. Everything after validation is stated on UserService.Register, which it equals for a valid form.
- UserService.UpdateUser: its contract covers validation. The rest is stated on UserService.ChangeUser.
- CourseService.CreateCourse: its contract covers validation. The rest is stated on CourseService.AddCourse.
- CourseService.UpdateCourse: its contract covers validation. The rest is stated on CourseService.ChangeCourse.
- Questions.ValidateAnswer: for an essay answer with a non-blank trimmed text, it states the bound check on the word count. For a blank answer it states only that no minimum of one or more is met.

## Findings

| source | as written | input that shows it | evidently intended | confidence | as-written member | corrected member |
|---|---|---|---|---|---|---|
| src/main/java/ir/oliateaching/repositories/UserRepositoryImpl.java:159-193 | `findByStudentCode` and `findByTeacherCode` return `findByUsername(code)` | a stored student with username "alice" and student code "0123456789"; looking up "0123456789" finds nobody, so sign-up of another student with that code succeeds | match the code against stored students' (teachers') codes | high, not executed | UserRepository.FindByStudentCodeAsWritten, UserRepository.FindByTeacherCodeAsWritten, UserRepository.StudentCodeLookupMissesStudents, UserRepository.TeacherCodeLookupMissesTeachers, UserService.Register, UserService.RegisterRepeatsTakenStudentCode, UserService.SignUpRepeatsStudentCode | UserRepository.FindByStudentCode, UserRepository.FindByTeacherCode, UserService.RegisterIntended, UserService.RegisterIntendedKeepsCodesUnique |
| src/main/java/ir/oliateaching/domains/EssayQuestion.java:49-57 | the word count is `answer.trim().split("\\s+").length` | the empty answer "" with minWords 1 counts one word and is accepted | a blank answer has zero words | high, not executed | Questions.EssayWordCountAsWritten, Questions.ValidateAnswerAsWritten, Questions.BlankEssayAccepted | Questions.EssayWordCount, Questions.ValidateAnswer |
| src/main/java/ir/oliateaching/repositories/CourseRepositoryImpl.java:266-281 | the left join yields one null row for a course without a teacher, and `Optional.of(null)` throws | a course whose teacher was just removed: `getCourseTeacher` fails with "Failed to get course teacher" | return empty for a course without a teacher | medium, not executed | CourseRepository.GetCourseTeacherAsWritten, CourseRepository.RemoveThenGetTeacherFails | CourseRepository.GetCourseTeacher |
