/** The `Course` entity and its side of the course/student link. */
module Courses {
  import opened Wrappers
  import opened CrudRepository
  import opened Calendar
  import Users
  import Lists

  datatype CourseStatus = PLANNED | ACTIVE | COMPLETED | CANCELLED

  /** A course refers to its teacher and its students by their ids. */
  datatype Course = Course(
    courseCode: string,
    title: string,
    description: Option<string>,
    startDate: Date,
    endDate: Date,
    status: CourseStatus,
    credit: Option<int>,
    teacher: Option<Id>,
    students: seq<Id>)

  /** The four-argument constructor: a new course is PLANNED, with no teacher and no students. */
  function NewCourse(courseCode: string, title: string, startDate: Date, endDate: Date): (c: Course)
    ensures c.status == PLANNED && c.teacher.None? && c.students == []
    ensures c.courseCode == courseCode && c.title == title
    ensures c.startDate == startDate && c.endDate == endDate
  {
    Course(courseCode, title, None, startDate, endDate, PLANNED, None, None, [])
  }

  predicate IsActive(c: Course)
  {
    c.status == ACTIVE
  }

  function StudentCount(c: Course): nat
  {
    |c.students|
  }

  /**
   * The course (id `courseId`) and the student (id `studentId`) agree about
   * their link: each lists the other exactly when the other lists it.
   */
  predicate Linked(c: Course, courseId: Id, s: Users.User, studentId: Id)
    requires s.Student?
  {
    studentId in c.students <==> courseId in s.enrolledCourses
  }

  /**
   * `Course.addStudent`: a student not yet on the roster is appended to it and
   * the course is added to the student's list; otherwise nothing changes.
   */
  function AddStudent(c: Course, courseId: Id, s: Users.User, studentId: Id): (r: (Course, Users.User))
    requires s.Student?
    ensures r.1.Student?
    ensures studentId in c.students ==> r == (c, s)
    ensures studentId !in c.students ==>
      && r.0.students == c.students + [studentId]
      && StudentCount(r.0) == StudentCount(c) + 1
      && courseId in r.1.enrolledCourses
    ensures Linked(c, courseId, s, studentId) ==>
      studentId in r.0.students && courseId in r.1.enrolledCourses
    ensures Lists.NoDup(c.students) ==> Lists.NoDup(r.0.students)
    ensures Lists.NoDup(s.enrolledCourses) ==> Lists.NoDup(r.1.enrolledCourses)
    ensures r.0 == c.(students := r.0.students)
    ensures r.1 == s.(enrolledCourses := r.1.enrolledCourses)
    ensures forall x :: x in r.0.students <==> x in c.students || x == studentId
    ensures forall x :: x != courseId ==> (x in r.1.enrolledCourses <==> x in s.enrolledCourses)
  {
    if studentId in c.students then (c, s)
    else
      var roster := Lists.AppendIfAbsent(c.students, studentId);
      (c.(students := roster), Users.EnrollInCourse(s, courseId))
  }

  /**
   * `Course.removeStudent`: a student on the roster is removed from it and the
   * course from the student's list; otherwise nothing changes. With lists free
   * of repeats and a link both sides agreed on, neither side mentions the
   * other afterwards.
   */
  function RemoveStudent(c: Course, courseId: Id, s: Users.User, studentId: Id): (r: (Course, Users.User))
    requires s.Student?
    ensures r.1.Student?
    ensures studentId !in c.students ==> r == (c, s)
    ensures studentId in c.students ==> StudentCount(r.0) == StudentCount(c) - 1
    ensures Lists.NoDup(c.students) && Lists.NoDup(s.enrolledCourses) ==>
      && Lists.NoDup(r.0.students) && Lists.NoDup(r.1.enrolledCourses)
      && studentId !in r.0.students
      && (forall x :: x in r.0.students <==> x in c.students && x != studentId)
    ensures Lists.NoDup(c.students) && Lists.NoDup(s.enrolledCourses) && Linked(c, courseId, s, studentId) ==>
      courseId !in r.1.enrolledCourses && Linked(r.0, courseId, r.1, studentId)
    ensures forall x :: x != studentId ==> (x in r.0.students <==> x in c.students)
    ensures forall x :: x != courseId ==> (x in r.1.enrolledCourses <==> x in s.enrolledCourses)
    ensures r.0 == c.(students := r.0.students)
    ensures r.1 == s.(enrolledCourses := r.1.enrolledCourses)
  {
    if studentId !in c.students then (c, s)
    else
      var roster := Lists.RemoveFirst(c.students, studentId);
      assert forall x :: x != studentId ==> (x in roster <==> x in c.students) by {
        forall x | x != studentId
          ensures x in roster <==> x in c.students
        {
          assert x in roster <==> x in multiset(roster);
          assert x in c.students <==> x in multiset(c.students);
        }
      }
      assert |roster| == |c.students| - 1 by {
        assert |multiset(roster)| == |multiset(c.students)| - 1;
      }
      var s' := Users.UnenrollFromCourse(s, courseId);
      if Lists.NoDup(c.students) && Lists.NoDup(s.enrolledCourses) then
        Lists.RemoveFirstNoDup(c.students, studentId);
        (c.(students := roster), s')
      else
        (c.(students := roster), s')
  }

  /** Enrolling a student who was linked to the course on neither side and then removing them restores both. */
  lemma {:induction false} AddThenRemoveStudent(c: Course, courseId: Id, s: Users.User, studentId: Id)
    requires s.Student? && studentId !in c.students && courseId !in s.enrolledCourses
    ensures var (c1, s1) := AddStudent(c, courseId, s, studentId);
            RemoveStudent(c1, courseId, s1, studentId) == (c, s)
  {
    Lists.RemoveFirstAppended(c.students, studentId);
    Lists.RemoveFirstAppended(s.enrolledCourses, courseId);
  }
}
