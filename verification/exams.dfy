/** The `Exam` entity and its side of the exam/question link. */
module Exams {
  import opened Wrappers
  import opened CrudRepository
  import opened Calendar
  import opened Questions
  import Lists

  /** An exam refers to its course and its questions by their ids. */
  datatype Exam = Exam(
    examCode: string,
    examTitle: string,
    description: Option<string>,
    startDate: Date,
    endDate: Date,
    course: Option<Id>,
    questions: seq<Id>)

  /** The four-argument constructor: no course, no questions. */
  function NewExam(examCode: string, examTitle: string, startDate: Date, endDate: Date): (e: Exam)
    ensures e.questions == [] && e.course.None? && QuestionCount(e) == 0
    ensures e.examCode == examCode && e.examTitle == examTitle
    ensures e.startDate == startDate && e.endDate == endDate
  {
    Exam(examCode, examTitle, None, startDate, endDate, None, [])
  }

  function QuestionCount(e: Exam): nat
  {
    |e.questions|
  }

  /**
   * `Exam.addQuestion`: a question not yet in the exam is appended and pointed
   * at the exam; a question already in it leaves both unchanged.
   */
  function AddQuestion(e: Exam, examId: Id, q: Question, questionId: Id): (r: (Exam, Question))
    ensures questionId in e.questions ==> r == (e, q)
    ensures questionId !in e.questions ==>
      && r.0.questions == e.questions + [questionId]
      && QuestionCount(r.0) == QuestionCount(e) + 1
      && r.1 == q.(exam := Some(examId))
    ensures questionId in r.0.questions
    ensures Lists.NoDup(e.questions) ==> Lists.NoDup(r.0.questions)
    ensures r.0 == e.(questions := r.0.questions)
  {
    if questionId in e.questions then (e, q)
    else (e.(questions := Lists.AppendIfAbsent(e.questions, questionId)), q.(exam := Some(examId)))
  }

  /**
   * `Exam.removeQuestion`: a question in the exam is removed and detached
   * from every exam; a question not in it leaves both unchanged.
   */
  function RemoveQuestion(e: Exam, q: Question, questionId: Id): (r: (Exam, Question))
    ensures questionId !in e.questions ==> r == (e, q)
    ensures questionId in e.questions ==>
      && QuestionCount(r.0) == QuestionCount(e) - 1
      && r.1 == q.(exam := None)
    ensures Lists.NoDup(e.questions) ==>
      && Lists.NoDup(r.0.questions)
      && questionId !in r.0.questions
      && forall x :: x in r.0.questions <==> x in e.questions && x != questionId
    ensures r.0 == e.(questions := r.0.questions)
  {
    if questionId !in e.questions then (e, q)
    else
      var rest := Lists.RemoveFirst(e.questions, questionId);
      assert |rest| == |e.questions| - 1 by {
        assert |multiset(rest)| == |multiset(e.questions)| - 1;
      }
      if Lists.NoDup(e.questions) then
        Lists.RemoveFirstNoDup(e.questions, questionId);
        (e.(questions := rest), q.(exam := None))
      else
        (e.(questions := rest), q.(exam := None))
  }

  /** Adding a question and then removing it gives back the exam's question list. */
  lemma {:induction false} AddThenRemoveQuestion(e: Exam, examId: Id, q: Question, questionId: Id)
    requires questionId !in e.questions
    ensures var (e1, q1) := AddQuestion(e, examId, q, questionId);
            RemoveQuestion(e1, q1, questionId) == (e, q.(exam := None))
  {
    var (e1, q1) := AddQuestion(e, examId, q, questionId);
    Lists.RemoveFirstAppended(e.questions, questionId);
  }
}
