/**
 * Questions: the `Question` base class with its essay and multiple-choice
 * subclasses, and how each judges a student's answer.
 */
module Questions {
  import opened Wrappers
  import opened CrudRepository
  import Text

  /** The values of a Java `int` / `Integer`. */
  type Int32 = x: int | -0x8000_0000 < x + 1 <= 0x8000_0000

  /** Java `int` arithmetic: the exact result wrapped into 32 bits. */
  function Wrap32(x: int): (r: Int32)
    ensures (r - x) % 0x1_0000_0000 == 0
    ensures -0x8000_0000 <= x < 0x8000_0000 ==> r == x
  {
    (x + 0x8000_0000) % 0x1_0000_0000 - 0x8000_0000
  }

  datatype QuestionKind =
    | Essay(expectedKeywords: seq<string>, minWords: int, maxWords: int)
    | MultipleChoice(options: seq<string>, correctAnswerIndex: Int32)

  /** A question and the exam it belongs to, if any. */
  datatype Question = Question(text: string, exam: Option<Id>, kind: QuestionKind)

  /** What `validateAnswer(Object)` may be handed, told apart by the runtime types the questions test for. */
  datatype Answer = IntegerAnswer(n: Int32) | StringAnswer(s: string) | NullAnswer | OtherAnswer

  /** Position `i` of `s` starts a maximal run of `\s` characters (`space`) or of other characters (`!space`). */
  predicate RunStart(s: string, i: int, space: bool)
    requires 0 <= i < |s|
  {
    Text.IsRegexSpace(s[i]) == space && (i == 0 || Text.IsRegexSpace(s[i - 1]) != space)
  }

  /** The number of maximal runs of `\s` characters (`space`) or of other characters (`!space`). */
  function Runs(s: string, space: bool): nat
  {
    if |s| == 0 then 0
    else Runs(s[..|s| - 1], space) + (if RunStart(s, |s| - 1, space) then 1 else 0)
  }

  /** Words: the maximal runs of characters outside `\s`. */
  function Words(s: string): nat
  {
    Runs(s, false)
  }

  /**
   * `s.split("\\s+").length`: a string with no `\s` is one piece, even when
   * empty; otherwise the pieces around the separators, less the empty pieces
   * at the end.
   */
  function SplitLength(s: string): nat
  {
    if Runs(s, true) == 0 then 1
    else if Words(s) == 0 then 0
    else Runs(s, true) + 1 - (if Text.IsRegexSpace(s[|s| - 1]) then 1 else 0)
  }

  /** In a string that does not start with `\s`, words and separators alternate. */
  lemma {:induction false} WordsAlternate(s: string)
    requires |s| > 0 && !Text.IsRegexSpace(s[0])
    ensures Words(s) == Runs(s, true) + (if Text.IsRegexSpace(s[|s| - 1]) then 0 else 1)
  {
    var p := s[..|s| - 1];
    assert Words(s) == Runs(p, false) + (if RunStart(s, |s| - 1, false) then 1 else 0);
    assert Runs(s, true) == Runs(p, true) + (if RunStart(s, |s| - 1, true) then 1 else 0);
    if |s| > 1 {
      assert p[0] == s[0] && p[|p| - 1] == s[|s| - 2];
      WordsAlternate(p);
    } else {
      assert Runs(p, false) == 0 && Runs(p, true) == 0;
    }
  }

  /** On a string with no `\s` at either end, splitting yields exactly its words. */
  lemma {:induction false} SplitLengthCountsWords(t: string)
    requires |t| > 0 && !Text.IsRegexSpace(t[0]) && !Text.IsRegexSpace(t[|t| - 1])
    ensures SplitLength(t) == Words(t) >= 1
  {
    WordsAlternate(t);
  }

  /**
   * The word count `EssayQuestion.validateAnswer` computes: split the trimmed
   * answer on `\s+`. A blank answer counts as one word.
   */
  function EssayWordCountAsWritten(answer: string): (n: nat)
    ensures Text.Trim(answer) != [] ==> n == Words(Text.Trim(answer))
    ensures Text.Trim(answer) == [] ==> n == 1
  {
    TrimmedSplit(answer);
    SplitLength(Text.Trim(answer))
  }

  /** The words of the trimmed answer: none exactly when the answer is blank. */
  function EssayWordCount(answer: string): (n: nat)
    ensures n == 0 <==> Text.Trim(answer) == []
    ensures Text.Trim(answer) != [] ==> n == EssayWordCountAsWritten(answer)
  {
    TrimmedSplit(answer);
    Words(Text.Trim(answer))
  }

  lemma {:induction false} TrimmedSplit(answer: string)
    ensures Text.Trim(answer) != [] ==> SplitLength(Text.Trim(answer)) == Words(Text.Trim(answer)) >= 1
    ensures Text.Trim(answer) == [] ==> SplitLength(Text.Trim(answer)) == 1 && Words(Text.Trim(answer)) == 0
  {
    TrimmedWords(Text.Trim(answer));
  }

  /** A trimmed string has no `\s` at either end, so its pieces are its words. */
  lemma {:induction false} TrimmedWords(t: string)
    requires t == [] || (!Text.IsTrimmable(t[0]) && !Text.IsTrimmable(t[|t| - 1]))
    ensures t != [] ==> SplitLength(t) == Words(t) >= 1
    ensures t == [] ==> SplitLength(t) == 1 && Words(t) == 0
  {
    if t != [] {
      SplitLengthCountsWords(t);
    }
  }

  /** With a minimum of one word, the blank answer passes the length check as written and fails it once corrected. */
  lemma BlankEssayAccepted()
    ensures EssayWordCountAsWritten("") == 1
    ensures EssayWordCount("") == 0
    ensures ValidateAnswerAsWritten(Essay([], 1, 100), StringAnswer(""))
    ensures !ValidateAnswer(Essay([], 1, 100), StringAnswer(""))
  {
    assert Text.Trim("") == [];
  }

  /** `validateAnswer` with the essay word count as written. */
  function ValidateAnswerAsWritten(q: QuestionKind, a: Answer): (ok: bool)
    ensures q.Essay? ==> (ok <==> a.StringAnswer? && q.minWords <= EssayWordCountAsWritten(a.s) <= q.maxWords)
    ensures q.MultipleChoice? ==> ok == ChoiceAccepted(q.options, a)
  {
    match q
    case Essay(_, minWords, maxWords) =>
      a.StringAnswer? && minWords <= EssayWordCountAsWritten(a.s) <= maxWords
    case MultipleChoice(options, _) => ChoiceAccepted(options, a)
  }

  /** A multiple-choice answer is acceptable: an integer from 1 to the number of options. */
  predicate ChoiceAccepted(options: seq<string>, a: Answer)
  {
    a.IntegerAnswer? && 1 <= a.n <= |options|
  }

  /**
   * `validateAnswer`: a multiple-choice answer must be an integer naming one
   * of the options, counting from 1; an essay answer must be a string whose
   * word count lies within the bounds, both inclusive.
   */
  function ValidateAnswer(q: QuestionKind, a: Answer): (ok: bool)
    ensures q.MultipleChoice? ==> (ok <==> a.IntegerAnswer? && 0 <= a.n - 1 < |q.options|)
    ensures q.Essay? && ok ==> a.StringAnswer? && (q.minWords >= 1 ==> Text.Trim(a.s) != [])
    ensures q.Essay? && a.StringAnswer? && Text.Trim(a.s) != [] ==>
      (ok <==> q.minWords <= EssayWordCountAsWritten(a.s) <= q.maxWords)
  {
    match q
    case Essay(_, minWords, maxWords) =>
      a.StringAnswer? && minWords <= EssayWordCount(a.s) <= maxWords
    case MultipleChoice(options, _) => ChoiceAccepted(options, a)
  }

  /**
   * `MultipleChoiceQuestion.isCorrect`: the answer equals the stored 0-based
   * index plus one, computed in `int` arithmetic.
   */
  function IsCorrect(q: QuestionKind, studentAnswer: Option<Int32>): (ok: bool)
    requires q.MultipleChoice?
    ensures q.correctAnswerIndex < 0x7FFF_FFFF ==>
      (ok <==> studentAnswer.Some? && studentAnswer.value - 1 == q.correctAnswerIndex)
    ensures q.correctAnswerIndex == 0x7FFF_FFFF ==> (ok <==> studentAnswer == Some(-0x8000_0000))
  {
    studentAnswer.Some? && studentAnswer.value == Wrap32(q.correctAnswerIndex + 1)
  }

  /** When the stored index points at an option, the correct answer is also an acceptable one. */
  lemma CorrectAnswerIsValid(q: QuestionKind, a: Int32)
    requires q.MultipleChoice? && 0 <= q.correctAnswerIndex < |q.options|
    requires |q.options| <= 0x7FFF_FFFF  // a Java list holds at most that many elements
    requires IsCorrect(q, Some(a))
    ensures ValidateAnswer(q, IntegerAnswer(a))
  {
  }
}
