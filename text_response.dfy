/**
 * `Course::Assessment::Question::TextResponse`: auto-gradability, the grade
 * validator, the file-upload flag and its label, and building an attempt.
 */
module TextResponse {
  import opened Wrappers
  import opened Types

  /** `auto_gradable?`: the question has at least one solution. */
  function AutoGradable(q: Question): (r: bool)
    ensures r <==> |q.solutions| > 0
  {
    q.solutions != []
  }

  /** `solutions.any? { |s| s.grade > maximum_grade }`. */
  function AnyGradeAbove(solutions: seq<PlainSolution>, maximumGrade: int): (r: bool)
    ensures r <==> exists i :: 0 <= i < |solutions| && solutions[i].grade > maximumGrade
  {
    if solutions == [] then false
    else solutions[0].grade > maximumGrade || AnyGradeAbove(solutions[1..], maximumGrade)
  }

  /** `validate_grade`: the errors it adds. */
  function ValidateGrade(q: Question): (errors: seq<ValidationError>)
    ensures errors == [] || errors == [InvalidGrade]
    ensures errors == [InvalidGrade] <==> exists i :: 0 <= i < |q.solutions| && q.solutions[i].grade > q.maximumGrade
  {
    if AnyGradeAbove(q.solutions, q.maximumGrade) then [InvalidGrade] else []
  }

  /** A question that passes validation can award no single solution more than its maximum. */
  lemma ValidQuestionCapsEverySolution(q: Question)
    requires ValidateGrade(q) == []
    ensures forall i :: 0 <= i < |q.solutions| ==> q.solutions[i].grade <= q.maximumGrade
  {
  }

  /** `file_upload_question?`. */
  predicate FileUploadQuestion(q: Question) {
    q.hideText
  }

  /** The two labels `question_type` picks between (each a translation key). */
  datatype QuestionTypeLabel = FileUploadLabel | TextResponseLabel

  /** `question_type`. */
  function QuestionType(q: Question): (r: QuestionTypeLabel)
    ensures r == FileUploadLabel <==> FileUploadQuestion(q)
    ensures r == TextResponseLabel <==> !FileUploadQuestion(q)
  {
    if FileUploadQuestion(q) then FileUploadLabel else TextResponseLabel
  }

  /** A freshly built text-response answer; `None` leaves the answer text at its column default. */
  datatype AnswerDraft = AnswerDraft(answerText: Option<string>)

  /** `attempt`: a new answer that copies the previous attempt's text when there is one. */
  function Attempt(lastAttemptText: Option<string>): (a: AnswerDraft)
    ensures lastAttemptText.Some? ==> a.answerText == lastAttemptText
    ensures lastAttemptText.None? ==> a.answerText.None?
  {
    match lastAttemptText
    case Some(t) => AnswerDraft(Some(t))
    case None => AnswerDraft(None)
  }
}
