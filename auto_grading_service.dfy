/**
 * `Course::Assessment::Answer::TextResponseAutoGradingService`: `evaluate`
 * dispatches on the question kind; `evaluate_answer_comprehension` tokenises and
 * lemmatises the answer, builds the two lemma indices, runs the lifted-word and
 * keyword passes over two status arrays, grades, and builds the feedback.
 */
module AutoGradingService {
  import opened Wrappers
  import opened Collections
  import opened Types
  import opened TextResponseGroup
  import opened PlainMatcher
  import opened Tokenizer
  import opened LemmaIndex
  import opened ComprehensionMatcher
  import opened ComprehensionGrading
  import opened ComprehensionFeedback

  /** The two status arrays after both passes, as values. */
  function Statuses(groups: seq<Group>, lemmas: seq<string>): (r: (seq<Option<PointId>>, seq<Option<CompreSolution>>))
    ensures |r.0| == |r.1| == |lemmas|
  {
    var lifted := LiftedPass(lemmas, LiftedIndexOf(groups), |lemmas|).0;
    (lifted, KeywordPass(lemmas, lifted, KeywordIndexOf(groups), |lemmas|).0)
  }

  /**
   * `evaluate_answer_comprehension`, as a value. `answerText` is the answer's
   * normalised text, `morphy` the lemmatiser and `show` Ruby's `String(...)`.
   */
  function EvaluateComprehension(q: Question, answerText: string,
                                 morphy: string -> Option<string>, show: int -> string): GradingResult
  {
    var tokens := Tokens(answerText);
    var lemmas := Lemmatised(morphy, tokens);
    var groups := OrderedGroups(q.groups);
    var (lifted, keyword) := Statuses(groups, lemmas);
    var grade := ComprehensionGrade(groups, q.maximumGrade, lifted, keyword);
    GradingResult(CorrectnessForComprehension(q.maximumGrade, grade), grade,
                  ComprehensionExplanations(tokens, keyword, lifted, grade, q.maximumGrade, show))
  }

  /** `evaluate`: comprehension questions and plain questions are graded by their own procedure. */
  function Evaluation(q: Question, answerText: string,
                    morphy: string -> Option<string>, show: int -> string): (r: GradingResult)
    ensures q.comprehensionQuestion ==> r == EvaluateComprehension(q, answerText, morphy, show)
    ensures !q.comprehensionQuestion ==> r == EvaluateAnswer(q, answerText)
  {
    if q.comprehensionQuestion then EvaluateComprehension(q, answerText, morphy, show)
    else EvaluateAnswer(q, answerText)
  }

  lemma OrderedGroupsNonNegative(gs: seq<Group>)
    requires NonNegativeGrades(gs)
    ensures NonNegativeGrades(OrderedGroups(gs))
  {
    OrderedGroupsSpec(gs);
    var o := OrderedGroups(gs);
    forall i | 0 <= i < |o| ensures o[i] in gs {
      assert o[i] in multiset(o);
    }
  }

  /**
   * What a comprehension grading promises as a whole: the grade lies in
   * `[0, maximum_grade]`, the answer is correct exactly when it reaches the
   * maximum, and the line `Grade: <grade> / <maximum_grade>` comes last.
   */
  lemma EvaluateComprehensionSpec(q: Question, answerText: string,
                                  morphy: string -> Option<string>, show: int -> string)
    requires q.maximumGrade >= 0 && NonNegativeGrades(q.groups)
    ensures var r := EvaluateComprehension(q, answerText, morphy, show);
      && 0 <= r.grade <= q.maximumGrade
      && (r.correct <==> r.grade == q.maximumGrade)
      && r.messages != []
      && r.messages[|r.messages| - 1] == "Grade: " + show(r.grade) + " / " + show(q.maximumGrade)
  {
    var tokens := Tokens(answerText);
    var lemmas := Lemmatised(morphy, tokens);
    var groups := OrderedGroups(q.groups);
    var (lifted, keyword) := Statuses(groups, lemmas);
    OrderedGroupsNonNegative(q.groups);
    ComprehensionGradeBounds(groups, q.maximumGrade, lifted, keyword);
    ComprehensionExplanationsShape(tokens, keyword, lifted, ComprehensionGrade(groups, q.maximumGrade, lifted, keyword),
                                   q.maximumGrade, show);
  }

  /**
   * What the two passes promise together: no token is both a lifted word and a
   * keyword, no Point is lifted twice, no Solution is credited twice, and each
   * credited Solution comes from the keyword bucket of its token's lemma.
   */
  lemma StatusesSpec(groups: seq<Group>, lemmas: seq<string>)
    ensures var (lifted, keyword) := Statuses(groups, lemmas);
      && (forall i :: 0 <= i < |lemmas| && keyword[i].Some? ==> lifted[i].None?)
      && ClaimsOnce(lifted) && ClaimsOnce(keyword)
      && ClaimsFromBuckets(lemmas, keyword, KeywordIndexOf(groups))
  {
    var lifted := Statuses(groups, lemmas).0;
    LiftedPassSpec(lemmas, LiftedIndexOf(groups), |lemmas|);
    KeywordPassSpec(lemmas, lifted, KeywordIndexOf(groups), |lemmas|);
    KeywordPassFromBuckets(lemmas, lifted, KeywordIndexOf(groups), |lemmas|);
    KeywordPassCredits(lemmas, lifted, KeywordIndexOf(groups), |lemmas|);
  }

  /** Lines 108-109: one lemma per token, pushed in order. */
  method LemmatiseTokens(tokens: seq<string>, morphy: string -> Option<string>) returns (lemmas: seq<string>)
    ensures lemmas == Lemmatised(morphy, tokens)
  {
    lemmas := [];
    var i := 0;
    while i < |tokens|
      invariant 0 <= i <= |tokens|
      invariant |lemmas| == i
      invariant forall j :: 0 <= j < i ==> lemmas[j] == LemmaOf(morphy, tokens[j])
    {
      lemmas := lemmas + [LemmaOf(morphy, tokens[i])];
      i := i + 1;
    }
  }

  /** `evaluate_answer_comprehension`. */
  method EvaluateAnswerComprehension(q: Question, answerText: string,
                                     morphy: string -> Option<string>, show: int -> string)
    returns (result: GradingResult)
    ensures result == EvaluateComprehension(q, answerText, morphy, show)
  {
    var groups := OrderedGroups(q.groups);
    var tokens := Tokens(answerText);
    var lemmas := LemmatiseTokens(tokens, morphy);
    var lifted := new Option<PointId>[|lemmas|](_ => None);
    var keyword := new Option<CompreSolution>[|lemmas|](_ => None);
    var hashLiftedWordPoints := HashCompreLiftedWord(groups);
    var hashKeywordSolutions := HashCompreKeyword(groups);
    hashLiftedWordPoints := FindCompreLiftedWordInAnswer(lemmas, lifted, hashLiftedWordPoints);
    hashKeywordSolutions := FindCompreKeywordInAnswer(lemmas, lifted, keyword, hashKeywordSolutions);
    var answerGrade := GradeForComprehension(groups, q.maximumGrade, lifted, keyword);
    var messages := ExplanationsForComprehension(tokens, keyword, lifted, answerGrade, q.maximumGrade, show);
    result := GradingResult(CorrectnessForComprehension(q.maximumGrade, answerGrade), answerGrade, messages);
  }

  /** `evaluate`. */
  method Evaluate(q: Question, answerText: string,
                        morphy: string -> Option<string>, show: int -> string)
    returns (result: GradingResult)
    ensures result == Evaluation(q, answerText, morphy, show)
  {
    if q.comprehensionQuestion {
      result := EvaluateAnswerComprehension(q, answerText, morphy, show);
    } else {
      result := EvaluateAnswer(q, answerText);
    }
  }
}
