/**
 * Plain text-response grading (`evaluate_answer` and the helpers it calls):
 * an exact match if there is one, otherwise every keyword found in the answer;
 * the grade is the matched grades' sum capped at the question's maximum.
 */
module PlainMatcher {
  import opened Wrappers
  import opened Text
  import opened Collections
  import opened Types

  /** The test of `find_exact_match`: the solution, newlines normalised, equals the answer up to case. */
  predicate ExactMatches(answerText: string, s: PlainSolution) {
    CaseCmpEqual(UniversalNewline(s.solution), answerText)
  }

  /** The test of `find_keywords`: the lower-cased solution occurs in the lower-cased answer. */
  predicate KeywordMatches(answerText: string, s: PlainSolution) {
    Includes(Downcase(answerText), Downcase(s.solution))
  }

  /** The solutions of one kind, in authored order. */
  function OfKind(solutions: seq<PlainSolution>, kind: PlainKind): (r: seq<PlainSolution>)
    ensures forall s :: s in r <==> s in solutions && s.kind == kind
    ensures IsSubsequence(r, solutions)
  {
    if solutions == [] then []
    else
      var rest := OfKind(solutions[1..], kind);
      SubsequenceOfTail(rest, solutions);
      if solutions[0].kind == kind then [solutions[0]] + rest else rest
  }

  /** Every solution of the kind is kept as often as it is authored; the others are dropped. */
  lemma {:induction false} OfKindCounts(solutions: seq<PlainSolution>, kind: PlainKind)
    ensures forall s :: multiset(OfKind(solutions, kind))[s] == if s.kind == kind then multiset(solutions)[s] else 0
  {
    if solutions != [] {
      OfKindCounts(solutions[1..], kind);
      assert solutions == [solutions[0]] + solutions[1..];
    }
  }

  /** `solutions.partition(&:exact_match?)`: exact-match solutions, then the (keyword) rest. */
  function Partition(solutions: seq<PlainSolution>): (r: (seq<PlainSolution>, seq<PlainSolution>))
    ensures forall s :: s in solutions ==> if s.kind == ExactMatch then s in r.0 && s !in r.1 else s in r.1 && s !in r.0
    ensures forall s :: s in r.0 || s in r.1 ==> s in solutions
  {
    (OfKind(solutions, ExactMatch), OfKind(solutions, Keyword))
  }

  lemma SubsequenceOfTail<T>(a: seq<T>, b: seq<T>)
    requires b != [] && IsSubsequence(a, b[1..])
    ensures IsSubsequence(a, b) && IsSubsequence([b[0]] + a, b)
  {
    assert ([b[0]] + a)[1..] == a;
  }

  /** `find_exact_match`: the first exact-match solution equal to the answer, if any. */
  function FindExactMatch(answerText: string, exactMatches: seq<PlainSolution>): (r: Option<PlainSolution>)
    ensures r.None? <==> forall i :: 0 <= i < |exactMatches| ==> !ExactMatches(answerText, exactMatches[i])
    ensures r.Some? ==> exists i :: (0 <= i < |exactMatches| && exactMatches[i] == r.value
                                     && ExactMatches(answerText, r.value)
                                     && forall j :: 0 <= j < i ==> !ExactMatches(answerText, exactMatches[j]))
  {
    if exactMatches == [] then None
    else if ExactMatches(answerText, exactMatches[0]) then Some(exactMatches[0])
    else
      FindExactMatch(answerText, exactMatches[1..])
  }

  /** `find_keywords`: the keyword solutions found in the answer, in authored order. */
  function FindKeywords(answerText: string, keywords: seq<PlainSolution>): (r: seq<PlainSolution>)
    ensures forall s :: s in r <==> s in keywords && KeywordMatches(answerText, s)
    ensures IsSubsequence(r, keywords)
  {
    if keywords == [] then []
    else
      var rest := FindKeywords(answerText, keywords[1..]);
      SubsequenceOfTail(rest, keywords);
      if KeywordMatches(answerText, keywords[0]) then [keywords[0]] + rest else rest
  }

  /** Every matching keyword is kept as often as it is authored; the others are dropped. */
  lemma {:induction false} FindKeywordsCounts(answerText: string, keywords: seq<PlainSolution>)
    ensures forall s ::
      multiset(FindKeywords(answerText, keywords))[s] == if KeywordMatches(answerText, s) then multiset(keywords)[s] else 0
  {
    if keywords != [] {
      FindKeywordsCounts(answerText, keywords[1..]);
      assert keywords == [keywords[0]] + keywords[1..];
    }
  }

  /**
   * Lines 26-31: the solutions credited for an answer — the first exact match
   * alone, or else the keyword matches.
   */
  function MatchedSolutions(q: Question, answerText: string): seq<PlainSolution>
  {
    var (exactMatches, keywords) := Partition(q.solutions);
    match FindExactMatch(answerText, exactMatches)
    case Some(s) => [s]
    case None => FindKeywords(answerText, keywords)
  }

  function Grades(solutions: seq<PlainSolution>): (r: seq<int>)
    ensures |r| == |solutions|
    ensures forall i :: 0 <= i < |r| ==> r[i] == solutions[i].grade
  {
    seq(|solutions|, i requires 0 <= i < |solutions| => solutions[i].grade)
  }

  /** `grade_for`: the matched grades' sum, capped at the maximum grade. */
  function GradeFor(maximumGrade: int, solutions: seq<PlainSolution>): (g: int)
    ensures g <= maximumGrade
    ensures g <= Sum(Grades(solutions))
    ensures g == maximumGrade || g == Sum(Grades(solutions))
  {
    Min(Sum(Grades(solutions)), maximumGrade)
  }

  /** `correctness_for`: the UNCAPPED sum reaches the maximum grade. */
  function CorrectnessFor(maximumGrade: int, solutions: seq<PlainSolution>): bool {
    Sum(Grades(solutions)) >= maximumGrade
  }

  /** `explanations_for`: the matched explanations in order, `nil` ones dropped. */
  function ExplanationsFor(solutions: seq<PlainSolution>): (r: seq<string>)
    ensures |r| <= |solutions|
    ensures forall e :: e in r <==> exists i :: 0 <= i < |solutions| && solutions[i].explanation == Some(e)
    ensures (forall i :: 0 <= i < |solutions| ==> solutions[i].explanation.None?) ==> r == []
  {
    if solutions == [] then []
    else
      var rest := ExplanationsFor(solutions[1..]);
      assert forall e :: (exists i :: 0 <= i < |solutions[1..]| && solutions[1..][i].explanation == Some(e))
                     <==> (exists i :: 1 <= i < |solutions| && solutions[i].explanation == Some(e)) by {
        forall e | exists i :: 1 <= i < |solutions| && solutions[i].explanation == Some(e)
          ensures exists i :: 0 <= i < |solutions[1..]| && solutions[1..][i].explanation == Some(e)
        {
          var i :| 1 <= i < |solutions| && solutions[i].explanation == Some(e);
          assert solutions[1..][i - 1] == solutions[i];
        }
      }
      match solutions[0].explanation
      case Some(e) => [e] + rest
      case None => rest
  }

  /**
   * Order is preserved: the messages of two runs of solutions are the messages
   * of the first run followed by those of the second.
   */
  lemma {:induction false} ExplanationsForInOrder(a: seq<PlainSolution>, b: seq<PlainSolution>)
    ensures ExplanationsFor(a + b) == ExplanationsFor(a) + ExplanationsFor(b)
  {
    if a == [] {
      assert a + b == b;
    } else {
      assert (a + b)[0] == a[0];
      assert (a + b)[1..] == a[1..] + b;
      ExplanationsForInOrder(a[1..], b);
    }
  }

  /** One solution gives its explanation when it has one, and nothing otherwise. */
  lemma ExplanationsForOne(s: PlainSolution)
    ensures ExplanationsFor([s]) == if s.explanation.Some? then [s.explanation.value] else []
  {
    assert [s][1..] == [];
  }

  /** `evaluate_answer`: correctness, grade and messages of a plain answer. */
  function EvaluateAnswer(q: Question, answerText: string): GradingResult
  {
    var solutions := MatchedSolutions(q, answerText);
    GradingResult(CorrectnessFor(q.maximumGrade, solutions),
                  GradeFor(q.maximumGrade, solutions),
                  ExplanationsFor(solutions))
  }

  /** Correctness tests the uncapped sum, which is the same as testing the capped grade. */
  lemma CorrectnessIsCappedGradeReached(q: Question, answerText: string)
    ensures EvaluateAnswer(q, answerText).correct <==>
            EvaluateAnswer(q, answerText).grade >= q.maximumGrade
  {
  }

  /** With non-negative grades and cap the plain grade lies in `[0, maximum_grade]`. */
  lemma PlainGradeBounds(q: Question, answerText: string)
    requires q.maximumGrade >= 0
    requires forall i :: 0 <= i < |q.solutions| ==> q.solutions[i].grade >= 0
    ensures 0 <= EvaluateAnswer(q, answerText).grade <= q.maximumGrade
  {
    var m := MatchedSolutions(q, answerText);
    assert forall i :: 0 <= i < |m| ==> m[i] in q.solutions;
    SumNonNegative(Grades(m));
  }

  /**
   * Exact matching comes first: when some exact-match solution equals the
   * answer, the first such solution in authored order is the only one credited.
   */
  lemma {:induction false} ExactMatchTakesPrecedence(q: Question, answerText: string, i: nat)
    requires i < |q.solutions|
    requires q.solutions[i].kind == ExactMatch && ExactMatches(answerText, q.solutions[i])
    requires forall j :: 0 <= j < i ==> !(q.solutions[j].kind == ExactMatch && ExactMatches(answerText, q.solutions[j]))
    ensures MatchedSolutions(q, answerText) == [q.solutions[i]]
  {
    FirstExactInPartition(q.solutions, answerText, i);
  }

  lemma {:induction false} FirstExactInPartition(sols: seq<PlainSolution>, answerText: string, i: nat)
    requires i < |sols|
    requires sols[i].kind == ExactMatch && ExactMatches(answerText, sols[i])
    requires forall j :: 0 <= j < i ==> !(sols[j].kind == ExactMatch && ExactMatches(answerText, sols[j]))
    ensures FindExactMatch(answerText, Partition(sols).0) == Some(sols[i])
  {
    var rest := OfKind(sols[1..], ExactMatch);
    if i == 0 {
      assert OfKind(sols, ExactMatch) == [sols[0]] + rest;
    } else {
      assert forall j :: 0 <= j < i - 1 ==> sols[1..][j] == sols[j + 1];
      FirstExactInPartition(sols[1..], answerText, i - 1);
      if sols[0].kind == ExactMatch {
        assert !ExactMatches(answerText, sols[0]);
        assert OfKind(sols, ExactMatch) == [sols[0]] + rest;
        assert ([sols[0]] + rest)[1..] == rest;
      } else {
        assert OfKind(sols, ExactMatch) == rest;
      }
    }
  }

  /**
   * With no exact match, exactly the keyword solutions found in the answer are
   * credited, in authored order, each as often as it is authored.
   */
  lemma NoExactMatchFallsBackToKeywords(q: Question, answerText: string)
    requires forall j :: 0 <= j < |q.solutions| ==> !(q.solutions[j].kind == ExactMatch && ExactMatches(answerText, q.solutions[j]))
    ensures forall s :: s in MatchedSolutions(q, answerText) <==>
              s in q.solutions && s.kind == Keyword && KeywordMatches(answerText, s)
    ensures IsSubsequence(MatchedSolutions(q, answerText), q.solutions)
    ensures forall s ::
      multiset(MatchedSolutions(q, answerText))[s] ==
        if s.kind == Keyword && KeywordMatches(answerText, s) then multiset(q.solutions)[s] else 0
  {
    var (exactMatches, keywords) := Partition(q.solutions);
    assert FindExactMatch(answerText, exactMatches) == None;
    SubsequenceTransitive(FindKeywords(answerText, keywords), keywords, q.solutions);
    OfKindCounts(q.solutions, Keyword);
    FindKeywordsCounts(answerText, keywords);
  }

  lemma {:induction false} SubsequenceTransitive<T>(a: seq<T>, b: seq<T>, c: seq<T>)
    requires IsSubsequence(a, b) && IsSubsequence(b, c)
    ensures IsSubsequence(a, c)
    decreases |c|
  {
    if a != [] {
      assert b != [] && c != [];
      if a[0] == b[0] && IsSubsequence(a[1..], b[1..]) {
        if b[0] == c[0] && IsSubsequence(b[1..], c[1..]) {
          SubsequenceTransitive(a[1..], b[1..], c[1..]);
        } else {
          SubsequenceTransitive(a, b, c[1..]);
        }
      } else {
        if b[0] == c[0] && IsSubsequence(b[1..], c[1..]) {
          SubsequenceTransitive(a, b[1..], c[1..]);
        } else {
          SubsequenceTransitive(a, b, c[1..]);
        }
      }
    }
  }

  /** An answer that matches nothing earns 0 and no messages. */
  lemma NoMatchGradesZero(q: Question, answerText: string)
    requires q.maximumGrade >= 0
    requires MatchedSolutions(q, answerText) == []
    ensures EvaluateAnswer(q, answerText).grade == 0
    ensures EvaluateAnswer(q, answerText).messages == []
  {
  }

  /**
   * A solution authored with Windows (or old Mac) line ends exact-matches the
   * same text written with Unix line ends.
   */
  lemma NewlinesAreEquivalent(text: string, s: PlainSolution)
    requires CR !in text
    requires s.solution == ToWindows(text) || s.solution == ToOldMac(text)
    ensures ExactMatches(text, s)
  {
    if s.solution == ToWindows(text) {
      UniversalNewlineOfWindows(text);
    } else {
      UniversalNewlineOfOldMac(text);
    }
  }
}
