/**
 * `Course::Assessment::QuestionsConcern`: the ordered questions of an
 * assessment, seen against the set of questions a submission answered
 * correctly. Questions are their ids; a relation holds each at most once.
 */
module QuestionsConcern {
  import opened Wrappers
  import opened Collections

  type QuestionId = nat

  /** `correctly_answered_questions`: the questions in `correct`, in assessment order. */
  function CorrectlyAnsweredQuestions(qs: seq<QuestionId>, correct: set<QuestionId>): (r: seq<QuestionId>)
    ensures forall q :: q in r <==> q in qs && q in correct
    ensures IsSubsequence(r, qs)
  {
    if qs == [] then []
    else if qs[0] in correct then [qs[0]] + CorrectlyAnsweredQuestions(qs[1..], correct)
    else
      var r := CorrectlyAnsweredQuestions(qs[1..], correct);
      assert r == [] || IsSubsequence(r, qs[1..]);
      r
  }

  /** `not_correctly_answered`: the questions not in `correct`, in assessment order. */
  function NotCorrectlyAnswered(qs: seq<QuestionId>, correct: set<QuestionId>): (r: seq<QuestionId>)
    ensures forall q :: q in r <==> q in qs && q !in correct
    ensures IsSubsequence(r, qs)
  {
    if qs == [] then []
    else if qs[0] !in correct then [qs[0]] + NotCorrectlyAnswered(qs[1..], correct)
    else NotCorrectlyAnswered(qs[1..], correct)
  }

  /** The two lists split the questions: together they hold each question exactly as often as the assessment does. */
  lemma {:induction false} AnsweredSplit(qs: seq<QuestionId>, correct: set<QuestionId>)
    ensures multiset(CorrectlyAnsweredQuestions(qs, correct)) + multiset(NotCorrectlyAnswered(qs, correct)) == multiset(qs)
  {
    if qs != [] {
      AnsweredSplit(qs[1..], correct);
      assert qs == [qs[0]] + qs[1..];
    }
  }

  /** The lines 57-59 fold: the first question not in `correct`, or `None` (`nil`) when there is none. */
  function FirstNotIn(qs: seq<QuestionId>, correct: set<QuestionId>): (r: Option<QuestionId>)
  {
    if qs == [] then None
    else if qs[0] !in correct then Some(qs[0])
    else FirstNotIn(qs[1..], correct)
  }

  /** `next_unanswered`. */
  function NextUnanswered(qs: seq<QuestionId>, correct: set<QuestionId>): Option<QuestionId>
  {
    if CorrectlyAnsweredQuestions(qs, correct) == [] then (if qs == [] then None else Some(qs[0]))
    else FirstNotIn(qs, correct)
  }

  /**
   * `next_unanswered` is the first question not answered correctly: it is not
   * in `correct` and every question before it is; it is `None` exactly when
   * every question is answered correctly. The early `return first` agrees with
   * the fold.
   */
  lemma {:induction false} NextUnansweredSpec(qs: seq<QuestionId>, correct: set<QuestionId>)
    ensures NextUnanswered(qs, correct) == FirstNotIn(qs, correct)
    ensures NextUnanswered(qs, correct).None? <==> forall i :: 0 <= i < |qs| ==> qs[i] in correct
    ensures NextUnanswered(qs, correct).Some? ==>
      exists k :: 0 <= k < |qs| && qs[k] == NextUnanswered(qs, correct).value && qs[k] !in correct
                  && forall j :: 0 <= j < k ==> qs[j] in correct
  {
    FirstNotInSpec(qs, correct);
  }

  lemma {:induction false} FirstNotInSpec(qs: seq<QuestionId>, correct: set<QuestionId>)
    ensures FirstNotIn(qs, correct).None? <==> forall i :: 0 <= i < |qs| ==> qs[i] in correct
    ensures FirstNotIn(qs, correct).Some? ==>
      exists k :: 0 <= k < |qs| && qs[k] == FirstNotIn(qs, correct).value && qs[k] !in correct
                  && forall j :: 0 <= j < k ==> qs[j] in correct
  {
    if qs != [] {
      FirstNotInSpec(qs[1..], correct);
      if qs[0] in correct {
        if FirstNotIn(qs[1..], correct).Some? {
          var k :| 0 <= k < |qs[1..]| && qs[1..][k] == FirstNotIn(qs[1..], correct).value && qs[1..][k] !in correct
                   && forall j :: 0 <= j < k ==> qs[1..][j] in correct;
          assert qs[k + 1] == qs[1..][k];
          forall j | 0 <= j < k + 1 ensures qs[j] in correct {
            if j > 0 { assert qs[j] == qs[1..][j - 1]; }
          }
        } else {
          forall i | 0 <= i < |qs| ensures qs[i] in correct {
            if i > 0 { assert qs[i] == qs[1..][i - 1]; }
          }
        }
      }
    }
  }

  /** `index(q)`: the position of the first occurrence of `q`. */
  function IndexOf(qs: seq<QuestionId>, q: QuestionId): (r: nat)
    requires q in qs
    ensures r < |qs| && qs[r] == q && forall j :: 0 <= j < r ==> qs[j] != q
  {
    if qs[0] == q then 0 else 1 + IndexOf(qs[1..], q)
  }

  /** `current_index = 0 if current_index < 0`. */
  function ClampedIndex(currentIndex: int): (r: nat)
    ensures currentIndex >= 0 ==> r == currentIndex
    ensures currentIndex < 0 ==> r == 0
  {
    if currentIndex < 0 then 0 else currentIndex
  }

  /** Position `f` holds the first question not answered correctly. */
  predicate FirstUnansweredAt(qs: seq<QuestionId>, correct: set<QuestionId>, f: int) {
    0 <= f < |qs| && qs[f] !in correct && forall j :: 0 <= j < f ==> qs[j] in correct
  }

  /** The first unanswered question is `next_unanswered`, and `index` finds it at its own position. */
  lemma FirstUnansweredIsNext(qs: seq<QuestionId>, correct: set<QuestionId>, f: int)
    requires FirstUnansweredAt(qs, correct, f)
    ensures NextUnanswered(qs, correct) == Some(qs[f])
    ensures IndexOf(qs, qs[f]) == f
  {
    NextUnansweredSpec(qs, correct);
    var k :| 0 <= k < |qs| && qs[k] == NextUnanswered(qs, correct).value && qs[k] !in correct
             && forall j :: 0 <= j < k ==> qs[j] in correct;
    assert !(k < f) && !(f < k);
    var r := IndexOf(qs, qs[f]);
    assert !(r < f);
  }

  /** In a relation (no question twice), `index(last)` is the last position. */
  lemma IndexOfLast(qs: seq<QuestionId>)
    requires qs != [] && NoDuplicates(qs)
    ensures IndexOf(qs, qs[|qs| - 1]) == |qs| - 1
  {
    var r := IndexOf(qs, qs[|qs| - 1]);
    assert !(r < |qs| - 1);
  }

  /**
   * `step`: the position of the question shown for `currentIndex`, clamped
   * below at 0 and above at the next unanswered question (the last question
   * when every one is answered). `None` is the exception an empty assessment
   * raises, where `index(nil)` yields `nil` and `min` cannot compare it.
   */
  function StepIndex(qs: seq<QuestionId>, correct: set<QuestionId>, currentIndex: int): (r: Option<nat>)
    ensures qs == [] <==> r.None?
    ensures r.Some? ==> r.value < |qs|
    ensures forall f :: FirstUnansweredAt(qs, correct, f) ==> r == Some(Min(ClampedIndex(currentIndex), f))
    ensures qs != [] && NoDuplicates(qs) && (forall i :: 0 <= i < |qs| ==> qs[i] in correct) ==>
      r == Some(Min(ClampedIndex(currentIndex), |qs| - 1))
  {
    if qs == [] then None
    else
      var current := ClampedIndex(currentIndex);
      var target := NextUnanswered(qs, correct).GetOr(qs[|qs| - 1]);
      NextUnansweredSpec(qs, correct);
      var maxIndex := IndexOf(qs, target);
      StepTargets(qs, correct);
      Some(Min(current, maxIndex))
  }

  /** Where `step` is capped: at the first unanswered question, or at the last one when all are answered. */
  lemma StepTargets(qs: seq<QuestionId>, correct: set<QuestionId>)
    requires qs != []
    ensures forall f :: FirstUnansweredAt(qs, correct, f) ==>
      NextUnanswered(qs, correct) == Some(qs[f]) && IndexOf(qs, qs[f]) == f
    ensures NoDuplicates(qs) && (forall i :: 0 <= i < |qs| ==> qs[i] in correct) ==>
      NextUnanswered(qs, correct) == None && IndexOf(qs, qs[|qs| - 1]) == |qs| - 1
  {
    forall f | FirstUnansweredAt(qs, correct, f)
      ensures NextUnanswered(qs, correct) == Some(qs[f]) && IndexOf(qs, qs[f]) == f
    {
      FirstUnansweredIsNext(qs, correct, f);
    }
    NextUnansweredSpec(qs, correct);
    if NoDuplicates(qs) {
      IndexOfLast(qs);
    }
  }

  /**
   * `step`: the question at the given index or the next unanswered question,
   * whichever comes first (the last question when every one is answered).
   */
  function Step(qs: seq<QuestionId>, correct: set<QuestionId>, currentIndex: int): (r: Option<QuestionId>)
    ensures qs == [] <==> r.None?
    ensures r.Some? ==> r.value in qs
    ensures forall f :: FirstUnansweredAt(qs, correct, f) ==> r == Some(qs[Min(ClampedIndex(currentIndex), f)])
    ensures qs != [] && NoDuplicates(qs) && (forall i :: 0 <= i < |qs| ==> qs[i] in correct) ==>
      r == Some(qs[Min(ClampedIndex(currentIndex), |qs| - 1)])
  {
    match StepIndex(qs, correct, currentIndex)
    case None => None
    case Some(i) => Some(qs[i])
  }

  /**
   * With questions 1, 2, 3 and only question 1 answered, asking for position 2
   * shows question 2 at position 1: the first question not yet answered.
   */
  lemma StepStopsAtFirstUnanswered(qs: seq<QuestionId>, correct: set<QuestionId>)
    requires qs == [1, 2, 3] && correct == {1}
    ensures StepIndex(qs, correct, 2) == Some(1)
    ensures Step(qs, correct, 2) == Some(2)
  {
    assert FirstUnansweredAt(qs, correct, 1);
  }

  /**
   * A student never steps past a question not yet answered correctly: every
   * question before the one `step` returns is answered correctly, the step
   * goes no further than the (clamped) requested index, and it stops short of
   * that index only at a question not answered correctly or at the last one.
   */
  lemma StepNeverSkipsUnanswered(qs: seq<QuestionId>, correct: set<QuestionId>, currentIndex: int)
    requires qs != []
    ensures var k := StepIndex(qs, correct, currentIndex).value;
      && (forall j :: 0 <= j < k ==> qs[j] in correct)
      && k <= ClampedIndex(currentIndex)
      && (k < ClampedIndex(currentIndex) ==> qs[k] !in correct || qs[k] == qs[|qs| - 1])
      && Step(qs, correct, currentIndex) == Some(qs[k])
  {
    NextUnansweredSpec(qs, correct);
    var k := StepIndex(qs, correct, currentIndex).value;
    var next := NextUnanswered(qs, correct);
    var maxIndex := IndexOf(qs, next.GetOr(qs[|qs| - 1]));
    if next.Some? {
      var k0 :| 0 <= k0 < |qs| && qs[k0] == next.value && qs[k0] !in correct
                && forall j :: 0 <= j < k0 ==> qs[j] in correct;
      assert maxIndex <= k0;
    }
  }

  /**
   * When the requested index is already inside the answered prefix, the
   * student gets exactly that question (the questions of a relation are distinct).
   */
  lemma StepWithinReach(qs: seq<QuestionId>, correct: set<QuestionId>, currentIndex: int)
    requires NoDuplicates(qs)
    requires 0 <= currentIndex < |qs|
    requires forall j :: 0 <= j < currentIndex ==> qs[j] in correct
    ensures Step(qs, correct, currentIndex) == Some(qs[currentIndex])
  {
    NextUnansweredSpec(qs, correct);
    var next := NextUnanswered(qs, correct);
    var maxIndex := IndexOf(qs, next.GetOr(qs[|qs| - 1]));
    if next.Some? {
      var k0 :| 0 <= k0 < |qs| && qs[k0] == next.value && qs[k0] !in correct
                && forall j :: 0 <= j < k0 ==> qs[j] in correct;
      assert k0 >= currentIndex;
      assert maxIndex == k0;
    }
  }

  /**
   * `attempt`: one answer per question in order, the submission's latest
   * attempting answer for it when there is one, otherwise a fresh one from
   * `build` (`question.attempt(submission)`). `attempting` holds the
   * (question, answer) pairs of the query; `to_h` keeps the last pair per question.
   */
  function Attempt<A>(qs: seq<QuestionId>, attempting: seq<(QuestionId, A)>, build: QuestionId -> A): (r: seq<A>)
    ensures |r| == |qs|
    ensures forall i :: 0 <= i < |qs| ==>
      r[i] == if qs[i] in ToHash(attempting) then ToHash(attempting)[qs[i]] else build(qs[i])
  {
    var answers := ToHash(attempting);
    seq(|qs|, i requires 0 <= i < |qs| => if qs[i] in answers then answers[qs[i]] else build(qs[i]))
  }

  /**
   * A question with an attempting answer receives that answer (the last one
   * listed for it), and only a question without one gets a fresh answer.
   */
  lemma AttemptReusesAttemptingAnswers<A>(qs: seq<QuestionId>, attempting: seq<(QuestionId, A)>,
                                          build: QuestionId -> A, i: nat)
    requires i < |qs|
    ensures (forall j :: 0 <= j < |attempting| ==> attempting[j].0 != qs[i]) ==>
              Attempt(qs, attempting, build)[i] == build(qs[i])
    ensures (exists j :: 0 <= j < |attempting| && attempting[j].0 == qs[i]) ==>
              exists j :: 0 <= j < |attempting| && attempting[j].0 == qs[i]
                          && Attempt(qs, attempting, build)[i] == attempting[j].1
                          && forall j' :: j < j' < |attempting| ==> attempting[j'].0 != qs[i]
  {
    ToHashLastWins(attempting, qs[i]);
  }
}
