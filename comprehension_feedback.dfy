/**
 * The feedback lines of a comprehension answer: the tokens credited as
 * keywords (with the Solution's explanation when it has one), the tokens
 * claimed as lifted words, and the grade line.
 */
module ComprehensionFeedback {
  import opened Wrappers
  import opened Text
  import opened Types

  /** `status.any?`: some token holds a claim. */
  predicate AnyClaim<T>(status: seq<Option<T>>) {
    exists i :: 0 <= i < |status| && status[i].Some?
  }

  /** The positions that hold a claim, in increasing order. */
  function ClaimedPositions<T>(status: seq<Option<T>>): (r: seq<nat>)
    ensures forall j :: 0 <= j < |r| ==> r[j] < |status| && status[r[j]].Some?
    ensures forall j, j' :: 0 <= j < j' < |r| ==> r[j] < r[j']
    ensures forall i :: 0 <= i < |status| && status[i].Some? ==> i in r
  {
    if status == [] then []
    else
      var n := |status| - 1;
      var front := ClaimedPositions(status[..n]);
      if status[n].Some? then front + [n] else front
  }

  lemma AnyClaimIffPositions<T>(status: seq<Option<T>>)
    ensures AnyClaim(status) <==> ClaimedPositions(status) != []
  {
    if AnyClaim(status) {
      var i :| 0 <= i < |status| && status[i].Some?;
      assert i in ClaimedPositions(status);
    }
  }

  /** One item of the keyword line: the token, then the Solution's explanation in parentheses when it has one. */
  function KeywordItem(token: string, s: CompreSolution): (r: string)
    ensures token <= r
    ensures s.explanation.None? ==> r == token
    ensures s.explanation.Some? ==> r == token + " (" + s.explanation.value + ")"
  {
    match s.explanation
    case None => token
    case Some(e) => token + " (" + e + ")"
  }

  /** The items the keyword loop pushes for the first `n` tokens. */
  function KeywordItems(tokens: seq<string>, status: seq<Option<CompreSolution>>, n: nat): seq<string>
    requires n <= |tokens| == |status|
  {
    if n == 0 then []
    else
      var front := KeywordItems(tokens, status, n - 1);
      if status[n - 1].Some? then front + [KeywordItem(tokens[n - 1], status[n - 1].value)] else front
  }

  /** The items the lifted-word loop pushes for the first `n` tokens. */
  function LiftedItems(tokens: seq<string>, status: seq<Option<PointId>>, n: nat): seq<string>
    requires n <= |tokens| == |status|
  {
    if n == 0 then []
    else
      var front := LiftedItems(tokens, status, n - 1);
      if status[n - 1].Some? then front + [tokens[n - 1]] else front
  }

  /**
   * The keyword items are exactly one item per credited token, in token order:
   * item `j` describes the `j`-th claimed position.
   */
  lemma {:induction false} KeywordItemsArePerClaim(tokens: seq<string>, status: seq<Option<CompreSolution>>, n: nat)
    requires n <= |tokens| == |status|
    ensures var items := KeywordItems(tokens, status, n);
      var pos := ClaimedPositions(status[..n]);
      |items| == |pos| &&
      forall j :: 0 <= j < |pos| ==> items[j] == KeywordItem(tokens[pos[j]], status[pos[j]].value)
  {
    if n > 0 {
      KeywordItemsArePerClaim(tokens, status, n - 1);
      assert status[..n][..n - 1] == status[..n - 1];
    }
  }

  /** The lifted items are exactly the claimed tokens, in token order. */
  lemma {:induction false} LiftedItemsArePerClaim(tokens: seq<string>, status: seq<Option<PointId>>, n: nat)
    requires n <= |tokens| == |status|
    ensures var items := LiftedItems(tokens, status, n);
      var pos := ClaimedPositions(status[..n]);
      |items| == |pos| && forall j :: 0 <= j < |pos| ==> items[j] == tokens[pos[j]]
  {
    if n > 0 {
      LiftedItemsArePerClaim(tokens, status, n - 1);
      assert status[..n][..n - 1] == status[..n - 1];
    }
  }

  /** `explanations_for_keyword`, as a value. */
  function KeywordExplanations(tokens: seq<string>, status: seq<Option<CompreSolution>>): seq<string>
    requires |tokens| == |status|
  {
    if AnyClaim(status) then ["Keywords correctly expressed:", Join(KeywordItems(tokens, status, |tokens|), ", ")]
    else []
  }

  /** `explanations_for_lifted_word`, as a value. */
  function LiftedExplanations(tokens: seq<string>, status: seq<Option<PointId>>): seq<string>
    requires |tokens| == |status|
  {
    if AnyClaim(status) then ["Lifted words:", Join(LiftedItems(tokens, status, |tokens|), ", ")]
    else []
  }

  /** `explanations_for_grade`; `show` is Ruby's `String(...)` on a grade. */
  function GradeExplanation(grade: int, maximumGrade: int, show: int -> string): (r: seq<string>)
    ensures |r| == 1 && "Grade: " <= r[0]
  {
    ["Grade: " + show(grade) + " / " + show(maximumGrade)]
  }

  /** `explanations_for_comprehension`: keyword lines, lifted-word lines, then the grade line. */
  function ComprehensionExplanations(tokens: seq<string>, keyword: seq<Option<CompreSolution>>,
                                     lifted: seq<Option<PointId>>, grade: int, maximumGrade: int,
                                     show: int -> string): seq<string>
    requires |tokens| == |keyword| == |lifted|
  {
    KeywordExplanations(tokens, keyword) + LiftedExplanations(tokens, lifted) + GradeExplanation(grade, maximumGrade, show)
  }

  /**
   * The feedback has one, three or five lines: for each pass that claimed
   * something, a header and then that pass's items joined by `, `; and always
   * the grade line
   * `Grade: <grade> / <maximum_grade>` last.
   */
  lemma ComprehensionExplanationsShape(tokens: seq<string>, keyword: seq<Option<CompreSolution>>,
                                       lifted: seq<Option<PointId>>, grade: int, maximumGrade: int,
                                       show: int -> string)
    requires |tokens| == |keyword| == |lifted|
    ensures var r := ComprehensionExplanations(tokens, keyword, lifted, grade, maximumGrade, show);
      && |r| == 1 + (if AnyClaim(keyword) then 2 else 0) + (if AnyClaim(lifted) then 2 else 0)
      && r[|r| - 1] == "Grade: " + show(grade) + " / " + show(maximumGrade)
      && (AnyClaim(keyword) ==> r[0] == "Keywords correctly expressed:")
      && (AnyClaim(keyword) ==> r[1] == Join(KeywordItems(tokens, keyword, |tokens|), ", "))
      && (AnyClaim(lifted) ==> r[if AnyClaim(keyword) then 2 else 0] == "Lifted words:")
      && (AnyClaim(lifted) ==> r[if AnyClaim(keyword) then 3 else 1] == Join(LiftedItems(tokens, lifted, |tokens|), ", "))
  {
  }

  /** `explanations_for_keyword`. */
  method ExplanationsForKeyword(tokens: seq<string>, status: array<Option<CompreSolution>>) returns (r: seq<string>)
    requires status.Length == |tokens|
    ensures r == KeywordExplanations(tokens, status[..])
  {
    if exists i :: 0 <= i < status.Length && status[i].Some? {
      assert AnyClaim(status[..]) by {
        var i :| 0 <= i < status.Length && status[i].Some?;
        assert status[..][i] == status[i];
      }
      var explanations := [];
      var index := 0;
      while index < status.Length
        invariant 0 <= index <= status.Length
        invariant explanations == KeywordItems(tokens, status[..], index)
      {
        if status[index].Some? {
          var wordExplanation := tokens[index];
          if status[index].value.explanation.Some? {
            wordExplanation := wordExplanation + " (" + status[index].value.explanation.value + ")";
          }
          explanations := explanations + [wordExplanation];
        }
        index := index + 1;
      }
      r := ["Keywords correctly expressed:", Join(explanations, ", ")];
    } else {
      r := [];
    }
  }

  /** `explanations_for_lifted_word`. */
  method ExplanationsForLiftedWord(tokens: seq<string>, status: array<Option<PointId>>) returns (r: seq<string>)
    requires status.Length == |tokens|
    ensures r == LiftedExplanations(tokens, status[..])
  {
    if exists i :: 0 <= i < status.Length && status[i].Some? {
      assert AnyClaim(status[..]) by {
        var i :| 0 <= i < status.Length && status[i].Some?;
        assert status[..][i] == status[i];
      }
      var explanations := [];
      var index := 0;
      while index < status.Length
        invariant 0 <= index <= status.Length
        invariant explanations == LiftedItems(tokens, status[..], index)
      {
        if status[index].Some? {
          explanations := explanations + [tokens[index]];
        }
        index := index + 1;
      }
      r := ["Lifted words:", Join(explanations, ", ")];
    } else {
      r := [];
    }
  }

  /** `explanations_for_comprehension`. */
  method ExplanationsForComprehension(tokens: seq<string>, keyword: array<Option<CompreSolution>>,
                                      lifted: array<Option<PointId>>, grade: int, maximumGrade: int,
                                      show: int -> string)
    returns (r: seq<string>)
    requires keyword.Length == lifted.Length == |tokens|
    ensures r == ComprehensionExplanations(tokens, keyword[..], lifted[..], grade, maximumGrade, show)
  {
    var keywordLines := ExplanationsForKeyword(tokens, keyword);
    var liftedLines := ExplanationsForLiftedWord(tokens, lifted);
    r := keywordLines + liftedLines + GradeExplanation(grade, maximumGrade, show);
  }
}
