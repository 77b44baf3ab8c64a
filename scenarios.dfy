/**
 * Worked gradings of small comprehension questions, following the cases the
 * service's own tests describe: lifted words alone, keywords alone, a lifted
 * word voiding its Point's keyword, and keywords shared by two groups.
 */
module Scenarios {
  import opened Wrappers
  import opened Collections
  import opened Types
  import opened LemmaIndex
  import opened ComprehensionMatcher
  import opened ComprehensionGrading
  import opened Text
  import opened Tokenizer
  import opened TextResponseGroup
  import opened AutoGradingService

  const liftedSolution := CompreSolution(1, 1, LiftedWord, ["lifted"], ["lifted"], None)
  const keywordSolution := CompreSolution(2, 1, CompreKeyword, ["keyword"], ["keyword"], None)
  const point := Point(1, 2, [liftedSolution, keywordSolution])
  const groups := [Group(0, 2, [point])]

  lemma Indices()
    ensures LiftedIndexOf(groups) == map["lifted" := [1]]
    ensures KeywordIndexOf(groups) == map["keyword" := [keywordSolution]]
  {
    assert LiftedEntries(point, liftedSolution) == [("lifted", 1)];
    assert LiftedEntries(point, keywordSolution) == [];
    assert KeywordEntries(point, liftedSolution) == [];
    assert KeywordEntries(point, keywordSolution) == [("keyword", keywordSolution)];
    assert [liftedSolution, keywordSolution][..1] == [liftedSolution];
    assert [liftedSolution][..0] == [];
    assert SolutionPairs(point, [liftedSolution], LiftedEntries) == [("lifted", 1)];
    assert SolutionPairs(point, [liftedSolution], KeywordEntries) == [];
    assert SolutionPairs(point, [liftedSolution, keywordSolution], LiftedEntries) == [("lifted", 1)];
    assert SolutionPairs(point, [liftedSolution, keywordSolution], KeywordEntries) == [("keyword", keywordSolution)];
    assert [point][..0] == [];
    assert PointPairs([point], LiftedEntries) == [("lifted", 1)];
    assert PointPairs([point], KeywordEntries) == [("keyword", keywordSolution)];
    assert groups[..0] == [];
    assert GroupPairs(groups, LiftedEntries) == [("lifted", 1)];
    assert GroupPairs(groups, KeywordEntries) == [("keyword", keywordSolution)];
    assert [("lifted", 1)][..0] == [];
    assert ToHash([("lifted", 1)]) == map["lifted" := 1];
    var l := Singletons(map["lifted" := 1]);
    assert l.Keys == {"lifted"} && l["lifted"] == [1];
    assert l == map["lifted" := [1]];
    assert [("keyword", keywordSolution)][..0] == [];
    assert KeywordInsertAll(map[], [("keyword", keywordSolution)]) == KeywordInsert(map[], "keyword", keywordSolution);
  }

  /** An answer made of the lifted word alone: its Point is lifted and earns nothing. */
  lemma LiftedOnly()
    ensures var lemmas := ["lifted"];
      var lifted := LiftedPass(lemmas, LiftedIndexOf(groups), 1).0;
      var keyword := KeywordPass(lemmas, lifted, KeywordIndexOf(groups), 1).0;
      && lifted == [Some(1)]
      && ComprehensionGrade(groups, 2, lifted, keyword) == 0
  {
    Indices();
    var lemmas := ["lifted"];
    var h0 := LiftedIndexOf(groups);
    assert LiftedPass(lemmas, h0, 0) == ([], h0);
    assert LiftedStep("lifted", h0).0 == Some(1);
    var lifted := LiftedPass(lemmas, h0, 1).0;
    assert lifted == [Some(1)];
    var keyword := KeywordPass(lemmas, lifted, KeywordIndexOf(groups), 1).0;
    assert !PointEarned(point, lifted, keyword);
    assert [point][..0] == [] && groups[..0] == [];
    assert PointsGrade([point], lifted, keyword) == 0;
    assert GroupsGrade(groups, lifted, keyword) == 0;
  }

  /** An answer made of the keyword alone earns the Point's 2 marks. */
  lemma KeywordOnly()
    ensures var lemmas := ["keyword"];
      var lifted := LiftedPass(lemmas, LiftedIndexOf(groups), 1).0;
      var keyword := KeywordPass(lemmas, lifted, KeywordIndexOf(groups), 1).0;
      ComprehensionGrade(groups, 2, lifted, keyword) == 2
  {
    Indices();
    var lemmas := ["keyword"];
    assert LiftedStep("keyword", map["lifted" := [1]]).0 == None;
    var lifted := LiftedPass(lemmas, LiftedIndexOf(groups), 1).0;
    assert lifted == [None];
    var h := KeywordIndexOf(groups);
    assert KeywordPop("keyword", lifted, h).0 == Some(keywordSolution);
    assert KeywordStep("keyword", None, lifted, h).0 == Some(keywordSolution);
    assert KeywordPass(lemmas, lifted, h, 0) == ([], h);
    var keyword := KeywordPass(lemmas, lifted, KeywordIndexOf(groups), 1).0;
    assert keyword == [Some(keywordSolution)];
    assert PointEarned(point, lifted, keyword);
    assert [point][..0] == [] && groups[..0] == [];
    assert PointsGrade([point], lifted, keyword) == 2;
    assert GroupsGrade(groups, lifted, keyword) == 2;
  }

  lemma LiftedAndKeywordOfSamePoint()
    ensures var lemmas := ["lifted", "keyword"];
      var lifted := LiftedPass(lemmas, LiftedIndexOf(groups), 2).0;
      var keyword := KeywordPass(lemmas, lifted, KeywordIndexOf(groups), 2).0;
      ComprehensionGrade(groups, 2, lifted, keyword) == 0
  {
    Indices();
    var lemmas := ["lifted", "keyword"];
    var h0 := LiftedIndexOf(groups);
    assert LiftedPass(lemmas, h0, 0) == ([], h0);
    var s1 := LiftedStep("lifted", h0);
    assert s1.0 == Some(1);
    assert s1.1 == map["lifted" := []];
    assert lemmas[0] == "lifted" && lemmas[1] == "keyword";
    assert LiftedPass(lemmas, h0, 1) == ([] + [Some(1)], s1.1);
    assert LiftedStep("keyword", s1.1).0 == None;
    var lifted := LiftedPass(lemmas, h0, 2).0;
    assert lifted == [Some(1), None];
    var keyword := KeywordPass(lemmas, lifted, KeywordIndexOf(groups), 2).0;
    assert !PointEarned(point, lifted, keyword);
    assert [point][..0] == [] && groups[..0] == [];
    assert PointsGrade([point], lifted, keyword) == 0;
    assert GroupsGrade(groups, lifted, keyword) == 0;
  }

  // Two groups of one Point each; both Points share the keyword "keyword",
  // and the first also has the lifted word "lifted".
  const keyword1 := CompreSolution(11, 10, CompreKeyword, ["keyword"], ["keyword"], None)
  const lifted1 := CompreSolution(12, 10, LiftedWord, ["lifted"], ["lifted"], None)
  const point1 := Point(10, 2, [lifted1, keyword1])
  const keyword2 := CompreSolution(21, 20, CompreKeyword, ["keyword"], ["keyword"], None)
  const point2 := Point(20, 2, [keyword2])
  const twoGroups := [Group(0, 2, [point1]), Group(1, 2, [point2])]

  lemma TwoGroupPairs()
    ensures GroupPairs(twoGroups, LiftedEntries) == [("lifted", 10)]
    ensures GroupPairs(twoGroups, KeywordEntries) == [("keyword", keyword1), ("keyword", keyword2)]
  {
    assert [lifted1, keyword1][..1] == [lifted1] && [lifted1][..0] == [] && [keyword2][..0] == [];
    assert SolutionPairs(point1, [lifted1], LiftedEntries) == [("lifted", 10)];
    assert SolutionPairs(point1, [lifted1], KeywordEntries) == [];
    assert SolutionPairs(point1, point1.solutions, LiftedEntries) == [("lifted", 10)];
    assert SolutionPairs(point1, point1.solutions, KeywordEntries) == [("keyword", keyword1)];
    assert SolutionPairs(point2, point2.solutions, LiftedEntries) == [];
    assert SolutionPairs(point2, point2.solutions, KeywordEntries) == [("keyword", keyword2)];
    assert [point1][..0] == [] && [point2][..0] == [];
    assert PointPairs([point1], LiftedEntries) == [("lifted", 10)];
    assert PointPairs([point1], KeywordEntries) == [("keyword", keyword1)];
    assert PointPairs([point2], LiftedEntries) == [];
    assert PointPairs([point2], KeywordEntries) == [("keyword", keyword2)];
    assert twoGroups[..1] == [twoGroups[0]] && twoGroups[..1][..0] == [];
    assert twoGroups[0].points == [point1] && twoGroups[1].points == [point2];
    assert GroupPairs(twoGroups[..1], LiftedEntries) == [("lifted", 10)];
    assert GroupPairs(twoGroups[..1], KeywordEntries) == [("keyword", keyword1)];
  }

  lemma TwoGroupIndices()
    ensures LiftedIndexOf(twoGroups) == map["lifted" := [10]]
    ensures KeywordIndexOf(twoGroups) == map["keyword" := [keyword1, keyword2]]
  {
    TwoGroupLiftedIndex();
    TwoGroupPairs();
    TwoKeywordInserts();
  }

  lemma TwoGroupLiftedIndex()
    ensures LiftedIndexOf(twoGroups) == map["lifted" := [10]]
  {
    TwoGroupPairs();
    LiftedSingletons();
  }

  lemma LiftedSingletons()
    ensures Singletons(ToHash([("lifted", 10)])) == map["lifted" := [10]]
  {
    assert [("lifted", 10)][..0] == [];
    assert ToHash([("lifted", 10)]) == map["lifted" := 10];
    var l := Singletons(map["lifted" := 10]);
    assert l.Keys == {"lifted"} && l["lifted"] == [10];
    assert l == map["lifted" := [10]];
  }

  lemma TwoKeywordInserts()
    ensures KeywordInsertAll(map[], [("keyword", keyword1), ("keyword", keyword2)]) == map["keyword" := [keyword1, keyword2]]
  {
    var pairs := [("keyword", keyword1), ("keyword", keyword2)];
    assert pairs[..1] == [("keyword", keyword1)] && pairs[..1][..0] == [];
    var h1: KeywordIndex := map["keyword" := [keyword1]];
    assert KeywordInsertAll(map[], pairs[..1]) == h1;
    assert keyword2 !in h1["keyword"];
    assert [keyword1] + [keyword2] == [keyword1, keyword2];
    assert KeywordInsert(h1, "keyword", keyword2) == h1["keyword" := [keyword1, keyword2]];
    assert h1["keyword" := [keyword1, keyword2]] == map["keyword" := [keyword1, keyword2]];
  }

  /** Popping the shared bucket: each pop removes the popped Solution from the bucket. */
  lemma SharedBucketPops(lifted: seq<Option<PointId>>)
    ensures Some(10) !in lifted ==>
      KeywordPop("keyword", lifted, map["keyword" := [keyword1, keyword2]]) == (Some(keyword1), map["keyword" := [keyword2]])
    ensures Some(20) !in lifted ==>
      KeywordPop("keyword", lifted, map["keyword" := [keyword2]]) == (Some(keyword2), map["keyword" := []])
    ensures Some(10) in lifted && Some(20) !in lifted ==>
      KeywordPop("keyword", lifted, map["keyword" := [keyword1, keyword2]]) == (Some(keyword2), map["keyword" := []])
  {
    var k0 := map["keyword" := [keyword1, keyword2]];
    var k1 := map["keyword" := [keyword2]];
    var k2: KeywordIndex := map["keyword" := []];
    assert [keyword1, keyword2][1..] == [keyword2] && [keyword2][1..] == [];
    assert RemoveAll([keyword2], keyword1) == [keyword2];
    var r1 := RemoveEverywhere(k0["keyword" := [keyword2]], keyword1);
    assert r1.Keys == {"keyword"} && r1["keyword"] == [keyword2];
    assert r1 == k1;
    var r2 := RemoveEverywhere(k1["keyword" := []], keyword2);
    assert r2.Keys == {"keyword"} && r2["keyword"] == [];
    assert r2 == k2;
  }

  lemma TwoKeywordLifted(lemmas: seq<string>, h0: LiftedIndex)
    requires lemmas == ["keyword", "keyword"] && h0 == map["lifted" := [10]]
    ensures LiftedPass(lemmas, h0, 2).0 == [None, None]
  {
    assert lemmas[0] == "keyword" && lemmas[1] == "keyword";
    assert LiftedStep("keyword", h0) == (None, h0);
    assert LiftedPass(lemmas, h0, 0) == ([], h0);
    assert LiftedPass(lemmas, h0, 1) == ([] + [None], h0);
  }

  lemma TwoKeywordCredits(lemmas: seq<string>, lifted: seq<Option<PointId>>, k0: KeywordIndex)
    requires lemmas == ["keyword", "keyword"] && lifted == [None, None]
    requires k0 == map["keyword" := [keyword1, keyword2]]
    ensures KeywordPass(lemmas, lifted, k0, 2).0 == [Some(keyword1), Some(keyword2)]
  {
    assert lemmas[0] == "keyword" && lemmas[1] == "keyword";
    assert Some(10) !in lifted && Some(20) !in lifted;
    SharedBucketPops(lifted);
    var k1: KeywordIndex := map["keyword" := [keyword2]];
    assert KeywordStep(lemmas[0], lifted[0], lifted, k0) == (Some(keyword1), k1);
    assert KeywordPass(lemmas, lifted, k0, 0) == ([], k0);
    var q1 := KeywordPass(lemmas, lifted, k0, 1);
    assert q1 == ([] + [Some(keyword1)], k1);
    assert KeywordStep(lemmas[1], lifted[1], lifted, k1).0 == Some(keyword2);
    assert KeywordPass(lemmas, lifted, k0, 2).0 == [Some(keyword1)] + [Some(keyword2)];
  }

  lemma TwoKeywordStatuses()
    ensures var lemmas := ["keyword", "keyword"];
      var lifted := LiftedPass(lemmas, LiftedIndexOf(twoGroups), 2).0;
      && lifted == [None, None]
      && KeywordPass(lemmas, lifted, KeywordIndexOf(twoGroups), 2).0 == [Some(keyword1), Some(keyword2)]
  {
    TwoGroupIndices();
    TwoKeywordLifted(["keyword", "keyword"], LiftedIndexOf(twoGroups));
    TwoKeywordCredits(["keyword", "keyword"], [None, None], KeywordIndexOf(twoGroups));
  }

  /** The two-group question's uncapped total: 2 for each of its Points that is earned. */
  lemma TwoGroupsGrade(lifted: seq<Option<PointId>>, keyword: seq<Option<CompreSolution>>)
    ensures GroupsGrade(twoGroups, lifted, keyword) ==
      (if PointEarned(point1, lifted, keyword) then 2 else 0) + (if PointEarned(point2, lifted, keyword) then 2 else 0)
  {
    assert [point1][..0] == [] && [point2][..0] == [];
    assert twoGroups[..1] == [twoGroups[0]] && twoGroups[..1][..0] == [];
    assert twoGroups[0].points == [point1] && twoGroups[1].points == [point2];
    assert PointsGrade([point1], lifted, keyword) == if PointEarned(point1, lifted, keyword) then 2 else 0;
    assert PointsGrade([point2], lifted, keyword) == if PointEarned(point2, lifted, keyword) then 2 else 0;
    assert GroupsGrade(twoGroups[..1], lifted, keyword) == GroupGrade(twoGroups[0], lifted, keyword);
  }

  /** Two keyword tokens credit both Points: 4 marks, or 2 when the question's maximum is 2. */
  lemma TwoKeywords()
    ensures var lemmas := ["keyword", "keyword"];
      var lifted := LiftedPass(lemmas, LiftedIndexOf(twoGroups), 2).0;
      var keyword := KeywordPass(lemmas, lifted, KeywordIndexOf(twoGroups), 2).0;
      && ComprehensionGrade(twoGroups, 4, lifted, keyword) == 4
      && ComprehensionGrade(twoGroups, 2, lifted, keyword) == 2
  {
    TwoKeywordStatuses();
    var lifted: seq<Option<PointId>> := [None, None];
    var keyword := [Some(keyword1), Some(keyword2)];
    assert PointEarned(point1, lifted, keyword) && PointEarned(point2, lifted, keyword);
    TwoGroupsGrade(lifted, keyword);
  }

  lemma LiftedThenTwoKeywordLifted()
    ensures LiftedPass(["lifted", "keyword", "keyword"], LiftedIndexOf(twoGroups), 3).0 == [Some(10), None, None]
  {
    TwoGroupIndices();
    var lemmas := ["lifted", "keyword", "keyword"];
    assert lemmas[0] == "lifted" && lemmas[1] == "keyword" && lemmas[2] == "keyword";
    var h0 := LiftedIndexOf(twoGroups);
    var h1: LiftedIndex := map["lifted" := []];
    assert LiftedPass(lemmas, h0, 0) == ([], h0);
    assert h0["lifted"][0] == 10 && h0["lifted"][1..] == [];
    var r := RemoveEverywhere(h0["lifted" := []], 10);
    assert r.Keys == {"lifted"} && r["lifted"] == [];
    assert r == h1;
    assert LiftedStep("lifted", h0) == (Some(10), h1);
    var p1 := LiftedPass(lemmas, h0, 1);
    assert p1 == ([] + [Some(10)], h1);
    assert LiftedStep("keyword", h1) == (None, h1);
    var p2 := LiftedPass(lemmas, h0, 2);
    assert p2 == (p1.0 + [LiftedStep(lemmas[1], p1.1).0], LiftedStep(lemmas[1], p1.1).1);
    assert p1.0 == [Some(10)];
    assert p1.1 == h1;
    assert LiftedStep(lemmas[1], h1) == (None, h1);
    assert p2 == ([Some(10)] + [None], h1);
    assert LiftedPass(lemmas, h0, 3) == (p2.0 + [LiftedStep(lemmas[2], p2.1).0], LiftedStep(lemmas[2], p2.1).1);
    assert p2.0 == [Some(10), None] && p2.1 == h1;
    assert LiftedStep(lemmas[2], h1) == (None, h1);
    assert LiftedPass(lemmas, h0, 3) == ([Some(10), None] + [None], h1);
  }

  lemma LiftedThenTwoKeywordCredits(lemmas: seq<string>, lifted: seq<Option<PointId>>, k0: KeywordIndex)
    requires lemmas == ["lifted", "keyword", "keyword"] && lifted == [Some(10), None, None]
    requires k0 == map["keyword" := [keyword1, keyword2]]
    ensures KeywordPass(lemmas, lifted, k0, 3).0 == [None, Some(keyword2), None]
  {
    assert lemmas[0] == "lifted" && lemmas[1] == "keyword" && lemmas[2] == "keyword";
    SharedBucketPops(lifted);
    var k2: KeywordIndex := map["keyword" := []];
    var q0 := KeywordPass(lemmas, lifted, k0, 0);
    assert q0 == ([], k0);
    var q1 := KeywordPass(lemmas, lifted, k0, 1);
    assert KeywordStep(lemmas[0], lifted[0], lifted, k0) == (None, k0);
    assert q1 == ([] + [None], k0);
    var q2 := KeywordPass(lemmas, lifted, k0, 2);
    assert Some(10) in lifted && Some(20) !in lifted;
    assert KeywordStep(lemmas[1], lifted[1], lifted, k0) == (Some(keyword2), k2);
    assert q2 == (q1.0 + [KeywordStep(lemmas[1], lifted[1], lifted, q1.1).0], KeywordStep(lemmas[1], lifted[1], lifted, q1.1).1);
    assert q1.0 == [None] && q1.1 == k0;
    assert q2.0 == [None] + [Some(keyword2)];
    assert q2.1 == k2;
    assert q2 == ([None] + [Some(keyword2)], k2);
    assert KeywordStep(lemmas[2], lifted[2], lifted, k2) == (None, k2);
    assert KeywordPass(lemmas, lifted, k0, 3).0 == [None, Some(keyword2)] + [None];
  }

  lemma LiftedThenTwoKeywordStatuses()
    ensures var lemmas := ["lifted", "keyword", "keyword"];
      var lifted := LiftedPass(lemmas, LiftedIndexOf(twoGroups), 3).0;
      && lifted == [Some(10), None, None]
      && KeywordPass(lemmas, lifted, KeywordIndexOf(twoGroups), 3).0 == [None, Some(keyword2), None]
  {
    LiftedThenTwoKeywordLifted();
    TwoGroupIndices();
    LiftedThenTwoKeywordCredits(["lifted", "keyword", "keyword"], [Some(10), None, None], KeywordIndexOf(twoGroups));
  }

  /**
   * A lifted word voids its Point's keyword; the shared keyword is then
   * credited to the other Point, for 2 marks under any maximum of at least 2.
   */
  lemma LiftedThenTwoKeywords(maximumGrade: int)
    requires maximumGrade >= 2
    ensures var lemmas := ["lifted", "keyword", "keyword"];
      var lifted := LiftedPass(lemmas, LiftedIndexOf(twoGroups), 3).0;
      var keyword := KeywordPass(lemmas, lifted, KeywordIndexOf(twoGroups), 3).0;
      ComprehensionGrade(twoGroups, maximumGrade, lifted, keyword) == 2
  {
    LiftedThenTwoKeywordStatuses();
    var lifted := [Some(10), None, None];
    var keyword := [None, Some(keyword2), None];
    assert !PointEarned(point1, lifted, keyword) && PointEarned(point2, lifted, keyword);
    TwoGroupsGrade(lifted, keyword);
  }

  /**
   * The whole comprehension grading of the answer "lifted keyword keyword" on
   * the two-group question, with the factory's maximum of 2 or any larger one.
   */
  lemma GradesLiftedKeywordKeyword(q: Question, answer: string, morphy: string -> Option<string>, show: int -> string)
    requires q == Question(q.maximumGrade, true, false, [], twoGroups) && q.maximumGrade >= 2
    requires Tokens(answer) == ["lifted", "keyword", "keyword"]
    requires forall w :: morphy(w) == None
    ensures EvaluateComprehension(q, answer, morphy, show).grade == 2
  {
    var ws := ["lifted", "keyword", "keyword"];
    assert Lemmatised(morphy, Tokens(answer)) == ws;
    assert SortedByWeight(twoGroups);
    OrderedGroupsOfSorted(twoGroups);
    LiftedThenTwoKeywords(q.maximumGrade);
  }

  /** The answer text "lifted keyword keyword" splits into those three tokens. */
  lemma LiftedKeywordKeywordTokens(answer: string)
    requires answer == "lifted keyword keyword"
    ensures Tokens(answer) == ["lifted", "keyword", "keyword"]
  {
    var ws := ["lifted", "keyword", "keyword"];
    assert Join(ws, " ") == answer by {
      assert ws[1..] == ["keyword", "keyword"] && ws[1..][1..] == ["keyword"];
    }
    assert forall t :: t in ws ==> IsWord(t);
    TokensOfJoin(ws);
  }
}
