/**
 * `grade_for_comprehension` and `correctness_for_comprehension`: a Point earns
 * its grade when none of its Points was claimed as a lifted word and every one
 * of its keyword Solutions was credited; points add up within a group up to the
 * group's maximum, groups add up to the question's maximum.
 */
module ComprehensionGrading {
  import opened Wrappers
  import opened Collections
  import opened Types

  /**
   * `point.solutions.select(&:compre_keyword?).map { |s| keyword_solutions.include? s }.all?`:
   * every keyword Solution of the Point is credited to some token. A Point
   * with no keyword Solution satisfies it without any credit.
   */
  predicate KeywordsAllFound(p: Point, keyword: seq<Option<CompreSolution>>) {
    forall i :: 0 <= i < |p.solutions| && p.solutions[i].kind == CompreKeyword ==> Some(p.solutions[i]) in keyword
  }

  /** The Point was not lifted and all its keywords were expressed. */
  predicate PointEarned(p: Point, lifted: seq<Option<PointId>>, keyword: seq<Option<CompreSolution>>) {
    Some(p.id) !in lifted && KeywordsAllFound(p, keyword)
  }

  /**
   * Line 272's `all?` is vacuous for a Point without keyword Solutions: such a
   * Point earns its grade exactly when it is not lifted, whatever was credited.
   */
  lemma PointWithoutKeywordsEarned(p: Point, lifted: seq<Option<PointId>>, keyword: seq<Option<CompreSolution>>)
    requires forall i :: 0 <= i < |p.solutions| ==> p.solutions[i].kind != CompreKeyword
    ensures PointEarned(p, lifted, keyword) <==> Some(p.id) !in lifted
  {
  }

  /** The uncapped sum of the grades of the earned Points. */
  function PointsGrade(points: seq<Point>, lifted: seq<Option<PointId>>, keyword: seq<Option<CompreSolution>>): int
  {
    if points == [] then 0
    else
      var p := points[|points| - 1];
      PointsGrade(points[..|points| - 1], lifted, keyword) + (if PointEarned(p, lifted, keyword) then p.pointGrade else 0)
  }

  /** A group's grade: its Points' sum, capped at `maximum_group_grade`. */
  function GroupGrade(g: Group, lifted: seq<Option<PointId>>, keyword: seq<Option<CompreSolution>>): int {
    Min(PointsGrade(g.points, lifted, keyword), g.maximumGroupGrade)
  }

  /** The uncapped sum of the groups' grades. */
  function GroupsGrade(groups: seq<Group>, lifted: seq<Option<PointId>>, keyword: seq<Option<CompreSolution>>): int
  {
    if groups == [] then 0
    else GroupsGrade(groups[..|groups| - 1], lifted, keyword) + GroupGrade(groups[|groups| - 1], lifted, keyword)
  }

  /** The question's grade: the groups' sum, capped at `maximum_grade`. */
  function ComprehensionGrade(groups: seq<Group>, maximumGrade: int,
                              lifted: seq<Option<PointId>>, keyword: seq<Option<CompreSolution>>): int {
    Min(GroupsGrade(groups, lifted, keyword), maximumGrade)
  }

  /** `correctness_for_comprehension`. */
  predicate CorrectnessForComprehension(maximumGrade: int, grade: int) {
    grade >= maximumGrade
  }

  /** Every group maximum and every point grade is non-negative. */
  predicate NonNegativeGrades(groups: seq<Group>) {
    forall i :: 0 <= i < |groups| ==>
      (groups[i].maximumGroupGrade >= 0 && forall j :: 0 <= j < |groups[i].points| ==> groups[i].points[j].pointGrade >= 0)
  }

  lemma {:induction false} PointsGradeNonNegative(points: seq<Point>, lifted: seq<Option<PointId>>, keyword: seq<Option<CompreSolution>>)
    requires forall j :: 0 <= j < |points| ==> points[j].pointGrade >= 0
    ensures PointsGrade(points, lifted, keyword) >= 0
  {
    if points != [] {
      PointsGradeNonNegative(points[..|points| - 1], lifted, keyword);
    }
  }

  lemma {:induction false} GroupsGradeBounds(groups: seq<Group>, lifted: seq<Option<PointId>>, keyword: seq<Option<CompreSolution>>)
    requires NonNegativeGrades(groups)
    ensures GroupsGrade(groups, lifted, keyword) >= 0
  {
    if groups != [] {
      var front := groups[..|groups| - 1];
      assert NonNegativeGrades(front) by {
        forall i | 0 <= i < |front| ensures front[i] == groups[i] { }
      }
      GroupsGradeBounds(front, lifted, keyword);
      var g := groups[|groups| - 1];
      PointsGradeNonNegative(g.points, lifted, keyword);
    }
  }

  /**
   * With non-negative authored grades the grade lies between 0 and
   * `maximum_grade`, and every group contributes between 0 and its own maximum.
   */
  lemma ComprehensionGradeBounds(groups: seq<Group>, maximumGrade: int,
                                 lifted: seq<Option<PointId>>, keyword: seq<Option<CompreSolution>>)
    requires maximumGrade >= 0 && NonNegativeGrades(groups)
    ensures 0 <= ComprehensionGrade(groups, maximumGrade, lifted, keyword) <= maximumGrade
    ensures forall i :: 0 <= i < |groups| ==> 0 <= GroupGrade(groups[i], lifted, keyword) <= groups[i].maximumGroupGrade
  {
    GroupsGradeBounds(groups, lifted, keyword);
    forall i | 0 <= i < |groups| ensures 0 <= GroupGrade(groups[i], lifted, keyword) {
      PointsGradeNonNegative(groups[i].points, lifted, keyword);
    }
  }

  /** Pass outcome `(lifted2, keyword2)` is at least as good as `(lifted1, keyword1)`: it lifts no more Points and credits no fewer Solutions. */
  predicate NoWorse(lifted1: seq<Option<PointId>>, keyword1: seq<Option<CompreSolution>>,
                    lifted2: seq<Option<PointId>>, keyword2: seq<Option<CompreSolution>>) {
    && (forall i :: 0 <= i < |lifted2| && lifted2[i].Some? ==> lifted2[i] in lifted1)
    && (forall i :: 0 <= i < |keyword1| && keyword1[i].Some? ==> keyword1[i] in keyword2)
  }

  lemma {:induction false} PointsGradeMonotone(points: seq<Point>,
                                               lifted1: seq<Option<PointId>>, keyword1: seq<Option<CompreSolution>>,
                                               lifted2: seq<Option<PointId>>, keyword2: seq<Option<CompreSolution>>)
    requires forall j :: 0 <= j < |points| ==> points[j].pointGrade >= 0
    requires NoWorse(lifted1, keyword1, lifted2, keyword2)
    ensures PointsGrade(points, lifted1, keyword1) <= PointsGrade(points, lifted2, keyword2)
  {
    if points != [] {
      PointsGradeMonotone(points[..|points| - 1], lifted1, keyword1, lifted2, keyword2);
      var p := points[|points| - 1];
      if PointEarned(p, lifted1, keyword1) {
        assert KeywordsAllFound(p, keyword2) by {
          forall i | 0 <= i < |p.solutions| && p.solutions[i].kind == CompreKeyword
            ensures Some(p.solutions[i]) in keyword2
          {
            var j :| 0 <= j < |keyword1| && keyword1[j] == Some(p.solutions[i]);
          }
        }
      }
    }
  }

  lemma {:induction false} GroupsGradeMonotone(groups: seq<Group>,
                                               lifted1: seq<Option<PointId>>, keyword1: seq<Option<CompreSolution>>,
                                               lifted2: seq<Option<PointId>>, keyword2: seq<Option<CompreSolution>>)
    requires NonNegativeGrades(groups)
    requires NoWorse(lifted1, keyword1, lifted2, keyword2)
    ensures GroupsGrade(groups, lifted1, keyword1) <= GroupsGrade(groups, lifted2, keyword2)
  {
    if groups != [] {
      var front := groups[..|groups| - 1];
      assert NonNegativeGrades(front) by {
        forall i | 0 <= i < |front| ensures front[i] == groups[i] { }
      }
      GroupsGradeMonotone(front, lifted1, keyword1, lifted2, keyword2);
      PointsGradeMonotone(groups[|groups| - 1].points, lifted1, keyword1, lifted2, keyword2);
    }
  }

  /**
   * Lifting fewer words or expressing more keywords never lowers the grade:
   * the grade is monotone in the answer's matches.
   */
  lemma ComprehensionGradeMonotone(groups: seq<Group>, maximumGrade: int,
                                   lifted1: seq<Option<PointId>>, keyword1: seq<Option<CompreSolution>>,
                                   lifted2: seq<Option<PointId>>, keyword2: seq<Option<CompreSolution>>)
    requires NonNegativeGrades(groups)
    requires NoWorse(lifted1, keyword1, lifted2, keyword2)
    ensures ComprehensionGrade(groups, maximumGrade, lifted1, keyword1)
         <= ComprehensionGrade(groups, maximumGrade, lifted2, keyword2)
  {
    GroupsGradeMonotone(groups, lifted1, keyword1, lifted2, keyword2);
  }

  lemma {:induction false} PointsGradeAllLifted(points: seq<Point>, lifted: seq<Option<PointId>>, keyword: seq<Option<CompreSolution>>)
    requires forall j :: 0 <= j < |points| ==> Some(points[j].id) in lifted
    ensures PointsGrade(points, lifted, keyword) == 0
  {
    if points != [] {
      PointsGradeAllLifted(points[..|points| - 1], lifted, keyword);
    }
  }

  lemma {:induction false} GroupsGradeAllLifted(groups: seq<Group>, lifted: seq<Option<PointId>>, keyword: seq<Option<CompreSolution>>)
    requires forall i, j :: 0 <= i < |groups| && 0 <= j < |groups[i].points| ==> Some(groups[i].points[j].id) in lifted
    requires forall i :: 0 <= i < |groups| ==> groups[i].maximumGroupGrade >= 0
    ensures GroupsGrade(groups, lifted, keyword) == 0
  {
    if groups != [] {
      var front := groups[..|groups| - 1];
      forall i | 0 <= i < |front| ensures front[i] == groups[i] { }
      GroupsGradeAllLifted(front, lifted, keyword);
      PointsGradeAllLifted(groups[|groups| - 1].points, lifted, keyword);
    }
  }

  /** An answer that lifts a word of every Point scores 0, whatever keywords it also shows. */
  lemma AllPointsLiftedGradesZero(groups: seq<Group>, maximumGrade: int,
                                  lifted: seq<Option<PointId>>, keyword: seq<Option<CompreSolution>>)
    requires maximumGrade >= 0
    requires forall i :: 0 <= i < |groups| ==> groups[i].maximumGroupGrade >= 0
    requires forall i, j :: 0 <= i < |groups| && 0 <= j < |groups[i].points| ==> Some(groups[i].points[j].id) in lifted
    ensures ComprehensionGrade(groups, maximumGrade, lifted, keyword) == 0
  {
    GroupsGradeAllLifted(groups, lifted, keyword);
  }

  /** The answer is correct exactly when the uncapped group total reaches `maximum_grade`. */
  lemma CorrectExactlyWhenTotalReachesMaximum(groups: seq<Group>, maximumGrade: int,
                                              lifted: seq<Option<PointId>>, keyword: seq<Option<CompreSolution>>)
    ensures CorrectnessForComprehension(maximumGrade, ComprehensionGrade(groups, maximumGrade, lifted, keyword))
        <==> GroupsGrade(groups, lifted, keyword) >= maximumGrade
  {
  }

  /** `grade_for_comprehension`, reading the two status arrays the passes filled. */
  method GradeForComprehension(groups: seq<Group>, maximumGrade: int,
                               lifted: array<Option<PointId>>, keyword: array<Option<CompreSolution>>)
    returns (grade: int)
    ensures grade == ComprehensionGrade(groups, maximumGrade, lifted[..], keyword[..])
  {
    grade := 0;
    var gi := 0;
    while gi < |groups|
      invariant 0 <= gi <= |groups|
      invariant grade == GroupsGrade(groups[..gi], lifted[..], keyword[..])
    {
      var group := groups[gi];
      var groupGrade := 0;
      var pi := 0;
      while pi < |group.points|
        invariant 0 <= pi <= |group.points|
        invariant groupGrade == PointsGrade(group.points[..pi], lifted[..], keyword[..])
      {
        var point := group.points[pi];
        assert group.points[..pi + 1][..pi] == group.points[..pi];
        if Some(point.id) !in lifted[..] {
          var solutionsFound := KeywordsAllFound(point, keyword[..]);
          if solutionsFound {
            groupGrade := groupGrade + point.pointGrade;
          }
        }
        pi := pi + 1;
      }
      assert group.points[..pi] == group.points;
      assert groups[..gi + 1][..gi] == groups[..gi];
      grade := grade + Min(groupGrade, group.maximumGroupGrade);
      gi := gi + 1;
    }
    assert groups[..gi] == groups;
    grade := Min(grade, maximumGrade);
  }
}
