/**
 * `Course::Assessment::Question::TextResponseGroup`: the group-grade validator,
 * the auto-gradability predicate and the `group_weight` ordering of the
 * default scope.
 */
module TextResponseGroup {
  import opened Types

  /** `validate_group_grade`: the errors it adds for a group of a question with cap `maximumGrade`. */
  function ValidateGroupGrade(g: Group, maximumGrade: int): (errors: seq<ValidationError>)
    ensures errors == [] || errors == [InvalidGroupGrade]
    ensures errors == [InvalidGroupGrade] <==> g.maximumGroupGrade > maximumGrade
  {
    if g.maximumGroupGrade > maximumGrade then [InvalidGroupGrade] else []
  }

  /**
   * `auto_gradable_group?`: some point of the group is auto-gradable.
   * `TextResponsePoint#auto_gradable_point?` is not part of this model and is
   * passed in as `pointGradable`.
   */
  function AutoGradableGroup(g: Group, pointGradable: Point -> bool): (r: bool)
    ensures r <==> exists i :: 0 <= i < |g.points| && pointGradable(g.points[i])
  {
    AnyGradable(g.points, pointGradable)
  }

  function AnyGradable(points: seq<Point>, pointGradable: Point -> bool): (r: bool)
    ensures r <==> exists i :: 0 <= i < |points| && pointGradable(points[i])
  {
    if points == [] then false
    else pointGradable(points[0]) || AnyGradable(points[1..], pointGradable)
  }

  /** A group with no points is never auto-gradable (`any?` of nothing is false). */
  lemma EmptyGroupNotGradable(g: Group, pointGradable: Point -> bool)
    requires g.points == []
    ensures !AutoGradableGroup(g, pointGradable)
  {
  }

  predicate SortedByWeight(gs: seq<Group>) {
    forall i, j :: 0 <= i < j < |gs| ==> gs[i].groupWeight <= gs[j].groupWeight
  }

  /** Insert `g` before the first group whose weight is not smaller than its own. */
  function InsertByWeight(g: Group, gs: seq<Group>): (r: seq<Group>)
    ensures |r| == |gs| + 1
    ensures multiset(r) == multiset(gs) + multiset{g}
  {
    if gs == [] then [g]
    else if g.groupWeight <= gs[0].groupWeight then
      assert gs == [gs[0]] + gs[1..];
      [g] + gs
    else
      assert gs == [gs[0]] + gs[1..];
      [gs[0]] + InsertByWeight(g, gs[1..])
  }

  /** A lower bound on the weights of `g` and of `gs` bounds every weight after the insertion. */
  lemma {:induction false} InsertByWeightAbove(g: Group, gs: seq<Group>, w: int)
    requires w <= g.groupWeight
    requires forall i :: 0 <= i < |gs| ==> w <= gs[i].groupWeight
    ensures forall k :: 0 <= k < |gs| + 1 ==> w <= InsertByWeight(g, gs)[k].groupWeight
  {
    if gs != [] && g.groupWeight > gs[0].groupWeight {
      InsertByWeightAbove(g, gs[1..], w);
    }
  }

  /** Inserting into groups sorted by weight leaves them sorted. */
  lemma {:induction false} InsertByWeightSorted(g: Group, gs: seq<Group>)
    requires SortedByWeight(gs)
    ensures SortedByWeight(InsertByWeight(g, gs))
  {
    if gs != [] && g.groupWeight > gs[0].groupWeight {
      var tail := gs[1..];
      assert SortedByWeight(tail);
      InsertByWeightSorted(g, tail);
      InsertByWeightAbove(g, tail, gs[0].groupWeight);
      var rest := InsertByWeight(g, tail);
      var r := [gs[0]] + rest;
      assert r == InsertByWeight(g, gs);
      forall i, j | 0 <= i < j < |r| ensures r[i].groupWeight <= r[j].groupWeight {
        assert r[j] == rest[j - 1];
        if i > 0 {
          assert r[i] == rest[i - 1];
        }
      }
    }
  }

  /**
   * `default_scope { order(group_weight: :asc) }`: the groups in ascending
   * weight; groups of equal weight keep their stored order.
   */
  function OrderedGroups(gs: seq<Group>): (r: seq<Group>)
  {
    if gs == [] then [] else InsertByWeight(gs[0], OrderedGroups(gs[1..]))
  }

  /** The ordering is ascending in weight and holds exactly the stored groups. */
  lemma {:induction false} OrderedGroupsSpec(gs: seq<Group>)
    ensures SortedByWeight(OrderedGroups(gs))
    ensures multiset(OrderedGroups(gs)) == multiset(gs)
    ensures |OrderedGroups(gs)| == |gs|
  {
    if gs != [] {
      OrderedGroupsSpec(gs[1..]);
      InsertByWeightSorted(gs[0], OrderedGroups(gs[1..]));
      assert gs == [gs[0]] + gs[1..];
    }
  }

  /** Groups already in weight order are read in their stored order. */
  lemma {:induction false} OrderedGroupsOfSorted(gs: seq<Group>)
    requires SortedByWeight(gs)
    ensures OrderedGroups(gs) == gs
  {
    if gs != [] {
      assert SortedByWeight(gs[1..]);
      OrderedGroupsOfSorted(gs[1..]);
    }
  }
}
