/**
 * `hash_compre_lifted_word` and `hash_compre_keyword`: the lemma-keyed indices
 * built from a comprehension question's groups, points and solutions, walked in
 * that nesting order.
 */
module LemmaIndex {
  import opened Collections
  import opened Types

  type LiftedIndex = map<string, seq<PointId>>
  type KeywordIndex = map<string, seq<CompreSolution>>

  /** The (lemma, point id) entries one lifted-word solution of `p` contributes. */
  function LiftedEntries(p: Point, s: CompreSolution): (r: seq<(string, PointId)>)
    ensures s.kind == LiftedWord ==>
              |r| == |s.solutionLemma| && forall i :: 0 <= i < |r| ==> r[i] == (s.solutionLemma[i], p.id)
    ensures s.kind != LiftedWord ==> r == []
  {
    if s.kind == LiftedWord then
      seq(|s.solutionLemma|, i requires 0 <= i < |s.solutionLemma| => (s.solutionLemma[i], p.id))
    else []
  }

  /** The (lemma, solution) entries one keyword solution contributes. */
  function KeywordEntries(p: Point, s: CompreSolution): (r: seq<(string, CompreSolution)>)
    ensures s.kind == CompreKeyword ==>
              |r| == |s.solutionLemma| && forall i :: 0 <= i < |r| ==> r[i] == (s.solutionLemma[i], s)
    ensures s.kind != CompreKeyword ==> r == []
  {
    if s.kind == CompreKeyword then
      seq(|s.solutionLemma|, i requires 0 <= i < |s.solutionLemma| => (s.solutionLemma[i], s))
    else []
  }

  /** The entries of a point's solutions, in order. */
  function SolutionPairs<V>(p: Point, sols: seq<CompreSolution>, f: (Point, CompreSolution) -> seq<(string, V)>)
    : seq<(string, V)>
  {
    if sols == [] then [] else SolutionPairs(p, sols[..|sols| - 1], f) + f(p, sols[|sols| - 1])
  }

  /** The entries of a sequence of points, in order. */
  function PointPairs<V>(points: seq<Point>, f: (Point, CompreSolution) -> seq<(string, V)>): seq<(string, V)>
  {
    if points == [] then []
    else PointPairs(points[..|points| - 1], f) + SolutionPairs(points[|points| - 1], points[|points| - 1].solutions, f)
  }

  /** The entries of a sequence of groups: group, then point, then solution, then lemma order. */
  function GroupPairs<V>(groups: seq<Group>, f: (Point, CompreSolution) -> seq<(string, V)>): seq<(string, V)>
  {
    if groups == [] then []
    else GroupPairs(groups[..|groups| - 1], f) + PointPairs(groups[|groups| - 1].points, f)
  }

  function Singletons<K, V>(m: map<K, V>): (r: map<K, seq<V>>)
    ensures r.Keys == m.Keys
    ensures forall k :: k in m ==> r[k] == [m[k]]
  {
    map k | k in m :: [m[k]]
  }

  /**
   * The lifted-word index as line 149 builds it. `hash.key(solution_key)` is a
   * reverse lookup BY VALUE; every value is an array of Points and never equals
   * the lemma string, so the else branch always runs and each lemma ends up
   * bound to a one-element list: the last Point, in walking order, carrying it.
   */
  function LiftedIndexOf(groups: seq<Group>): LiftedIndex {
    Singletons(ToHash(GroupPairs(groups, LiftedEntries)))
  }

  /** One step of lines 176-181: append `s` to the lemma's list unless it is there already. */
  function KeywordInsert(h: KeywordIndex, key: string, s: CompreSolution): KeywordIndex {
    if key in h then (if s in h[key] then h else h[key := h[key] + [s]])
    else h[key := [s]]
  }

  function KeywordInsertAll(h: KeywordIndex, pairs: seq<(string, CompreSolution)>): KeywordIndex {
    if pairs == [] then h
    else
      var last := pairs[|pairs| - 1];
      KeywordInsert(KeywordInsertAll(h, pairs[..|pairs| - 1]), last.0, last.1)
  }

  function KeywordIndexOf(groups: seq<Group>): KeywordIndex {
    KeywordInsertAll(map[], GroupPairs(groups, KeywordEntries))
  }

  /** The values paired with `key`, in order. */
  function ValuesFor<V>(pairs: seq<(string, V)>, key: string): seq<V> {
    if pairs == [] then []
    else
      var rest := ValuesFor(pairs[..|pairs| - 1], key);
      if pairs[|pairs| - 1].0 == key then rest + [pairs[|pairs| - 1].1] else rest
  }

  lemma {:induction false} ValuesForEmpty<V>(pairs: seq<(string, V)>, key: string)
    ensures ValuesFor(pairs, key) == [] <==> forall j :: 0 <= j < |pairs| ==> pairs[j].0 != key
  {
    if pairs != [] {
      ValuesForEmpty(pairs[..|pairs| - 1], key);
    }
  }

  // ---------------------------------------------------------------------------
  // What the indices hold

  /**
   * Lifted index (as written): a lemma is a key exactly when some lifted-word
   * solution carries it, and its list holds ONLY the last Point carrying it.
   */
  lemma LiftedIndexHoldsLastPoint(groups: seq<Group>, key: string)
    ensures var pairs := GroupPairs(groups, LiftedEntries);
      && (key in LiftedIndexOf(groups) <==> exists j :: 0 <= j < |pairs| && pairs[j].0 == key)
      && (key in LiftedIndexOf(groups) ==>
            exists j :: 0 <= j < |pairs| && pairs[j].0 == key
              && LiftedIndexOf(groups)[key] == [pairs[j].1]
              && forall j' :: j < j' < |pairs| ==> pairs[j'].0 != key)
  {
    var pairs := GroupPairs(groups, LiftedEntries);
    ToHashLastWins(pairs, key);
    assert key in LiftedIndexOf(groups) <==> key in ToHash(pairs);
    if key in ToHash(pairs) {
      var j :| 0 <= j < |pairs| && pairs[j].0 == key && ToHash(pairs)[key] == pairs[j].1
               && forall j' :: j < j' < |pairs| ==> pairs[j'].0 != key;
      assert LiftedIndexOf(groups)[key] == [pairs[j].1];
    }
  }

  /** Keyword insertion: a lemma is a key exactly when some pair carries it, and its list is the values paired with it, each once in order of first appearance. */
  lemma KeywordInsertAllSpec(pairs: seq<(string, CompreSolution)>, key: string)
    ensures key in KeywordInsertAll(map[], pairs) <==> exists j :: 0 <= j < |pairs| && pairs[j].0 == key
    ensures key in KeywordInsertAll(map[], pairs) ==>
      KeywordInsertAll(map[], pairs)[key] == Dedup(ValuesFor(pairs, key))
  {
    KeywordInsertAllKeys(pairs, key);
    KeywordInsertAllValues(pairs, key);
    ValuesForEmpty(pairs, key);
  }

  /** A lemma is a key once some pair carries it. */
  lemma {:induction false} KeywordInsertAllKeys(pairs: seq<(string, CompreSolution)>, key: string)
    ensures key in KeywordInsertAll(map[], pairs) <==> ValuesFor(pairs, key) != []
  {
    if pairs != [] {
      KeywordInsertAllKeys(pairs[..|pairs| - 1], key);
    }
  }

  /** The list under a key is the values paired with it, first appearances only. */
  lemma {:induction false} KeywordInsertAllValues(pairs: seq<(string, CompreSolution)>, key: string)
    ensures key in KeywordInsertAll(map[], pairs) ==>
      KeywordInsertAll(map[], pairs)[key] == Dedup(ValuesFor(pairs, key))
  {
    if pairs != [] {
      var front := pairs[..|pairs| - 1];
      var last := pairs[|pairs| - 1];
      KeywordInsertAllValues(front, key);
      if last.0 == key {
        KeywordInsertAllKeys(front, key);
        var rest := ValuesFor(front, key);
        assert (rest + [last.1])[..|rest|] == rest;
        if rest == [] {
          assert Dedup([last.1]) == [last.1] by {
            assert [last.1][..0] == [];
          }
        }
      }
    }
  }

  /**
   * Keyword index: a lemma is a key exactly when some keyword solution carries
   * it; its list holds each such solution once, in walking order of first
   * appearance.
   */
  lemma KeywordIndexHoldsSolutions(groups: seq<Group>, key: string)
    ensures var pairs := GroupPairs(groups, KeywordEntries);
      && (key in KeywordIndexOf(groups) <==> exists j :: 0 <= j < |pairs| && pairs[j].0 == key)
      && (key in KeywordIndexOf(groups) ==>
            && KeywordIndexOf(groups)[key] == Dedup(ValuesFor(pairs, key))
            && NoDuplicates(KeywordIndexOf(groups)[key]))
  {
    var pairs := GroupPairs(groups, KeywordEntries);
    KeywordInsertAllSpec(pairs, key);
    DedupSpec(ValuesFor(pairs, key));
  }

  // ---------------------------------------------------------------------------
  // The flattened entries are exactly the entries of the tree

  lemma {:induction false} SolutionPairsMembers<V>(p: Point, sols: seq<CompreSolution>,
                                                   f: (Point, CompreSolution) -> seq<(string, V)>, x: (string, V))
    ensures x in SolutionPairs(p, sols, f) <==> exists k :: 0 <= k < |sols| && x in f(p, sols[k])
  {
    if sols != [] {
      var front := sols[..|sols| - 1];
      SolutionPairsMembers(p, front, f, x);
      if exists k :: 0 <= k < |sols| && x in f(p, sols[k]) {
        var k :| 0 <= k < |sols| && x in f(p, sols[k]);
        if k < |front| { assert front[k] == sols[k]; }
      }
      if exists k :: 0 <= k < |front| && x in f(p, front[k]) {
        var k :| 0 <= k < |front| && x in f(p, front[k]);
        assert sols[k] == front[k];
      }
    }
  }

  /** An entry is in a point walk exactly when the solutions of one of the points produce it. */
  lemma {:induction false} PointPairsMembers<V>(points: seq<Point>,
                                                f: (Point, CompreSolution) -> seq<(string, V)>, x: (string, V))
    ensures x in PointPairs(points, f) <==>
      exists j :: 0 <= j < |points| && x in SolutionPairs(points[j], points[j].solutions, f)
  {
    if points != [] {
      var front := points[..|points| - 1];
      var last := points[|points| - 1];
      PointPairsMembers(front, f, x);
      assert PointPairs(points, f) == PointPairs(front, f) + SolutionPairs(last, last.solutions, f);
      assert forall j :: 0 <= j < |front| ==> front[j] == points[j];
    }
  }

  /**
   * An entry is in the walk exactly when the points of one of the groups
   * produce it; with `PointPairsMembers` and `SolutionPairsMembers`, exactly
   * when some solution of some point of some group produces it.
   */
  lemma {:induction false} GroupPairsMembers<V>(groups: seq<Group>,
                                                f: (Point, CompreSolution) -> seq<(string, V)>, x: (string, V))
    ensures x in GroupPairs(groups, f) <==> exists i :: 0 <= i < |groups| && x in PointPairs(groups[i].points, f)
  {
    if groups != [] {
      var front := groups[..|groups| - 1];
      GroupPairsMembers(front, f, x);
      assert GroupPairs(groups, f) == GroupPairs(front, f) + PointPairs(groups[|groups| - 1].points, f);
      assert forall i :: 0 <= i < |front| ==> front[i] == groups[i];
    }
  }

  // ---------------------------------------------------------------------------
  // The builders, as the source writes them: nested loops updating a hash

  lemma AppendAssociative<T>(a: seq<T>, b: seq<T>, c: seq<T>)
    ensures (a + b) + c == a + (b + c)
  {
  }

  /** Walking one more solution appends that solution's entries. */
  lemma SolutionPairsSnoc<V>(p: Point, sols: seq<CompreSolution>, k: nat, f: (Point, CompreSolution) -> seq<(string, V)>)
    requires k < |sols|
    ensures SolutionPairs(p, sols[..k + 1], f) == SolutionPairs(p, sols[..k], f) + f(p, sols[k])
  {
    assert sols[..k + 1][..k] == sols[..k];
  }

  /** Walking one more point appends that point's entries. */
  lemma PointPairsSnoc<V>(points: seq<Point>, j: nat, f: (Point, CompreSolution) -> seq<(string, V)>)
    requires j < |points|
    ensures PointPairs(points[..j + 1], f) == PointPairs(points[..j], f) + SolutionPairs(points[j], points[j].solutions, f)
  {
    assert points[..j + 1][..j] == points[..j];
  }

  /** `hash_compre_lifted_word`: the walk over groups. */
  method HashCompreLiftedWord(groups: seq<Group>) returns (hash: LiftedIndex)
    ensures hash == LiftedIndexOf(groups)
  {
    hash := map[];
    var i := 0;
    while i < |groups|
      invariant 0 <= i <= |groups|
      invariant hash == Singletons(ToHash(GroupPairs(groups[..i], LiftedEntries)))
    {
      hash := AddLiftedPoints(hash, GroupPairs(groups[..i], LiftedEntries), groups[i].points);
      assert groups[..i + 1][..i] == groups[..i];
      i := i + 1;
    }
    assert groups[..i] == groups;
  }

  /** `group.points.each` of `hash_compre_lifted_word`. */
  method AddLiftedPoints(hash0: LiftedIndex, ghost done: seq<(string, PointId)>, points: seq<Point>)
    returns (hash: LiftedIndex)
    requires hash0 == Singletons(ToHash(done))
    ensures hash == Singletons(ToHash(done + PointPairs(points, LiftedEntries)))
  {
    hash := hash0;
    var j := 0;
    ghost var acc := done;
    assert points[..0] == [] && done + [] == done;
    while j < |points|
      invariant 0 <= j <= |points|
      invariant acc == done + PointPairs(points[..j], LiftedEntries)
      invariant hash == Singletons(ToHash(acc))
    {
      var point := points[j];
      ghost var next := acc + SolutionPairs(point, point.solutions, LiftedEntries);
      hash := AddLiftedSolutions(hash, acc, point);
      PointPairsSnoc(points, j, LiftedEntries);
      AppendAssociative(done, PointPairs(points[..j], LiftedEntries), SolutionPairs(point, point.solutions, LiftedEntries));
      acc := next;
      j := j + 1;
    }
    assert points[..j] == points;
  }

  /** `point.solutions.select(&:compre_lifted_word?).each` of `hash_compre_lifted_word`. */
  method AddLiftedSolutions(hash0: LiftedIndex, ghost done: seq<(string, PointId)>, point: Point)
    returns (hash: LiftedIndex)
    requires hash0 == Singletons(ToHash(done))
    ensures hash == Singletons(ToHash(done + SolutionPairs(point, point.solutions, LiftedEntries)))
  {
    hash := hash0;
    var k := 0;
    ghost var acc := done;
    assert point.solutions[..0] == [] && done + [] == done;
    while k < |point.solutions|
      invariant 0 <= k <= |point.solutions|
      invariant acc == done + SolutionPairs(point, point.solutions[..k], LiftedEntries)
      invariant hash == Singletons(ToHash(acc))
    {
      var s := point.solutions[k];
      if s.kind == LiftedWord {
        hash := AddLiftedLemmas(hash, acc, point, s);
      } else {
        assert acc + LiftedEntries(point, s) == acc;
      }
      SolutionPairsSnoc(point, point.solutions, k, LiftedEntries);
      AppendAssociative(done, SolutionPairs(point, point.solutions[..k], LiftedEntries), LiftedEntries(point, s));
      acc := acc + LiftedEntries(point, s);
      k := k + 1;
    }
    assert point.solutions[..k] == point.solutions;
  }

  /** `s.solution_lemma.each` of `hash_compre_lifted_word`. */
  method AddLiftedLemmas(hash0: LiftedIndex, ghost done: seq<(string, PointId)>, point: Point, s: CompreSolution)
    returns (hash: LiftedIndex)
    requires s.kind == LiftedWord
    requires hash0 == Singletons(ToHash(done))
    ensures hash == Singletons(ToHash(done + LiftedEntries(point, s)))
  {
    hash := hash0;
    var l := 0;
    ghost var acc := done;
    assert LiftedEntries(point, s)[..0] == [] && done + [] == done;
    while l < |s.solutionLemma|
      invariant 0 <= l <= |s.solutionLemma|
      invariant acc == done + LiftedEntries(point, s)[..l]
      invariant hash == Singletons(ToHash(acc))
    {
      var solutionKey := s.solutionLemma[l];
      ToHashAppend(acc, solutionKey, point.id);
      // `hash.key solution_key` is never truthy: the else branch of line 149 runs
      hash := hash[solutionKey := [point.id]];
      assert LiftedEntries(point, s)[..l + 1] == LiftedEntries(point, s)[..l] + [(solutionKey, point.id)];
      AppendAssociative(done, LiftedEntries(point, s)[..l], [(solutionKey, point.id)]);
      acc := acc + [(solutionKey, point.id)];
      l := l + 1;
    }
    assert LiftedEntries(point, s)[..l] == LiftedEntries(point, s);
  }

  /** `hash_compre_keyword`: the walk over groups. */
  method HashCompreKeyword(groups: seq<Group>) returns (hash: KeywordIndex)
    ensures hash == KeywordIndexOf(groups)
  {
    hash := map[];
    var i := 0;
    while i < |groups|
      invariant 0 <= i <= |groups|
      invariant hash == KeywordInsertAll(map[], GroupPairs(groups[..i], KeywordEntries))
    {
      hash := AddKeywordPoints(hash, GroupPairs(groups[..i], KeywordEntries), groups[i].points);
      assert groups[..i + 1][..i] == groups[..i];
      i := i + 1;
    }
    assert groups[..i] == groups;
  }

  /** `group.points.each` of `hash_compre_keyword`. */
  method AddKeywordPoints(hash0: KeywordIndex, ghost done: seq<(string, CompreSolution)>, points: seq<Point>)
    returns (hash: KeywordIndex)
    requires hash0 == KeywordInsertAll(map[], done)
    ensures hash == KeywordInsertAll(map[], done + PointPairs(points, KeywordEntries))
  {
    hash := hash0;
    var j := 0;
    ghost var acc := done;
    assert points[..0] == [] && done + [] == done;
    while j < |points|
      invariant 0 <= j <= |points|
      invariant acc == done + PointPairs(points[..j], KeywordEntries)
      invariant hash == KeywordInsertAll(map[], acc)
    {
      var point := points[j];
      ghost var next := acc + SolutionPairs(point, point.solutions, KeywordEntries);
      hash := AddKeywordSolutions(hash, acc, point);
      PointPairsSnoc(points, j, KeywordEntries);
      AppendAssociative(done, PointPairs(points[..j], KeywordEntries), SolutionPairs(point, point.solutions, KeywordEntries));
      acc := next;
      j := j + 1;
    }
    assert points[..j] == points;
  }

  /** `point.solutions.select(&:compre_keyword?).each` of `hash_compre_keyword`. */
  method AddKeywordSolutions(hash0: KeywordIndex, ghost done: seq<(string, CompreSolution)>, point: Point)
    returns (hash: KeywordIndex)
    requires hash0 == KeywordInsertAll(map[], done)
    ensures hash == KeywordInsertAll(map[], done + SolutionPairs(point, point.solutions, KeywordEntries))
  {
    hash := hash0;
    var k := 0;
    ghost var acc := done;
    assert point.solutions[..0] == [] && done + [] == done;
    while k < |point.solutions|
      invariant 0 <= k <= |point.solutions|
      invariant acc == done + SolutionPairs(point, point.solutions[..k], KeywordEntries)
      invariant hash == KeywordInsertAll(map[], acc)
    {
      var s := point.solutions[k];
      if s.kind == CompreKeyword {
        hash := AddKeywordLemmas(hash, acc, point, s);
      } else {
        assert acc + KeywordEntries(point, s) == acc;
      }
      SolutionPairsSnoc(point, point.solutions, k, KeywordEntries);
      AppendAssociative(done, SolutionPairs(point, point.solutions[..k], KeywordEntries), KeywordEntries(point, s));
      acc := acc + KeywordEntries(point, s);
      k := k + 1;
    }
    assert point.solutions[..k] == point.solutions;
  }

  /** `s.solution_lemma.each` of `hash_compre_keyword`. */
  method AddKeywordLemmas(hash0: KeywordIndex, ghost done: seq<(string, CompreSolution)>, point: Point,
                          s: CompreSolution)
    returns (hash: KeywordIndex)
    requires s.kind == CompreKeyword
    requires hash0 == KeywordInsertAll(map[], done)
    ensures hash == KeywordInsertAll(map[], done + KeywordEntries(point, s))
  {
    hash := hash0;
    var l := 0;
    ghost var acc := done;
    assert KeywordEntries(point, s)[..0] == [] && done + [] == done;
    while l < |s.solutionLemma|
      invariant 0 <= l <= |s.solutionLemma|
      invariant acc == done + KeywordEntries(point, s)[..l]
      invariant hash == KeywordInsertAll(map[], acc)
    {
      var solutionKey := s.solutionLemma[l];
      assert (acc + [(solutionKey, s)])[..|acc|] == acc;
      if solutionKey in hash {
        var hashValue := hash[solutionKey];
        if s !in hashValue {
          hash := hash[solutionKey := hashValue + [s]];
        }
      } else {
        hash := hash[solutionKey := [s]];
      }
      assert KeywordEntries(point, s)[..l + 1] == KeywordEntries(point, s)[..l] + [(solutionKey, s)];
      AppendAssociative(done, KeywordEntries(point, s)[..l], [(solutionKey, s)]);
      acc := acc + [(solutionKey, s)];
      l := l + 1;
    }
    assert KeywordEntries(point, s)[..l] == KeywordEntries(point, s);
  }
}
