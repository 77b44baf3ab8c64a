/**
 * The two destructive scans of a comprehension answer:
 * `find_compre_lifted_word_in_answer` (lifted words claim Points) and
 * `find_compre_keyword_in_answer` (keywords claim Solutions whose Point was not
 * lifted). Both consume the shared index buckets, so each Point and each
 * Solution is claimed at most once.
 */
module ComprehensionMatcher {
  import opened Wrappers
  import opened Collections
  import opened Types
  import opened LemmaIndex

  // ---------------------------------------------------------------------------
  // Pass 1: lifted words

  /** One token of pass 1: claim the first Point of the lemma's bucket and drop it from every bucket. */
  function LiftedStep(word: string, hash: LiftedIndex): (r: (Option<PointId>, LiftedIndex))
  {
    if word in hash && hash[word] != [] then
      var firstPoint := hash[word][0];
      (Some(firstPoint), RemoveEverywhere(hash[word := hash[word][1..]], firstPoint))
    else (None, hash)
  }

  /** The lifted statuses of the first `n` tokens and the index left after them. */
  function LiftedPass(lemmas: seq<string>, hash: LiftedIndex, n: nat): (r: (seq<Option<PointId>>, LiftedIndex))
    requires n <= |lemmas|
    ensures |r.0| == n
  {
    if n == 0 then ([], hash)
    else
      var before := LiftedPass(lemmas, hash, n - 1);
      var step := LiftedStep(lemmas[n - 1], before.1);
      (before.0 + [step.0], step.1)
  }

  /** Buckets only lose elements. */
  predicate Shrunk<T(==)>(after: map<string, seq<T>>, before: map<string, seq<T>>) {
    && after.Keys == before.Keys
    && (forall k :: k in before ==> |after[k]| <= |before[k]|)
    && (forall k, i :: k in before && 0 <= i < |after[k]| ==> after[k][i] in before[k])
  }

  lemma ShrunkTransitive<T>(a: map<string, seq<T>>, b: map<string, seq<T>>, c: map<string, seq<T>>)
    requires Shrunk(a, b) && Shrunk(b, c)
    ensures Shrunk(a, c)
  {
    forall k, i | k in c && 0 <= i < |a[k]| ensures a[k][i] in c[k] {
      var j :| 0 <= j < |b[k]| && b[k][j] == a[k][i];
    }
  }

  lemma RemoveEverywhereShrinks<T>(h: map<string, seq<T>>, word: string, x: T)
    requires word in h && h[word] != []
    ensures Shrunk(RemoveEverywhere(h[word := h[word][1..]], x), h)
  {
    var t := h[word := h[word][1..]];
    var r := RemoveEverywhere(t, x);
    forall k, i | k in h && 0 <= i < |r[k]| ensures r[k][i] in h[k] {
      assert r[k][i] in t[k];
      if k == word {
        var j :| 0 <= j < |h[word][1..]| && h[word][1..][j] == r[k][i];
        assert h[word][j + 1] == r[k][i];
      }
    }
  }

  /** Every claim recorded in `status` names an element that is in no bucket of `rest`. */
  predicate ClaimsGone<T(==)>(status: seq<Option<T>>, rest: map<string, seq<T>>) {
    forall i, k :: 0 <= i < |status| && status[i].Some? && k in rest ==> status[i].value !in rest[k]
  }

  /** No element is claimed by two positions. */
  predicate ClaimsOnce<T(==)>(status: seq<Option<T>>) {
    forall i, j :: 0 <= i < j < |status| && status[i].Some? ==> status[i] != status[j]
  }

  /** Every claim at position `i` came from the bucket of `lemmas[i]`. */
  predicate ClaimsFromBuckets<T(==)>(lemmas: seq<string>, status: seq<Option<T>>, hash: map<string, seq<T>>)
    requires |status| <= |lemmas|
  {
    forall i :: 0 <= i < |status| && status[i].Some? ==> lemmas[i] in hash && status[i].value in hash[lemmas[i]]
  }

  /** Claims in `status` are gone from `rest`, which makes them gone from anything `rest` shrinks to. */
  lemma ClaimsGoneShrunk<T>(status: seq<Option<T>>, a: map<string, seq<T>>, b: map<string, seq<T>>)
    requires ClaimsGone(status, b) && Shrunk(a, b)
    ensures ClaimsGone(status, a)
  {
    forall i, k | 0 <= i < |status| && status[i].Some? && k in a ensures status[i].value !in a[k] {
    }
  }

  lemma ClaimsFromShrunk<T>(lemmas: seq<string>, status: seq<Option<T>>, a: map<string, seq<T>>, b: map<string, seq<T>>)
    requires |status| <= |lemmas|
    requires ClaimsFromBuckets(lemmas, status, a) && Shrunk(a, b)
    ensures ClaimsFromBuckets(lemmas, status, b)
  {
    forall i | 0 <= i < |status| && status[i].Some? ensures lemmas[i] in b && status[i].value in b[lemmas[i]] {
      var m :| 0 <= m < |a[lemmas[i]]| && a[lemmas[i]][m] == status[i].value;
      assert a[lemmas[i]][m] in b[lemmas[i]];
    }
  }

  /** Appending a claim taken from a bucket that has only shrunk keeps every claim traceable to its original bucket. */
  lemma AppendFromBucket<T>(lemmas: seq<string>, status: seq<Option<T>>, st: Option<T>, hash: map<string, seq<T>>, h: map<string, seq<T>>)
    requires |status| < |lemmas|
    requires ClaimsFromBuckets(lemmas, status, hash) && Shrunk(h, hash)
    requires st.Some? ==> lemmas[|status|] in h && st.value in h[lemmas[|status|]]
    ensures ClaimsFromBuckets(lemmas, status + [st], hash)
  {
    var s := status + [st];
    forall i | 0 <= i < |s| && s[i].Some? ensures lemmas[i] in hash && s[i].value in hash[lemmas[i]] {
      if i < |status| {
        assert s[i] == status[i];
      } else {
        var m :| 0 <= m < |h[lemmas[i]]| && h[lemmas[i]][m] == st.value;
        assert h[lemmas[i]][m] in hash[lemmas[i]];
      }
    }
  }

  /** Appending a claim that is absent from the current buckets keeps claims unique and gone. */
  lemma AppendClaim<T>(status: seq<Option<T>>, h: map<string, seq<T>>, st: Option<T>, rest: map<string, seq<T>>, word: string)
    requires ClaimsOnce(status) && ClaimsGone(status, h) && Shrunk(rest, h)
    requires st.Some? ==> word in h && st.value in h[word] && forall k :: k in rest ==> st.value !in rest[k]
    ensures ClaimsOnce(status + [st]) && ClaimsGone(status + [st], rest)
  {
    ClaimsGoneShrunk(status, rest, h);
    var s := status + [st];
    forall i, j | 0 <= i < j < |s| && s[i].Some? ensures s[i] != s[j] {
      if j == |status| && st.Some? {
        assert s[i] == status[i];
        assert status[i].value !in h[word];
      }
    }
    forall i, k | 0 <= i < |s| && s[i].Some? && k in rest ensures s[i].value !in rest[k] {
      if i < |status| {
        assert s[i] == status[i];
      }
    }
  }

  /** One step of pass 1 only shrinks buckets, and a claimed Point was first in the lemma's bucket and is gone afterwards. */
  lemma LiftedStepSpec(word: string, h: LiftedIndex)
    ensures var r := LiftedStep(word, h);
      && Shrunk(r.1, h)
      && (r.0.Some? ==> word in h && h[word] != [] && r.0.value == h[word][0]
                        && forall k :: k in r.1 ==> r.0.value !in r.1[k])
      && (forall k, q :: k in h && q in h[k] && q !in r.1[k] ==> r.0 == Some(q))
  {
    if word in h && h[word] != [] {
      var p := h[word][0];
      var rest := LiftedStep(word, h).1;
      RemoveEverywhereShrinks(h, word, p);
    }
  }

  /**
   * What pass 1 guarantees: buckets only shrink; a claimed Point was in the
   * bucket of the token's lemma and is in no bucket afterwards; no Point is
   * claimed by two tokens.
   */
  lemma {:induction false} LiftedPassSpec(lemmas: seq<string>, hash: LiftedIndex, n: nat)
    requires n <= |lemmas|
    ensures Shrunk(LiftedPass(lemmas, hash, n).1, hash)
    ensures ClaimsFromBuckets(lemmas, LiftedPass(lemmas, hash, n).0, hash)
    ensures ClaimsGone(LiftedPass(lemmas, hash, n).0, LiftedPass(lemmas, hash, n).1)
    ensures ClaimsOnce(LiftedPass(lemmas, hash, n).0)
  {
    if n > 0 {
      LiftedPassSpec(lemmas, hash, n - 1);
      var before := LiftedPass(lemmas, hash, n - 1);
      var word := lemmas[n - 1];
      var step := LiftedStep(word, before.1);
      LiftedStepSpec(word, before.1);
      assert LiftedPass(lemmas, hash, n) == (before.0 + [step.0], step.1);
      ShrunkTransitive(step.1, before.1, hash);
      AppendClaim(before.0, before.1, step.0, step.1, word);
      var status := before.0 + [step.0];
      forall i | 0 <= i < n && status[i].Some? ensures lemmas[i] in hash && status[i].value in hash[lemmas[i]] {
        if i < n - 1 {
          assert status[i] == before.0[i];
        } else {
          var m :| 0 <= m < |before.1[word]| && before.1[word][m] == step.0.value;
          assert before.1[word][m] in hash[word];
        }
      }
    }
  }

  /** A Point leaves a bucket only by being claimed: pass 1 never discards an unclaimed Point. */
  lemma {:induction false} LiftedPassOnlyClaimsRemove(lemmas: seq<string>, hash: LiftedIndex, n: nat)
    requires n <= |lemmas|
    ensures var r := LiftedPass(lemmas, hash, n);
      forall k, p :: k in hash && p in hash[k] && k in r.1 && p !in r.1[k] ==> Some(p) in r.0
  {
    if n > 0 {
      LiftedPassOnlyClaimsRemove(lemmas, hash, n - 1);
      LiftedPassSpec(lemmas, hash, n - 1);
      var before := LiftedPass(lemmas, hash, n - 1);
      var step := LiftedStep(lemmas[n - 1], before.1);
      LiftedStepSpec(lemmas[n - 1], before.1);
      var status := before.0 + [step.0];
      assert LiftedPass(lemmas, hash, n) == (status, step.1);
      forall k, p | k in hash && p in hash[k] && k in step.1 && p !in step.1[k] ensures Some(p) in status {
        if p in before.1[k] {
          assert status[n - 1] == Some(p);
        } else {
          assert Some(p) in before.0;
        }
      }
    }
  }

  /** `hash.each_value { |a| a.delete_if { |y| y.equal? x } }`. */
  method DeleteFromAllBuckets<T(==)>(hash0: map<string, seq<T>>, x: T) returns (hash: map<string, seq<T>>)
    ensures hash == RemoveEverywhere(hash0, x)
  {
    hash := hash0;
    var keys := hash0.Keys;
    while keys != {}
      invariant keys <= hash0.Keys
      invariant hash.Keys == hash0.Keys
      invariant forall k :: k in hash0 ==> hash[k] == if k in keys then hash0[k] else RemoveAll(hash0[k], x)
      decreases |keys|
    {
      var k :| k in keys;
      hash := hash[k := RemoveAll(hash[k], x)];
      keys := keys - {k};
    }
  }

  /** `find_compre_lifted_word_in_answer`. */
  method FindCompreLiftedWordInAnswer(lemmas: seq<string>, status: array<Option<PointId>>, hash0: LiftedIndex)
    returns (hash: LiftedIndex)
    requires status.Length == |lemmas|
    requires forall i :: 0 <= i < status.Length ==> status[i] == None
    modifies status
    ensures status[..] == LiftedPass(lemmas, hash0, |lemmas|).0
    ensures hash == LiftedPass(lemmas, hash0, |lemmas|).1
  {
    hash := hash0;
    var index := 0;
    while index < |lemmas|
      invariant 0 <= index <= |lemmas|
      invariant status[..index] == LiftedPass(lemmas, hash0, index).0
      invariant forall i :: index <= i < status.Length ==> status[i] == None
      invariant hash == LiftedPass(lemmas, hash0, index).1
    {
      var word := lemmas[index];
      if word in hash && hash[word] != [] {
        var firstPoint := hash[word][0];
        hash := hash[word := hash[word][1..]];
        status[index] := Some(firstPoint);
        hash := DeleteFromAllBuckets(hash, firstPoint);
      }
      assert status[..index + 1] == status[..index] + [status[index]];
      index := index + 1;
    }
    assert status[..] == status[..index];
  }

  // ---------------------------------------------------------------------------
  // Pass 2: keywords

  /**
   * The `until` loop of pass 2: pop the first Solution of the bucket, drop it
   * from every bucket, and stop at the first whose Point is not lifted. It ends
   * because the bucket loses its first element on every round.
   */
  function KeywordPop(word: string, lifted: seq<Option<PointId>>, hash: KeywordIndex)
    : (r: (Option<CompreSolution>, KeywordIndex))
    requires word in hash
    ensures Shrunk(r.1, hash)
    decreases |hash[word]|
  {
    if hash[word] == [] then (None, hash)
    else
      var firstSolution := hash[word][0];
      var h := RemoveEverywhere(hash[word := hash[word][1..]], firstSolution);
      RemoveEverywhereShrinks(hash, word, firstSolution);
      if Some(firstSolution.point) !in lifted then (Some(firstSolution), h)
      else
        var r := KeywordPop(word, lifted, h);
        ShrunkTransitive(r.1, h, hash);
        r
  }

  /** One token of pass 2; a token already claimed as a lifted word is skipped. */
  function KeywordStep(word: string, liftedHere: Option<PointId>, lifted: seq<Option<PointId>>, hash: KeywordIndex)
    : (r: (Option<CompreSolution>, KeywordIndex))
  {
    if liftedHere.Some? then (None, hash)
    else if word in hash && hash[word] != [] then KeywordPop(word, lifted, hash)
    else (None, hash)
  }

  /** The keyword statuses of the first `n` tokens and the index left after them. */
  function KeywordPass(lemmas: seq<string>, lifted: seq<Option<PointId>>, hash: KeywordIndex, n: nat)
    : (r: (seq<Option<CompreSolution>>, KeywordIndex))
    requires n <= |lemmas| == |lifted|
    ensures |r.0| == n
  {
    if n == 0 then ([], hash)
    else
      var before := KeywordPass(lemmas, lifted, hash, n - 1);
      var step := KeywordStep(lemmas[n - 1], lifted[n - 1], lifted, before.1);
      (before.0 + [step.0], step.1)
  }

  /**
   * A pop round credits a Solution from the bucket whose Point is not lifted,
   * and that Solution is gone from every bucket afterwards.
   */
  lemma {:induction false} KeywordPopFound(word: string, lifted: seq<Option<PointId>>, hash: KeywordIndex)
    requires word in hash
    ensures var r := KeywordPop(word, lifted, hash);
      r.0.Some? ==> r.0.value in hash[word] && Some(r.0.value.point) !in lifted
                    && forall k :: k in r.1 ==> r.0.value !in r.1[k]
    decreases |hash[word]|
  {
    if hash[word] != [] {
      var first := hash[word][0];
      var h := RemoveEverywhere(hash[word := hash[word][1..]], first);
      RemoveEverywhereShrinks(hash, word, first);
      if Some(first.point) in lifted {
        KeywordPopFound(word, lifted, h);
        var r := KeywordPop(word, lifted, h);
        if r.0.Some? {
          var m :| 0 <= m < |h[word]| && h[word][m] == r.0.value;
          assert h[word][m] in hash[word];
        }
      }
    }
  }

  /** A pop round that credits nothing has emptied the bucket. */
  lemma {:induction false} KeywordPopNone(word: string, lifted: seq<Option<PointId>>, hash: KeywordIndex)
    requires word in hash
    ensures var r := KeywordPop(word, lifted, hash);
      r.0.None? ==> r.1[word] == []
    decreases |hash[word]|
  {
    if hash[word] != [] {
      var first := hash[word][0];
      var h := RemoveEverywhere(hash[word := hash[word][1..]], first);
      if Some(first.point) in lifted {
        KeywordPopNone(word, lifted, h);
      }
    }
  }

  /**
   * Every Solution a pop round takes out of the bucket is either the credited
   * one or a void one whose Point is lifted, and neither stays in any bucket.
   */
  lemma {:induction false} KeywordPopRemoved(word: string, lifted: seq<Option<PointId>>, hash: KeywordIndex, x: CompreSolution)
    requires word in hash && x in hash[word]
    ensures var r := KeywordPop(word, lifted, hash);
      x !in r.1[word] ==> (r.0 == Some(x) || Some(x.point) in lifted) && forall k :: k in r.1 ==> x !in r.1[k]
    decreases |hash[word]|
  {
    var first := hash[word][0];
    var h := RemoveEverywhere(hash[word := hash[word][1..]], first);
    var r := KeywordPop(word, lifted, hash);
    if Some(first.point) in lifted {
      assert r == KeywordPop(word, lifted, h);
      if x == first {
        ClaimsGoneShrunk([Some(x)], r.1, h);
      } else {
        var m :| 0 <= m < |hash[word]| && hash[word][m] == x;
        assert hash[word][1..][m - 1] == x;
        KeywordPopRemoved(word, lifted, h, x);
      }
    }
  }

  /** One step of pass 2 only shrinks buckets, and what it credits comes from the bucket, is not lifted, and is gone afterwards. */
  lemma KeywordStepSpec(word: string, liftedHere: Option<PointId>, lifted: seq<Option<PointId>>, h: KeywordIndex)
    ensures var r := KeywordStep(word, liftedHere, lifted, h);
      && Shrunk(r.1, h)
      && (r.0.Some? ==> liftedHere.None? && word in h && r.0.value in h[word] && Some(r.0.value.point) !in lifted
                        && forall k :: k in r.1 ==> r.0.value !in r.1[k])
  {
    if liftedHere.None? && word in h && h[word] != [] {
      KeywordPopFound(word, lifted, h);
    }
  }

  /**
   * What pass 2 guarantees about the buckets: they only shrink, a credited
   * Solution is in no bucket afterwards, and no Solution is credited to two tokens.
   */
  lemma {:induction false} KeywordPassSpec(lemmas: seq<string>, lifted: seq<Option<PointId>>, hash: KeywordIndex, n: nat)
    requires n <= |lemmas| == |lifted|
    ensures Shrunk(KeywordPass(lemmas, lifted, hash, n).1, hash)
    ensures ClaimsGone(KeywordPass(lemmas, lifted, hash, n).0, KeywordPass(lemmas, lifted, hash, n).1)
    ensures ClaimsOnce(KeywordPass(lemmas, lifted, hash, n).0)
  {
    if n > 0 {
      KeywordPassSpec(lemmas, lifted, hash, n - 1);
      var before := KeywordPass(lemmas, lifted, hash, n - 1);
      var word := lemmas[n - 1];
      var step := KeywordStep(word, lifted[n - 1], lifted, before.1);
      KeywordStepSpec(word, lifted[n - 1], lifted, before.1);
      assert KeywordPass(lemmas, lifted, hash, n) == (before.0 + [step.0], step.1);
      ShrunkTransitive(step.1, before.1, hash);
      AppendClaim(before.0, before.1, step.0, step.1, word);
    }
  }

  /** What pass 2 credits at a token is a Solution from the original bucket of that token's lemma. */
  lemma {:induction false} KeywordPassFromBuckets(lemmas: seq<string>, lifted: seq<Option<PointId>>, hash: KeywordIndex, n: nat)
    requires n <= |lemmas| == |lifted|
    ensures ClaimsFromBuckets(lemmas, KeywordPass(lemmas, lifted, hash, n).0, hash)
  {
    if n > 0 {
      KeywordPassFromBuckets(lemmas, lifted, hash, n - 1);
      KeywordPassSpec(lemmas, lifted, hash, n - 1);
      var before := KeywordPass(lemmas, lifted, hash, n - 1);
      var word := lemmas[n - 1];
      var step := KeywordStep(word, lifted[n - 1], lifted, before.1);
      KeywordStepSpec(word, lifted[n - 1], lifted, before.1);
      assert KeywordPass(lemmas, lifted, hash, n).0 == before.0 + [step.0];
      AppendFromBucket(lemmas, before.0, step.0, hash, before.1);
    }
  }

  /** No credit sits at a lifted token, and no credited Solution's Point is lifted anywhere. */
  predicate CreditsAvoidLifted(status: seq<Option<CompreSolution>>, lifted: seq<Option<PointId>>)
    requires |status| <= |lifted|
  {
    forall i :: 0 <= i < |status| && status[i].Some? ==> lifted[i].None? && Some(status[i].value.point) !in lifted
  }

  /** One step of pass 2 credits nothing at a lifted token, and nothing whose Point is lifted. */
  lemma KeywordStepAvoidsLifted(word: string, liftedHere: Option<PointId>, lifted: seq<Option<PointId>>, h: KeywordIndex)
    ensures var r := KeywordStep(word, liftedHere, lifted, h);
      r.0.Some? ==> liftedHere.None? && Some(r.0.value.point) !in lifted
  {
    if liftedHere.None? && word in h && h[word] != [] {
      KeywordPopFound(word, lifted, h);
    }
  }

  /** Appending a credit that avoids the lifted statuses keeps all credits avoiding them. */
  lemma AppendCredit(status: seq<Option<CompreSolution>>, st: Option<CompreSolution>, lifted: seq<Option<PointId>>)
    requires |status| < |lifted| && CreditsAvoidLifted(status, lifted)
    requires st.Some? ==> lifted[|status|].None? && Some(st.value.point) !in lifted
    ensures CreditsAvoidLifted(status + [st], lifted)
  {
    var s := status + [st];
    forall i | 0 <= i < |s| && s[i].Some? ensures lifted[i].None? && Some(s[i].value.point) !in lifted {
      if i < |status| {
        assert s[i] == status[i];
      }
    }
  }

  /** Pass 2 never credits a token that is a lifted word, nor a Solution whose Point is lifted anywhere. */
  lemma {:induction false} KeywordPassCredits(lemmas: seq<string>, lifted: seq<Option<PointId>>, hash: KeywordIndex, n: nat)
    requires n <= |lemmas| == |lifted|
    ensures CreditsAvoidLifted(KeywordPass(lemmas, lifted, hash, n).0, lifted)
  {
    if n > 0 {
      KeywordPassCredits(lemmas, lifted, hash, n - 1);
      var before := KeywordPass(lemmas, lifted, hash, n - 1);
      KeywordStepAvoidsLifted(lemmas[n - 1], lifted[n - 1], lifted, before.1);
      var step := KeywordStep(lemmas[n - 1], lifted[n - 1], lifted, before.1);
      assert KeywordPass(lemmas, lifted, hash, n).0 == before.0 + [step.0];
      AppendCredit(before.0, step.0, lifted);
    }
  }

  /**
   * The `until` loop of lines 233-247 for one token: pop the token's bucket,
   * delete each popped Solution from every bucket, and stop at the first one
   * whose Point is not lifted.
   */
  method PopUntilCredited(word: string, lifted: array<Option<PointId>>, hash0: KeywordIndex)
    returns (found: Option<CompreSolution>, hash: KeywordIndex)
    requires word in hash0
    ensures (found, hash) == KeywordPop(word, lifted[..], hash0)
  {
    hash := hash0;
    found := None;
    while hash[word] != []
      invariant word in hash
      invariant KeywordPop(word, lifted[..], hash) == KeywordPop(word, lifted[..], hash0)
      decreases |hash[word]|
    {
      var firstSolution := hash[word][0];
      var firstSolutionPoint := firstSolution.point;
      hash := hash[word := hash[word][1..]];
      hash := DeleteFromAllBuckets(hash, firstSolution);
      if Some(firstSolutionPoint) !in lifted[..] {
        found := Some(firstSolution);
        return;
      }
    }
  }
  /** `find_compre_keyword_in_answer`. */
  method FindCompreKeywordInAnswer(lemmas: seq<string>, lifted: array<Option<PointId>>,
                                   status: array<Option<CompreSolution>>, hash0: KeywordIndex)
    returns (hash: KeywordIndex)
    requires lifted.Length == status.Length == |lemmas|
    requires forall i :: 0 <= i < status.Length ==> status[i] == None
    modifies status
    ensures status[..] == KeywordPass(lemmas, lifted[..], hash0, |lemmas|).0
    ensures hash == KeywordPass(lemmas, lifted[..], hash0, |lemmas|).1
  {
    hash := hash0;
    ghost var liftedWords := lifted[..];
    var index := 0;
    while index < |lemmas|
      invariant 0 <= index <= |lemmas|
      invariant lifted[..] == liftedWords
      invariant status[..index] == KeywordPass(lemmas, liftedWords, hash0, index).0
      invariant forall i :: index <= i < status.Length ==> status[i] == None
      invariant hash == KeywordPass(lemmas, liftedWords, hash0, index).1
    {
      var word := lemmas[index];
      if lifted[index] == None && word in hash && hash[word] != [] {
        var found;
        found, hash := PopUntilCredited(word, lifted, hash);
        status[index] := found;
      }
      assert status[..index + 1] == status[..index] + [status[index]];
      index := index + 1;
    }
    assert status[..] == status[..index];
  }
}
