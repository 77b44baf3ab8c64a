/**
 * Sequence and map vocabulary for Ruby's `Array` and `Hash` operations the
 * auto-grading service uses: `to_h` (a later pair wins), `delete_if`, `uniq`-style pushes,
 * `include?` and `reduce(0, :+)`.
 */
module Collections {

  /** `pairs.to_h`: one entry per key, the last pair for a key wins. */
  function ToHash<K, V>(pairs: seq<(K, V)>): map<K, V>
  {
    if pairs == [] then map[]
    else ToHash(pairs[..|pairs| - 1])[pairs[|pairs| - 1].0 := pairs[|pairs| - 1].1]
  }

  /**
   * The keys of `to_h` are the keys of the pairs, and each key is bound to the
   * value of the LAST pair that carries it.
   */
  lemma {:induction false} ToHashLastWins<K, V>(pairs: seq<(K, V)>, k: K)
    ensures k in ToHash(pairs) <==> exists j :: 0 <= j < |pairs| && pairs[j].0 == k
    ensures k in ToHash(pairs) ==>
      exists j :: 0 <= j < |pairs| && pairs[j].0 == k && ToHash(pairs)[k] == pairs[j].1
                  && forall j' :: j < j' < |pairs| ==> pairs[j'].0 != k
  {
    if pairs != [] {
      var n := |pairs| - 1;
      var front := pairs[..n];
      ToHashLastWins(front, k);
      if pairs[n].0 != k {
        if k in ToHash(front) {
          var j :| 0 <= j < |front| && front[j].0 == k && ToHash(front)[k] == front[j].1
                   && forall j' :: j < j' < |front| ==> front[j'].0 != k;
          assert pairs[j] == front[j];
          assert forall j' :: j < j' < |pairs| ==> pairs[j'].0 != k by {
            forall j' | j < j' < |pairs| ensures pairs[j'].0 != k {
              if j' < n { assert pairs[j'] == front[j']; }
            }
          }
        }
        if exists j :: 0 <= j < |pairs| && pairs[j].0 == k {
          var j :| 0 <= j < |pairs| && pairs[j].0 == k;
          assert j < n && front[j] == pairs[j];
        }
      }
    }
  }

  lemma ToHashAppend<K, V>(pairs: seq<(K, V)>, k: K, v: V)
    ensures ToHash(pairs + [(k, v)]) == ToHash(pairs)[k := v]
  {
    assert (pairs + [(k, v)])[..|pairs|] == pairs;
  }

  /** `xs.delete_if { |y| y == x }`. */
  function RemoveAll<T(==)>(xs: seq<T>, x: T): (r: seq<T>)
    ensures |r| <= |xs|
    ensures forall i :: 0 <= i < |r| ==> r[i] in xs && r[i] != x
    ensures forall i :: 0 <= i < |xs| && xs[i] != x ==> xs[i] in r
  {
    if xs == [] then []
    else if xs[0] == x then RemoveAll(xs[1..], x)
    else [xs[0]] + RemoveAll(xs[1..], x)
  }

  /** `hash.each_value { |a| a.delete_if { |y| y == x } }`: `x` leaves every bucket. */
  function RemoveEverywhere<K, T(==)>(h: map<K, seq<T>>, x: T): (r: map<K, seq<T>>)
    ensures r.Keys == h.Keys
    ensures forall k :: k in h ==> |r[k]| <= |h[k]|
    ensures forall k :: k in h ==> r[k] == RemoveAll(h[k], x)
  {
    map k | k in h :: RemoveAll(h[k], x)
  }

  /** The first occurrence of each element, in order (what `push x unless include? x` builds). */
  function Dedup<T(==)>(xs: seq<T>): seq<T>
  {
    if xs == [] then []
    else
      var d := Dedup(xs[..|xs| - 1]);
      if xs[|xs| - 1] in d then d else d + [xs[|xs| - 1]]
  }

  predicate NoDuplicates<T(==)>(xs: seq<T>) {
    forall i, j :: 0 <= i < j < |xs| ==> xs[i] != xs[j]
  }

  /** `Dedup` keeps exactly the elements of its input, each once. */
  lemma {:induction false} DedupSpec<T>(xs: seq<T>)
    ensures forall x :: x in Dedup(xs) <==> x in xs
    ensures NoDuplicates(Dedup(xs))
    ensures |Dedup(xs)| <= |xs|
  {
    if xs != [] {
      var front := xs[..|xs| - 1];
      DedupSpec(front);
      assert xs == front + [xs[|xs| - 1]];
    }
  }

  /** `xs.map(&f).reduce(0, :+)` written over a sequence of integers. */
  function Sum(xs: seq<int>): int
  {
    if xs == [] then 0 else Sum(xs[..|xs| - 1]) + xs[|xs| - 1]
  }

  lemma {:induction false} SumNonNegative(xs: seq<int>)
    requires forall i :: 0 <= i < |xs| ==> xs[i] >= 0
    ensures Sum(xs) >= 0
  {
    if xs != [] {
      SumNonNegative(xs[..|xs| - 1]);
    }
  }

  function Min(a: int, b: int): (r: int)
    ensures r <= a && r <= b && (r == a || r == b)
  {
    if a <= b then a else b
  }

  /** `a` is `b` with some elements left out, the rest in their order. */
  predicate IsSubsequence<T(==)>(a: seq<T>, b: seq<T>)
    decreases |b|
  {
    a == [] || (b != [] && ((a[0] == b[0] && IsSubsequence(a[1..], b[1..])) || IsSubsequence(a, b[1..])))
  }
}
