/**
 * `Course::Assessment::Question::TextResponseComprehensionSolution`: a record
 * whose `before_validation` callbacks clean its `solution` strings in place and
 * recompute `solution_lemma` from them.
 */
module ComprehensionSolution {
  import opened Wrappers
  import opened Text
  import opened Collections
  import opened Types
  import opened Tokenizer

  /** `solution.reject!(&:blank?)`, as a value: the non-blank entries, in order. */
  function RejectBlank(xs: seq<string>): (r: seq<string>)
    ensures |r| <= |xs|
  {
    if xs == [] then []
    else
      var front := RejectBlank(xs[..|xs| - 1]);
      if Blank(xs[|xs| - 1]) then front else front + [xs[|xs| - 1]]
  }

  /** `each(&:strip!)`, as a value. */
  function StripAll(xs: seq<string>): (r: seq<string>)
    ensures |r| == |xs| && forall i :: 0 <= i < |xs| ==> r[i] == Strip(xs[i])
  {
    seq(|xs|, i requires 0 <= i < |xs| => Strip(xs[i]))
  }

  /** `reject!(&:blank?)` keeps the non-blank entries and only them, in their order. */
  lemma {:induction false} RejectBlankSpec(xs: seq<string>)
    ensures forall i :: 0 <= i < |RejectBlank(xs)| ==> !Blank(RejectBlank(xs)[i])
    ensures forall x :: x in RejectBlank(xs) <==> x in xs && !Blank(x)
    ensures IsSubsequence(RejectBlank(xs), xs)
  {
    if xs != [] {
      var n := |xs| - 1;
      RejectBlankSpec(xs[..n]);
      assert xs == xs[..n] + [xs[n]];
      SubsequenceAppend(RejectBlank(xs[..n]), xs[..n], xs[n], !Blank(xs[n]));
    }
  }

  /** `reject!` keeps every copy of a non-blank entry and no copy of a blank one. */
  lemma {:induction false} RejectBlankCounts(xs: seq<string>)
    ensures forall x :: multiset(RejectBlank(xs))[x] == if Blank(x) then 0 else multiset(xs)[x]
  {
    if xs != [] {
      var n := |xs| - 1;
      RejectBlankCounts(xs[..n]);
      assert xs == xs[..n] + [xs[n]];
    }
  }

  lemma {:induction false} SubsequenceAppend<T>(a: seq<T>, b: seq<T>, x: T, keep: bool)
    requires IsSubsequence(a, b)
    ensures IsSubsequence(if keep then a + [x] else a, b + [x])
    decreases |b|
  {
    if b == [] {
      assert a == [];
      if keep {
        assert ([] + [x])[1..] == [] && [x][1..] == [];
      } else {
        assert (b + [x])[1..] == [];
      }
    } else if a == [] {
      if keep {
        SubsequenceAppend(a, b[1..], x, keep);
        assert (b + [x])[1..] == b[1..] + [x];
      }
    } else {
      assert (b + [x])[1..] == b[1..] + [x];
      var a' := if keep then a + [x] else a;
      if a[0] == b[0] && IsSubsequence(a[1..], b[1..]) {
        SubsequenceAppend(a[1..], b[1..], x, keep);
        assert a'[1..] == if keep then a[1..] + [x] else a[1..];
      } else {
        SubsequenceAppend(a, b[1..], x, keep);
      }
    }
  }

  /** The `solution` strings after the first two callbacks: blank entries dropped, the rest stripped. */
  function CleanSolution(xs: seq<string>): seq<string> {
    StripAll(RejectBlank(xs))
  }

  /** After cleaning, every entry is a non-empty string with no whitespace at either end. */
  lemma CleanSolutionEntries(xs: seq<string>)
    ensures forall i :: 0 <= i < |CleanSolution(xs)| ==> CleanSolution(xs)[i] != [] && Trimmed(CleanSolution(xs)[i])
  {
    RejectBlankSpec(xs);
    var kept := RejectBlank(xs);
    forall i | 0 <= i < |kept| ensures Strip(kept[i]) != [] && Trimmed(Strip(kept[i])) {
      StripSpec(kept[i]);
    }
  }

  /** Cleaning a cleaned list changes nothing, so saving a record twice keeps its solutions. */
  lemma CleanSolutionIdempotent(xs: seq<string>)
    ensures CleanSolution(CleanSolution(xs)) == CleanSolution(xs)
  {
    var c := CleanSolution(xs);
    CleanSolutionEntries(xs);
    NoBlankRejectsNothing(c);
    forall i | 0 <= i < |c| ensures Strip(c[i]) == c[i] {
      TrimmedStripsToItself(c[i]);
    }
  }

  lemma {:induction false} NoBlankRejectsNothing(xs: seq<string>)
    requires forall i :: 0 <= i < |xs| ==> xs[i] != [] && Trimmed(xs[i])
    ensures RejectBlank(xs) == xs
  {
    if xs != [] {
      var n := |xs| - 1;
      NoBlankRejectsNothing(xs[..n]);
      assert !IsSpace(xs[n][0]);
      assert xs == xs[..n] + [xs[n]];
    }
  }

  lemma TrimmedStripsToItself(s: string)
    requires Trimmed(s)
    ensures Strip(s) == s
  {
  }

  /** `solution_lemma` as the three callbacks that run leave it. */
  function LemmasAsWritten(morphy: string -> Option<string>, xs: seq<string>): seq<string> {
    Lemmatised(morphy, CleanSolution(xs))
  }

  /** `solution_lemma` as the four listed callbacks would leave it. */
  function LemmasIntended(morphy: string -> Option<string>, xs: seq<string>): seq<string> {
    StripAll(Lemmatised(morphy, CleanSolution(xs)))
  }

  /**
   * As written, a lemma the lemmatiser returns with surrounding whitespace is
   * stored as it is: a clean solution string `w` whose lemma `l` is not
   * trimmed leaves the untrimmed `l` in `solution_lemma`.
   */
  lemma AsWrittenLemmaKeepsWhitespace(morphy: string -> Option<string>, w: string, l: string)
    requires w != [] && Trimmed(w) && morphy(w) == Some(l) && !Trimmed(l)
    ensures LemmasAsWritten(morphy, [w]) == [l]
  {
    CleanOneTrimmed(w);
    var stored := Lemmatised(morphy, [w]);
    assert stored[0] == l;
  }

  /** The same for the solution `["run"]` and a lemmatiser answering `" run"`. */
  lemma AsWrittenRunExample()
    ensures LemmasAsWritten(_ => Some(" run"), ["run"]) == [" run"]
  {
    var run := "run";
    var spaced := " run";
    assert !IsSpace(run[0]) && !IsSpace(run[2]) && IsSpace(spaced[0]);
    AsWrittenLemmaKeepsWhitespace(_ => Some(spaced), run, spaced);
  }

  /** A single trimmed, non-empty solution string survives cleaning unchanged. */
  lemma CleanOneTrimmed(w: string)
    requires w != [] && Trimmed(w)
    ensures CleanSolution([w]) == [w]
  {
    NoBlankRejectsNothing([w]);
    TrimmedStripsToItself(w);
  }

  /** With the fourth callback every stored lemma has no whitespace at either end. */
  lemma IntendedLemmasTrimmed(morphy: string -> Option<string>, xs: seq<string>)
    ensures forall i :: 0 <= i < |LemmasIntended(morphy, xs)| ==> Trimmed(LemmasIntended(morphy, xs)[i])
  {
    var l := Lemmatised(morphy, CleanSolution(xs));
    forall i | 0 <= i < |l| ensures Trimmed(Strip(l[i])) {
      StripSpec(l[i]);
    }
  }

  /** The record; `solution` and `solution_lemma` are Postgres string arrays it rewrites in place. */
  class TextResponseComprehensionSolution {
    var solutionType: CompreKind
    var solution: seq<string>
    var solutionLemma: seq<string>

    constructor (solutionType: CompreKind, solution: seq<string>, solutionLemma: seq<string>)
      ensures this.solutionType == solutionType
      ensures this.solution == solution && this.solutionLemma == solutionLemma
    {
      this.solutionType := solutionType;
      this.solution := solution;
      this.solutionLemma := solutionLemma;
    }

    /** `auto_gradable_solution?`. */
    function AutoGradableSolution(): (r: bool)
      reads this
      ensures r <==> |solution| > 0
    {
      solution != []
    }

    /** `remove_blank_solution`. */
    method RemoveBlankSolution()
      modifies this
      ensures solution == RejectBlank(old(solution))
      ensures solutionLemma == old(solutionLemma) && solutionType == old(solutionType)
    {
      solution := RejectBlank(solution);
    }

    /** `strip_whitespace_solution`. */
    method StripWhitespaceSolution()
      modifies this
      ensures solution == StripAll(old(solution))
      ensures solutionLemma == old(solutionLemma) && solutionType == old(solutionType)
    {
      solution := StripAll(solution);
    }

    /** `convert_solution_to_lemma`: clear the lemma list, then push one lemma per solution string. */
    method ConvertSolutionToLemma(morphy: string -> Option<string>)
      modifies this
      ensures solutionLemma == Lemmatised(morphy, old(solution))
      ensures solution == old(solution) && solutionType == old(solutionType)
    {
      solutionLemma := [];
      var i := 0;
      while i < |solution|
        invariant 0 <= i <= |solution|
        invariant solution == old(solution) && solutionType == old(solutionType)
        invariant |solutionLemma| == i
        invariant forall j :: 0 <= j < i ==> solutionLemma[j] == LemmaOf(morphy, solution[j])
      {
        solutionLemma := solutionLemma + [LemmaOf(morphy, solution[i])];
        i := i + 1;
      }
    }

    /** `strip_whitespace_solution_lemma`. */
    method StripWhitespaceSolutionLemma()
      modifies this
      ensures solutionLemma == StripAll(old(solutionLemma))
      ensures solution == old(solution) && solutionType == old(solutionType)
    {
      solutionLemma := StripAll(solutionLemma);
    }

    /**
     * The `before_validation` chain as it runs: line 10 ends without a comma,
     * so `:strip_whitespace_solution_lemma` on line 11 is a statement of its
     * own and is never registered.
     */
    method BeforeValidationAsWritten(morphy: string -> Option<string>)
      modifies this
      ensures solution == CleanSolution(old(solution))
      ensures solutionLemma == LemmasAsWritten(morphy, old(solution))
      ensures solutionType == old(solutionType)
    {
      RemoveBlankSolution();
      StripWhitespaceSolution();
      ConvertSolutionToLemma(morphy);
    }

    /** The `before_validation` chain with all four listed callbacks. */
    method BeforeValidation(morphy: string -> Option<string>)
      modifies this
      ensures solution == CleanSolution(old(solution))
      ensures solutionLemma == LemmasIntended(morphy, old(solution))
      ensures solutionType == old(solutionType)
    {
      RemoveBlankSolution();
      StripWhitespaceSolution();
      ConvertSolutionToLemma(morphy);
      StripWhitespaceSolutionLemma();
    }
  }
}
