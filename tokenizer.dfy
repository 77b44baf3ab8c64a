/**
 * Lines 107 and 109 of the auto-grading service: the answer lower-cased, every character
 * other than `a`-`z` and space turned into a space, split on spaces, and each
 * token replaced by its lemma (or kept when the lemmatiser knows none).
 * The lemmatiser (`WordNet::Synset.morphy_all(w).first`) is a parameter.
 */
module Tokenizer {
  import opened Wrappers
  import opened Text

  predicate IsLetter(c: char) {
    'a' <= c <= 'z'
  }

  /** A comprehension token: non-empty and only `a`-`z`. */
  predicate IsWord(w: string) {
    w != [] && forall i :: 0 <= i < |w| ==> IsLetter(w[i])
  }

  /** `gsub(/([^a-z ])/, ' ')`. */
  function LettersAndSpaces(s: string): (r: string)
    ensures |r| == |s|
    ensures forall i :: 0 <= i < |s| ==> r[i] == if IsLetter(s[i]) || s[i] == ' ' then s[i] else ' '
  {
    if s == [] then [] else [if IsLetter(s[0]) || s[0] == ' ' then s[0] else ' '] + LettersAndSpaces(s[1..])
  }

  /** `split(' ')`: the maximal runs of non-space characters; `word` is the run read so far. */
  function SplitFrom(s: string, word: string): seq<string>
  {
    if s == [] then (if word == [] then [] else [word])
    else if s[0] == ' ' then (if word == [] then [] else [word]) + SplitFrom(s[1..], [])
    else SplitFrom(s[1..], word + [s[0]])
  }

  function Split(s: string): seq<string> {
    SplitFrom(s, [])
  }

  /** The token array of an answer text (line 107). */
  function Tokens(answerText: string): seq<string> {
    Split(LettersAndSpaces(Downcase(answerText)))
  }

  /** `morphy_all(w).first || w`. */
  function LemmaOf(morphy: string -> Option<string>, w: string): string {
    morphy(w).GetOr(w)
  }

  /** One lemma per word, in order (lines 108-109, and `convert_solution_to_lemma`). */
  function Lemmatised(morphy: string -> Option<string>, words: seq<string>): (r: seq<string>)
    ensures |r| == |words|
    ensures forall i :: 0 <= i < |words| ==> r[i] == LemmaOf(morphy, words[i])
  {
    seq(|words|, i requires 0 <= i < |words| => LemmaOf(morphy, words[i]))
  }

  lemma {:induction false} SplitFromWords(s: string, word: string)
    requires forall i :: 0 <= i < |s| ==> IsLetter(s[i]) || s[i] == ' '
    requires forall i :: 0 <= i < |word| ==> IsLetter(word[i])
    ensures forall t :: t in SplitFrom(s, word) ==> IsWord(t)
    decreases |s|
  {
    if s != [] {
      if s[0] == ' ' {
        SplitFromWords(s[1..], []);
      } else {
        SplitFromWords(s[1..], word + [s[0]]);
      }
    }
  }

  /** Every comprehension token is a non-empty run of `a`-`z`. */
  lemma TokensAreWords(answerText: string)
    ensures forall t :: t in Tokens(answerText) ==> IsWord(t)
  {
    SplitFromWords(LettersAndSpaces(Downcase(answerText)), []);
  }

  lemma {:induction false} SplitFromAppend(w: string, rest: string, word: string)
    requires forall i :: 0 <= i < |w| ==> w[i] != ' '
    ensures SplitFrom(w + rest, word) == SplitFrom(rest, word + w)
    decreases |w|
  {
    if w != [] {
      assert (w + rest)[0] == w[0] && w[0] != ' ';
      assert (w + rest)[1..] == w[1..] + rest;
      assert SplitFrom(w + rest, word) == SplitFrom(w[1..] + rest, word + [w[0]]);
      SplitFromAppend(w[1..], rest, word + [w[0]]);
      assert w == [w[0]] + w[1..];
      assert word + [w[0]] + w[1..] == word + w;
    } else {
      assert w + rest == rest && word + w == word;
    }
  }

  /** A single word splits into itself. */
  lemma SplitWord(w: string)
    requires IsWord(w)
    ensures Split(w) == [w]
  {
    assert w + [] == w && [] + w == w;
    SplitFromAppend(w, [], []);
  }

  /** A word followed by a space splits off as the first token. */
  lemma SplitWordThenSpace(w: string, rest: string)
    requires IsWord(w)
    ensures Split(w + " " + rest) == [w] + Split(rest)
  {
    assert w + " " + rest == w + (" " + rest);
    SplitFromAppend(w, " " + rest, []);
    assert (" " + rest)[0] == ' ' && (" " + rest)[1..] == rest;
    assert [] + w == w;
  }

  /** Splitting the space-joined words gives the words back. */
  lemma {:induction false} SplitJoin(ws: seq<string>)
    requires forall t :: t in ws ==> IsWord(t)
    ensures Split(Join(ws, " ")) == ws
  {
    if |ws| == 1 {
      assert ws[0] in ws;
      SplitWord(ws[0]);
    } else if |ws| > 1 {
      assert ws[0] in ws;
      assert forall t :: t in ws[1..] ==> t in ws;
      SplitWordThenSpace(ws[0], Join(ws[1..], " "));
      SplitJoin(ws[1..]);
      assert ws == [ws[0]] + ws[1..];
    }
  }

  lemma {:induction false} JoinChars(ws: seq<string>, sep: string, i: nat)
    requires i < |Join(ws, sep)|
    ensures Join(ws, sep)[i] in sep || exists t :: t in ws && Join(ws, sep)[i] in t
  {
    if |ws| > 1 {
      var rest := Join(ws[1..], sep);
      assert Join(ws, sep) == ws[0] + sep + rest;
      if i < |ws[0]| {
        assert Join(ws, sep)[i] == ws[0][i];
        assert ws[0] in ws;
      } else if i < |ws[0]| + |sep| {
        assert Join(ws, sep)[i] == sep[i - |ws[0]|];
      } else {
        JoinChars(ws[1..], sep, i - |ws[0]| - |sep|);
        assert Join(ws, sep)[i] == rest[i - |ws[0]| - |sep|];
        assert forall t :: t in ws[1..] ==> t in ws;
      }
    } else if |ws| == 1 {
      assert Join(ws, sep)[i] in ws[0];
    }
  }

  /** Tokenising the space-joined words gives the words back: `Tokens` inverts `join(' ')` on words. */
  lemma TokensOfJoin(ws: seq<string>)
    requires forall t :: t in ws ==> IsWord(t)
    ensures Tokens(Join(ws, " ")) == ws
  {
    var s := Join(ws, " ");
    forall i | 0 <= i < |s| ensures IsLetter(s[i]) || s[i] == ' ' {
      JoinChars(ws, " ", i);
      if s[i] !in " " {
        var t :| t in ws && s[i] in t;
        assert IsWord(t);
      }
    }
    assert Downcase(s) == s;
    assert LettersAndSpaces(s) == s;
    SplitJoin(ws);
  }
}
