/**
 * String helpers the auto-grading service relies on, restricted to ASCII: Ruby's `downcase`,
 * `casecmp`, `include?`, `blank?`, `strip`, `join` and the newline conversion
 * `encode(universal_newline: true)`.
 */
module Text {

  const CR: char := '\r'
  const LF: char := '\n'

  /** ASCII lower-casing of one character; every other character is kept. */
  function ToLower(c: char): (r: char)
    ensures 'A' <= c <= 'Z' ==> r as int == c as int + 32
    ensures !('A' <= c <= 'Z') ==> r == c
  {
    if 'A' <= c <= 'Z' then (c as int + 32) as char else c
  }

  /** `String#downcase` restricted to ASCII. */
  function Downcase(s: string): (r: string)
    ensures |r| == |s|
    ensures forall i :: 0 <= i < |s| ==> r[i] == ToLower(s[i])
  {
    if s == [] then [] else [ToLower(s[0])] + Downcase(s[1..])
  }

  predicate NoUpper(s: string) {
    forall i :: 0 <= i < |s| ==> !('A' <= s[i] <= 'Z')
  }

  lemma DowncaseHasNoUpper(s: string)
    ensures NoUpper(Downcase(s))
  {
  }

  lemma DowncaseIdempotent(s: string)
    ensures Downcase(Downcase(s)) == Downcase(s)
  {
  }

  /** `a.casecmp(b) == 0`: equal after folding ASCII letters to one case. */
  predicate CaseCmpEqual(a: string, b: string) {
    Downcase(a) == Downcase(b)
  }

  /** `casecmp` equality is character-wise equality up to ASCII case, in both directions. */
  lemma CaseCmpEqualPointwise(a: string, b: string)
    ensures CaseCmpEqual(a, b) <==>
      (|a| == |b| && forall i :: 0 <= i < |a| ==> ToLower(a[i]) == ToLower(b[i]))
  {
    if |a| == |b| && forall i :: 0 <= i < |a| ==> ToLower(a[i]) == ToLower(b[i]) {
      assert forall i :: 0 <= i < |a| ==> Downcase(a)[i] == Downcase(b)[i];
    }
  }

  /**
   * `encode(universal_newline: true)`: every CR LF pair and every lone CR
   * becomes a single LF.
   */
  function UniversalNewline(s: string): (r: string)
    ensures |r| <= |s|
    ensures CR !in r
  {
    if s == [] then []
    else if s[0] == CR then
      if |s| > 1 && s[1] == LF then [LF] + UniversalNewline(s[2..])
      else [LF] + UniversalNewline(s[1..])
    else [s[0]] + UniversalNewline(s[1..])
  }

  /** Text without CR is left as it is. */
  lemma {:induction false} UniversalNewlineKeepsUnix(s: string)
    requires CR !in s
    ensures UniversalNewline(s) == s
  {
    if s != [] {
      assert s[0] != CR;
      assert CR !in s[1..];
      UniversalNewlineKeepsUnix(s[1..]);
    }
  }

  /** Converting twice is converting once. */
  lemma UniversalNewlineIdempotent(s: string)
    ensures UniversalNewline(UniversalNewline(s)) == UniversalNewline(s)
  {
    UniversalNewlineKeepsUnix(UniversalNewline(s));
  }

  /** The Windows spelling of a text: every LF written as CR LF. */
  function ToWindows(s: string): (r: string)
    ensures |r| >= |s|
  {
    if s == [] then []
    else if s[0] == LF then [CR, LF] + ToWindows(s[1..])
    else [s[0]] + ToWindows(s[1..])
  }

  /** The old Mac spelling of a text: every LF written as a lone CR. */
  function ToOldMac(s: string): (r: string)
    ensures |r| == |s|
  {
    if s == [] then []
    else if s[0] == LF then [CR] + ToOldMac(s[1..])
    else [s[0]] + ToOldMac(s[1..])
  }

  /**
   * A Unix text and its Windows spelling convert to the same text, so a solution
   * authored with CR LF matches the LF answer and vice versa.
   */
  lemma {:induction false} UniversalNewlineOfWindows(s: string)
    requires CR !in s
    ensures UniversalNewline(ToWindows(s)) == s
  {
    if s != [] {
      assert CR !in s[1..];
      UniversalNewlineOfWindows(s[1..]);
      if s[0] == LF {
        assert ToWindows(s) == [CR, LF] + ToWindows(s[1..]);
        assert ToWindows(s)[2..] == ToWindows(s[1..]);
      } else {
        assert ToWindows(s)[1..] == ToWindows(s[1..]);
      }
    }
  }

  /** Same for lone CR line ends. */
  lemma {:induction false} UniversalNewlineOfOldMac(s: string)
    requires CR !in s
    ensures UniversalNewline(ToOldMac(s)) == s
  {
    if s != [] {
      assert CR !in s[1..];
      UniversalNewlineOfOldMac(s[1..]);
      var t := ToOldMac(s);
      assert t[1..] == ToOldMac(s[1..]);
      ToOldMacHasNoLF(s[1..]);
    }
  }

  lemma {:induction false} ToOldMacHasNoLF(s: string)
    ensures LF !in ToOldMac(s)
  {
    if s != [] {
      ToOldMacHasNoLF(s[1..]);
    }
  }

  /** `hay.include?(needle)`: `needle` occurs in `hay` as a contiguous piece. */
  predicate Includes(hay: string, needle: string) {
    needle <= hay || (hay != [] && Includes(hay[1..], needle))
  }

  /** `include?` holds exactly when `needle` sits at some offset of `hay`. */
  lemma {:induction false} IncludesAt(hay: string, needle: string)
    ensures Includes(hay, needle) <==>
      exists i :: 0 <= i <= |hay| - |needle| && needle <= hay[i..]
  {
    if needle <= hay {
      assert hay[0..] == hay;
    } else if hay != [] {
      IncludesAt(hay[1..], needle);
      if exists i :: 0 <= i <= |hay| - |needle| && needle <= hay[i..] {
        var i :| 0 <= i <= |hay| - |needle| && needle <= hay[i..];
        assert i != 0;
        assert hay[1..][i - 1..] == hay[i..];
      }
      if Includes(hay[1..], needle) {
        var i :| 0 <= i <= |hay[1..]| - |needle| && needle <= hay[1..][i..];
        assert hay[1..][i..] == hay[i + 1..];
      }
    }
  }

  /** Whitespace as Ruby's `strip` and `blank?` see it on ASCII text. */
  predicate IsSpace(c: char) {
    c == ' ' || c == '\t' || c == '\n' || c == '\U{B}' || c == '\U{C}' || c == '\r'
  }

  /** `String#blank?`: empty or made of whitespace only. */
  predicate Blank(s: string) {
    forall i :: 0 <= i < |s| ==> IsSpace(s[i])
  }

  /** Neither the first nor the last character is whitespace. */
  predicate Trimmed(s: string) {
    s != [] ==> !IsSpace(s[0]) && !IsSpace(s[|s| - 1])
  }

  function TrimStart(s: string): (r: string)
    ensures |r| <= |s| && r == s[|s| - |r|..]
    ensures r != [] ==> !IsSpace(r[0])
    ensures Blank(s[..|s| - |r|])
  {
    if s != [] && IsSpace(s[0]) then TrimStart(s[1..]) else s
  }

  function TrimEnd(s: string): (r: string)
    ensures |r| <= |s| && r == s[..|r|]
    ensures r != [] ==> !IsSpace(r[|r| - 1])
    ensures Blank(s[|r|..])
  {
    if s != [] && IsSpace(s[|s| - 1]) then TrimEnd(s[..|s| - 1]) else s
  }

  /** `String#strip`: leading and trailing whitespace removed. */
  function Strip(s: string): string {
    TrimEnd(TrimStart(s))
  }

  /**
   * What `strip` promises: the result sits inside `s`, has no whitespace at
   * either end, only whitespace was cut, and it is empty exactly when `s` is blank.
   */
  lemma StripSpec(s: string)
    ensures Trimmed(Strip(s))
    ensures exists i :: (0 <= i <= |s| - |Strip(s)| && s[i..i + |Strip(s)|] == Strip(s)
                         && Blank(s[..i]) && Blank(s[i + |Strip(s)|..]))
    ensures Strip(s) == [] <==> Blank(s)
  {
    StripTrimmed(s);
    var i := StripInfix(s);
    StripEmptyIffBlank(s, i);
  }

  lemma StripTrimmed(s: string)
    ensures Trimmed(Strip(s))
  {
    var t := TrimStart(s);
    var r := TrimEnd(t);
    if r != [] {
      assert r[0] == t[0];
    }
  }

  lemma StripInfix(s: string) returns (i: nat)
    ensures i <= |s| - |Strip(s)| && s[i..i + |Strip(s)|] == Strip(s)
    ensures Blank(s[..i]) && Blank(s[i + |Strip(s)|..])
  {
    var t := TrimStart(s);
    var r := TrimEnd(t);
    i := |s| - |t|;
    SliceOfSuffix(s, i, |r|);
  }

  lemma SliceOfSuffix(s: string, i: nat, n: nat)
    requires i + n <= |s|
    ensures s[i..][..n] == s[i..i + n] && s[i..][n..] == s[i + n..]
  {
  }

  lemma StripEmptyIffBlank(s: string, i: nat)
    requires i <= |s| - |Strip(s)| && s[i..i + |Strip(s)|] == Strip(s)
    requires Blank(s[..i]) && Blank(s[i + |Strip(s)|..])
    ensures Strip(s) == [] <==> Blank(s)
  {
    var r := Strip(s);
    StripTrimmed(s);
    if r == [] {
      assert forall k :: 0 <= k < |s| ==> IsSpace(s[k]) by {
        forall k | 0 <= k < |s|
          ensures IsSpace(s[k])
        {
          if k < i { assert s[k] == s[..i][k]; } else { assert s[k] == s[i..][k - i]; }
        }
      }
    } else {
      assert s[i] == r[0];
    }
  }

  /** Stripping a stripped text changes nothing. */
  lemma StripIdempotent(s: string)
    ensures Strip(Strip(s)) == Strip(s)
  {
    StripSpec(s);
  }

  /** `items.join(sep)`. */
  function Join(items: seq<string>, sep: string): string
  {
    if items == [] then []
    else if |items| == 1 then items[0]
    else items[0] + sep + Join(items[1..], sep)
  }
}
