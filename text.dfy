/**
  ASCII model of the Python string operations the classifier relies on:
  `str.lower()`, `str.title()`, `str.strip()`, `str.replace(x, '')`, the `in`
  substring test and the slice `s[:n]`, together with the character classes
  `\s` and `\w` of Python's `re` module.
 */
module Text {

  // ---------------------------------------------------------------------------
  // Character classes
  // ---------------------------------------------------------------------------

  /** The ASCII characters for which Python's `str.isspace()` holds; both the
      regex class `\s` and `str.strip()` use this class. */
  predicate IsSpace(c: char) {
    9 <= c as int <= 13 || 28 <= c as int <= 32
  }

  /** ASCII letters: the only cased characters of the ASCII model. */
  predicate IsLetter(c: char) {
    'a' <= c <= 'z' || 'A' <= c <= 'Z'
  }

  /** The regex class `\w`, restricted to ASCII. */
  predicate IsWord(c: char) {
    IsLetter(c) || '0' <= c <= '9' || c == '_'
  }

  /** The regex class `[\w\s]`. */
  predicate IsWordOrSpace(c: char) {
    IsWord(c) || IsSpace(c)
  }

  /** The class `[\w-]` of a domain label. */
  predicate IsLabelChar(c: char) {
    IsWord(c) || c == '-'
  }

  /** The classes whose runs the scanners measure. */
  datatype CharClass = Space | WordOrSpace | Label

  predicate InClass(c: char, kind: CharClass) {
    match kind
    case Space => IsSpace(c)
    case WordOrSpace => IsWordOrSpace(c)
    case Label => IsLabelChar(c)
  }

  function LowerChar(c: char): (r: char)
    ensures 'A' <= c <= 'Z' ==> 'a' <= r <= 'z' && r as int == c as int + 32
    ensures !('A' <= c <= 'Z') ==> r == c
  {
    if 'A' <= c <= 'Z' then (c as int + 32) as char else c
  }

  function UpperChar(c: char): (r: char)
    ensures 'a' <= c <= 'z' ==> 'A' <= r <= 'Z' && r as int == c as int - 32
    ensures !('a' <= c <= 'z') ==> r == c
  {
    if 'a' <= c <= 'z' then (c as int - 32) as char else c
  }

  /** Every character of `s[lo..hi]` is in class `kind`. */
  predicate All(s: string, lo: nat, hi: nat, kind: CharClass)
    requires lo <= hi <= |s|
  {
    forall t | lo <= t < hi :: InClass(s[t], kind)
  }

  /** The length of the longest run of `kind` characters that starts at `j`. */
  function Span(s: string, j: nat, kind: CharClass): (n: nat)
    requires j <= |s|
    ensures j + n <= |s|
    ensures All(s, j, j + n, kind)
    ensures j + n < |s| ==> !InClass(s[j + n], kind)
    decreases |s| - j
  {
    if j < |s| && InClass(s[j], kind) then 1 + Span(s, j + 1, kind) else 0
  }

  /** No run of `kind` characters starting at `j` is longer than `Span`. */
  lemma SpanMaximal(s: string, j: nat, kind: CharClass, n: nat)
    requires j + n <= |s| && All(s, j, j + n, kind)
    ensures n <= Span(s, j, kind)
  {
  }

  // ---------------------------------------------------------------------------
  // lower() and title()
  // ---------------------------------------------------------------------------

  /** `s.lower()`. */
  function Lower(s: string): (r: string)
    ensures |r| == |s|
    ensures forall i :: 0 <= i < |s| ==> r[i] == LowerChar(s[i])
  {
    if s == [] then [] else [LowerChar(s[0])] + Lower(s[1..])
  }

  lemma LowerConcat(a: string, b: string)
    ensures Lower(a + b) == Lower(a) + Lower(b)
  {
    assert forall i :: 0 <= i < |a + b| ==> Lower(a + b)[i] == (Lower(a) + Lower(b))[i];
  }

  /** Lower-casing two texts joined by a space. */
  lemma LowerJoin(x: string, y: string)
    ensures Lower(x + " " + y) == Lower(x) + " " + Lower(y)
  {
    LowerConcat(x + " ", y);
    LowerConcat(x, " ");
  }

  /** The character `str.title()` writes at a position, given whether the
      character before it in the input was cased. */
  function TitleChar(previousIsCased: bool, c: char): char {
    if previousIsCased then LowerChar(c) else UpperChar(c)
  }

  /** The scan of `str.title()`: `previousIsCased` says whether the input
      character just before `s` was a letter. */
  function TitleFrom(s: string, previousIsCased: bool): (r: string)
    ensures |r| == |s|
    ensures |s| > 0 ==> r[0] == TitleChar(previousIsCased, s[0])
    ensures forall i :: 0 < i < |s| ==> r[i] == TitleChar(IsLetter(s[i - 1]), s[i])
  {
    if s == [] then [] else [TitleChar(previousIsCased, s[0])] + TitleFrom(s[1..], IsLetter(s[0]))
  }

  /** `s.title()`: a letter is upper-cased when the character before it is not
      a letter (or it is first) and lower-cased otherwise; other characters
      are kept. */
  function Title(s: string): (r: string)
    ensures |r| == |s|
    ensures |s| > 0 ==> r[0] == UpperChar(s[0])
    ensures forall i :: 0 < i < |s| ==> r[i] == TitleChar(IsLetter(s[i - 1]), s[i])
  {
    TitleFrom(s, false)
  }

  /** Title-casing changes only the case of letters. */
  lemma LowerOfTitle(s: string)
    ensures Lower(Title(s)) == Lower(s)
  {
    var r := Title(s);
    forall i | 0 <= i < |s| ensures LowerChar(r[i]) == LowerChar(s[i]) {
      if i == 0 {
        assert r[i] == UpperChar(s[i]);
      } else {
        assert r[i] == TitleChar(IsLetter(s[i - 1]), s[i]);
      }
    }
    assert Lower(r) == Lower(s);
  }

  /** A title-cased text is its own `title()`. */
  lemma TitleIdempotent(s: string)
    ensures Title(Title(s)) == Title(s)
  {
    var r := Title(s);
    var r' := Title(r);
    forall i | 0 <= i < |s| ensures r'[i] == r[i] {
      if i == 0 {
        assert r[i] == UpperChar(s[i]);
      } else {
        if i == 1 {
          assert r[i - 1] == UpperChar(s[i - 1]);
        } else {
          assert r[i - 1] == TitleChar(IsLetter(s[i - 2]), s[i - 1]);
        }
        assert IsLetter(r[i - 1]) == IsLetter(s[i - 1]);
        assert r[i] == TitleChar(IsLetter(s[i - 1]), s[i]);
      }
    }
  }

  // ---------------------------------------------------------------------------
  // strip()
  // ---------------------------------------------------------------------------

  /** `s.strip()`: the part of `s` between its leading and its trailing
      whitespace. */
  function Strip(s: string): (r: string)
    ensures |r| <= |s|
    ensures r == [] || (!IsSpace(r[0]) && !IsSpace(r[|r| - 1]))
    ensures exists a :: IsStripOf(s, a, r)
  {
    var a := Span(s, 0, Space);
    var b := TrailingSpace(s, a);
    assert IsStripOf(s, a, s[a..|s| - b]);
    s[a..|s| - b]
  }

  /** `r` is `s` with exactly the whitespace `s[..a]` and some trailing
      whitespace removed. */
  ghost predicate IsStripOf(s: string, a: nat, r: string) {
    a + |r| <= |s| && r == s[a..a + |r|] && All(s, 0, a, Space) && All(s, a + |r|, |s|, Space)
  }

  /** The number of whitespace characters at the end of `s[lo..]`. */
  function TrailingSpace(s: string, lo: nat): (n: nat)
    requires lo <= |s|
    ensures lo + n <= |s|
    ensures All(s, |s| - n, |s|, Space)
    ensures |s| - n > lo ==> !IsSpace(s[|s| - n - 1])
    decreases |s| - lo
  {
    if lo < |s| && IsSpace(s[|s| - 1]) then
      var n := TrailingSpace(s[..|s| - 1], lo);
      assert forall t :: |s| - 1 - n <= t < |s| - 1 ==> s[..|s| - 1][t] == s[t];
      n + 1
    else 0
  }

  /** Stripping a string of white space leaves nothing. */
  lemma StripBlank(s: string)
    requires forall c :: c in s ==> IsSpace(c)
    ensures Strip(s) == []
  {
    var r := Strip(s);
    var a: nat :| IsStripOf(s, a, r);
  }

  /** Stripping a string without surrounding whitespace changes nothing. */
  lemma StripUnspaced(s: string)
    requires s != [] ==> !IsSpace(s[0]) && !IsSpace(s[|s| - 1])
    ensures Strip(s) == s
  {
  }

  // ---------------------------------------------------------------------------
  // Substrings, prefixes and replace()
  // ---------------------------------------------------------------------------

  /** `needle` occurs in `hay` starting at index `i`. */
  predicate OccursAt(hay: string, needle: string, i: nat) {
    i + |needle| <= |hay| && hay[i..i + |needle|] == needle
  }

  /** `needle in hay`, as a left-to-right scan. */
  function Contains(hay: string, needle: string): (r: bool)
    ensures r <==> exists i: nat :: OccursAt(hay, needle, i)
  {
    if |needle| > |hay| then false
    else if hay[..|needle|] == needle then
      assert OccursAt(hay, needle, 0);
      true
    else
      OccursInTail(hay, needle);
      Contains(hay[1..], needle)
  }

  /** An occurrence in a non-empty `hay` is at index 0 or an occurrence in `hay[1..]`. */
  lemma OccursInTail(hay: string, needle: string)
    requires |hay| > 0
    ensures (exists i: nat :: OccursAt(hay, needle, i))
        <==> OccursAt(hay, needle, 0) || exists i: nat :: OccursAt(hay[1..], needle, i)
  {
    forall i: nat | OccursAt(hay, needle, i) && i > 0 ensures OccursAt(hay[1..], needle, i - 1) {
      assert hay[1..][i - 1..i - 1 + |needle|] == hay[i..i + |needle|];
    }
    forall i: nat | OccursAt(hay[1..], needle, i) ensures OccursAt(hay, needle, i + 1) {
      assert hay[i + 1..i + 1 + |needle|] == hay[1..][i..i + |needle|];
    }
  }

  /** A text without the first character of `needle` does not contain it. */
  lemma AbsentLead(hay: string, needle: string)
    requires |needle| > 0 && needle[0] !in hay
    ensures !Contains(hay, needle)
  {
    forall i: nat ensures !OccursAt(hay, needle, i) {
      if i + |needle| <= |hay| {
        assert hay[i..i + |needle|][0] == hay[i] && hay[i] in hay;
      }
    }
  }

  /** A substring of a part is a substring of the whole. */
  lemma ContainsInfix(a: string, b: string, c: string, needle: string)
    requires Contains(b, needle)
    ensures Contains(a + b + c, needle)
  {
    var i: nat :| OccursAt(b, needle, i);
    assert (a + b + c)[|a| + i..|a| + i + |needle|] == b[i..i + |needle|];
    assert OccursAt(a + b + c, needle, |a| + i);
  }

  /** `s[:n]` for a non-negative `n`. */
  function Prefix(s: string, n: nat): (r: string)
    ensures |r| == if |s| <= n then |s| else n
    ensures r == s[..|r|]
  {
    if |s| <= n then s else s[..n]
  }

  /** Taking a prefix twice is taking it once. */
  lemma PrefixIdempotent(s: string, n: nat)
    ensures Prefix(Prefix(s, n), n) == Prefix(s, n)
  {
  }

  /** `s.replace(pattern, '')`: removes the non-overlapping occurrences of
      `pattern` found scanning from the left; the result is not re-scanned. */
  function RemoveAll(s: string, pattern: string): (r: string)
    requires |pattern| > 0
    ensures |r| <= |s|
    ensures forall c :: c in r ==> c in s
    ensures !Contains(s, pattern) ==> r == s
    ensures Contains(s, pattern) ==> |r| <= |s| - |pattern|
    ensures s == pattern ==> r == []
    decreases |s|
  {
    if |s| < |pattern| then s
    else if s[..|pattern|] == pattern then
      assert OccursAt(s, pattern, 0);
      var rest := RemoveAll(s[|pattern|..], pattern);
      assert forall c :: c in s[|pattern|..] ==> c in s;
      rest
    else
      OccursInTail(s, pattern);
      var rest := RemoveAll(s[1..], pattern);
      assert forall c :: c in s[1..] ==> c in s;
      [s[0]] + rest
  }

  /** `replace` cuts the leftmost occurrence of `pattern` and carries on with
      the text after it. */
  lemma RemoveAllLeftmost(s: string, pattern: string, i: nat)
    requires |pattern| > 0 && OccursAt(s, pattern, i)
    requires forall i': nat :: i' < i ==> !OccursAt(s, pattern, i')
    ensures RemoveAll(s, pattern) == s[..i] + RemoveAll(s[i + |pattern|..], pattern)
  {
    RemoveAllFrom(s, pattern, 0, i);
    assert s[0..] == s && s[0..i] == s[..i];
  }

  /** `RemoveAllLeftmost` for the text from index `lo` of `s` on, when the
      leftmost occurrence there is at `i`. */
  lemma {:induction false} RemoveAllFrom(s: string, pattern: string, lo: nat, i: nat)
    requires |pattern| > 0 && lo <= i && OccursAt(s, pattern, i)
    requires forall i': nat :: lo <= i' < i ==> !OccursAt(s, pattern, i')
    ensures RemoveAll(s[lo..], pattern) == s[lo..i] + RemoveAll(s[i + |pattern|..], pattern)
    decreases i - lo
  {
    if lo == i {
      RemoveAllStepAt(s, pattern, lo);
      assert s[lo..i] == [];
    } else {
      RemoveAllFrom(s, pattern, lo + 1, i);
      RemoveAllKeepsAt(s, pattern, lo, i);
    }
  }

  /** A character at which `pattern` does not occur is kept in front of what
      `replace` makes of the text after it. */
  lemma RemoveAllKeepsAt(s: string, pattern: string, lo: nat, i: nat)
    requires |pattern| > 0 && lo < i && i + |pattern| <= |s| && !OccursAt(s, pattern, lo)
    requires RemoveAll(s[lo + 1..], pattern) == s[lo + 1..i] + RemoveAll(s[i + |pattern|..], pattern)
    ensures RemoveAll(s[lo..], pattern) == s[lo..i] + RemoveAll(s[i + |pattern|..], pattern)
  {
    RemoveAllStepAt(s, pattern, lo);
    KeepOne(s, lo, i, RemoveAll(s[lo..], pattern), RemoveAll(s[lo + 1..], pattern),
            RemoveAll(s[i + |pattern|..], pattern));
  }

  /** Keeping `s[lo]` in front of a result that starts with `s[lo + 1..i]`
      gives a result that starts with `s[lo..i]`. */
  lemma KeepOne(s: string, lo: nat, i: nat, whole: string, tail: string, after: string)
    requires lo < i <= |s|
    requires whole == [s[lo]] + tail && tail == s[lo + 1..i] + after
    ensures whole == s[lo..i] + after
  {
    assert [s[lo]] + s[lo + 1..i] == s[lo..i];
  }

  /** One step of `replace` at index `lo`: an occurrence there is cut,
      otherwise the character is kept. */
  lemma RemoveAllStepAt(s: string, pattern: string, lo: nat)
    requires |pattern| > 0 && lo + |pattern| <= |s|
    ensures OccursAt(s, pattern, lo) ==> RemoveAll(s[lo..], pattern) == RemoveAll(s[lo + |pattern|..], pattern)
    ensures !OccursAt(s, pattern, lo) ==> RemoveAll(s[lo..], pattern) == [s[lo]] + RemoveAll(s[lo + 1..], pattern)
  {
    var u := s[lo..];
    RemoveAllStep(u, pattern);
    assert OccursAt(u, pattern, 0) == OccursAt(s, pattern, lo) by {
      assert u[..|pattern|] == s[lo..lo + |pattern|];
    }
    assert u[|pattern|..] == s[lo + |pattern|..];
    assert u[1..] == s[lo + 1..];
  }

  /** One step of `replace` at the start of the text. */
  lemma RemoveAllStep(s: string, pattern: string)
    requires |pattern| > 0 && |pattern| <= |s|
    ensures OccursAt(s, pattern, 0) ==> RemoveAll(s, pattern) == RemoveAll(s[|pattern|..], pattern)
    ensures !OccursAt(s, pattern, 0) ==> RemoveAll(s, pattern) == [s[0]] + RemoveAll(s[1..], pattern)
  {
  }

  /** A string without upper-case letters is its own lower-case form. */
  lemma LowerUnchanged(s: string)
    requires forall i :: 0 <= i < |s| ==> !('A' <= s[i] <= 'Z')
    ensures Lower(s) == s
  {
  }

}
