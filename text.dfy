/** The parts of `java.lang.String` and of `java.util.regex` character classes
    that the scraper relies on, stated over Dafny strings.

    Case mapping is ASCII only: `toLowerCase`, `equalsIgnoreCase` and the
    regex flag `(?i)` are modelled for the letters A-Z. */
module Text {

  import opened Values

  // ---------------------------------------------------------------------
  // Character classes
  // ---------------------------------------------------------------------

  /** Characters removed by `String.trim()`: every code point up to U+0020. */
  predicate TrimsAway(c: char) { c <= ' ' }

  /** `Character.isWhitespace`, which `String.isBlank()` uses. */
  predicate IsJavaWhitespace(c: char) {
    ('\t' <= c <= '\r') || ('\U{001C}' <= c <= '\U{001F}') || c == ' '
    || c == '\U{1680}' || ('\U{2000}' <= c <= '\U{2006}') || ('\U{2008}' <= c <= '\U{200A}')
    || c == '\U{2028}' || c == '\U{2029}' || c == '\U{205F}' || c == '\U{3000}'
  }

  /** The regex class `\s`: `[ \t\n\x0B\f\r]`. */
  predicate IsRegexSpace(c: char) {
    c == ' ' || ('\t' <= c <= '\r')
  }

  /** Line terminators, which the regex `.` does not match and before which `$` may match. */
  predicate IsLineTerminator(c: char) {
    c == '\n' || c == '\r' || c == '\U{0085}' || c == '\U{2028}' || c == '\U{2029}'
  }

  predicate IsAsciiDigit(c: char) { '0' <= c <= '9' }

  predicate IsAsciiLetter(c: char) { ('a' <= c <= 'z') || ('A' <= c <= 'Z') }

  /** Word characters for the regex boundary `\b`: `[A-Za-z0-9_]`. */
  predicate IsWordChar(c: char) { IsAsciiLetter(c) || IsAsciiDigit(c) || c == '_' }

  /** The regex assertion `\b` at position `i` of `s`. */
  predicate BoundaryAt(s: string, i: nat)
    requires i <= |s|
  {
    (i > 0 && IsWordChar(s[i - 1])) != (i < |s| && IsWordChar(s[i]))
  }

  predicate AllDigits(s: string) {
    forall k :: 0 <= k < |s| ==> IsAsciiDigit(s[k])
  }

  /** `String.isBlank()`. */
  predicate IsBlank(s: string) {
    forall k :: 0 <= k < |s| ==> IsJavaWhitespace(s[k])
  }

  predicate IsBlankOrNull(s: JString) {
    s.None? || IsBlank(s.value)
  }

  // ---------------------------------------------------------------------
  // trim()
  // ---------------------------------------------------------------------

  /** First index at or after `i` whose character `trim()` keeps. */
  function SkipLeading(s: string, i: nat): (lo: nat)
    requires i <= |s|
    ensures i <= lo <= |s|
    ensures forall k :: i <= k < lo ==> TrimsAway(s[k])
    ensures lo == |s| || !TrimsAway(s[lo])
    decreases |s| - i
  {
    if i < |s| && TrimsAway(s[i]) then SkipLeading(s, i + 1) else i
  }

  /** Largest end at or below `j`, and not below `lo`, that `trim()` keeps. */
  function SkipTrailing(s: string, lo: nat, j: nat): (hi: nat)
    requires lo <= j <= |s|
    ensures lo <= hi <= j
    ensures forall k :: hi <= k < j ==> TrimsAway(s[k])
    ensures hi == lo || !TrimsAway(s[hi - 1])
    decreases j
  {
    if j > lo && TrimsAway(s[j - 1]) then SkipTrailing(s, lo, j - 1) else j
  }

  function TrimLo(s: string): nat
    ensures TrimLo(s) <= |s|
  {
    SkipLeading(s, 0)
  }

  function TrimHi(s: string): nat
    ensures TrimLo(s) <= TrimHi(s) <= |s|
  {
    SkipTrailing(s, TrimLo(s), |s|)
  }

  /** `String.trim()`: `s` without its leading and trailing characters up to U+0020. */
  function Trim(s: string): (r: string)
    ensures |r| <= |s|
    ensures r == [] || (!TrimsAway(r[0]) && !TrimsAway(r[|r| - 1]))
    ensures forall k :: 0 <= k < TrimLo(s) ==> TrimsAway(s[k])
    ensures forall k :: TrimHi(s) <= k < |s| ==> TrimsAway(s[k])
  {
    s[TrimLo(s)..TrimHi(s)]
  }

  /** A string whose ends `trim()` would keep is its own trim. */
  lemma TrimOfTrimmed(s: string)
    requires s == [] || (!TrimsAway(s[0]) && !TrimsAway(s[|s| - 1]))
    ensures Trim(s) == s
  {
    if s != [] {
      assert TrimLo(s) == 0;
      assert TrimHi(s) == |s|;
    }
  }

  lemma TrimIdempotent(s: string)
    ensures Trim(Trim(s)) == Trim(s)
  {
    TrimOfTrimmed(Trim(s));
  }

  /** Trimming never removes a character that `isWhitespace` rejects from the middle:
      every character of `s` that `trim()` keeps lies in `Trim(s)`. */
  lemma TrimKeeps(s: string, k: nat)
    requires k < |s| && !TrimsAway(s[k])
    ensures TrimLo(s) <= k < TrimHi(s)
    ensures Trim(s)[k - TrimLo(s)] == s[k]
  {
  }

  // ---------------------------------------------------------------------
  // Searching
  // ---------------------------------------------------------------------

  predicate OccursAt(text: string, needle: string, i: nat) {
    i + |needle| <= |text| && text[i..i + |needle|] == needle
  }

  function IndexOfFrom(text: string, needle: string, i: nat): (r: int)
    requires i <= |text|
    ensures r == -1 || (i <= r <= |text| && OccursAt(text, needle, r))
    ensures r == -1 ==> forall k :: i <= k <= |text| ==> !OccursAt(text, needle, k)
    ensures r >= 0 ==> forall k :: i <= k < r ==> !OccursAt(text, needle, k)
    decreases |text| - i
  {
    if OccursAt(text, needle, i) then i
    else if i == |text| then -1
    else IndexOfFrom(text, needle, i + 1)
  }

  /** `String.indexOf(String)`: the first position of `needle`, or -1. */
  function IndexOf(text: string, needle: string): int {
    IndexOfFrom(text, needle, 0)
  }

  predicate Contains(text: string, needle: string) {
    IndexOf(text, needle) >= 0
  }

  predicate StartsWith(s: string, prefix: string) {
    |prefix| <= |s| && s[..|prefix|] == prefix
  }

  function LastIndexOfBelow(s: string, c: char, j: nat): (r: int)
    requires j <= |s|
    ensures -1 <= r < j
    ensures r >= 0 ==> s[r] == c
    ensures forall k :: r < k < j ==> s[k] != c
    decreases j
  {
    if j == 0 then -1 else if s[j - 1] == c then j - 1 else LastIndexOfBelow(s, c, j - 1)
  }

  /** `String.lastIndexOf(char)`. */
  function LastIndexOf(s: string, c: char): int {
    LastIndexOfBelow(s, c, |s|)
  }

  // ---------------------------------------------------------------------
  // Case mapping (ASCII)
  // ---------------------------------------------------------------------

  function LowerChar(c: char): char {
    if 'A' <= c <= 'Z' then (c as int + 32) as char else c
  }

  function Lower(s: string): (r: string)
    ensures |r| == |s|
    ensures forall k :: 0 <= k < |s| ==> r[k] == LowerChar(s[k])
  {
    if s == [] then [] else [LowerChar(s[0])] + Lower(s[1..])
  }

  lemma LowerAppend(a: string, b: string)
    ensures Lower(a + b) == Lower(a) + Lower(b)
  {
  }

  lemma LowerSlice(s: string, i: nat, j: nat)
    requires i <= j <= |s|
    ensures Lower(s[i..j]) == Lower(s)[i..j]
  {
  }

  predicate EqualsIgnoreCase(a: string, b: string) {
    Lower(a) == Lower(b)
  }

  /** `needle` (given in lower case) at `i`, ignoring ASCII case. */
  predicate OccursAtIgnoreCase(text: string, needle: string, i: nat) {
    i + |needle| <= |text| && Lower(text[i..i + |needle|]) == needle
  }

  // ---------------------------------------------------------------------
  // Runs and replacements
  // ---------------------------------------------------------------------

  /** Length of the run of `\s` characters starting at `i`. */
  function SpaceRun(s: string, i: nat): (n: nat)
    requires i <= |s|
    ensures i + n <= |s|
    ensures forall k :: i <= k < i + n ==> IsRegexSpace(s[k])
    ensures i + n == |s| || !IsRegexSpace(s[i + n])
    decreases |s| - i
  {
    if i < |s| && IsRegexSpace(s[i]) then 1 + SpaceRun(s, i + 1) else 0
  }

  /** Length of the run of ASCII digits starting at `i`. */
  function DigitRun(s: string, i: nat): (n: nat)
    requires i <= |s|
    ensures i + n <= |s|
    ensures forall k :: i <= k < i + n ==> IsAsciiDigit(s[k])
    ensures i + n == |s| || !IsAsciiDigit(s[i + n])
    decreases |s| - i
  {
    if i < |s| && IsAsciiDigit(s[i]) then 1 + DigitRun(s, i + 1) else 0
  }

  /** `s.replaceAll("[^0-9]", "")`. */
  function KeepDigits(s: string): (r: string)
    ensures AllDigits(r)
    ensures |r| <= |s|
    ensures AllDigits(s) ==> r == s
  {
    if s == [] then []
    else if IsAsciiDigit(s[0]) then [s[0]] + KeepDigits(s[1..])
    else KeepDigits(s[1..])
  }

  /** `KeepDigits` keeps exactly the digits: it is empty iff `s` holds none. */
  lemma {:induction false} KeepDigitsEmpty(s: string)
    ensures KeepDigits(s) == [] <==> forall k :: 0 <= k < |s| ==> !IsAsciiDigit(s[k])
  {
    if s != [] {
      KeepDigitsEmpty(s[1..]);
      assert forall k :: 1 <= k < |s| ==> s[k] == s[1..][k - 1];
    }
  }

  /** On one character `KeepDigits` keeps it exactly when it is a digit. */
  lemma KeepDigitsChar(c: char)
    ensures KeepDigits([c]) == if IsAsciiDigit(c) then [c] else []
  {
    assert [c][1..] == [];
  }

  /** `KeepDigits` works character by character: with `KeepDigitsChar` this fixes the
      result as the digits of `s`, in their order. */
  lemma {:induction false} KeepDigitsAppend(a: string, b: string)
    ensures KeepDigits(a + b) == KeepDigits(a) + KeepDigits(b)
    decreases |a|
  {
    if a == [] {
      assert a + b == b;
    } else {
      assert (a + b)[0] == a[0];
      assert (a + b)[1..] == a[1..] + b;
      KeepDigitsAppend(a[1..], b);
    }
  }

  /** `s.replaceAll("\\s+", " ")`: every maximal run of `\s` becomes one space. */
  function CollapseSpaces(s: string): (r: string)
    ensures forall k :: 0 <= k < |r| && IsRegexSpace(r[k]) ==> r[k] == ' '
    ensures forall k :: 0 <= k < |r| - 1 ==> !(r[k] == ' ' && r[k + 1] == ' ')
    ensures |s| > 0 && !IsRegexSpace(s[0]) ==> |r| > 0 && r[0] == s[0]
    ensures |s| > 0 && IsRegexSpace(s[0]) ==> |r| > 0 && r[0] == ' '
    ensures s == [] <==> r == []
    ensures forall k :: 0 <= k < |r| ==> r[k] == ' ' || r[k] in s
    decreases |s|
  {
    if s == [] then []
    else if IsRegexSpace(s[0]) then " " + CollapseSpaces(s[SpaceRun(s, 0)..])
    else [s[0]] + CollapseSpaces(s[1..])
  }

  /** A `\s` run in `a + b` from inside `a` stops in `a`, or runs on into `b`'s leading run. */
  lemma {:induction false} SpaceRunAppend(a: string, b: string, i: nat)
    requires i <= |a|
    ensures SpaceRun(a + b, i) == if i + SpaceRun(a, i) < |a| then SpaceRun(a, i) else |a| - i + SpaceRun(b, 0)
    decreases |a| - i
  {
    if i == |a| {
      SpaceRunShift(a, b, 0);
    } else {
      assert (a + b)[i] == a[i];
      if IsRegexSpace(a[i]) {
        SpaceRunAppend(a, b, i + 1);
      }
    }
  }

  lemma {:induction false} SpaceRunShift(a: string, b: string, j: nat)
    requires j <= |b|
    ensures SpaceRun(a + b, |a| + j) == SpaceRun(b, j)
    decreases |b| - j
  {
    if j < |b| {
      assert (a + b)[|a| + j] == b[j];
      SpaceRunShift(a, b, j + 1);
    }
  }

  /** Text without `\s` is left as it is. */
  lemma {:induction false} CollapseSpacesNoSpace(s: string)
    requires forall k :: 0 <= k < |s| ==> !IsRegexSpace(s[k])
    ensures CollapseSpaces(s) == s
    decreases |s|
  {
    if s != [] {
      CollapseSpacesNoSpace(s[1..]);
      assert [s[0]] + s[1..] == s;
    }
  }

  /** A whole run of `\s` becomes exactly one space. */
  lemma CollapseSpacesRun(w: string)
    requires w != [] && forall k :: 0 <= k < |w| ==> IsRegexSpace(w[k])
    ensures CollapseSpaces(w) == " "
  {
    SpaceRunAppend(w, [], 0);
    assert w + [] == w;
    assert w[|w|..] == [];
  }

  /** Collapsing distributes over a concatenation whose seam does not join two `\s`
      characters. With `CollapseSpacesNoSpace` and `CollapseSpacesRun` it fixes the result
      of any text split into its words and its whitespace runs. */
  lemma {:induction false} CollapseSpacesAppend(a: string, b: string)
    requires a == [] || b == [] || !IsRegexSpace(a[|a| - 1]) || !IsRegexSpace(b[0])
    ensures CollapseSpaces(a + b) == CollapseSpaces(a) + CollapseSpaces(b)
    decreases |a|
  {
    if a == [] {
      assert a + b == b;
    } else if !IsRegexSpace(a[0]) {
      assert (a + b)[0] == a[0];
      assert (a + b)[1..] == a[1..] + b;
      CollapseSpacesAppend(a[1..], b);
      assert CollapseSpaces(a + b) == [a[0]] + (CollapseSpaces(a[1..]) + CollapseSpaces(b));
      AppendAssoc([a[0]], CollapseSpaces(a[1..]), CollapseSpaces(b));
    } else {
      var na := SpaceRun(a, 0);
      SpaceRunAppend(a, b, 0);
      assert (a + b)[0] == a[0];
      if na < |a| {
        assert (a + b)[na..] == a[na..] + b;
        CollapseSpacesAppend(a[na..], b);
        assert CollapseSpaces(a + b) == " " + (CollapseSpaces(a[na..]) + CollapseSpaces(b));
        AppendAssoc(" ", CollapseSpaces(a[na..]), CollapseSpaces(b));
      } else {
        assert b == [] || SpaceRun(b, 0) == 0;
        assert (a + b)[na..] == b;
        assert a[na..] == [];
        assert CollapseSpaces(a) == " ";
      }
    }
  }

  /** Two words around a whitespace run collapse to the words joined by one space. */
  lemma CollapseSpacesJoin(a: string, w: string, b: string)
    requires w != []
    requires forall k :: 0 <= k < |a| ==> !IsRegexSpace(a[k])
    requires forall k :: 0 <= k < |b| ==> !IsRegexSpace(b[k])
    requires forall k :: 0 <= k < |w| ==> IsRegexSpace(w[k])
    ensures CollapseSpaces(a + w + b) == a + " " + b
  {
    CollapseSpacesRunWord(w, b);
    CollapseSpacesWordFirst(a, w + b);
    AppendAssoc(a, w, b);
    AppendAssoc(a, " ", b);
  }

  lemma CollapseSpacesWordFirst(a: string, rest: string)
    requires forall k :: 0 <= k < |a| ==> !IsRegexSpace(a[k])
    ensures CollapseSpaces(a + rest) == a + CollapseSpaces(rest)
  {
    CollapseSpacesAppend(a, rest);
    CollapseSpacesNoSpace(a);
  }

  lemma CollapseSpacesRunWord(w: string, b: string)
    requires w != []
    requires forall k :: 0 <= k < |b| ==> !IsRegexSpace(b[k])
    requires forall k :: 0 <= k < |w| ==> IsRegexSpace(w[k])
    ensures CollapseSpaces(w + b) == " " + b
  {
    CollapseSpacesAppend(w, b);
    CollapseSpacesNoSpace(b);
    CollapseSpacesRun(w);
  }

  /** The text with every `\s` character removed. */
  function RemoveSpaces(s: string): (r: string)
    ensures |r| <= |s|
    ensures forall k :: 0 <= k < |r| ==> !IsRegexSpace(r[k])
  {
    if s == [] then [] else (if IsRegexSpace(s[0]) then [] else [s[0]]) + RemoveSpaces(s[1..])
  }

  lemma {:induction false} RemoveSpacesAppend(a: string, b: string)
    ensures RemoveSpaces(a + b) == RemoveSpaces(a) + RemoveSpaces(b)
    decreases |a|
  {
    if a == [] {
      assert a + b == b;
    } else {
      assert (a + b)[0] == a[0];
      assert (a + b)[1..] == a[1..] + b;
      RemoveSpacesAppend(a[1..], b);
    }
  }

  lemma {:induction false} RemoveSpacesSkipsRun(s: string, n: nat)
    requires n <= |s| && forall k :: 0 <= k < n ==> IsRegexSpace(s[k])
    ensures RemoveSpaces(s) == RemoveSpaces(s[n..])
    decreases n
  {
    if n > 0 {
      RemoveSpacesSkipsRun(s[1..], n - 1);
      assert s[1..][n - 1..] == s[n..];
    }
  }

  /** Dropping a tail of `\s` characters changes nothing once spaces are removed. */
  lemma RemoveSpacesDropsTail(s: string, hi: nat)
    requires hi <= |s| && forall k :: hi <= k < |s| ==> IsRegexSpace(s[k])
    ensures RemoveSpaces(s[..hi]) == RemoveSpaces(s)
  {
    var back := s[hi..];
    assert s[..hi] + back == s;
    RemoveSpacesAppend(s[..hi], back);
    RemoveSpacesSkipsRun(back, |back|);
    assert back[|back|..] == [];
    AppendNil(RemoveSpaces(s[..hi]));
  }

  /** Cutting `\s` characters off both ends changes nothing once spaces are removed. */
  lemma RemoveSpacesOfMiddle(c: string, lo: nat, hi: nat)
    requires lo <= hi <= |c|
    requires forall k :: 0 <= k < lo ==> IsRegexSpace(c[k])
    requires forall k :: hi <= k < |c| ==> IsRegexSpace(c[k])
    ensures RemoveSpaces(c[lo..hi]) == RemoveSpaces(c)
  {
    RemoveSpacesDropsTail(c, hi);
    var front := c[..hi];
    RemoveSpacesSkipsRun(front, lo);
    assert front[lo..] == c[lo..hi];
  }

  /** When all the characters `trim()` may cut are `\s`, trimming removes only `\s`. */
  lemma RemoveSpacesOfTrim(c: string)
    requires forall k :: 0 <= k < |c| && TrimsAway(c[k]) ==> IsRegexSpace(c[k])
    ensures RemoveSpaces(Trim(c)) == RemoveSpaces(c)
  {
    RemoveSpacesOfMiddle(c, TrimLo(c), TrimHi(c));
  }

  /** Collapsing adds no character up to U+0020 other than the space. */
  lemma CollapseSpacesAddsNoControl(s: string)
    requires forall k :: 0 <= k < |s| && TrimsAway(s[k]) ==> IsRegexSpace(s[k])
    ensures var c := CollapseSpaces(s);
      forall k :: 0 <= k < |c| && TrimsAway(c[k]) ==> IsRegexSpace(c[k])
  {
  }

  /** Collapsing keeps every character that is not `\s`, in order and none added: only
      the whitespace between them changes. */
  lemma {:induction false} CollapseSpacesKeepsText(s: string)
    ensures RemoveSpaces(CollapseSpaces(s)) == RemoveSpaces(s)
    decreases |s|
  {
    if s != [] {
      var r := CollapseSpaces(s);
      if IsRegexSpace(s[0]) {
        var n := SpaceRun(s, 0);
        CollapseSpacesKeepsText(s[n..]);
        RemoveSpacesAppend(" ", CollapseSpaces(s[n..]));
        assert RemoveSpaces(" ") == [] by { assert " "[1..] == []; }
        RemoveSpacesSkipsRun(s, n);
      } else {
        CollapseSpacesKeepsText(s[1..]);
        RemoveSpacesAppend([s[0]], CollapseSpaces(s[1..]));
        assert RemoveSpaces([s[0]]) == [s[0]] by { assert [s[0]][1..] == []; }
      }
    }
  }

  /** `s.replace(c, with)` for a one-character target: every `c` becomes `with`. */
  function ReplaceChar(s: string, c: char, with: string): (r: string)
    ensures c !in with ==> c !in r
    ensures forall d :: d != c && d !in with ==> (d in r <==> d in s)
  {
    if s == [] then []
    else (if s[0] == c then with else [s[0]]) + ReplaceChar(s[1..], c, with)
  }

  /** On one character: the replacement when it is the target, the character otherwise.
      With `ReplaceCharAppend` this fixes the result on every string. */
  lemma ReplaceCharOne(d: char, c: char, with: string)
    ensures ReplaceChar([d], c, with) == if d == c then with else [d]
  {
    assert [d][1..] == [];
    assert with + [] == with;
  }

  lemma ReplaceCharAppend(a: string, b: string, c: char, with: string)
    ensures ReplaceChar(a + b, c, with) == ReplaceChar(a, c, with) + ReplaceChar(b, c, with)
  {
    if a == [] {
      assert a + b == b;
    } else {
      assert (a + b)[0] == a[0];
      assert (a + b)[1..] == a[1..] + b;
      ReplaceCharAppend(a[1..], b, c, with);
    }
  }
}
