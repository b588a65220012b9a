/** The free-text helpers of the Akkodis scraper: whitespace normalisation,
    the position and location heuristics, the numeric id patterns and the
    pagination predicates. Each regular expression the scraper uses is
    written out as the search the regex engine performs for that pattern. */
module AkkodisText {

  import opened Values
  import opened Text

  // ---------------------------------------------------------------------
  // safeText, firstNonBlank, indexOfIgnoreCase
  // ---------------------------------------------------------------------

  /** What `safeText` produces: one space per whitespace run, trimmed. */
  predicate Normalised(s: string) {
    && (forall k :: 0 <= k < |s| && IsRegexSpace(s[k]) ==> s[k] == ' ')
    && (forall k :: 0 <= k < |s| - 1 ==> !(s[k] == ' ' && s[k + 1] == ' '))
    && Trim(s) == s
  }

  /** `text.replaceAll("\\s+", " ").trim()`, null for null. */
  function SafeText(text: JString): (r: JString)
    ensures r.None? <==> text.None?
  {
    if text.None? then None else Some(Trim(CollapseSpaces(text.value)))
  }

  /** The output of `safeText` is normalised; in particular it holds no line break. */
  lemma SafeTextNormalised(text: JString)
    requires text.Some?
    ensures Normalised(SafeText(text).value)
    ensures '\n' !in SafeText(text).value
  {
    var c := CollapseSpaces(text.value);
    var t := Trim(c);
    assert t == c[TrimLo(c)..TrimHi(c)];
    assert forall k :: 0 <= k < |t| ==> t[k] == c[TrimLo(c) + k];
    TrimIdempotent(c);
    assert forall k :: 0 <= k < |t| ==> t[k] != '\n';
  }

  /** Text with no character up to U+0020 comes back unchanged. */
  lemma SafeTextIdentity(s: string)
    requires forall k :: 0 <= k < |s| ==> !TrimsAway(s[k])
    ensures SafeText(Some(s)) == Some(s)
  {
    CollapseSpacesNoSpace(s);
    TrimOfTrimmed(s);
  }

  /** Two words around a whitespace run come back joined by one space. */
  lemma SafeTextJoins(a: string, w: string, b: string)
    requires a != [] && b != [] && w != []
    requires forall k :: 0 <= k < |a| ==> !TrimsAway(a[k])
    requires forall k :: 0 <= k < |b| ==> !TrimsAway(b[k])
    requires forall k :: 0 <= k < |w| ==> IsRegexSpace(w[k])
    ensures SafeText(Some(a + w + b)) == Some(a + " " + b)
  {
    CollapseSpacesJoin(a, w, b);
    var r := a + " " + b;
    assert r[0] == a[0] && r[|r| - 1] == b[|b| - 1];
    TrimOfTrimmed(r);
  }

  /** When every character up to U+0020 in the text is `\s`, `safeText` keeps all the
      other characters, in order, and adds none. */
  lemma SafeTextKeepsText(s: string)
    requires forall k :: 0 <= k < |s| && TrimsAway(s[k]) ==> IsRegexSpace(s[k])
    ensures RemoveSpaces(SafeText(Some(s)).value) == RemoveSpaces(s)
  {
    var c := CollapseSpaces(s);
    CollapseSpacesKeepsText(s);
    CollapseSpacesAddsNoControl(s);
    RemoveSpacesOfTrim(c);
  }

  /** `firstNonBlank(a, b)`: `a` unless it is null or blank, else `b` under the same test. */
  function FirstNonBlank(a: JString, b: JString): (r: JString)
    ensures r.None? <==> IsBlankOrNull(a) && IsBlankOrNull(b)
    ensures r.Some? ==> !IsBlank(r.value) && (r == a || r == b)
    ensures !IsBlankOrNull(a) ==> r == a
  {
    if !IsBlankOrNull(a) then a else if !IsBlankOrNull(b) then b else None
  }

  /** `indexOfIgnoreCase`: -1 when either argument is null, else the first position of the
      needle in the text, both lower-cased. */
  function IndexOfIgnoreCase(text: JString, needle: JString): (r: int)
    ensures text.None? || needle.None? ==> r == -1
    ensures r == -1 || (text.Some? && needle.Some? && 0 <= r && r + |needle.value| <= |text.value|
                        && Lower(text.value)[r..r + |needle.value|] == Lower(needle.value))
    ensures r >= 0 ==> forall k :: 0 <= k < r ==> !OccursAt(Lower(text.value), Lower(needle.value), k)
    ensures text.Some? && needle.Some? && r == -1 ==>
      forall k :: 0 <= k <= |text.value| ==> !OccursAt(Lower(text.value), Lower(needle.value), k)
  {
    if text.None? || needle.None? then -1 else IndexOf(Lower(text.value), Lower(needle.value))
  }

  // ---------------------------------------------------------------------
  // extractPositionText
  // ---------------------------------------------------------------------

  /** `candidate.substring(0, idx).trim()` when `idx > 0` and that is not blank. */
  function CutBefore(c: string, idx: int): (r: JString)
    requires idx <= |c|
    ensures r.Some? ==> 0 < idx && r.value == Trim(c[..idx]) && !IsBlank(r.value)
    ensures r.None? ==> idx <= 0 || IsBlank(Trim(c[..idx]))
  {
    if idx > 0 && !IsBlank(Trim(c[..idx])) then Some(Trim(c[..idx])) else None
  }

  /** `extractPositionText(linkText, itemText)`. */
  function ExtractPositionText(linkText: JString, itemText: JString): JString {
    var candidate := FirstNonBlank(linkText, itemText);
    if candidate.None? then None
    else
      var c := candidate.value;
      var byReference := CutBefore(c, IndexOfIgnoreCase(candidate, Some("Reference Number")));
      if byReference.Some? then byReference
      else
        var byWorkOutline := CutBefore(c, IndexOfIgnoreCase(candidate, Some("work_outline")));
        if byWorkOutline.Some? then byWorkOutline
        else
          var byLineBreak := CutBefore(c, IndexOf(c, "\n"));
          if byLineBreak.Some? then byLineBreak else candidate
  }

  /** The position is null exactly when both texts are null or blank; otherwise it is a
      non-blank string that is the candidate itself or the trimmed text in front of a
      proper position of it. */
  lemma PositionShape(linkText: JString, itemText: JString)
    ensures var r := ExtractPositionText(linkText, itemText);
      && (r.None? <==> IsBlankOrNull(linkText) && IsBlankOrNull(itemText))
      && (r.Some? ==> !IsBlank(r.value))
      && (r.Some? ==> var c := FirstNonBlank(linkText, itemText).value;
            r.value == c || exists k :: 0 < k < |c| && r.value == Trim(c[..k]))
  {
    var r := ExtractPositionText(linkText, itemText);
    var candidate := FirstNonBlank(linkText, itemText);
    if candidate.Some? {
      var c := candidate.value;
      var i1 := IndexOfIgnoreCase(candidate, Some("Reference Number"));
      var i2 := IndexOfIgnoreCase(candidate, Some("work_outline"));
      var i3 := IndexOf(c, "\n");
      if CutBefore(c, i1).Some? {
        assert 0 < i1 < |c|;
      } else if CutBefore(c, i2).Some? {
        assert 0 < i2 < |c|;
      } else if CutBefore(c, i3).Some? {
        assert OccursAt(c, "\n", i3);
        assert 0 < i3 < |c|;
      }
    }
  }

  /** The reference cut comes first: when "Reference Number" occurs (in any case) after a
      non-blank title, the position is that title, and the title holds no occurrence of
      the phrase itself. */
  lemma PositionStopsAtReference(linkText: JString, itemText: JString)
    requires var candidate := FirstNonBlank(linkText, itemText);
      candidate.Some? && CutBefore(candidate.value, IndexOfIgnoreCase(candidate, Some("Reference Number"))).Some?
    ensures var c := FirstNonBlank(linkText, itemText).value;
      var idx := IndexOfIgnoreCase(Some(c), Some("Reference Number"));
      && ExtractPositionText(linkText, itemText) == Some(Trim(c[..idx]))
      && IndexOfIgnoreCase(ExtractPositionText(linkText, itemText), Some("Reference Number")) == -1
  {
    var c := FirstNonBlank(linkText, itemText).value;
    var idx := IndexOfIgnoreCase(Some(c), Some("Reference Number"));
    var title := Trim(c[..idx]);
    assert title == c[..idx][TrimLo(c[..idx])..TrimHi(c[..idx])];
    SliceOfPrefix(c, idx, TrimLo(c[..idx]), TrimHi(c[..idx]));
    NoOccurrenceInSlice(c, Lower("Reference Number"), idx, TrimLo(c[..idx]), TrimHi(c[..idx]));
  }

  lemma SliceOfPrefix(c: string, idx: nat, lo: nat, hi: nat)
    requires lo <= hi <= idx <= |c|
    ensures c[..idx][lo..hi] == c[lo..hi]
  {
  }

  /** A string without a line break has no index for `"\n"`. */
  lemma NoLineBreakIndex(c: string)
    requires '\n' !in c
    ensures IndexOf(c, "\n") == -1
  {
    forall k | 0 <= k <= |c|
      ensures !OccursAt(c, "\n", k)
    {
      if k + 1 <= |c| {
        assert c[k..k + 1][0] == c[k];
      }
    }
  }

  /** A slice lying in front of the first occurrence of `needle` holds no occurrence of it. */
  lemma NoOccurrenceInSlice(t: string, needle: string, idx: nat, lo: nat, hi: nat)
    requires lo <= hi <= idx <= |t| && needle != []
    requires forall k :: 0 <= k < idx ==> !OccursAt(Lower(t), needle, k)
    ensures forall k :: 0 <= k <= hi - lo ==> !OccursAt(Lower(t[lo..hi]), needle, k)
  {
    var low := Lower(t);
    LowerSlice(t, lo, hi);
    forall k | 0 <= k <= hi - lo
      ensures !OccursAt(Lower(t[lo..hi]), needle, k)
    {
      if k + |needle| <= hi - lo {
        OccurrenceInSlice(low, needle, lo, hi, k);
      }
    }
  }

  /** An occurrence inside a slice is an occurrence in the whole string, shifted. */
  lemma OccurrenceInSlice(low: string, needle: string, lo: nat, hi: nat, k: nat)
    requires lo <= hi <= |low| && k + |needle| <= hi - lo
    ensures OccursAt(low[lo..hi], needle, k) ==> OccursAt(low, needle, lo + k)
  {
    SliceOfSlice(low, lo, hi, k, k + |needle|);
  }

  lemma SliceOfSlice(s: string, lo: nat, hi: nat, a: nat, b: nat)
    requires lo <= hi <= |s| && a <= b <= hi - lo
    ensures s[lo..hi][a..b] == s[lo + a..lo + b]
  {
    assert forall i :: 0 <= i < b - a ==> s[lo..hi][a..b][i] == s[lo + a + i];
  }

  /** From `safeText` outputs the line-break cut never applies: the position is the
      reference cut, the `work_outline` cut or the candidate as it is. */
  lemma PositionFromSafeText(link: JString, item: JString)
    ensures var a, b := SafeText(link), SafeText(item);
      var r := ExtractPositionText(a, b);
      var candidate := FirstNonBlank(a, b);
      r.Some? ==> (|| r == candidate
                   || r == CutBefore(candidate.value, IndexOfIgnoreCase(candidate, Some("Reference Number")))
                   || r == CutBefore(candidate.value, IndexOfIgnoreCase(candidate, Some("work_outline"))))
  {
    var a, b := SafeText(link), SafeText(item);
    var candidate := FirstNonBlank(a, b);
    if candidate.Some? {
      var c := candidate.value;
      if candidate == a { SafeTextNormalised(link); } else { SafeTextNormalised(item); }
      NoLineBreakIndex(c);
    }
  }

  // ---------------------------------------------------------------------
  // Numeric ids: `\d{5,}` and `/(\d{n,})\b`
  // ---------------------------------------------------------------------

  /** The first position at or after `i` where at least `minLen` digits start. */
  function FirstDigitRunFrom(s: string, minLen: nat, i: nat): (r: Option<nat>)
    requires i <= |s|
    ensures r.Some? ==> i <= r.value <= |s| && DigitRun(s, r.value) >= minLen
    ensures r.Some? ==> forall k :: i <= k < r.value ==> DigitRun(s, k) < minLen
    ensures r.None? ==> forall k :: i <= k <= |s| ==> DigitRun(s, k) < minLen
    decreases |s| - i
  {
    if DigitRun(s, i) >= minLen then Some(i)
    else if i == |s| then None
    else FirstDigitRunFrom(s, minLen, i + 1)
  }

  /** `text.matches(".*\\d{5,}.*")`: `.` matches no line terminator, so the whole text
      must be free of them besides holding five consecutive digits. */
  predicate HasFiveDigitsOnOneLine(text: string) {
    (forall k :: 0 <= k < |text| ==> !IsLineTerminator(text[k])) && FirstDigitRunFrom(text, 5, 0).Some?
  }

  /** `m.find()` then `m.group()` for `\d{5,}`: the greedy run at the leftmost start. */
  function FiveDigitMatch(text: string): (r: string)
    requires FirstDigitRunFrom(text, 5, 0).Some?
    ensures |r| >= 5 && AllDigits(r)
  {
    var i := FirstDigitRunFrom(text, 5, 0).value;
    text[i..i + DigitRun(text, i)]
  }

  /** The run found is a maximal one: no digit stands right before or after it. */
  lemma FiveDigitMatchIsMaximal(text: string)
    requires FirstDigitRunFrom(text, 5, 0).Some?
    ensures var i := FirstDigitRunFrom(text, 5, 0).value;
      && (i == 0 || !IsAsciiDigit(text[i - 1]))
      && (i + DigitRun(text, i) == |text| || !IsAsciiDigit(text[i + DigitRun(text, i)]))
  {
    var i := FirstDigitRunFrom(text, 5, 0).value;
    if i > 0 {
      assert DigitRun(text, i - 1) < 5;
    }
  }

  /** `/(\d{n,})\b` matches at `i`: a slash, then a digit run of at least `minLen` that
      ends at a word boundary. The run is maximal, since the boundary cannot fall
      between two digits. */
  predicate SlashRunAt(s: string, i: nat, minLen: nat) {
    i < |s| && s[i] == '/' && DigitRun(s, i + 1) >= minLen && BoundaryAt(s, i + 1 + DigitRun(s, i + 1))
  }

  function FirstSlashRunFrom(s: string, minLen: nat, i: nat): (r: Option<nat>)
    requires i <= |s|
    ensures r.Some? ==> i <= r.value < |s| && SlashRunAt(s, r.value, minLen)
    ensures r.Some? ==> forall k :: i <= k < r.value ==> !SlashRunAt(s, k, minLen)
    ensures r.None? ==> forall k :: i <= k < |s| ==> !SlashRunAt(s, k, minLen)
    decreases |s| - i
  {
    if i == |s| then None
    else if SlashRunAt(s, i, minLen) then Some(i)
    else FirstSlashRunFrom(s, minLen, i + 1)
  }

  /** `group(1)` of a match of `/(\d{n,})\b` at `i`. */
  function SlashRunDigits(s: string, i: nat): (r: string)
    requires i < |s|
    ensures |r| == DigitRun(s, i + 1) && AllDigits(r)
  {
    s[i + 1..i + 1 + DigitRun(s, i + 1)]
  }

  /** Akkodis `parseReqIdFromUrl`: the first `/` + 8 or more digits at a boundary, else
      the first `/` + 5 or more digits at a boundary, else null. */
  function AkkodisReqIdFromUrl(url: JString): (r: JString)
    ensures r.Some? ==> url.Some? && |r.value| >= 5 && AllDigits(r.value)
  {
    if url.None? then None
    else
      var long := FirstSlashRunFrom(url.value, 8, 0);
      if long.Some? then Some(SlashRunDigits(url.value, long.value))
      else
        var short := FirstSlashRunFrom(url.value, 5, 0);
        if short.Some? then Some(SlashRunDigits(url.value, short.value)) else None
  }

  /** The id is a number that follows a slash in the URL and ends at a word boundary; an
      8-digit one anywhere is preferred over a shorter one before it. */
  lemma AkkodisReqIdFromUrlSource(url: JString)
    ensures var r := AkkodisReqIdFromUrl(url);
      && (r.Some? ==> exists i :: 0 <= i < |url.value| && SlashRunAt(url.value, i, 5) && r.value == SlashRunDigits(url.value, i))
      && (url.Some? && (exists i :: 0 <= i < |url.value| && SlashRunAt(url.value, i, 8)) ==> |r.value| >= 8)
      && (url.Some? && r.None? ==> forall i :: 0 <= i < |url.value| ==> !SlashRunAt(url.value, i, 5))
  {
    if url.Some? {
      var u := url.value;
      var long := FirstSlashRunFrom(u, 8, 0);
      if long.Some? {
        assert SlashRunAt(u, long.value, 5);
      }
    }
  }

  /** A URL ending in `/` and a number, with no earlier slash directly before a digit,
      yields that number. */
  lemma AkkodisTrailingNumber(prefix: string, digits: string)
    requires |digits| >= 5 && AllDigits(digits)
    requires forall k :: 0 <= k < |prefix| - 1 ==> !(prefix[k] == '/' && IsAsciiDigit(prefix[k + 1]))
    ensures AkkodisReqIdFromUrl(Some(prefix + "/" + digits)) == Some(digits)
  {
    var u := prefix + "/" + digits;
    var p := |prefix|;
    assert u[p] == '/';
    assert forall k :: p < k < |u| ==> u[k] == digits[k - p - 1];
    DigitRunToEnd(u, p + 1);
    assert SlashRunDigits(u, p) == digits;
    forall k | 0 <= k < p
      ensures !SlashRunAt(u, k, 5)
    {
      if u[k] == '/' {
        if k < p - 1 {
          assert u[k + 1] == prefix[k + 1];
        } else {
          assert u[k + 1] == '/';
        }
        assert DigitRun(u, k + 1) == 0;
      }
    }
    if |digits| >= 8 {
      assert SlashRunAt(u, p, 8);
      assert FirstSlashRunFrom(u, 8, 0) == Some(p);
    } else {
      assert forall k :: 0 <= k < |u| ==> !SlashRunAt(u, k, 8);
      assert SlashRunAt(u, p, 5);
      assert FirstSlashRunFrom(u, 5, 0) == Some(p);
    }
  }

  /** A run of digits that reaches the end of the string. */
  lemma {:induction false} DigitRunToEnd(s: string, i: nat)
    requires i <= |s| && forall k :: i <= k < |s| ==> IsAsciiDigit(s[k])
    ensures DigitRun(s, i) == |s| - i
    decreases |s| - i
  {
    if i < |s| {
      DigitRunToEnd(s, i + 1);
    }
  }

  // ---------------------------------------------------------------------
  // extractLocationText
  // ---------------------------------------------------------------------

  /** `$` without MULTILINE: at the end, or before a line terminator that ends the input
      (a final "\r\n" counts as one terminator). */
  predicate DollarAt(s: string, e: nat)
    requires e <= |s|
  {
    || e == |s|
    || (e == |s| - 1 && IsLineTerminator(s[e]) && !(s[e] == '\n' && e > 0 && s[e - 1] == '\r'))
    || (e == |s| - 2 && s[e] == '\r' && s[e + 1] == '\n')
  }

  /** `\s+calendar_today\b` at `e`, the keyword in any ASCII case. Backing off the greedy
      `\s+` cannot help, as it would leave a space where the keyword must start. */
  predicate CalendarAt(s: string, e: nat)
    requires e <= |s|
  {
    var w := SpaceRun(s, e);
    w >= 1 && OccursAtIgnoreCase(s, "calendar_today", e + w) && BoundaryAt(s, e + w + 14)
  }

  /** The lazy group `(.+?)` from `g` may end at `e` with the rest of the pattern matching
      there: the group is not empty, crosses no line terminator, and `\s+calendar_today\b`
      or `$` follows it. */
  predicate PlaceTailAt(s: string, g: nat, e: nat) {
    && g < e <= |s|
    && (forall k :: g <= k < e ==> !IsLineTerminator(s[k]))
    && (CalendarAt(s, e) || DollarAt(s, e))
  }

  /** `(?i)\bplace\s+(.+?)(?:\s+calendar_today\b|$)` can match at `i` with group 1 the
      text from `g` to `e`: the `\s+` covers some non-empty part of the whitespace run after
      the keyword. */
  predicate PlaceMatchAt(s: string, i: nat, g: nat, e: nat) {
    && i <= |s| && BoundaryAt(s, i) && OccursAtIgnoreCase(s, "place", i)
    && i + 5 < g <= i + 5 + SpaceRun(s, i + 5)
    && PlaceTailAt(s, g, e)
  }

  /** The lazy group `(.+?)` started at `g`, tried at ends `e`, `e + 1`, ...: the first end
      at which the rest of the pattern matches, or none at all (`LazyPlaceEndIsFirst`). */
  function LazyPlaceEnd(s: string, g: nat, e: nat): (r: Option<nat>)
    requires g < e <= |s|
    ensures r.Some? ==> e <= r.value <= |s|
    decreases |s| - e
  {
    if IsLineTerminator(s[e - 1]) then None
    else if CalendarAt(s, e) || DollarAt(s, e) then Some(e)
    else if e == |s| then None
    else LazyPlaceEnd(s, g, e + 1)
  }

  /** The lazy search returns the first end from `e` on that the rest of the pattern
      accepts, and none exactly when no end up to the end of the text is accepted. */
  lemma {:induction false} LazyPlaceEndIsFirst(s: string, g: nat, e: nat)
    requires g < e <= |s|
    requires forall k :: g <= k < e - 1 ==> !IsLineTerminator(s[k])
    ensures var r := LazyPlaceEnd(s, g, e);
      && (r.Some? ==> PlaceTailAt(s, g, r.value))
      && (r.Some? ==> forall x :: e <= x < r.value ==> !PlaceTailAt(s, g, x))
      && (r.None? ==> forall x :: e <= x <= |s| ==> !PlaceTailAt(s, g, x))
    decreases |s| - e
  {
    if !IsLineTerminator(s[e - 1]) && !(CalendarAt(s, e) || DollarAt(s, e)) && e < |s| {
      LazyPlaceEndIsFirst(s, g, e + 1);
    }
  }

  /** The lazy group `(.+?)` started at `g`: its first admissible end, or none at all
      (`FirstPlaceEndIsFirst`). */
  function FirstPlaceEnd(s: string, g: nat): (r: Option<nat>)
    ensures r.Some? ==> g < r.value <= |s|
  {
    if g < |s| then LazyPlaceEnd(s, g, g + 1) else None
  }

  /** The end `FirstPlaceEnd` gives is accepted and no earlier one is; none means no end is. */
  lemma FirstPlaceEndIsFirst(s: string, g: nat)
    ensures var r := FirstPlaceEnd(s, g);
      && (r.Some? ==> PlaceTailAt(s, g, r.value))
      && (r.Some? ==> forall x: nat :: x < r.value ==> !PlaceTailAt(s, g, x))
      && (r.None? ==> forall x: nat :: !PlaceTailAt(s, g, x))
  {
    if g < |s| {
      LazyPlaceEndIsFirst(s, g, g + 1);
    }
  }

  /** `\s+` backing off from `m` spaces to one, each time trying `(.+?)` after it: the
      largest group start whose lazy group can end somewhere, with that group's first end. */
  function PlaceWithSpaces(s: string, i: nat, m: nat): (r: Option<(nat, nat)>)
    requires i + 5 + m <= |s|
    ensures r.Some? ==> i + 5 < r.value.0 <= i + 5 + m && FirstPlaceEnd(s, r.value.0) == Some(r.value.1)
    ensures r.Some? ==> forall h: nat :: r.value.0 < h <= i + 5 + m ==> FirstPlaceEnd(s, h).None?
    ensures r.None? ==> forall h: nat :: i + 5 < h <= i + 5 + m ==> FirstPlaceEnd(s, h).None?
    decreases m
  {
    if m == 0 then None
    else
      var g := i + 5 + m;
      var end := FirstPlaceEnd(s, g);
      if end.Some? then Some((g, end.value)) else PlaceWithSpaces(s, i, m - 1)
  }

  /** A group start that admits an end has a first one, no later than any end it admits. */
  lemma FirstPlaceEndBound(s: string, g: nat, e: nat)
    requires PlaceTailAt(s, g, e)
    ensures FirstPlaceEnd(s, g).Some? && FirstPlaceEnd(s, g).value <= e
  {
    FirstPlaceEndIsFirst(s, g);
  }

  /** After the keyword, the greedy `\s+` and the lazy group: the start and end that
      `PlaceWithSpaces` picks form a match, and it has priority over every other match
      at `i`; when it picks none, there is no match at `i`. */
  lemma PlaceWithSpacesMatches(s: string, i: nat)
    requires i <= |s| && BoundaryAt(s, i) && OccursAtIgnoreCase(s, "place", i)
    ensures var r := PlaceWithSpaces(s, i, SpaceRun(s, i + 5));
      && (r.Some? ==> PlaceMatchAt(s, i, r.value.0, r.value.1))
      && (r.Some? ==> forall g: nat, e: nat :: PlaceMatchAt(s, i, g, e) ==>
            g < r.value.0 || (g == r.value.0 && r.value.1 <= e))
      && (r.None? ==> forall g: nat, e: nat :: !PlaceMatchAt(s, i, g, e))
  {
    var r := PlaceWithSpaces(s, i, SpaceRun(s, i + 5));
    if r.Some? {
      FirstPlaceEndIsFirst(s, r.value.0);
    }
    forall g: nat, e: nat | PlaceMatchAt(s, i, g, e)
      ensures FirstPlaceEnd(s, g).Some? && FirstPlaceEnd(s, g).value <= e
    {
      FirstPlaceEndBound(s, g, e);
    }
  }

  /** `(?i)\bplace\s+(.+?)(?:\s+calendar_today\b|$)` tried at `i`: the bounds of group 1 in
      the match the regex engine picks there (greedy `\s+` first, then the lazy group),
      or none when the pattern cannot match at `i`. */
  function PlaceAt(s: string, i: nat): (r: Option<(nat, nat)>)
    requires i <= |s|
    ensures r.Some? ==> i + 5 < r.value.0 < r.value.1 <= |s|
    ensures r.Some? ==> PlaceMatchAt(s, i, r.value.0, r.value.1)
    ensures r.Some? ==> forall g: nat, e: nat :: PlaceMatchAt(s, i, g, e) ==>
      g < r.value.0 || (g == r.value.0 && r.value.1 <= e)
    ensures r.None? ==> forall g: nat, e: nat :: !PlaceMatchAt(s, i, g, e)
  {
    if BoundaryAt(s, i) && OccursAtIgnoreCase(s, "place", i) then
      PlaceWithSpacesMatches(s, i);
      PlaceWithSpaces(s, i, SpaceRun(s, i + 5))
    else None
  }

  /** `placeMatcher.find()`: the match with the leftmost start at or after `i`. */
  function PlaceFrom(s: string, i: nat): (r: Option<(nat, nat)>)
    requires i <= |s|
    ensures r.Some? ==> i < r.value.0 < r.value.1 <= |s|
    ensures r.Some? ==> exists j: nat :: i <= j <= |s| && PlaceAt(s, j) == r &&
                                  (forall j' :: i <= j' < j ==> PlaceAt(s, j').None?)
    ensures r.None? ==> forall j :: i <= j <= |s| ==> PlaceAt(s, j).None?
    decreases |s| - i
  {
    var here := PlaceAt(s, i);
    if here.Some? then here else if i == |s| then None else PlaceFrom(s, i + 1)
  }

  /** The class `[A-Za-z .'-]`. */
  predicate IsCityChar(c: char) {
    IsAsciiLetter(c) || c == ' ' || c == '.' || c == '\'' || c == '-'
  }

  /** Length of the run of `[A-Za-z .'-]` characters starting at `i`. */
  function CityRun(s: string, i: nat): (n: nat)
    requires i <= |s|
    ensures i + n <= |s|
    ensures forall k :: i <= k < i + n ==> IsCityChar(s[k])
    ensures i + n == |s| || !IsCityChar(s[i + n])
    decreases |s| - i
  {
    if i < |s| && IsCityChar(s[i]) then 1 + CityRun(s, i + 1) else 0
  }

  /** The largest `E` in `[lo, hi]` with a word boundary at `E`, or none. */
  function LastBoundaryIn(s: string, lo: nat, hi: nat): (r: Option<nat>)
    requires hi <= |s|
    ensures r.Some? ==> lo <= r.value <= hi && BoundaryAt(s, r.value)
    ensures r.Some? ==> forall k :: r.value < k <= hi ==> !BoundaryAt(s, k)
    ensures r.None? ==> forall k :: lo <= k <= hi ==> !BoundaryAt(s, k)
    decreases hi
  {
    if hi < lo then None
    else if BoundaryAt(s, hi) then Some(hi)
    else if hi == lo then None
    else LastBoundaryIn(s, lo, hi - 1)
  }

  /** `\b([A-Za-z][A-Za-z .'-]+,\s*[A-Za-z][A-Za-z .'-]+)\b` can match at `i` with the
      comma at `c`, the second word's first letter at `l` and group 1 ending at `e`. */
  predicate CityMatch(s: string, i: nat, c: nat, l: nat, e: nat) {
    && i + 1 < c < l && l + 1 < e <= |s|
    && BoundaryAt(s, i) && IsAsciiLetter(s[i])
    && (forall k :: i + 1 <= k < c ==> IsCityChar(s[k]))
    && s[c] == ','
    && (forall k :: c + 1 <= k < l ==> IsRegexSpace(s[k]))
    && IsAsciiLetter(s[l])
    && (forall k :: l + 1 <= k < e ==> IsCityChar(s[k]))
    && BoundaryAt(s, e)
  }

  /** The "City, Region" pattern tried at `i`: the end of group 1 in the match the engine
      picks, or none when the pattern cannot match at `i`. The first `+` must stop right
      before the comma and `\s*` right before the letter, so only the last `+` backs off,
      to the longest length ending at a boundary. */
  function CityAt(s: string, i: nat): (r: Option<nat>)
    requires i <= |s|
    ensures r.Some? ==> i < |s| && IsAsciiLetter(s[i]) && i + 4 <= r.value <= |s|
    ensures r.Some? ==> exists c: nat, l: nat :: CityMatch(s, i, c, l, r.value)
    ensures r.Some? ==> forall c: nat, l: nat, e: nat :: CityMatch(s, i, c, l, e) ==> e <= r.value
    ensures r.None? ==> forall c: nat, l: nat, e: nat :: !CityMatch(s, i, c, l, e)
  {
    if i < |s| && BoundaryAt(s, i) && IsAsciiLetter(s[i]) then
      var r1 := CityRun(s, i + 1);
      var c := i + 1 + r1;
      if r1 >= 1 && c < |s| && s[c] == ',' then
        var l := c + 1 + SpaceRun(s, c + 1);
        if l < |s| && IsAsciiLetter(s[l]) then
          var e := LastBoundaryIn(s, l + 2, l + 1 + CityRun(s, l + 1));
          assert e.Some? ==> CityMatch(s, i, c, l, e.value);
          e
        else None
      else None
    else None
  }

  /** `cityStateMatcher.find()`: the bounds of the match with the leftmost start. */
  function CityFrom(s: string, i: nat): (r: Option<(nat, nat)>)
    requires i <= |s|
    ensures r.Some? ==> i <= r.value.0 < r.value.1 <= |s| && IsAsciiLetter(s[r.value.0])
    ensures r.Some? ==> CityAt(s, r.value.0) == Some(r.value.1)
    ensures r.Some? ==> forall j :: i <= j < r.value.0 ==> CityAt(s, j).None?
    ensures r.None? ==> forall j :: i <= j <= |s| ==> CityAt(s, j).None?
    decreases |s| - i
  {
    var here := CityAt(s, i);
    if here.Some? then Some((i, here.value)) else if i == |s| then None else CityFrom(s, i + 1)
  }

  /** The text `extractLocationText` matches against: each line break replaced by a space,
      whitespace runs collapsed, trimmed. */
  function NormaliseForLocation(text: string): string {
    Trim(CollapseSpaces(ReplaceChar(text, '\n', " ")))
  }

  /** `extractLocationText(text)`: the trimmed group after "place", unless that is blank,
      else the trimmed "City, Region" group, else null. */
  function ExtractLocationText(text: JString): JString {
    if text.None? || IsBlank(text.value) then None
    else
      var n := NormaliseForLocation(text.value);
      var place := PlaceFrom(n, 0);
      var fromPlace := if place.Some? then Trim(n[place.value.0..place.value.1]) else [];
      if place.Some? && !IsBlank(fromPlace) then Some(fromPlace)
      else
        var city := CityFrom(n, 0);
        if city.Some? then Some(Trim(n[city.value.0..city.value.1])) else None
  }

  /** A location is null, or a trimmed non-blank string; null and blank text give null. */
  lemma LocationShape(text: JString)
    ensures var r := ExtractLocationText(text);
      && (IsBlankOrNull(text) ==> r.None?)
      && (r.Some? ==> Trim(r.value) == r.value && !IsBlank(r.value))
  {
    var r := ExtractLocationText(text);
    if r.Some? {
      var n := NormaliseForLocation(text.value);
      var place := PlaceFrom(n, 0);
      if place.Some? && !IsBlank(Trim(n[place.value.0..place.value.1])) {
        TrimIdempotent(n[place.value.0..place.value.1]);
      } else {
        CityGroupTrimmed(n, CityFrom(n, 0).value);
      }
    }
  }

  /** A "City, Region" group starts with a letter, so trimming it leaves a non-blank string. */
  lemma CityGroupTrimmed(n: string, city: (nat, nat))
    requires city.0 < city.1 <= |n| && IsAsciiLetter(n[city.0])
    ensures var g := Trim(n[city.0..city.1]); Trim(g) == g && !IsBlank(g)
  {
    var group := n[city.0..city.1];
    assert group[0] == n[city.0];
    TrimmedFromNonBlankStart(group);
  }

  /** A string starting with a character that is neither trimmed away nor whitespace gives
      a trimmed, non-blank result. */
  lemma TrimmedFromNonBlankStart(g: string)
    requires g != [] && !TrimsAway(g[0]) && !IsJavaWhitespace(g[0])
    ensures Trim(Trim(g)) == Trim(g) && !IsBlank(Trim(g))
  {
    TrimKeeps(g, 0);
    assert Trim(g)[0] == g[0];
    TrimIdempotent(g);
  }

  /** A "place" phrase with a non-blank group wins over the "City, Region" pattern, even
      when that pattern matches further left. */
  lemma PlaceBeatsCity(text: string)
    requires !IsBlank(text)
    requires var n := NormaliseForLocation(text);
      PlaceFrom(n, 0).Some? && !IsBlank(Trim(n[PlaceFrom(n, 0).value.0..PlaceFrom(n, 0).value.1]))
    ensures var n := NormaliseForLocation(text);
      var p := PlaceFrom(n, 0).value;
      ExtractLocationText(Some(text)) == Some(Trim(n[p.0..p.1]))
  {
  }

  /** At a start where the pattern matches, the engine picks the longest whitespace part
      and then the shortest group. */
  lemma PlaceAtPicks(n: string, j: nat, g: nat, e: nat)
    requires PlaceMatchAt(n, j, g, e)
    requires forall g': nat, e': nat :: PlaceMatchAt(n, j, g', e') ==> g' < g || (g' == g && e <= e')
    ensures PlaceAt(n, j) == Some((g, e))
  {
    var q := PlaceAt(n, j).value;
    assert q.0 < g || (q.0 == g && e <= q.1);
  }

  /** `placeMatcher.find()` as the regex engine runs it: when the leftmost match starts at
      `j` and `(g, e)` is the group picked there (the longest whitespace part first, then
      the shortest group), the search returns exactly that group. */
  lemma PlaceFromIsLeftmost(n: string, j: nat, g: nat, e: nat)
    requires PlaceMatchAt(n, j, g, e)
    requires forall j': nat, g': nat, e': nat :: j' < j ==> !PlaceMatchAt(n, j', g', e')
    requires forall g': nat, e': nat :: PlaceMatchAt(n, j, g', e') ==> g' < g || (g' == g && e <= e')
    ensures PlaceFrom(n, 0) == Some((g, e))
  {
    PlaceAtPicks(n, j, g, e);
    var p := PlaceFrom(n, 0);
    var start: nat :| start <= |n| && PlaceAt(n, start) == p && forall j' :: 0 <= j' < start ==> PlaceAt(n, j').None?;
    assert start >= j;
  }

  /** No "place" match anywhere: `placeMatcher.find()` fails. */
  lemma NoPlaceMatchAnywhere(n: string)
    requires forall j: nat, g: nat, e: nat :: !PlaceMatchAt(n, j, g, e)
    ensures PlaceFrom(n, 0).None?
  {
  }

  /** At a start where the pattern matches, the engine picks the longest last word. */
  lemma CityAtPicks(n: string, j: nat, c: nat, l: nat, e: nat)
    requires CityMatch(n, j, c, l, e)
    requires forall c': nat, l': nat, e': nat :: CityMatch(n, j, c', l', e') ==> e' <= e
    ensures CityAt(n, j) == Some(e)
  {
    var q := CityAt(n, j).value;
    var c1: nat, l1: nat :| CityMatch(n, j, c1, l1, q);
  }

  /** `cityStateMatcher.find()` as the regex engine runs it: the leftmost start, and there
      the longest last word that ends at a word boundary. */
  lemma CityFromIsLeftmost(n: string, j: nat, c: nat, l: nat, e: nat)
    requires CityMatch(n, j, c, l, e)
    requires forall j': nat, c': nat, l': nat, e': nat :: j' < j ==> !CityMatch(n, j', c', l', e')
    requires forall c': nat, l': nat, e': nat :: CityMatch(n, j, c', l', e') ==> e' <= e
    ensures CityFrom(n, 0) == Some((j, e))
  {
    CityAtPicks(n, j, c, l, e);
    var city := CityFrom(n, 0).value;
    assert city.0 >= j;
  }

  /** The place rule: the group of the leftmost "place" match, trimmed, unless blank. */
  lemma LocationIsLeftmostPlace(text: string, j: nat, g: nat, e: nat)
    requires !IsBlank(text)
    requires var n := NormaliseForLocation(text);
      && PlaceMatchAt(n, j, g, e)
      && (forall j': nat, g': nat, e': nat :: j' < j ==> !PlaceMatchAt(n, j', g', e'))
      && (forall g': nat, e': nat :: PlaceMatchAt(n, j, g', e') ==> g' < g || (g' == g && e <= e'))
      && !IsBlank(Trim(n[g..e]))
    ensures ExtractLocationText(Some(text)) == Some(Trim(NormaliseForLocation(text)[g..e]))
  {
    PlaceFromIsLeftmost(NormaliseForLocation(text), j, g, e);
  }

  /** The "City, Region" rule, when no "place" phrase matches: the leftmost match starting
      at `j`, whose last word is as long as a word boundary allows, gives the location. */
  lemma LocationIsLeftmostCity(text: string, j: nat, c: nat, l: nat, e: nat)
    requires !IsBlank(text)
    requires var n := NormaliseForLocation(text);
      && (forall j': nat, g': nat, e': nat :: !PlaceMatchAt(n, j', g', e'))
      && CityMatch(n, j, c, l, e)
      && (forall j': nat, c': nat, l': nat, e': nat :: j' < j ==> !CityMatch(n, j', c', l', e'))
      && (forall c': nat, l': nat, e': nat :: CityMatch(n, j, c', l', e') ==> e' <= e)
    ensures ExtractLocationText(Some(text)) == Some(Trim(NormaliseForLocation(text)[j..e]))
  {
    var n := NormaliseForLocation(text);
    NoPlaceMatchAnywhere(n);
    CityFromIsLeftmost(n, j, c, l, e);
  }

  /** With no "place" phrase, the location is null exactly when nothing in the normalised
      text matches the "City, Region" pattern. */
  lemma LocationNullIff(text: string)
    requires !IsBlank(text)
    requires forall j: nat, g: nat, e: nat :: !PlaceMatchAt(NormaliseForLocation(text), j, g, e)
    ensures ExtractLocationText(Some(text)).None? <==>
      forall j: nat, c: nat, l: nat, e: nat :: !CityMatch(NormaliseForLocation(text), j, c, l, e)
  {
    var n := NormaliseForLocation(text);
    NoPlaceMatchAnywhere(n);
    if CityFrom(n, 0).Some? {
      var city := CityFrom(n, 0).value;
      var c0: nat, l0: nat :| CityMatch(n, city.0, c0, l0, city.1);
    } else {
      forall j: nat, c: nat, l: nat, e: nat
        ensures !CityMatch(n, j, c, l, e)
      {
        if j <= |n| {
          assert CityAt(n, j).None?;
        }
      }
    }
  }

  // ---------------------------------------------------------------------
  // Pagination predicates
  // ---------------------------------------------------------------------

  /** `isElementEnabled`: `disabled` is "true" or "disabled", `aria-disabled` is "true"
      (all ignoring case), or `class` contains "disabled" (lower-cased) disables. */
  predicate IsElementEnabled(disabled: JString, ariaDisabled: JString, classes: JString) {
    && !(disabled.Some? && (EqualsIgnoreCase("true", disabled.value) || EqualsIgnoreCase("disabled", disabled.value)))
    && !(ariaDisabled.Some? && EqualsIgnoreCase("true", ariaDisabled.value))
    && !(classes.Some? && Contains(Lower(classes.value), "disabled"))
  }

  /** The condition `waitForPageAdvance` waits for: a non-null marker that differs from the
      one before the click (when that was null, any non-null marker). */
  predicate MarkerAdvanced(before: JString, after: JString) {
    if before.None? then after.Some? else after.Some? && before != after
  }

  /** The null case needs no special treatment: the page advanced iff the new marker is
      non-null and differs from the old one. */
  lemma MarkerAdvancedIff(before: JString, after: JString)
    ensures MarkerAdvanced(before, after) <==> after.Some? && after != before
  {
  }
}
