/** The robots.txt evaluator: the fetched lines are parsed into Allow and
    Disallow prefix lists for the blocks addressed to `*` or `java`, and a
    path is allowed if an Allow prefix matches, else unless a Disallow prefix
    matches. All groups are merged, Allow is tried before Disallow whatever
    the prefix lengths, and every failure to read the file allows access. */
module Robots {

  import opened Values
  import opened Text

  /** What fetching robots.txt gave: an exception (bad URL, connection or read error),
      or an HTTP status with the lines of the body. */
  datatype RobotsFetch = FetchFailed | Response(status: int, lines: seq<string>)

  /** The inputs of `isAllowed`: the URL's path and what fetching its robots.txt gave.
      The path is `None` when the URL is null or malformed (`URI.create` raises) or when
      `getPath()` is null, as for an opaque URI; it is `""` when the URL has no path. */
  datatype RobotsView = RobotsView(path: JString, fetch: RobotsFetch)

  /** The parser state: whether the current block is addressed to us, and the values
      collected so far in order of appearance. */
  datatype Rules = Rules(relevant: bool, allowed: seq<string>, disallowed: seq<string>)

  const NoRules: Rules := Rules(false, [], [])

  /** The lines `fetchRobotsTxt` returns: the body for status 200, nothing otherwise. */
  function FetchedLines(status: int, lines: seq<string>): seq<string> {
    if status == 200 then lines else []
  }

  /** One line of the loop: trim, skip comments and blank lines, switch relevance on a
      `user-agent:` line, and collect a non-empty `disallow:`/`allow:` value in a
      relevant block. Keywords are matched ignoring case; values are kept as written. */
  function ParseLine(r: Rules, raw: string): Rules {
    var line := Trim(raw);
    if StartsWith(line, "#") || line == [] then r
    else if StartsWith(Lower(line), "user-agent:") then
      var agent := Trim(line[11..]);
      r.(relevant := agent == "*" || EqualsIgnoreCase(agent, "java"))
    else if !r.relevant then r
    else if StartsWith(Lower(line), "disallow:") then
      var p := Trim(line[9..]);
      if p == [] then r else r.(disallowed := r.disallowed + [p])
    else if StartsWith(Lower(line), "allow:") then
      var p := Trim(line[6..]);
      if p == [] then r else r.(allowed := r.allowed + [p])
    else r
  }

  /** The parser state after all of `lines`, read in order. */
  function ParseLines(lines: seq<string>): Rules {
    if lines == [] then NoRules else ParseLine(ParseLines(lines[..|lines| - 1]), lines[|lines| - 1])
  }

  predicate AnyPrefix(rules: seq<string>, path: string) {
    exists k :: 0 <= k < |rules| && StartsWith(path, rules[k])
  }

  /** The decision on given rules: an Allow prefix wins, else a Disallow prefix denies. */
  predicate Decide(path: string, r: Rules) {
    AnyPrefix(r.allowed, path) || !AnyPrefix(r.disallowed, path)
  }

  /** `isAllowed` on its inputs. A null path raises inside the rule loops, and the
      handler allows; with no rules it is allowed as well. */
  predicate AllowedSpec(v: RobotsView) {
    match v.fetch
    case FetchFailed => true
    case Response(status, lines) => v.path.None? || Decide(v.path.value, ParseLines(FetchedLines(status, lines)))
  }

  method IsAllowed(v: RobotsView) returns (allowed: bool)
    ensures allowed == AllowedSpec(v)
  {
    if v.fetch.FetchFailed? {
      return true;
    }
    var lines := FetchedLines(v.fetch.status, v.fetch.lines);
    var inRelevantBlock := false;
    var disallowedList: seq<string> := [];
    var allowedList: seq<string> := [];
    for i := 0 to |lines|
      invariant Rules(inRelevantBlock, allowedList, disallowedList) == ParseLines(lines[..i])
    {
      ghost var before := Rules(inRelevantBlock, allowedList, disallowedList);
      assert lines[..i + 1][..i] == lines[..i];
      assert ParseLines(lines[..i + 1]) == ParseLine(before, lines[i]);
      var line := Trim(lines[i]);
      if StartsWith(line, "#") || line == [] {
        continue;
      }
      if StartsWith(Lower(line), "user-agent:") {
        var agent := Trim(line[11..]);
        inRelevantBlock := agent == "*" || EqualsIgnoreCase(agent, "java");
      } else if inRelevantBlock {
        if StartsWith(Lower(line), "disallow:") {
          var p := Trim(line[9..]);
          if p != [] {
            disallowedList := disallowedList + [p];
          }
        } else if StartsWith(Lower(line), "allow:") {
          var p := Trim(line[6..]);
          if p != [] {
            allowedList := allowedList + [p];
          }
        }
      }
    }
    assert lines[..|lines|] == lines;
    if v.path.None? {
      // `path.startsWith` on a null path throws as soon as there is a rule to test.
      return true;
    }
    var path := v.path.value;
    for i := 0 to |allowedList|
      invariant forall k :: 0 <= k < i ==> !StartsWith(path, allowedList[k])
    {
      if StartsWith(path, allowedList[i]) {
        return true;
      }
    }
    for i := 0 to |disallowedList|
      invariant forall k :: 0 <= k < i ==> !StartsWith(path, disallowedList[k])
    {
      if StartsWith(path, disallowedList[i]) {
        return false;
      }
    }
    return true;
  }

  // ---------------------------------------------------------------------
  // Properties of the decision
  // ---------------------------------------------------------------------

  /** A matching Allow prefix decides, even when a longer Disallow prefix also matches. */
  lemma AllowBeatsDisallow(path: string, r: Rules, a: string, d: string)
    requires a in r.allowed && d in r.disallowed
    requires StartsWith(path, a) && StartsWith(path, d) && |a| < |d|
    ensures Decide(path, r)
  {
    var k :| 0 <= k < |r.allowed| && r.allowed[k] == a;
  }

  /** Without Allow or Disallow rules every path is allowed. */
  lemma NoRulesAllowEverything(path: string, r: Rules)
    requires r.allowed == [] && r.disallowed == []
    ensures Decide(path, r)
  {
  }

  /** Monotonicity: an extra Allow rule can only turn a denial into an allowance, and an
      extra Disallow rule can only turn an allowance into a denial. */
  lemma MoreRulesMonotone(path: string, r: Rules, extra: string)
    ensures Decide(path, r) ==> Decide(path, r.(allowed := r.allowed + [extra]))
    ensures Decide(path, r.(disallowed := r.disallowed + [extra])) ==> Decide(path, r)
  {
    if AnyPrefix(r.allowed, path) {
      var k :| 0 <= k < |r.allowed| && StartsWith(path, r.allowed[k]);
      assert (r.allowed + [extra])[k] == r.allowed[k];
    }
    if AnyPrefix(r.disallowed, path) {
      var k :| 0 <= k < |r.disallowed| && StartsWith(path, r.disallowed[k]);
      assert (r.disallowed + [extra])[k] == r.disallowed[k];
    }
  }

  /** Fail open: an unreadable robots.txt or a status other than 200 allows everything. */
  lemma FailsOpen(v: RobotsView)
    requires v.fetch.FetchFailed? || v.fetch.status != 200
    ensures AllowedSpec(v)
  {
  }

  // ---------------------------------------------------------------------
  // Properties of the parser
  // ---------------------------------------------------------------------

  /** Comment lines and lines blank after trimming change nothing. */
  lemma CommentLinesIgnored(lines: seq<string>, raw: string)
    requires StartsWith(Trim(raw), "#") || Trim(raw) == []
    ensures ParseLines(lines + [raw]) == ParseLines(lines)
  {
    assert (lines + [raw])[..|lines + [raw]| - 1] == lines;
  }

  /** A trimmed line that is neither a comment nor blank and starts with `user-agent:`
      sets the relevance flag from the value after the keyword. */
  lemma ParseUserAgentLine(r: Rules, line: string)
    requires Trim(line) == line && line != [] && line[0] != '#'
    requires StartsWith(Lower(line), "user-agent:")
    ensures ParseLine(r, line) == r.(relevant := Trim(line[11..]) == "*" || EqualsIgnoreCase(Trim(line[11..]), "java"))
  {
    NotAComment(line);
  }

  /** A trimmed `disallow:` line in a relevant block collects its non-empty value. */
  lemma ParseDisallowLine(r: Rules, line: string)
    requires Trim(line) == line && line != [] && line[0] != '#'
    requires !StartsWith(Lower(line), "user-agent:") && r.relevant && StartsWith(Lower(line), "disallow:")
    requires Trim(line[9..]) != []
    ensures ParseLine(r, line) == r.(disallowed := r.disallowed + [Trim(line[9..])])
  {
    NotAComment(line);
    var p := Trim(line[9..]);
    assert ParseLine(r, line) == r.(disallowed := r.disallowed + [p]);
  }

  /** A trimmed `allow:` line in a relevant block collects its non-empty value; such a
      line is never taken for a `user-agent:` or `disallow:` line. */
  lemma ParseAllowLine(r: Rules, line: string)
    requires Trim(line) == line && r.relevant && StartsWith(Lower(line), "allow:")
    requires Trim(line[6..]) != []
    ensures ParseLine(r, line) == r.(allowed := r.allowed + [Trim(line[6..])])
  {
    FirstLetterDecides(line, "allow:");
  }

  /** A trimmed `disallow:` or `allow:` line whose value trims to nothing collects nothing
      and leaves the relevance flag as it was. */
  lemma EmptyRuleValueCollectsNothing(r: Rules, keyword: string, line: string)
    requires keyword == "disallow:" || keyword == "allow:"
    requires Trim(line) == line && StartsWith(Lower(line), keyword)
    requires Trim(line[|keyword|..]) == []
    ensures ParseLine(r, line) == r
  {
    FirstLetterDecides(line, keyword);
  }

  /** A line whose lower-cased form starts with a rule keyword is not a comment and
      matches no keyword with a different first letter. */
  lemma FirstLetterDecides(line: string, keyword: string)
    requires keyword == "disallow:" || keyword == "allow:"
    requires StartsWith(Lower(line), keyword)
    ensures line != [] && !StartsWith(line, "#") && !StartsWith(Lower(line), "user-agent:")
    ensures keyword == "allow:" ==> !StartsWith(Lower(line), "disallow:")
  {
    var low := Lower(line);
    assert low[0] == low[..|keyword|][0] == keyword[0];
    assert line[0] != '#';
    NotAComment(line);
    if |low| >= 11 {
      assert low[..11][0] == low[0];
    }
    if |low| >= 9 {
      assert low[..9][0] == low[0];
    }
  }

  /** An `allow:` value is kept exactly as written, as a `disallow:` value is. */
  lemma AllowValueVerbatim(r: Rules, v: string)
    requires r.relevant && v != [] && !TrimsAway(v[0]) && !TrimsAway(v[|v| - 1])
    ensures ParseLine(r, "allow:" + v) == r.(allowed := r.allowed + [v])
  {
    var line := "allow:" + v;
    KeywordLine("allow:", v);
    TrimOfTrimmed(v);
    ParseAllowLine(r, line);
  }

  lemma NotAComment(line: string)
    requires line != [] && line[0] != '#'
    ensures !StartsWith(line, "#")
  {
    assert line[..1][0] != '#';
  }

  /** `keyword + v` is already trimmed and starts with `keyword`, ignoring case. */
  lemma KeywordLine(keyword: string, v: string)
    requires keyword != [] && !TrimsAway(keyword[0]) && !TrimsAway(keyword[|keyword| - 1])
    requires forall k :: 0 <= k < |keyword| ==> !('A' <= keyword[k] <= 'Z')
    requires v == [] || !TrimsAway(v[|v| - 1])
    ensures Trim(keyword + v) == keyword + v
    ensures StartsWith(Lower(keyword + v), keyword)
    ensures (keyword + v)[|keyword|..] == v
    ensures (keyword + v)[0] == keyword[0]
    ensures Lower(keyword + v)[0] == keyword[0]
  {
    var line := keyword + v;
    assert Lower(keyword) == keyword;
    assert line[|line| - 1] == if v == [] then keyword[|keyword| - 1] else v[|v| - 1];
    TrimOfTrimmed(line);
    LowerAppend(keyword, v);
    assert Lower(line) == keyword + Lower(v);
    assert (keyword + Lower(v))[..|keyword|] == keyword;
  }

  /** A `user-agent:` line sets the relevance flag from its own value alone, whatever
      the blocks before it said. */
  lemma UserAgentOverwrites(r: Rules, v: string)
    requires v == [] || !TrimsAway(v[|v| - 1])
    ensures ParseLine(r, "user-agent:" + v)
      == r.(relevant := Trim(v) == "*" || EqualsIgnoreCase(Trim(v), "java"))
  {
    var line := "user-agent:" + v;
    KeywordLine("user-agent:", v);
    ParseUserAgentLine(r, line);
  }

  /** A rule value is kept exactly as written after the keyword: text after a `#` inside
      the value is not stripped. */
  lemma RuleValueVerbatim(r: Rules, v: string)
    requires r.relevant && v != [] && !TrimsAway(v[0]) && !TrimsAway(v[|v| - 1])
    ensures ParseLine(r, "disallow:" + v) == r.(disallowed := r.disallowed + [v])
  {
    var line := "disallow:" + v;
    KeywordLine("disallow:", v);
    TrimOfTrimmed(v);
    assert !StartsWith(Lower(line), "user-agent:") by {
      if |line| >= 11 {
        assert Lower(line)[..11][0] == Lower(line)[0] == 'd';
      }
    }
    ParseDisallowLine(r, line);
  }

  /** Outside a relevant block Allow and Disallow lines are not collected. */
  lemma IrrelevantBlockCollectsNothing(r: Rules, raw: string)
    requires !r.relevant
    ensures ParseLine(r, raw).allowed == r.allowed && ParseLine(r, raw).disallowed == r.disallowed
  {
  }
}
