/** The new-jobs notification: who receives it, when it is sent at all, and
    the HTML table it carries, with the escaping that keeps each job's text
    inside its own cell. The SMTP session is an input: whether sending the
    message raises a `MessagingException`. */
module Email {

  import opened Values
  import opened Text
  import opened JobModel

  /** A row of the subscribers table. */
  datatype Subscriber = Subscriber(name: JString, email: JString)

  // ---------------------------------------------------------------------
  // Recipients
  // ---------------------------------------------------------------------

  /** `map(getEmail).filter(e -> e != null && !e.isBlank())`, in subscriber order. */
  function ValidEmails(subs: seq<Subscriber>): seq<string> {
    if subs == [] then []
    else
      var e := subs[|subs| - 1].email;
      ValidEmails(subs[..|subs| - 1]) + (if e.Some? && !IsBlank(e.value) then [e.value] else [])
  }

  /** `distinct()`: each address once, where it first appears. */
  function Distinct(xs: seq<string>): seq<string> {
    if xs == [] then []
    else
      var d := Distinct(xs[..|xs| - 1]);
      if xs[|xs| - 1] in d then d else d + [xs[|xs| - 1]]
  }

  /** The addresses the message goes to. */
  function Recipients(subs: seq<Subscriber>): seq<string> {
    Distinct(ValidEmails(subs))
  }

  lemma {:induction false} ValidEmailsMembers(subs: seq<Subscriber>)
    ensures forall x :: x in ValidEmails(subs) <==>
      exists k :: 0 <= k < |subs| && subs[k].email == Some(x) && !IsBlank(x)
  {
    if subs != [] {
      var init := subs[..|subs| - 1];
      ValidEmailsMembers(init);
      forall x | x in ValidEmails(subs)
        ensures exists k :: 0 <= k < |subs| && subs[k].email == Some(x) && !IsBlank(x)
      {
        if x in ValidEmails(init) {
          var k :| 0 <= k < |init| && init[k].email == Some(x) && !IsBlank(x);
          assert subs[k] == init[k];
        } else {
          assert subs[|subs| - 1].email == Some(x) && !IsBlank(x);
        }
      }
      forall x | exists k :: 0 <= k < |subs| && subs[k].email == Some(x) && !IsBlank(x)
        ensures x in ValidEmails(subs)
      {
        var k :| 0 <= k < |subs| && subs[k].email == Some(x) && !IsBlank(x);
        if k < |init| {
          assert init[k] == subs[k];
        }
      }
    }
  }

  lemma {:induction false} DistinctMembers(xs: seq<string>)
    ensures forall x :: x in Distinct(xs) <==> x in xs
  {
    if xs != [] {
      var init := xs[..|xs| - 1];
      DistinctMembers(init);
      assert xs == init + [xs[|xs| - 1]];
    }
  }

  lemma {:induction false} DistinctUnique(xs: seq<string>)
    ensures forall i, j :: 0 <= i < j < |Distinct(xs)| ==> Distinct(xs)[i] != Distinct(xs)[j]
  {
    if xs != [] {
      DistinctUnique(xs[..|xs| - 1]);
    }
  }

  /** The position where `x` first appears in `xs`. */
  function FirstIndex(xs: seq<string>, x: string): (k: nat)
    requires x in xs
    ensures k < |xs| && xs[k] == x && x !in xs[..k]
  {
    if xs[0] == x then 0
    else
      assert x in xs[1..];
      var k := FirstIndex(xs[1..], x);
      assert xs[..k + 1] == [xs[0]] + xs[1..][..k];
      k + 1
  }

  lemma FirstIndexSnoc(xs: seq<string>, y: string, x: string)
    requires x in xs
    ensures FirstIndex(xs + [y], x) == FirstIndex(xs, x)
  {
    var k := FirstIndex(xs, x);
    assert (xs + [y])[k] == x;
  }

  /** The elements of `d` come in the order of their first appearance in `xs`. */
  predicate InFirstAppearanceOrder(d: seq<string>, xs: seq<string>) {
    forall i, j :: 0 <= i < j < |d| ==> d[i] in xs && d[j] in xs && FirstIndex(xs, d[i]) < FirstIndex(xs, d[j])
  }

  /** Addresses keep the order of their first appearance. */
  lemma {:induction false} DistinctOrder(xs: seq<string>)
    ensures InFirstAppearanceOrder(Distinct(xs), xs)
  {
    if xs != [] {
      var init := xs[..|xs| - 1];
      var y := xs[|xs| - 1];
      assert xs == init + [y];
      DistinctOrder(init);
      DistinctMembers(init);
      var d0 := Distinct(init);
      var d := Distinct(xs);
      assert d == if y in d0 then d0 else d0 + [y];
      assert InFirstAppearanceOrder(d0, init);
      forall i, j | 0 <= i < j < |d|
        ensures d[i] in xs && d[j] in xs && FirstIndex(xs, d[i]) < FirstIndex(xs, d[j])
      {
        assert d[i] == d0[i] && d0[i] in d0;
        assert d[i] in init;
        FirstIndexSnoc(init, y, d[i]);
        if j < |d0| {
          assert d[j] == d0[j] && d0[j] in d0;
          assert d[j] in init;
          assert FirstIndex(init, d0[i]) < FirstIndex(init, d0[j]);
          FirstIndexSnoc(init, y, d[j]);
        } else {
          assert d[j] == y && y !in init;
          assert FirstIndex(xs, y) == |init| by {
            var k := FirstIndex(xs, y);
          }
        }
      }
    }
  }

  /** The recipients are exactly the non-blank addresses of the subscribers, each once,
      in the order in which they first appear. */
  lemma RecipientsSpec(subs: seq<Subscriber>)
    ensures var r := Recipients(subs);
      && (forall x :: x in r <==> exists k :: 0 <= k < |subs| && subs[k].email == Some(x) && !IsBlank(x))
      && (forall i, j :: 0 <= i < j < |r| ==> r[i] != r[j])
      && InFirstAppearanceOrder(r, ValidEmails(subs))
  {
    var v := ValidEmails(subs);
    var r := Recipients(subs);
    assert forall x :: x in r <==> exists k :: 0 <= k < |subs| && subs[k].email == Some(x) && !IsBlank(x) by {
      ValidEmailsMembers(subs);
      DistinctMembers(v);
    }
    assert forall i, j :: 0 <= i < j < |r| ==> r[i] != r[j] by {
      DistinctUnique(v);
    }
    DistinctOrder(v);
  }

  // ---------------------------------------------------------------------
  // Escaping
  // ---------------------------------------------------------------------

  /** `escape`: null becomes "", then `&`, `<` and `>` are replaced, in that order. */
  function Escape(value: JString): (r: string)
    ensures '<' !in r && '>' !in r
  {
    if value.None? then ""
    else ReplaceChar(ReplaceChar(ReplaceChar(value.value, '&', "&amp;"), '<', "&lt;"), '>', "&gt;")
  }

  /** `escapeAttribute`: `escape`, then `"` is replaced as well. */
  function EscapeAttribute(value: JString): (r: string)
    ensures '<' !in r && '>' !in r && '"' !in r
  {
    ReplaceChar(Escape(value), '"', "&quot;")
  }

  /** The replacement of one character, the reference for both escapes. */
  function EscapeChar(c: char, attribute: bool): string {
    if c == '&' then "&amp;"
    else if c == '<' then "&lt;"
    else if c == '>' then "&gt;"
    else if attribute && c == '"' then "&quot;"
    else [c]
  }

  function EscapeEach(s: string, attribute: bool): string {
    if s == [] then [] else EscapeChar(s[0], attribute) + EscapeEach(s[1..], attribute)
  }

  lemma {:induction false} ReplaceAbsent(s: string, c: char, with: string)
    requires c !in s
    ensures ReplaceChar(s, c, with) == s
  {
    if s != [] {
      ReplaceAbsent(s[1..], c, with);
      assert [s[0]] + s[1..] == s;
    }
  }

  /** The three replacements applied to one character. */
  lemma EscapeOneChar(c: char)
    ensures ReplaceChar(ReplaceChar(ReplaceChar([c], '&', "&amp;"), '<', "&lt;"), '>', "&gt;") == EscapeChar(c, false)
  {
    assert ReplaceChar([c], '&', "&amp;") == if c == '&' then "&amp;" else [c] by {
      assert [c][1..] == [];
    }
    if c == '&' {
      ReplaceAbsent("&amp;", '<', "&lt;");
      ReplaceAbsent("&amp;", '>', "&gt;");
    } else {
      assert ReplaceChar([c], '<', "&lt;") == if c == '<' then "&lt;" else [c] by {
        assert [c][1..] == [];
      }
      if c == '<' {
        ReplaceAbsent("&lt;", '>', "&gt;");
      } else {
        assert [c][1..] == [];
      }
    }
  }

  /** `escape` replaces character by character: the three replacements in sequence never
      touch the text an earlier one inserted. */
  lemma {:induction false} EscapeIsCharwise(s: string)
    ensures Escape(Some(s)) == EscapeEach(s, false)
  {
    if s != [] {
      EscapeIsCharwise(s[1..]);
      var c, t := s[0], s[1..];
      assert s == [c] + t;
      ReplaceCharAppend([c], t, '&', "&amp;");
      var a1, b1 := ReplaceChar([c], '&', "&amp;"), ReplaceChar(t, '&', "&amp;");
      ReplaceCharAppend(a1, b1, '<', "&lt;");
      var a2, b2 := ReplaceChar(a1, '<', "&lt;"), ReplaceChar(b1, '<', "&lt;");
      ReplaceCharAppend(a2, b2, '>', "&gt;");
      EscapeOneChar(c);
    }
  }

  lemma {:induction false} EscapeAttributeIsCharwise(s: string)
    ensures EscapeAttribute(Some(s)) == EscapeEach(s, true)
  {
    EscapeIsCharwise(s);
    QuoteEach(s);
  }

  lemma {:induction false} QuoteEach(s: string)
    ensures ReplaceChar(EscapeEach(s, false), '"', "&quot;") == EscapeEach(s, true)
  {
    if s != [] {
      QuoteEach(s[1..]);
      var c := s[0];
      ReplaceCharAppend(EscapeChar(c, false), EscapeEach(s[1..], false), '"', "&quot;");
      if c == '"' {
        assert ReplaceChar("\"", '"', "&quot;") == "&quot;" by {
          assert "\""[1..] == [];
        }
      } else if c == '&' || c == '<' || c == '>' {
        ReplaceAbsent(EscapeChar(c, false), '"', "&quot;");
      } else {
        assert [c][1..] == [];
      }
    }
  }

  /** `&` opens one of the entities the escapes write. */
  predicate EntityAt(s: string, k: nat) {
    OccursAt(s, "&amp;", k) || OccursAt(s, "&lt;", k) || OccursAt(s, "&gt;", k) || OccursAt(s, "&quot;", k)
  }

  lemma OccursAtConcat(a: string, b: string, needle: string, k: nat)
    ensures OccursAt(a, needle, k) ==> OccursAt(a + b, needle, k)
    ensures OccursAt(b, needle, k) ==> OccursAt(a + b, needle, |a| + k)
  {
    if OccursAt(a, needle, k) {
      assert (a + b)[k..k + |needle|] == a[k..k + |needle|];
    }
    if OccursAt(b, needle, k) {
      assert (a + b)[|a| + k..|a| + k + |needle|] == b[k..k + |needle|];
    }
  }

  /** Every `&` of an escaped text begins an entity, so a reader cannot mistake text for
      markup; the plain escape writes only `&amp;`, `&lt;` and `&gt;`. */
  predicate AmpersandsBeginEntitiesIn(e: string, attribute: bool) {
    forall k :: 0 <= k < |e| && e[k] == '&' ==>
      if attribute then EntityAt(e, k)
      else OccursAt(e, "&amp;", k) || OccursAt(e, "&lt;", k) || OccursAt(e, "&gt;", k)
  }

  lemma {:induction false} AmpersandsBeginEntities(s: string, attribute: bool)
    ensures AmpersandsBeginEntitiesIn(EscapeEach(s, attribute), attribute)
  {
    if s != [] {
      AmpersandsBeginEntities(s[1..], attribute);
      var head := EscapeChar(s[0], attribute);
      var tail := EscapeEach(s[1..], attribute);
      var e := head + tail;
      assert AmpersandsBeginEntitiesIn(tail, attribute);
      forall k | 0 <= k < |e| && e[k] == '&'
        ensures if attribute then EntityAt(e, k)
                else OccursAt(e, "&amp;", k) || OccursAt(e, "&lt;", k) || OccursAt(e, "&gt;", k)
      {
        if k < |head| {
          assert OccursAt(head, head, 0);
          OccursAtConcat(head, tail, head, 0);
          var c := s[0];
          if c == '&' {
            assert head == "&amp;";
          } else if c == '<' {
            assert head == "&lt;";
          } else if c == '>' {
            assert head == "&gt;";
          } else if attribute && c == '"' {
            assert head == "&quot;";
          }
        } else {
          var m := k - |head|;
          assert e[k] == tail[m];
          assert if attribute then EntityAt(tail, m)
            else OccursAt(tail, "&amp;", m) || OccursAt(tail, "&lt;", m) || OccursAt(tail, "&gt;", m);
          OccursAtConcat(head, tail, "&amp;", m);
          OccursAtConcat(head, tail, "&lt;", m);
          OccursAtConcat(head, tail, "&gt;", m);
          OccursAtConcat(head, tail, "&quot;", m);
        }
      }
    }
  }

  /** How an HTML reader decodes the four entities; any other character stands for itself. */
  function Unescape(t: string): string
    decreases |t|
  {
    if t == [] then []
    else if StartsWith(t, "&amp;") then "&" + Unescape(t[5..])
    else if StartsWith(t, "&lt;") then "<" + Unescape(t[4..])
    else if StartsWith(t, "&gt;") then ">" + Unescape(t[4..])
    else if StartsWith(t, "&quot;") then "\"" + Unescape(t[6..])
    else [t[0]] + Unescape(t[1..])
  }

  lemma NoEntityStart(t: string)
    requires t != [] && t[0] != '&'
    ensures !StartsWith(t, "&amp;") && !StartsWith(t, "&lt;") && !StartsWith(t, "&gt;") && !StartsWith(t, "&quot;")
  {
  }

  /** Decoding undoes the replacement of one character. */
  lemma UnescapeStep(c: char, attribute: bool, rest: string)
    ensures Unescape(EscapeChar(c, attribute) + rest) == [c] + Unescape(rest)
  {
    var e := EscapeChar(c, attribute);
    var t := e + rest;
    assert t[..|e|] == e && t[|e|..] == rest;
    if e == [c] {
      assert c != '&';
      NoEntityStart(t);
    } else if c == '&' {
      assert StartsWith(t, "&amp;");
    } else if c == '<' {
      assert !StartsWith(t, "&amp;") by { assert t[1] == 'l'; }
      assert StartsWith(t, "&lt;");
    } else if c == '>' {
      assert !StartsWith(t, "&amp;") by { assert t[1] == 'g'; }
      assert !StartsWith(t, "&lt;") by { assert t[1] == 'g'; }
      assert StartsWith(t, "&gt;");
    } else {
      assert !StartsWith(t, "&amp;") by { assert t[1] == 'q'; }
      assert !StartsWith(t, "&lt;") by { assert t[1] == 'q'; }
      assert !StartsWith(t, "&gt;") by { assert t[1] == 'q'; }
      assert StartsWith(t, "&quot;");
    }
  }

  /** Decoding gives the text back: the escaping loses nothing. */
  lemma {:induction false} UnescapeEscapeEach(s: string, attribute: bool)
    ensures Unescape(EscapeEach(s, attribute)) == s
  {
    if s != [] {
      UnescapeEscapeEach(s[1..], attribute);
      UnescapeStep(s[0], attribute, EscapeEach(s[1..], attribute));
      assert [s[0]] + s[1..] == s;
    }
  }

  /** A reader gets back exactly the escaped text, for both escapes. */
  lemma EscapeRoundTrip(s: string)
    ensures Unescape(Escape(Some(s))) == s
    ensures Unescape(EscapeAttribute(Some(s))) == s
  {
    EscapeIsCharwise(s);
    EscapeAttributeIsCharwise(s);
    UnescapeEscapeEach(s, false);
    UnescapeEscapeEach(s, true);
  }

  // ---------------------------------------------------------------------
  // The link cell
  // ---------------------------------------------------------------------

  const LinkOpen: string := "<a href=\""
  const LinkClose: string := "\">Open Job</a>"

  /** `buildLinkCell`: nothing for a null or blank URL, else a link to the trimmed URL. */
  function LinkCell(url: JString): string {
    if IsBlankOrNull(url) then "" else LinkOpen + (EscapeAttribute(Some(Trim(url.value))) + LinkClose)
  }

  /** The URL a reader gets from the link cell: "" for a null or blank one. */
  function ShownUrl(url: JString): string {
    if IsBlankOrNull(url) then "" else Trim(url.value)
  }

  /** A non-blank URL gives a link whose quoted `href` holds no quote, so it cannot end
      the attribute early, and decodes to the trimmed URL. */
  lemma LinkCellShape(url: JString)
    ensures LinkCell(url) == [] <==> IsBlankOrNull(url)
    ensures !IsBlankOrNull(url) ==> exists v :: LinkCell(url) == LinkOpen + v + LinkClose && '"' !in v && Unescape(v) == ShownUrl(url)
  {
    if !IsBlankOrNull(url) {
      var v := EscapeAttribute(Some(Trim(url.value)));
      EscapeRoundTrip(Trim(url.value));
      AppendAssoc(LinkOpen, v, LinkClose);
    }
  }

  // ---------------------------------------------------------------------
  // The table
  // ---------------------------------------------------------------------

  const Header: string :=
    "<html><body><p>The following new job(s) were detected:</p><table border=\"1\" cellpadding=\"6\" cellspacing=\"0\" style=\"border-collapse:collapse;\"><thead><tr><th>Portal</th><th>Job Req ID</th><th>Position</th><th>Location</th><th>Job Link</th></tr></thead><tbody>"

  const Footer: string := "</tbody></table></body></html>"

  function Cell(content: string): string {
    "<td>" + (content + "</td>")
  }

  /** The row of one job: portal name, req id, position, location and link, in that order. */
  function Row(j: JobRecord): string {
    "<tr>" + (Cell(Escape(j.portalName)) + (Cell(Escape(j.reqId)) + (Cell(Escape(j.position))
    + (Cell(Escape(j.location)) + (Cell(LinkCell(j.jobUrl)) + "</tr>")))))
  }

  function Rows(js: seq<JobRecord>): string {
    if js == [] then [] else Row(js[0]) + Rows(js[1..])
  }

  /** `buildHtmlBody`: the header, one row per job in list order, the footer. */
  function HtmlBody(js: seq<JobRecord>): string {
    Header + Rows(js) + Footer
  }

  lemma {:induction false} RowsSnoc(js: seq<JobRecord>, j: JobRecord)
    ensures Rows(js + [j]) == Rows(js) + Row(j)
  {
    if js == [] {
      assert Rows([j]) == Row(j) + Rows([]);
    } else {
      assert (js + [j])[0] == js[0] && (js + [j])[1..] == js[1..] + [j];
      RowsSnoc(js[1..], j);
      AppendAssoc(Row(js[0]), Rows(js[1..]), Row(j));
    }
  }

  method BuildHtmlBody(jobs: seq<Job>) returns (body: string)
    ensures body == HtmlBody(Records(jobs))
  {
    ghost var rs := Records(jobs);
    var sb := Header;
    assert rs[..0] == [];
    AppendNil(Header);
    for i := 0 to |jobs|
      invariant sb == Header + Rows(rs[..i])
    {
      var job := jobs[i];
      assert job.Record() == rs[i];
      var row := Row(job.Record());
      RowsStep(rs, i);
      sb := sb + row;
    }
    assert rs[..|jobs|] == rs;
    body := sb + Footer;
  }

  lemma RowsStep(rs: seq<JobRecord>, i: nat)
    requires i < |rs|
    ensures Header + Rows(rs[..i + 1]) == (Header + Rows(rs[..i])) + Row(rs[i])
  {
    TakeSnoc(rs, i);
    RowsSnoc(rs[..i], rs[i]);
    AppendAssoc(Header, Rows(rs[..i]), Row(rs[i]));
  }

  // ---------------------------------------------------------------------
  // Reading the table back
  // ---------------------------------------------------------------------

  /** What a reader of the mail sees in one row: the five cells, decoded. */
  datatype Shown = Shown(portal: string, reqId: string, position: string, location: string, link: string)

  function OrEmpty(s: JString): string {
    if s.None? then "" else s.value
  }

  /** What the row of `j` should show: its fields, null as empty, the URL trimmed. */
  function ShownJob(j: JobRecord): Shown {
    Shown(OrEmpty(j.portalName), OrEmpty(j.reqId), OrEmpty(j.position), OrEmpty(j.location), ShownUrl(j.jobUrl))
  }

  function ShownJobs(js: seq<JobRecord>): seq<Shown> {
    if js == [] then [] else [ShownJob(js[0])] + ShownJobs(js[1..])
  }

  /** The first position at or after `i` holding `c`, or `|t|`. */
  function NextIndex(t: string, c: char, i: nat): (r: nat)
    requires i <= |t|
    ensures i <= r <= |t| && (r < |t| ==> t[r] == c)
    ensures forall k :: i <= k < r ==> t[k] != c
    decreases |t| - i
  {
    if i == |t| || t[i] == c then i else NextIndex(t, c, i + 1)
  }

  lemma {:induction false} NextIndexAt(t: string, c: char, i: nat, j: nat)
    requires i <= j < |t| && t[j] == c
    requires forall k :: i <= k < j ==> t[k] != c
    ensures NextIndex(t, c, i) == j
    decreases j - i
  {
    if i < j {
      NextIndexAt(t, c, i + 1, j);
    }
  }

  /** After a prefix, the next `c` is the first one after a text free of `c`. */
  lemma NextIndexOf(p: string, v: string, c: char, tail: string)
    requires c !in v && tail != [] && tail[0] == c
    ensures NextIndex(p + (v + tail), c, |p|) == |p| + |v|
    ensures (p + (v + tail))[|p|..|p| + |v|] == v && (p + (v + tail))[|p| + |v|..] == tail
  {
    NextIndexPast(p, v, c, tail);
    SliceMiddle(p, v, tail);
  }

  lemma NextIndexPast(p: string, v: string, c: char, tail: string)
    requires c !in v && tail != [] && tail[0] == c
    ensures NextIndex(p + (v + tail), c, |p|) == |p| + |v|
  {
    var u := p + (v + tail);
    assert u[|p| + |v|] == c;
    forall k | |p| <= k < |p| + |v|
      ensures u[k] != c
    {
      assert u[k] == v[k - |p|];
    }
    NextIndexAt(u, c, |p|, |p| + |v|);
  }

  lemma SliceMiddle(p: string, v: string, tail: string)
    ensures (p + (v + tail))[|p|..|p| + |v|] == v && (p + (v + tail))[|p| + |v|..] == tail
  {
    var u := p + (v + tail);
    assert u[|p|..|p| + |v|] == v;
    assert u[|p| + |v|..] == tail;
  }

  /** A text cell: `<td>`, text up to the next `<`, `</td>`; the text is decoded. */
  function ReadCell(t: string): Option<(string, string)> {
    if !StartsWith(t, "<td>") then None
    else
      var n := NextIndex(t, '<', 4);
      if StartsWith(t[n..], "</td>") then Some((Unescape(t[4..n]), t[n + 5..])) else None
  }

  /** The link cell: empty, or a link whose `href` runs to the next quote. */
  function ReadLinkCell(t: string): Option<(string, string)> {
    if !StartsWith(t, "<td>") then None
    else
      var u := t[4..];
      if StartsWith(u, "</td>") then Some(("", u[5..]))
      else if !StartsWith(u, LinkOpen) then None
      else
        var n := NextIndex(u, '"', |LinkOpen|);
        var w := u[n..];
        if StartsWith(w, LinkClose + "</td>") then Some((Unescape(u[|LinkOpen|..n]), w[|LinkClose| + 5..]))
        else None
  }

  function ReadRow(t: string): Option<(Shown, string)> {
    if !StartsWith(t, "<tr>") then None
    else
      match ReadCell(t[4..])
      case None => None
      case Some((portal, t1)) =>
        match ReadCell(t1)
        case None => None
        case Some((reqId, t2)) =>
          match ReadCell(t2)
          case None => None
          case Some((position, t3)) =>
            match ReadCell(t3)
            case None => None
            case Some((location, t4)) =>
              match ReadLinkCell(t4)
              case None => None
              case Some((link, t5)) =>
                if StartsWith(t5, "</tr>") then Some((Shown(portal, reqId, position, location, link), t5[5..]))
                else None
  }

  /** The rows up to the footer. */
  function ReadRows(t: string): Option<seq<Shown>>
    decreases |t|
  {
    if t == Footer then Some([])
    else
      match ReadRow(t)
      case None => None
      case Some((row, rest)) =>
        if |rest| < |t| then
          match ReadRows(rest)
          case None => None
          case Some(rows) => Some([row] + rows)
        else None
  }

  /** How a reader takes the body apart: header, rows, footer. */
  function ReadTable(body: string): Option<seq<Shown>> {
    if StartsWith(body, Header) then ReadRows(body[|Header|..]) else None
  }

  lemma SkipPrefix(p: string, x: string)
    ensures StartsWith(p + x, p) && (p + x)[|p|..] == x
  {
    assert (p + x)[..|p|] == p;
  }

  lemma ReadCellOf(e: string, rest: string)
    requires '<' !in e
    ensures ReadCell(Cell(e) + rest) == Some((Unescape(e), rest))
  {
    var t := Cell(e) + rest;
    AppendAssoc("<td>", e + "</td>", rest);
    AppendAssoc(e, "</td>", rest);
    assert t == "<td>" + (e + ("</td>" + rest));
    SkipPrefix("<td>", e + ("</td>" + rest));
    NextIndexOf("<td>", e, '<', "</td>" + rest);
    SkipPrefix("</td>", rest);
  }

  lemma ReadLinkCellOf(url: JString, rest: string)
    ensures ReadLinkCell(Cell(LinkCell(url)) + rest) == Some((ShownUrl(url), rest))
  {
    var t := Cell(LinkCell(url)) + rest;
    AppendAssoc("<td>", LinkCell(url) + "</td>", rest);
    AppendAssoc(LinkCell(url), "</td>", rest);
    if IsBlankOrNull(url) {
      assert t == "<td>" + ("</td>" + rest);
      SkipPrefix("<td>", "</td>" + rest);
      SkipPrefix("</td>", rest);
    } else {
      var v := EscapeAttribute(Some(Trim(url.value)));
      EscapeRoundTrip(Trim(url.value));
      AppendAssoc(LinkOpen, v + LinkClose, "</td>" + rest);
      AppendAssoc(v, LinkClose, "</td>" + rest);
      ReadLinkOf(v, rest);
    }
  }

  /** A link whose escaped `href` is `v`. */
  lemma ReadLinkOf(v: string, rest: string)
    requires '"' !in v
    ensures ReadLinkCell("<td>" + (LinkOpen + (v + (LinkClose + ("</td>" + rest))))) == Some((Unescape(v), rest))
  {
    var tail := LinkClose + ("</td>" + rest);
    var u := LinkOpen + (v + tail);
    SkipPrefix("<td>", u);
    assert !StartsWith(u, "</td>") by {
      assert u[1] == LinkOpen[1];
    }
    SkipPrefix(LinkOpen, v + tail);
    NextIndexOf(LinkOpen, v, '"', tail);
    AppendAssoc(LinkClose, "</td>", rest);
    SkipPrefix(LinkClose + "</td>", rest);
  }

  lemma ReadRowOf(j: JobRecord, rest: string)
    ensures ReadRow(Row(j) + rest) == Some((ShownJob(j), rest))
  {
    var c5 := Cell(LinkCell(j.jobUrl)) + ("</tr>" + rest);
    var c4 := Cell(Escape(j.location)) + c5;
    var c3 := Cell(Escape(j.position)) + c4;
    var c2 := Cell(Escape(j.reqId)) + c3;
    var c1 := Cell(Escape(j.portalName)) + c2;
    RowAssoc(j, rest);
    SkipPrefix("<tr>", c1);
    EscapeNullRoundTrip(j.portalName);
    EscapeNullRoundTrip(j.reqId);
    EscapeNullRoundTrip(j.position);
    EscapeNullRoundTrip(j.location);
    ReadCellOf(Escape(j.portalName), c2);
    ReadCellOf(Escape(j.reqId), c3);
    ReadCellOf(Escape(j.position), c4);
    ReadCellOf(Escape(j.location), c5);
    ReadLinkCellOf(j.jobUrl, "</tr>" + rest);
    SkipPrefix("</tr>", rest);
  }

  /** `Row(j) + rest`, with every piece followed by the rest of the text. */
  lemma RowAssoc(j: JobRecord, rest: string)
    ensures Row(j) + rest == "<tr>" + (Cell(Escape(j.portalName)) + (Cell(Escape(j.reqId)) + (Cell(Escape(j.position))
      + (Cell(Escape(j.location)) + (Cell(LinkCell(j.jobUrl)) + ("</tr>" + rest))))))
  {
    var e5 := Cell(LinkCell(j.jobUrl));
    var e4 := Cell(Escape(j.location));
    var e3 := Cell(Escape(j.position));
    var e2 := Cell(Escape(j.reqId));
    var e1 := Cell(Escape(j.portalName));
    AppendAssoc("<tr>", e1 + (e2 + (e3 + (e4 + (e5 + "</tr>")))), rest);
    AppendAssoc(e1, e2 + (e3 + (e4 + (e5 + "</tr>"))), rest);
    AppendAssoc(e2, e3 + (e4 + (e5 + "</tr>")), rest);
    AppendAssoc(e3, e4 + (e5 + "</tr>"), rest);
    AppendAssoc(e4, e5 + "</tr>", rest);
    AppendAssoc(e5, "</tr>", rest);
  }

  lemma EscapeNullRoundTrip(s: JString)
    ensures Unescape(Escape(s)) == OrEmpty(s)
  {
    if s.Some? {
      EscapeRoundTrip(s.value);
    }
  }

  lemma {:induction false} ReadRowsOf(js: seq<JobRecord>)
    ensures ReadRows(Rows(js) + Footer) == Some(ShownJobs(js))
  {
    if js == [] {
      NilAppend(Footer);
    } else {
      var rest := Rows(js[1..]) + Footer;
      AppendAssoc(Row(js[0]), Rows(js[1..]), Footer);
      RowIsNotFooter(js[0], rest);
      ReadRowOf(js[0], rest);
      ReadRowsOf(js[1..]);
    }
  }

  lemma RowIsNotFooter(j: JobRecord, rest: string)
    ensures Row(j) + rest != Footer
  {
    var t := Row(j) + rest;
    assert t[1] == Row(j)[1] == 't';
    assert Footer[1] == '/';
  }

  /** The body reads back as one row per job, in list order, each showing the job's
      portal name, req id, position, location and trimmed URL. */
  lemma HtmlBodyReadsBack(js: seq<JobRecord>)
    ensures ReadTable(HtmlBody(js)) == Some(ShownJobs(js))
  {
    AppendAssoc(Header, Rows(js), Footer);
    SkipPrefix(Header, Rows(js) + Footer);
    ReadRowsOf(js);
  }

  lemma {:induction false} ShownJobsLength(js: seq<JobRecord>)
    ensures |ShownJobs(js)| == |js|
    ensures forall k :: 0 <= k < |js| ==> ShownJobs(js)[k] == ShownJob(js[k])
  {
    if js != [] {
      ShownJobsLength(js[1..]);
    }
  }

  // ---------------------------------------------------------------------
  // sendNewJobsEmail
  // ---------------------------------------------------------------------

  const Subject: string := "New job postings detected"

  /** What `sendNewJobsEmail` does: one of its three early exits, a message sent, or a
      `MessagingException` caught and logged. */
  datatype MailOutcome =
    | NoSubscribers
    | NoJobs
    | NoValidAddress
    | Sent(to: seq<string>, subject: string, body: string)
    | SendFailed(to: seq<string>)

  function SendSpec(subs: Option<seq<Subscriber>>, jobs: Option<seq<JobRecord>>, sendFails: bool): MailOutcome {
    if subs.None? || subs.value == [] then NoSubscribers
    else if jobs.None? || jobs.value == [] then NoJobs
    else
      var to := Recipients(subs.value);
      if to == [] then NoValidAddress
      else if sendFails then SendFailed(to)
      else Sent(to, Subject, HtmlBody(jobs.value))
  }

  /** A message is attempted exactly when there is a subscriber list, a job list, and some
      subscriber with a non-blank address; it then goes to the recipients and carries one
      row per job. */
  lemma SendAttemptedIff(subs: Option<seq<Subscriber>>, jobs: Option<seq<JobRecord>>, sendFails: bool)
    ensures var out := SendSpec(subs, jobs, sendFails);
      (out.Sent? || out.SendFailed?) <==>
        && subs.Some? && jobs.Some? && jobs.value != []
        && exists k :: 0 <= k < |subs.value| && subs.value[k].email.Some? && !IsBlank(subs.value[k].email.value)
  {
    if subs.Some? {
      RecipientsEmptyIff(subs.value);
    }
  }

  /** Nobody receives the message exactly when no subscriber has a non-blank address. */
  lemma RecipientsEmptyIff(subs: seq<Subscriber>)
    ensures Recipients(subs) == [] <==>
      !exists k :: 0 <= k < |subs| && subs[k].email.Some? && !IsBlank(subs[k].email.value)
  {
    var r := Recipients(subs);
    ValidEmailsMembers(subs);
    DistinctMembers(ValidEmails(subs));
    if exists k :: 0 <= k < |subs| && subs[k].email.Some? && !IsBlank(subs[k].email.value) {
      var k :| 0 <= k < |subs| && subs[k].email.Some? && !IsBlank(subs[k].email.value);
      assert subs[k].email.value in r;
    }
    if r != [] {
      assert r[0] in r;
    }
  }

  /** A sent message goes to the recipients and its body reads back as one row per job. */
  lemma SentMessage(subs: Option<seq<Subscriber>>, jobs: Option<seq<JobRecord>>, sendFails: bool)
    requires SendSpec(subs, jobs, sendFails).Sent?
    ensures var out := SendSpec(subs, jobs, sendFails);
      out.to == Recipients(subs.value) && out.subject == Subject && ReadTable(out.body) == Some(ShownJobs(jobs.value))
  {
    HtmlBodyReadsBack(jobs.value);
  }

  method SendNewJobsEmail(subs: Option<seq<Subscriber>>, newJobs: Option<seq<Job>>, sendFails: bool)
    returns (out: MailOutcome)
    ensures out == SendSpec(subs, if newJobs.None? then None else Some(Records(newJobs.value)), sendFails)
  {
    if subs.None? || subs.value == [] {
      return NoSubscribers;
    }
    if newJobs.None? || newJobs.value == [] {
      return NoJobs;
    }
    var to := Recipients(subs.value);
    if to == [] {
      return NoValidAddress;
    }
    var body := BuildHtmlBody(newJobs.value);
    if sendFails {
      // The exception is logged and not rethrown.
      return SendFailed(to);
    }
    return Sent(to, Subject, body);
  }
}
