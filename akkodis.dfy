/** The Akkodis scraper: the same incremental page walk as the Workday one
    over free-text listing items, with a position/req-id/location heuristic
    per item and pagination through candidate "next" arrows checked by a
    marker on the first listed job.

    The browser is an input: each page is what the scraper's lookups return
    on it, and each next-arrow candidate is what happens when it is tried. */
module AkkodisScraper {

  import opened Values
  import opened Text
  import opened JobModel
  import opened PortalModel
  import opened Database
  import opened PageScan
  import opened Robots
  import opened AkkodisText

  /** The job link `a[href*='/job']` of an item: its text and its `href` attribute. */
  datatype JobLink = JobLink(text: string, href: JString)

  /** One `<li>` of the results list as the scraper's lookups see it:
      - `StaleItem`: an exception escapes while reading it, so it is skipped;
      - `link`: the job link, or `None` when there is none;
      - `text`: the item's whole text;
      - `refTexts`: for each reference selector in order, the texts of the matching
        elements, or `None` when the lookup raised;
      - `locationTexts`: for each location selector in order, the text of the first
        matching element, or `None` when there is none. */
  datatype AkkodisItem =
    | StaleItem
    | Item(link: Option<JobLink>, text: string, refTexts: seq<Option<seq<string>>>,
           locationTexts: seq<Option<string>>)

  /** A "next" arrow candidate, as its clickable parent behaves when tried:
      - its `disabled`, `aria-disabled` and `class` attributes;
      - `fails`: an exception escapes while it is handled (stale, or both the native
        and the script click fail);
      - `containerAppears`: the results container is present after the click;
      - `markers`: the first-job markers the wait observes, in order, until it times out. */
  datatype Candidate = Candidate(disabled: JString, ariaDisabled: JString, classes: JString,
                                 fails: bool, containerAppears: bool, markers: seq<JString>)

  /** One results page: whether the results container appears, the items (`None` when the
      lookup raised) and the next-arrow candidates in the order they are collected. */
  datatype AkkodisPage = AkkodisPage(containerAppears: bool, items: Option<seq<AkkodisItem>>,
                                     candidates: seq<Candidate>)

  const MissingPage: AkkodisPage := AkkodisPage(false, None, [])

  // ---------------------------------------------------------------------
  // findReqIdInItem
  // ---------------------------------------------------------------------

  /** The id an element text gives: its trimmed text, when that is non-empty and matches
      `.*\d{5,}.*`, yields its first run of five or more digits. */
  function IdInText(raw: string): Option<string> {
    var text := Trim(raw);
    if text != [] && HasFiveDigitsOnOneLine(text) then Some(FiveDigitMatch(text)) else None
  }

  /** The first element text, in document order, that yields an id. */
  function FirstIdIn(texts: seq<string>): Option<string> {
    if texts == [] then None
    else if IdInText(texts[0]).Some? then IdInText(texts[0])
    else FirstIdIn(texts[1..])
  }

  /** The first id over the selectors in order; a selector whose lookup raised is passed over. */
  function FirstIdInGroups(groups: seq<Option<seq<string>>>): Option<string> {
    if groups == [] then None
    else
      var here := if groups[0].None? then None else FirstIdIn(groups[0].value);
      if here.Some? then here else FirstIdInGroups(groups[1..])
  }

  /** `findReqIdInItem`: the first element id, else the URL's id. */
  function ReqIdInItem(groups: seq<Option<seq<string>>>, jobUrl: JString): JString {
    var found := FirstIdInGroups(groups);
    if found.Some? then found else AkkodisReqIdFromUrl(jobUrl)
  }

  /** Every id found in the elements is a run of at least five digits. */
  lemma {:induction false} FirstIdInShape(texts: seq<string>)
    ensures FirstIdIn(texts).Some? ==> |FirstIdIn(texts).value| >= 5 && AllDigits(FirstIdIn(texts).value)
  {
    if texts != [] && IdInText(texts[0]).None? {
      FirstIdInShape(texts[1..]);
    }
  }

  lemma {:induction false} FirstIdInGroupsShape(groups: seq<Option<seq<string>>>)
    ensures FirstIdInGroups(groups).Some? ==>
      |FirstIdInGroups(groups).value| >= 5 && AllDigits(FirstIdInGroups(groups).value)
  {
    if groups != [] {
      if groups[0].Some? {
        FirstIdInShape(groups[0].value);
      }
      FirstIdInGroupsShape(groups[1..]);
    }
  }

  method FindReqIdInItem(groups: seq<Option<seq<string>>>, jobUrl: JString) returns (r: JString)
    ensures r == ReqIdInItem(groups, jobUrl)
  {
    for i := 0 to |groups|
      invariant FirstIdInGroups(groups) == FirstIdInGroups(groups[i..])
    {
      assert groups[i..][1..] == groups[i + 1..];
      if groups[i].None? {
        // The lookup raised; the handler moves on to the next selector.
        continue;
      }
      var els := groups[i].value;
      for j := 0 to |els|
        invariant FirstIdIn(els) == FirstIdIn(els[j..])
      {
        assert els[j..][1..] == els[j + 1..];
        var text := Trim(els[j]);
        if text != [] && HasFiveDigitsOnOneLine(text) {
          return Some(FiveDigitMatch(text));
        }
      }
    }
    r := AkkodisReqIdFromUrl(jobUrl);
  }

  // ---------------------------------------------------------------------
  // findLocationInItem
  // ---------------------------------------------------------------------

  /** The location one element gives: its normalised text run through `extractLocationText`,
      when that is non-null and non-empty. */
  function LocationInText(t: Option<string>): JString {
    if t.None? then None
    else
      var text := ExtractLocationText(SafeText(t));
      if text.Some? && text.value != [] then text else None
  }

  /** `findLocationInItem`: the first selector, in order, giving a location. */
  function LocationInItem(texts: seq<Option<string>>): JString {
    if texts == [] then None
    else if LocationInText(texts[0]).Some? then LocationInText(texts[0])
    else LocationInItem(texts[1..])
  }

  method FindLocationInItem(texts: seq<Option<string>>) returns (r: JString)
    ensures r == LocationInItem(texts)
  {
    for i := 0 to |texts|
      invariant LocationInItem(texts) == LocationInItem(texts[i..])
    {
      assert texts[i..][1..] == texts[i + 1..];
      if texts[i].Some? {
        var text := ExtractLocationText(SafeText(texts[i]));
        if text.Some? && text.value != [] {
          return text;
        }
      }
    }
    return None;
  }

  // ---------------------------------------------------------------------
  // extractJobFromItem
  // ---------------------------------------------------------------------

  /** The record `extractJobFromItem` builds for an item, or `None` when it returns null or
      raises: no job link, or no req id from the URL or the elements. */
  function ItemRecord(item: AkkodisItem, pid: int, name: JString): Option<JobRecord> {
    match item
    case StaleItem => None
    case Item(link, text, groups, locations) =>
      if link.None? then None
      else
        var position := ExtractPositionText(SafeText(Some(link.value.text)), SafeText(Some(text)));
        var url := link.value.href;
        var fromUrl := AkkodisReqIdFromUrl(url);
        var reqId := if IsBlankOrNull(fromUrl) then ReqIdInItem(groups, url) else fromUrl;
        var found := LocationInItem(locations);
        var location := if IsBlankOrNull(found) then ExtractLocationText(SafeText(Some(text))) else found;
        if IsBlankOrNull(reqId) then None
        else Some(JobRecord(reqId, pid, name, position, location, url))
  }

  /** The req id comes from the URL when the URL has one, and only otherwise from the
      reference elements; it is always a run of at least five digits. The portal fields
      are the portal's, the URL is the link's. */
  lemma ItemRecordReqId(item: AkkodisItem, pid: int, name: JString)
    requires ItemRecord(item, pid, name).Some?
    ensures var j := ItemRecord(item, pid, name).value;
      var fromUrl := AkkodisReqIdFromUrl(item.link.value.href);
      && j.reqId == (if fromUrl.Some? then fromUrl else FirstIdInGroups(item.refTexts))
      && |j.reqId.value| >= 5 && AllDigits(j.reqId.value)
      && j.portalId == pid && j.portalName == name && j.jobUrl == item.link.value.href
  {
    FirstIdInGroupsShape(item.refTexts);
    var fromUrl := AkkodisReqIdFromUrl(item.link.value.href);
    if fromUrl.Some? {
      assert !IsBlank(fromUrl.value) by {
        assert !IsJavaWhitespace(fromUrl.value[0]);
      }
    }
  }

  /** Items without a job link, and items that raise, are dropped. */
  lemma ItemWithoutLinkDropped(item: AkkodisItem, pid: int, name: JString)
    requires item.StaleItem? || item.link.None?
    ensures ItemRecord(item, pid, name).None?
  {
  }

  /** The location is the first location element's, and the item text's only when no
      element gives one. */
  lemma ItemRecordLocation(item: AkkodisItem, pid: int, name: JString)
    requires ItemRecord(item, pid, name).Some?
    ensures var found := LocationInItem(item.locationTexts);
      ItemRecord(item, pid, name).value.location
        == if found.Some? && !IsBlank(found.value) then found else ExtractLocationText(SafeText(Some(item.text)))
  {
  }

  method ExtractJobFromItem(item: AkkodisItem, portal: Portal) returns (job: Job?)
    ensures job == null <==> ItemRecord(item, portal.id, portal.portal).None?
    ensures job != null ==> fresh(job) && job.Record() == ItemRecord(item, portal.id, portal.portal).value
  {
    if item.StaleItem? {
      return null;
    }
    job := new Job();
    job.SetPortalId(portal.id);
    job.SetPortalName(portal.portal);
    if item.link.None? {
      return null;
    }
    var link := item.link.value;
    var linkText := SafeText(Some(link.text));
    var itemText := SafeText(Some(item.text));
    job.SetPosition(ExtractPositionText(linkText, itemText));
    job.SetJobUrl(link.href);
    job.SetReqId(AkkodisReqIdFromUrl(link.href));
    if IsBlankOrNull(job.reqId) {
      var fromItem := FindReqIdInItem(item.refTexts, job.jobUrl);
      job.SetReqId(fromItem);
    }
    var location := FindLocationInItem(item.locationTexts);
    if IsBlankOrNull(location) {
      location := ExtractLocationText(SafeText(Some(item.text)));
    }
    job.SetLocation(location);
    if IsBlankOrNull(job.reqId) {
      return null;
    }
  }

  // ---------------------------------------------------------------------
  // extractJobsFromCurrentPage
  // ---------------------------------------------------------------------

  /** The records of the items that give a job, in order. `WorkdayScraper` has the same fold
      over its own item type and `ItemRecord`; each scraper module keeps its own copy, with
      `ItemRecordsSnoc` and `ItemRecordsStep`, as each Java scraper has its own loop. */
  function ItemRecords(items: seq<AkkodisItem>, pid: int, name: JString): seq<JobRecord> {
    if items == [] then []
    else
      var last := ItemRecord(items[|items| - 1], pid, name);
      ItemRecords(items[..|items| - 1], pid, name) + Found(last)
  }

  lemma ItemRecordsSnoc(items: seq<AkkodisItem>, x: AkkodisItem, pid: int, name: JString)
    ensures ItemRecords(items + [x], pid, name) == ItemRecords(items, pid, name) + Found(ItemRecord(x, pid, name))
  {
    assert (items + [x])[..|items|] == items;
  }

  /** The jobs of a page: none when the item lookup raised. */
  function ItemsRecords(items: Option<seq<AkkodisItem>>, pid: int, name: JString): seq<JobRecord> {
    if items.None? then [] else ItemRecords(items.value, pid, name)
  }

  /** Every job of a page carries a req id of at least five digits and the page's portal. */
  lemma {:induction false} ItemRecordsShape(items: seq<AkkodisItem>, pid: int, name: JString)
    ensures forall j :: j in ItemRecords(items, pid, name) ==>
      j.reqId.Some? && |j.reqId.value| >= 5 && AllDigits(j.reqId.value) && j.portalId == pid
  {
    if items != [] {
      ItemRecordsShape(items[..|items| - 1], pid, name);
      var last := ItemRecord(items[|items| - 1], pid, name);
      if last.Some? {
        ItemRecordReqId(items[|items| - 1], pid, name);
      }
    }
  }

  method ExtractJobsFromCurrentPage(items: Option<seq<AkkodisItem>>, portal: Portal)
    returns (jobs: seq<Job>)
    ensures Records(jobs) == ItemsRecords(items, portal.id, portal.portal)
  {
    jobs := [];
    if items.None? {
      return;
    }
    var all := items.value;
    for i := 0 to |all|
      invariant Records(jobs) == ItemRecords(all[..i], portal.id, portal.portal)
    {
      jobs := AddJobFromItem(jobs, all[i], portal);
      ItemRecordsStep(all, i, portal.id, portal.portal);
    }
    assert all[..|all|] == all;
  }

  /** The records of one more item of a page (the Akkodis copy of this step). */
  lemma ItemRecordsStep(all: seq<AkkodisItem>, i: nat, pid: int, name: JString)
    requires i < |all|
    ensures ItemRecords(all[..i + 1], pid, name) == ItemRecords(all[..i], pid, name) + Found(ItemRecord(all[i], pid, name))
  {
    assert all[..i + 1] == all[..i] + [all[i]];
    ItemRecordsSnoc(all[..i], all[i], pid, name);
  }

  /** One turn of the item loop: `if (job != null) jobs.add(job)`. */
  method AddJobFromItem(jobs: seq<Job>, item: AkkodisItem, portal: Portal) returns (jobs': seq<Job>)
    ensures Records(jobs') == old(Records(jobs)) + Found(ItemRecord(item, portal.id, portal.portal))
  {
    var job := ExtractJobFromItem(item, portal);
    jobs' := jobs;
    if job != null {
      RecordsAppend(jobs, [job]);
      jobs' := jobs + [job];
    }
  }

  // ---------------------------------------------------------------------
  // Pagination
  // ---------------------------------------------------------------------

  /** `getFirstJobMarker`: the first item's link `href` when non-blank, else the link text;
      null when there is no item or no link, or the lookup raised. */
  function FirstJobMarker(items: Option<seq<AkkodisItem>>): JString {
    if items.None? || items.value == [] then None
    else
      match items.value[0]
      case StaleItem => None
      case Item(link, _, _, _) =>
        if link.None? then None
        else if !IsBlankOrNull(link.value.href) then link.value.href
        else Some(link.value.text)
  }

  /** A candidate moves the page on: it is enabled, handling it raises nothing, the
      container is there after the click, and some observed marker has advanced. */
  predicate Advances(before: JString, c: Candidate) {
    && IsElementEnabled(c.disabled, c.ariaDisabled, c.classes)
    && !c.fails
    && c.containerAppears
    && exists k :: 0 <= k < |c.markers| && MarkerAdvanced(before, c.markers[k])
  }

  /** `waitForPageAdvance`, polling the given markers until one has advanced. */
  method WaitForPageAdvance(containerAppears: bool, before: JString, markers: seq<JString>)
    returns (advanced: bool)
    ensures advanced <==> containerAppears && exists k :: 0 <= k < |markers| && MarkerAdvanced(before, markers[k])
  {
    if !containerAppears {
      return false;
    }
    for k := 0 to |markers|
      invariant forall m :: 0 <= m < k ==> !MarkerAdvanced(before, markers[m])
    {
      if MarkerAdvanced(before, markers[k]) {
        return true;
      }
    }
    return false;
  }

  /** `navigateToNextPage`: tries the candidates in order and reports whether one of them
      moved the page on. */
  method NavigateToNextPage(before: JString, candidates: seq<Candidate>) returns (moved: bool)
    ensures moved <==> exists k :: 0 <= k < |candidates| && Advances(before, candidates[k])
  {
    for i := 0 to |candidates|
      invariant forall k :: 0 <= k < i ==> !Advances(before, candidates[k])
    {
      var c := candidates[i];
      if !IsElementEnabled(c.disabled, c.ariaDisabled, c.classes) {
        continue;
      }
      if c.fails {
        continue;
      }
      var advanced := WaitForPageAdvance(c.containerAppears, before, c.markers);
      if advanced {
        return true;
      }
    }
    return false;
  }

  /** No candidate can move the page on after a disabled one only: a list of disabled
      candidates never advances. */
  lemma DisabledCandidatesNeverAdvance(before: JString, candidates: seq<Candidate>)
    requires forall k :: 0 <= k < |candidates| ==>
      !IsElementEnabled(candidates[k].disabled, candidates[k].ariaDisabled, candidates[k].classes)
    ensures !exists k :: 0 <= k < |candidates| && Advances(before, candidates[k])
  {
  }

  // ---------------------------------------------------------------------
  // scrapePortal
  // ---------------------------------------------------------------------

  /** The jobs of one page: none when the container does not appear. */
  function PageJobs(p: AkkodisPage, pid: int, name: JString): seq<JobRecord> {
    if p.containerAppears then ItemsRecords(p.items, pid, name) else []
  }

  /** The next-page outcome after a page; an exception never leaves `navigateToNextPage`. */
  function PageStep(p: AkkodisPage): Step {
    if exists k :: 0 <= k < |p.candidates| && Advances(FirstJobMarker(p.items), p.candidates[k]) then Advance
    else End
  }

  /** The jobs of every page, in page order. */
  function AllPageJobs(pages: seq<AkkodisPage>, pid: int, name: JString): seq<seq<JobRecord>> {
    seq(|pages|, k requires 0 <= k < |pages| => PageJobs(pages[k], pid, name))
  }

  /** The next-page outcome after every page, in page order. */
  function AllPageSteps(pages: seq<AkkodisPage>): seq<Step> {
    seq(|pages|, k requires 0 <= k < |pages| => PageStep(pages[k]))
  }

  /** The walk's inputs describe the pages: page `k` gives `jobsOf[k]` and `steps[k]`. */
  predicate Describes(pages: seq<AkkodisPage>, pid: int, name: JString,
                      jobsOf: seq<seq<JobRecord>>, steps: seq<Step>) {
    && |jobsOf| == |pages| && |steps| == |pages|
    && forall k {:trigger pages[k]} :: 0 <= k < |pages| ==>
         jobsOf[k] == PageJobs(pages[k], pid, name) && steps[k] == PageStep(pages[k])
  }

  /** What the walk's inputs say about page `k`; past the last page the browser shows a
      page without the container. */
  lemma PageDescribed(pages: seq<AkkodisPage>, pid: int, name: JString,
                      jobsOf: seq<seq<JobRecord>>, steps: seq<Step>, k: nat)
    requires Describes(pages, pid, name, jobsOf, steps)
    ensures var view := if k < |pages| then pages[k] else MissingPage;
      PageAt(jobsOf, k) == PageJobs(view, pid, name) && StepAt(steps, k) == PageStep(view)
  {
    if k < |pages| {
      assert jobsOf[k] == PageJobs(pages[k], pid, name);
    }
  }

  /** `scrapePortal` on its inputs: a robots denial returns an empty list with no writes,
      a failing `driver.get` raises, and otherwise the walk is persisted. */
  function PortalSpec(robots: RobotsView, loadFails: bool, pages: seq<AkkodisPage>, maxPages: nat,
                      cursor: JString, s: StoreState, pid: int, name: JString): PortalRun
  {
    if !AllowedSpec(robots) then PortalRun(Ok([]), s, cursor)
    else if loadFails then PortalRun(Failure(BrowserError), s, cursor)
    else ScrapeSpec(AllPageJobs(pages, pid, name), AllPageSteps(pages), maxPages, cursor, s, pid)
  }

  /** One pass of the `scrapePortal` loop over a page whose container appeared: extract
      its jobs, scan them against the cursor, and, when the scan did not stop at the
      cursor, try to move on to the next page. */
  method ScrapeCurrentPage(db: DatabaseManager, portal: Portal, view: AkkodisPage, cursor: JString)
    returns (here: seq<Job>, first: JString, empty: bool, hit: bool, moved: bool)
    ensures var jobs := ItemsRecords(view.items, portal.id, portal.portal);
      && empty == (jobs == [])
      && (!empty ==> first == jobs[0].reqId)
      && Records(here) == KeepNew(BeforeHit(jobs, cursor), db.State(), portal.id)
      && hit == HasHit(jobs, cursor)
      && (!empty && !hit ==> moved == (PageStep(view) == Advance))
  {
    var pageJobs := ExtractJobsFromCurrentPage(view.items, portal);
    here, first, hit, moved := [], None, false, false;
    empty := pageJobs == [];
    if empty {
      return;
    }
    first := pageJobs[0].reqId;
    here, hit := ScanPage(db, pageJobs, cursor, portal.id);
    if hit {
      return;
    }
    moved := NavigateToNextPage(FirstJobMarker(view.items), view.candidates);
  }

  /** One page of the `scrapePortal` loop (page `k`, numbered from 0), stated against the
      walk: `stop` says the loop ends at this page, `here` are the jobs it keeps on it,
      and `first` is the page's first req id (none for a missing or empty page). The
      jobs collected so far in `sofar` are left as they were. */
  method VisitPage(db: DatabaseManager, portal: Portal, pages: seq<AkkodisPage>, k: nat, maxPages: nat,
                   ghost jobsOf: seq<seq<JobRecord>>, ghost steps: seq<Step>, ghost w: Walk, ghost next: Walk,
                   ghost sofar: seq<Job>)
    returns (here: seq<Job>, first: JString, stop: bool)
    requires k < maxPages
    requires Describes(pages, portal.id, portal.portal, jobsOf, steps)
    requires w == WalkFrom(jobsOf, steps, k, maxPages, portal.recentJobId, db.State(), portal.id)
    requires next == WalkFrom(jobsOf, steps, k + 1, maxPages, portal.recentJobId, db.State(), portal.id)
    ensures stop ==> !w.aborted && w.kept == Records(here)
    ensures !stop ==> w.aborted == next.aborted && w.kept == Records(here) + next.kept
    ensures first == if PageAt(jobsOf, k) == [] then None else PageAt(jobsOf, k)[0].reqId
    ensures Records(sofar) == old(Records(sofar))
  {
    var cursor := portal.recentJobId;
    ghost var s := db.State();
    var view := if k < |pages| then pages[k] else MissingPage;
    PageDescribed(pages, portal.id, portal.portal, jobsOf, steps, k);
    if !view.containerAppears {
      // The container wait timed out.
      WalkStops(jobsOf, steps, k, maxPages, cursor, s, portal.id);
      return [], None, true;
    }
    var empty, hit, moved;
    here, first, empty, hit, moved := ScrapeCurrentPage(db, portal, view, cursor);
    if empty {
      WalkStops(jobsOf, steps, k, maxPages, cursor, s, portal.id);
      return [], None, true;
    }
    stop := hit || !moved;
    if stop {
      WalkStops(jobsOf, steps, k, maxPages, cursor, s, portal.id);
    } else {
      WalkAdvances(jobsOf, steps, k, maxPages, cursor, s, portal.id);
    }
  }

  /** The page loop of `scrapePortal`: the jobs it keeps and page 1's first req id.
      Nothing is written; that is left to `persistAndReturn`. */
  method WalkPages(db: DatabaseManager, portal: Portal, pages: seq<AkkodisPage>, maxPages: nat,
                   ghost jobsOf: seq<seq<JobRecord>>, ghost steps: seq<Step>)
    returns (newJobs: seq<Job>, firstJobReqId: JString)
    requires Describes(pages, portal.id, portal.portal, jobsOf, steps)
    ensures var walk := WalkFrom(jobsOf, steps, 0, maxPages, portal.recentJobId, db.State(), portal.id);
      Records(newJobs) == walk.kept && !walk.aborted && firstJobReqId == FirstReqId(jobsOf, maxPages)
  {
    ghost var s := db.State();
    var cursor := portal.recentJobId;
    ghost var walk := WalkFrom(jobsOf, steps, 0, maxPages, cursor, s, portal.id);
    ghost var rest := walk;
    newJobs := [];
    ghost var kept: seq<JobRecord> := [];
    firstJobReqId := None;
    // Pages are numbered from 0 here; the source counts `page` from 1.
    var k := 0;
    while k < maxPages
      invariant k <= maxPages
      invariant rest == WalkFrom(jobsOf, steps, k, maxPages, cursor, s, portal.id)
      invariant Records(newJobs) == kept
      invariant walk.kept == kept + rest.kept
      invariant walk.aborted == rest.aborted
      invariant firstJobReqId == if k > 0 then FirstReqId(jobsOf, maxPages) else None
    {
      ghost var next := WalkFrom(jobsOf, steps, k + 1, maxPages, cursor, s, portal.id);
      var here, first, stop := VisitPage(db, portal, pages, k, maxPages, jobsOf, steps, rest, next, newJobs);
      if k == 0 {
        // Only a non-empty page 1 sets it; otherwise it stays null.
        firstJobReqId := first;
      }
      ghost var keptBefore := kept;
      RecordsAppend(newJobs, here);
      newJobs := newJobs + here;
      kept := kept + Records(here);
      if stop {
        // Java returns `persistAndReturn` from inside the loop; the caller makes the same call.
        break;
      }
      AppendAssoc(keptBefore, Records(here), next.kept);
      rest := next;
      k := k + 1;
    }
    if k >= maxPages {
      WalkStops(jobsOf, steps, k, maxPages, cursor, s, portal.id);
      assert kept + [] == kept;
    }
  }

  method ScrapePortal(db: DatabaseManager, portal: Portal, robots: RobotsView, loadFails: bool,
                      pages: seq<AkkodisPage>, maxPages: nat)
    returns (r: Result<seq<Job>, ScrapeError>)
    requires db.Valid()
    modifies db, portal`recentJobId
    ensures db.Valid()
    ensures var run := PortalSpec(robots, loadFails, pages, maxPages, old(portal.recentJobId), old(db.State()),
                                  portal.id, portal.portal);
      ResultRecords(r) == run.result && db.State() == run.store && portal.recentJobId == run.cursor
  {
    var allowed := IsAllowed(robots);
    if !allowed {
      return Ok([]);
    }
    if loadFails {
      return Failure(BrowserError);
    }
    var newJobs, firstJobReqId := WalkPages(db, portal, pages, maxPages,
                                            AllPageJobs(pages, portal.id, portal.portal), AllPageSteps(pages));
    r := PersistAndReturn(db, portal, newJobs, firstJobReqId);
  }
}
