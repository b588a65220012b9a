/** The Workday scraper and the scrape cycle over every portal.

    A Workday portal is walked like this: robots.txt is checked, the portal is
    loaded, the results section is awaited, and then pages are read in order
    up to `maxPages`. Each page's structured `<li>` items are turned into jobs,
    the scan stops at the stored cursor, and the kept jobs are only those the
    store does not hold yet. After the loop the kept jobs are inserted and the
    cursor is re-anchored to page 1's first job.

    The browser is an input: each page is what the scraper's lookups return on
    it, and the Next button is what happens when it is read and clicked. */
module WorkdayScraper {

  import opened Values
  import opened Text
  import opened JobModel
  import opened PortalModel
  import opened Database
  import opened PageScan
  import opened Robots
  import AkkodisText
  import AkkodisScraper
  import Email

  /** The title link `h3 a[data-automation-id='jobTitle']`: its text and its `href`. */
  datatype TitleLink = TitleLink(text: string, href: JString)

  /** One `<li>` of the results list as the scraper's lookups see it:
      - `StaleItem`: an exception escapes while reading it, so it is skipped;
      - `title`: the title link, or `None` when there is none;
      - `location`: the text of the location `dd`, or `None` when there is none;
      - `reqText`: the text of the subtitle `li`, or `None` when there is none. */
  datatype WorkdayItem =
    | StaleItem
    | Item(title: Option<TitleLink>, location: Option<string>, reqText: Option<string>)

  /** What happens once the Next button has been found enabled and is clicked:
      - `Pressed`: the scroll, the click and the waits for the new page complete (the
        waits absorb their own timeouts);
      - `PressFailsQuietly`: a `NoSuchElementException` or `TimeoutException` escapes;
      - `PressRaises`: some other exception escapes and ends the portal. */
  datatype Press = Pressed | PressFailsQuietly | PressRaises

  /** The Next button `[data-uxi-widget-type='stepToNextButton']`:
      - `NoNextButton`: there is none;
      - `StaleButton`: reading its attributes raises;
      - otherwise its `disabled` and `aria-disabled` attributes and what pressing it does. */
  datatype NextButton =
    | NoNextButton
    | StaleButton
    | NextButton(disabled: JString, ariaDisabled: JString, press: Press)

  /** One results page: the list items (`None` when the lookup raised) and its Next button. */
  datatype WorkdayPage = WorkdayPage(items: Option<seq<WorkdayItem>>, next: NextButton)

  const MissingPage: WorkdayPage := WorkdayPage(None, NoNextButton)

  /** What loading the portal gives: `driver.get` raises, the results section never
      appears, or it appears. */
  datatype Load = LoadRaises | ResultsTimeout | ResultsShown

  // ---------------------------------------------------------------------
  // parseReqIdFromUrl
  // ---------------------------------------------------------------------

  /** `parseReqIdFromUrl`: the digits of the text after the last `_`, when there is such
      text and it holds a digit. */
  function WorkdayReqIdFromUrl(url: JString): (r: JString)
    ensures r.Some? ==> r.value != [] && AllDigits(r.value)
  {
    if url.None? then None
    else
      var u := url.value;
      var last := LastIndexOf(u, '_');
      if 0 <= last < |u| - 1 then
        var candidate := KeepDigits(u[last + 1..]);
        if candidate != [] then Some(candidate) else None
      else None
  }

  /** A URL gives an id exactly when it is non-null, has a `_` that is not its last
      character, and the text after the last `_` holds a digit; the id is then that
      text's digits. */
  lemma WorkdayReqIdFromUrlIff(url: JString)
    ensures WorkdayReqIdFromUrl(url).Some? <==>
      && url.Some?
      && 0 <= LastIndexOf(url.value, '_') < |url.value| - 1
      && exists k :: LastIndexOf(url.value, '_') < k < |url.value| && IsAsciiDigit(url.value[k])
    ensures WorkdayReqIdFromUrl(url).Some? ==>
      WorkdayReqIdFromUrl(url).value == KeepDigits(url.value[LastIndexOf(url.value, '_') + 1..])
  {
    if url.Some? {
      var u := url.value;
      var last := LastIndexOf(u, '_');
      if 0 <= last < |u| - 1 {
        DigitAfter(u, last);
      }
    }
  }

  /** The text after position `last` holds a digit exactly when its digits are not empty. */
  lemma DigitAfter(u: string, last: int)
    requires 0 <= last < |u|
    ensures KeepDigits(u[last + 1..]) != [] <==> exists k :: last < k < |u| && IsAsciiDigit(u[k])
  {
    var tail := u[last + 1..];
    KeepDigitsEmpty(tail);
    assert forall k :: 0 <= k < |tail| ==> tail[k] == u[k + last + 1];
    if exists k :: last < k < |u| && IsAsciiDigit(u[k]) {
      var k :| last < k < |u| && IsAsciiDigit(u[k]);
      assert tail[k - last - 1] == u[k];
    }
  }

  /** The URL shape the scraper expects, `<path>_<digits>`: the id is the trailing digits. */
  lemma WorkdayTrailingId(prefix: string, digits: string)
    requires digits != [] && AllDigits(digits)
    ensures WorkdayReqIdFromUrl(Some(prefix + "_" + digits)) == Some(digits)
  {
    var u := prefix + "_" + digits;
    assert u[|prefix|] == '_';
    forall k | |prefix| < k < |u|
      ensures u[k] != '_'
    {
      assert u[k] == digits[k - |prefix| - 1];
    }
    var last := LastIndexOf(u, '_');
    assert last == |prefix|;
    assert u[last + 1..] == digits;
  }

  /** For instance `.../job/Store1046/Title_202603061` gives `202603061`. */
  lemma WorkdayReqIdExample(url: string)
    requires url == "/job/Store1046/Title_202603061"
    ensures WorkdayReqIdFromUrl(Some(url)) == Some("202603061")
  {
    var prefix, digits := "/job/Store1046/Title", "202603061";
    assert url == prefix + "_" + digits;
    WorkdayTrailingId(prefix, digits);
  }

  // ---------------------------------------------------------------------
  // extractJobFromListItem
  // ---------------------------------------------------------------------

  /** The record `extractJobFromListItem` builds for an item, or `None` when it returns
      null or raises: no title link, or a null or blank req id. A present subtitle gives
      the req id as its trimmed text; only an absent one falls back to the URL. */
  function ItemRecord(item: WorkdayItem, pid: int, name: JString): Option<JobRecord> {
    match item
    case StaleItem => None
    case Item(title, location, reqText) =>
      if title.None? then None
      else
        var url := title.value.href;
        var reqId := if reqText.Some? then Some(Trim(reqText.value)) else WorkdayReqIdFromUrl(url);
        var place := if location.Some? then Some(Trim(location.value)) else None;
        if IsBlankOrNull(reqId) then None
        else Some(JobRecord(reqId, pid, name, Some(Trim(title.value.text)), place, url))
  }

  /** Where a kept item's req id comes from: the subtitle's trimmed text when the item has
      a subtitle, the URL's trailing digits otherwise. It is never blank. */
  lemma ItemRecordReqId(item: WorkdayItem, pid: int, name: JString)
    requires ItemRecord(item, pid, name).Some?
    ensures var j := ItemRecord(item, pid, name).value;
      && j.reqId.Some? && !IsBlank(j.reqId.value)
      && (item.reqText.Some? ==> j.reqId == Some(Trim(item.reqText.value)))
      && (item.reqText.None? ==> j.reqId == WorkdayReqIdFromUrl(item.title.value.href) && AllDigits(j.reqId.value))
  {
  }

  /** A subtitle whose text is blank drops the item, even when the URL carries an id. */
  lemma BlankSubtitleDropsItem(title: TitleLink, location: Option<string>, text: string, pid: int, name: JString)
    requires IsBlank(Trim(text))
    ensures ItemRecord(Item(Some(title), location, Some(text)), pid, name).None?
  {
  }

  /** An item without a title link is dropped. */
  lemma NoTitleDropsItem(location: Option<string>, reqText: Option<string>, pid: int, name: JString)
    ensures ItemRecord(Item(None, location, reqText), pid, name).None?
  {
  }

  /** The other fields of a kept item: the portal's id and name, the trimmed title, the
      link's URL, and the trimmed location, null when there is no location element. */
  lemma ItemRecordFields(item: WorkdayItem, pid: int, name: JString)
    requires ItemRecord(item, pid, name).Some?
    ensures var j := ItemRecord(item, pid, name).value;
      && j.portalId == pid && j.portalName == name
      && j.position == Some(Trim(item.title.value.text)) && j.jobUrl == item.title.value.href
      && (j.location.None? <==> item.location.None?)
      && (item.location.Some? ==> j.location == Some(Trim(item.location.value)))
  {
  }

  method ExtractJobFromListItem(item: WorkdayItem, portal: Portal) returns (job: Job?)
    ensures job == null <==> ItemRecord(item, portal.id, portal.portal).None?
    ensures job != null ==> fresh(job) && job.Record() == ItemRecord(item, portal.id, portal.portal).value
  {
    if item.StaleItem? {
      return null;
    }
    job := new Job();
    job.SetPortalId(portal.id);
    job.SetPortalName(portal.portal);
    if item.title.None? {
      return null;
    }
    var title := item.title.value;
    job.SetPosition(Some(Trim(title.text)));
    job.SetJobUrl(title.href);
    if item.location.Some? {
      job.SetLocation(Some(Trim(item.location.value)));
    } else {
      job.SetLocation(None);
    }
    if item.reqText.Some? {
      job.SetReqId(Some(Trim(item.reqText.value)));
    } else {
      job.SetReqId(WorkdayReqIdFromUrl(job.jobUrl));
    }
    if IsBlankOrNull(job.reqId) {
      return null;
    }
  }

  // ---------------------------------------------------------------------
  // scrapeCurrentPage
  // ---------------------------------------------------------------------

  /** The records of the items that give a job, in order. `AkkodisScraper` has the same fold
      over its own item type and `ItemRecord`; each scraper module keeps its own copy, with
      `ItemRecordsSnoc` and `ItemRecordsStep`, as each Java scraper has its own loop. */
  function ItemRecords(items: seq<WorkdayItem>, pid: int, name: JString): seq<JobRecord> {
    if items == [] then []
    else ItemRecords(items[..|items| - 1], pid, name) + Found(ItemRecord(items[|items| - 1], pid, name))
  }

  lemma ItemRecordsSnoc(items: seq<WorkdayItem>, x: WorkdayItem, pid: int, name: JString)
    ensures ItemRecords(items + [x], pid, name) == ItemRecords(items, pid, name) + Found(ItemRecord(x, pid, name))
  {
    assert (items + [x])[..|items|] == items;
  }

  /** The jobs of a page: none when the item lookup raised. */
  function PageJobs(p: WorkdayPage, pid: int, name: JString): seq<JobRecord> {
    if p.items.None? then [] else ItemRecords(p.items.value, pid, name)
  }

  /** Every job of a page has a non-blank req id and carries the page's portal. */
  lemma {:induction false} ItemRecordsShape(items: seq<WorkdayItem>, pid: int, name: JString)
    ensures forall j :: j in ItemRecords(items, pid, name) ==>
      j.reqId.Some? && !IsBlank(j.reqId.value) && j.portalId == pid && j.portalName == name
  {
    if items != [] {
      ItemRecordsShape(items[..|items| - 1], pid, name);
      var last := ItemRecord(items[|items| - 1], pid, name);
      if last.Some? {
        ItemRecordReqId(items[|items| - 1], pid, name);
      }
    }
  }

  method ScrapeCurrentPageItems(items: Option<seq<WorkdayItem>>, portal: Portal) returns (jobs: seq<Job>)
    ensures Records(jobs) == PageJobs(WorkdayPage(items, NoNextButton), portal.id, portal.portal)
  {
    jobs := [];
    if items.None? {
      // `findElements` raised: the page yields no jobs.
      return;
    }
    var all := items.value;
    for i := 0 to |all|
      invariant Records(jobs) == ItemRecords(all[..i], portal.id, portal.portal)
    {
      jobs := AddJobFromItem(jobs, all[i], portal);
      ItemRecordsStep(all, i, portal.id, portal.portal);
    }
    assert all[..|all|] == all;
  }

  /** The records of one more item of a page (the Workday copy of this step). */
  lemma ItemRecordsStep(all: seq<WorkdayItem>, i: nat, pid: int, name: JString)
    requires i < |all|
    ensures ItemRecords(all[..i + 1], pid, name) == ItemRecords(all[..i], pid, name) + Found(ItemRecord(all[i], pid, name))
  {
    assert all[..i + 1] == all[..i] + [all[i]];
    ItemRecordsSnoc(all[..i], all[i], pid, name);
  }

  /** One turn of the item loop: `if (job != null) jobs.add(job)`; an exception from the
      item is caught and the item skipped. */
  method AddJobFromItem(jobs: seq<Job>, item: WorkdayItem, portal: Portal) returns (jobs': seq<Job>)
    ensures Records(jobs') == old(Records(jobs)) + Found(ItemRecord(item, portal.id, portal.portal))
  {
    var job := ExtractJobFromListItem(item, portal);
    jobs' := jobs;
    if job != null {
      RecordsAppend(jobs, [job]);
      jobs' := jobs + [job];
    }
  }

  // ---------------------------------------------------------------------
  // navigateToNextPage
  // ---------------------------------------------------------------------

  /** The Next button is disabled when `disabled` or `aria-disabled` is exactly "true". */
  predicate Disabled(disabled: JString, ariaDisabled: JString) {
    disabled == Some("true") || ariaDisabled == Some("true")
  }

  /** `navigateToNextPage` as a step of the page loop: `true` moves on, `false` ends the
      loop, and an exception it does not catch aborts the portal. */
  function NextStep(b: NextButton): Step {
    match b
    case NoNextButton => End
    case StaleButton => Abort
    case NextButton(disabled, ariaDisabled, press) =>
      if Disabled(disabled, ariaDisabled) then End
      else
        match press
        case Pressed => Advance
        case PressFailsQuietly => End
        case PressRaises => Abort
  }

  method NavigateToNextPage(b: NextButton) returns (step: Step)
    ensures step == NextStep(b)
  {
    if b.NoNextButton? {
      return End;
    }
    if b.StaleButton? {
      return Abort;
    }
    if b.disabled == Some("true") || b.ariaDisabled == Some("true") {
      return End;
    }
    match b.press
    case Pressed => step := Advance;
    case PressFailsQuietly => step := End;
    case PressRaises => step := Abort;
  }

  /** The loop moves on only past an enabled button whose click completed. */
  lemma NextStepAdvanceIff(b: NextButton)
    ensures NextStep(b) == Advance <==>
      b.NextButton? && b.disabled != Some("true") && b.ariaDisabled != Some("true") && b.press == Pressed
  {
  }

  /** The disabled check compares exactly: "TRUE" does not disable the Workday button,
      although the Akkodis check, which ignores case, does treat it as disabled. */
  lemma DisabledIsCaseSensitive()
    ensures NextStep(NextButton(Some("TRUE"), None, Pressed)) == Advance
    ensures !AkkodisText.IsElementEnabled(Some("TRUE"), None, None)
  {
    assert "TRUE" != "true" by {
      assert "TRUE"[0] != "true"[0];
    }
    assert Lower("TRUE") == "true";
  }

  // ---------------------------------------------------------------------
  // scrapePortal
  // ---------------------------------------------------------------------

  /** The next-page outcome after a page. */
  function PageStep(p: WorkdayPage): Step {
    NextStep(p.next)
  }

  /** The jobs of every page, in page order. */
  function AllPageJobs(pages: seq<WorkdayPage>, pid: int, name: JString): seq<seq<JobRecord>> {
    seq(|pages|, k requires 0 <= k < |pages| => PageJobs(pages[k], pid, name))
  }

  /** The next-page outcome after every page, in page order. */
  function AllPageSteps(pages: seq<WorkdayPage>): seq<Step> {
    seq(|pages|, k requires 0 <= k < |pages| => PageStep(pages[k]))
  }

  /** The walk's inputs describe the pages: page `k` gives `jobsOf[k]` and `steps[k]`. */
  predicate Describes(pages: seq<WorkdayPage>, pid: int, name: JString,
                      jobsOf: seq<seq<JobRecord>>, steps: seq<Step>) {
    && |jobsOf| == |pages| && |steps| == |pages|
    && forall k {:trigger pages[k]} :: 0 <= k < |pages| ==>
         jobsOf[k] == PageJobs(pages[k], pid, name) && steps[k] == PageStep(pages[k])
  }

  /** What the walk's inputs say about page `k`; past the last page the browser shows a
      page whose item lookup finds nothing. */
  lemma PageDescribed(pages: seq<WorkdayPage>, pid: int, name: JString,
                      jobsOf: seq<seq<JobRecord>>, steps: seq<Step>, k: nat)
    requires Describes(pages, pid, name, jobsOf, steps)
    ensures var view := if k < |pages| then pages[k] else MissingPage;
      PageAt(jobsOf, k) == PageJobs(view, pid, name) && StepAt(steps, k) == PageStep(view)
  {
    if k < |pages| {
      assert jobsOf[k] == PageJobs(pages[k], pid, name);
    }
  }

  /** `scrapePortal` on its inputs: a robots denial and a results wait that times out
      return an empty list with no writes; a failing `driver.get` raises; otherwise the
      walk is persisted, unless it aborted. */
  function PortalSpec(robots: RobotsView, load: Load, pages: seq<WorkdayPage>, maxPages: nat,
                      cursor: JString, s: StoreState, pid: int, name: JString): PortalRun
  {
    if !AllowedSpec(robots) then PortalRun(Ok([]), s, cursor)
    else
      match load
      case LoadRaises => PortalRun(Failure(BrowserError), s, cursor)
      case ResultsTimeout => PortalRun(Ok([]), s, cursor)
      case ResultsShown => ScrapeSpec(AllPageJobs(pages, pid, name), AllPageSteps(pages), maxPages, cursor, s, pid)
  }

  /** Nothing is written and the in-memory cursor stays unless robots allows the portal,
      the results section appears and the page loop runs to its end without an exception. */
  lemma PortalWritesOnlyAfterWalk(robots: RobotsView, load: Load, pages: seq<WorkdayPage>, maxPages: nat,
                                  cursor: JString, s: StoreState, pid: int, name: JString)
    requires !AllowedSpec(robots) || !load.ResultsShown?
             || WalkFrom(AllPageJobs(pages, pid, name), AllPageSteps(pages), 0, maxPages, cursor, s, pid).aborted
    ensures var run := PortalSpec(robots, load, pages, maxPages, cursor, s, pid, name);
      run.store == s && run.cursor == cursor && (run.result.Ok? ==> run.result.value == [])
  {
  }

  /** One pass of the `scrapePortal` loop: extract the page's jobs, scan them against the
      cursor, and, when the scan did not stop at the cursor, try the Next button. */
  method ScrapeCurrentPage(db: DatabaseManager, portal: Portal, view: WorkdayPage, cursor: JString)
    returns (here: seq<Job>, first: JString, empty: bool, hit: bool, step: Step)
    ensures var jobs := PageJobs(view, portal.id, portal.portal);
      && empty == (jobs == [])
      && (!empty ==> first == jobs[0].reqId)
      && Records(here) == KeepNew(BeforeHit(jobs, cursor), db.State(), portal.id)
      && hit == HasHit(jobs, cursor)
      && (!empty && !hit ==> step == PageStep(view))
  {
    var pageJobs := ScrapeCurrentPageItems(view.items, portal);
    here, first, hit, step := [], None, false, End;
    empty := pageJobs == [];
    if empty {
      return;
    }
    first := pageJobs[0].reqId;
    here, hit := ScanPage(db, pageJobs, cursor, portal.id);
    if hit {
      return;
    }
    step := NavigateToNextPage(view.next);
  }

  /** One page of the `scrapePortal` loop (page `k`, numbered from 0), stated against the
      walk: `aborted` says an exception left the loop here, `stop` that the loop ends at
      this page, `here` are the jobs it keeps on it, and `first` is the page's first req
      id (none for an empty page). The jobs in `sofar` are left as they were. */
  method VisitPage(db: DatabaseManager, portal: Portal, pages: seq<WorkdayPage>, k: nat, maxPages: nat,
                   ghost jobsOf: seq<seq<JobRecord>>, ghost steps: seq<Step>, ghost w: Walk, ghost next: Walk,
                   ghost sofar: seq<Job>)
    returns (here: seq<Job>, first: JString, stop: bool, aborted: bool)
    requires k < maxPages
    requires Describes(pages, portal.id, portal.portal, jobsOf, steps)
    requires w == WalkFrom(jobsOf, steps, k, maxPages, portal.recentJobId, db.State(), portal.id)
    requires next == WalkFrom(jobsOf, steps, k + 1, maxPages, portal.recentJobId, db.State(), portal.id)
    ensures aborted ==> w.aborted
    ensures !aborted && stop ==> !w.aborted && w.kept == Records(here)
    ensures !aborted && !stop ==> w.aborted == next.aborted && w.kept == Records(here) + next.kept
    ensures first == if PageAt(jobsOf, k) == [] then None else PageAt(jobsOf, k)[0].reqId
    ensures Records(sofar) == old(Records(sofar))
  {
    var cursor := portal.recentJobId;
    ghost var s := db.State();
    var view := if k < |pages| then pages[k] else MissingPage;
    PageDescribed(pages, portal.id, portal.portal, jobsOf, steps, k);
    var empty, hit, step;
    here, first, empty, hit, step := ScrapeCurrentPage(db, portal, view, cursor);
    aborted := false;
    if empty {
      WalkStops(jobsOf, steps, k, maxPages, cursor, s, portal.id);
      return [], None, true, false;
    }
    if hit {
      WalkStops(jobsOf, steps, k, maxPages, cursor, s, portal.id);
      return here, first, true, false;
    }
    match step
    case Abort =>
      WalkAborts(jobsOf, steps, k, maxPages, cursor, s, portal.id);
      stop, aborted := true, true;
    case End =>
      WalkStops(jobsOf, steps, k, maxPages, cursor, s, portal.id);
      stop := true;
    case Advance =>
      WalkAdvances(jobsOf, steps, k, maxPages, cursor, s, portal.id);
      stop := false;
  }

  /** The page loop of `scrapePortal`: the jobs it keeps, page 1's first req id, and
      whether an exception left it. Nothing is written here. */
  method WalkPages(db: DatabaseManager, portal: Portal, pages: seq<WorkdayPage>, maxPages: nat,
                   ghost jobsOf: seq<seq<JobRecord>>, ghost steps: seq<Step>)
    returns (newJobs: seq<Job>, firstJobReqId: JString, aborted: bool)
    requires Describes(pages, portal.id, portal.portal, jobsOf, steps)
    ensures var walk := WalkFrom(jobsOf, steps, 0, maxPages, portal.recentJobId, db.State(), portal.id);
      && aborted == walk.aborted
      && (!aborted ==> Records(newJobs) == walk.kept)
      && firstJobReqId == FirstReqId(jobsOf, maxPages)
  {
    ghost var s := db.State();
    var cursor := portal.recentJobId;
    ghost var walk := WalkFrom(jobsOf, steps, 0, maxPages, cursor, s, portal.id);
    ghost var rest := walk;
    newJobs := [];
    ghost var kept: seq<JobRecord> := [];
    firstJobReqId := None;
    aborted := false;
    // Pages are numbered from 0 here; the source counts `page` from 1.
    var k := 0;
    while k < maxPages
      invariant k <= maxPages
      invariant rest == WalkFrom(jobsOf, steps, k, maxPages, cursor, s, portal.id)
      invariant Records(newJobs) == kept
      invariant walk.kept == kept + rest.kept
      invariant walk.aborted == rest.aborted
      invariant firstJobReqId == if k > 0 then FirstReqId(jobsOf, maxPages) else None
    {
      ghost var next := WalkFrom(jobsOf, steps, k + 1, maxPages, cursor, s, portal.id);
      var here, first, stop, failed := VisitPage(db, portal, pages, k, maxPages, jobsOf, steps, rest, next, newJobs);
      if k == 0 {
        // Only a non-empty page 1 sets it; otherwise it stays null.
        firstJobReqId := first;
      }
      if failed {
        // The exception leaves `scrapePortal` before anything is persisted.
        aborted := true;
        return;
      }
      ghost var keptBefore := kept;
      RecordsAppend(newJobs, here);
      newJobs := newJobs + here;
      kept := kept + Records(here);
      if stop {
        break;
      }
      AppendAssoc(keptBefore, Records(here), next.kept);
      rest := next;
      k := k + 1;
    }
    if k >= maxPages {
      WalkStops(jobsOf, steps, k, maxPages, cursor, s, portal.id);
      assert kept + [] == kept;
    }
  }

  method ScrapePortal(db: DatabaseManager, portal: Portal, robots: RobotsView, load: Load,
                      pages: seq<WorkdayPage>, maxPages: nat)
    returns (r: Result<seq<Job>, ScrapeError>)
    requires db.Valid()
    modifies db, portal`recentJobId
    ensures db.Valid()
    ensures var run := PortalSpec(robots, load, pages, maxPages, old(portal.recentJobId), old(db.State()),
                                  portal.id, portal.portal);
      ResultRecords(r) == run.result && db.State() == run.store && portal.recentJobId == run.cursor
  {
    var allowed := IsAllowed(robots);
    if !allowed {
      return Ok([]);
    }
    if load.LoadRaises? {
      return Failure(BrowserError);
    }
    if load.ResultsTimeout? {
      return Ok([]);
    }
    var newJobs, firstJobReqId, aborted := WalkPages(db, portal, pages, maxPages,
                                                     AllPageJobs(pages, portal.id, portal.portal),
                                                     AllPageSteps(pages));
    if aborted {
      return Failure(BrowserError);
    }
    r := PersistAndReturn(db, portal, newJobs, firstJobReqId);
  }

  // ---------------------------------------------------------------------
  // Routing and the scrape cycle
  // ---------------------------------------------------------------------

  /** `isAkkodisPortal`: the lower-cased name contains "akkodis" or the lower-cased link
      contains "akkodis.com"; a null name or link counts as "". */
  predicate IsAkkodisPortal(name: JString, link: JString) {
    var n := if name.None? then "" else Lower(name.value);
    var l := if link.None? then "" else Lower(link.value);
    Contains(n, "akkodis") || Contains(l, "akkodis.com")
  }

  datatype Route = ToAkkodis | ToWorkday | Skip

  /** Which scraper a portal goes to; the Akkodis test comes first. */
  function RouteOf(name: JString, link: JString, workday: bool): Route {
    if IsAkkodisPortal(name, link) then ToAkkodis
    else if workday then ToWorkday
    else Skip
  }

  /** A portal looking like Akkodis goes to the Akkodis scraper even with `workday` set;
      otherwise `workday` decides between the Workday scraper and skipping. */
  lemma RouteCases(name: JString, link: JString, workday: bool)
    ensures RouteOf(name, link, workday) == ToAkkodis <==> IsAkkodisPortal(name, link)
    ensures RouteOf(name, link, workday) == ToWorkday <==> !IsAkkodisPortal(name, link) && workday
    ensures RouteOf(name, link, workday) == Skip <==> !IsAkkodisPortal(name, link) && !workday
  {
  }

  /** The name test ignores case: a name holding "akkodis" in any ASCII case routes to
      the Akkodis scraper. */
  lemma AkkodisNameInAnyCase(before: string, word: string, after: string, link: JString, workday: bool)
    requires Lower(word) == "akkodis"
    ensures RouteOf(Some(before + word + after), link, workday) == ToAkkodis
  {
    var name := before + word + after;
    LowerAppend(before + word, after);
    LowerAppend(before, word);
    var low := Lower(name);
    assert low == Lower(before) + "akkodis" + Lower(after);
    assert low[|before|..|before| + 7] == "akkodis";
    assert OccursAt(low, "akkodis", |before|);
    assert IndexOf(low, "akkodis") >= 0;
  }

  /** A portal as the cycle reads it after `fetchAllPortals`. */
  datatype PortalInfo = PortalInfo(id: int, workday: bool, name: JString, link: JString, cursor: JString)

  function InfoOf(p: Portal): PortalInfo
    reads p
  {
    PortalInfo(p.id, p.workday, p.portal, p.link, p.recentJobId)
  }

  /** `fetchAllPortals`: one portal per row, ordered by id, a null `workday` read as true. */
  ghost predicate FetchedInOrder(infos: seq<PortalInfo>, rows: map<int, PortalRow>) {
    && (forall i, j :: 0 <= i < j < |infos| ==> infos[i].id < infos[j].id)
    && (forall id :: id in rows <==> exists k :: 0 <= k < |infos| && infos[k].id == id)
    && (forall k :: 0 <= k < |infos| ==> infos[k].id in rows && InfoMatchesRow(infos[k], rows[infos[k].id]))
  }

  predicate InfoMatchesRow(p: PortalInfo, row: PortalRow) {
    && p.workday == (row.workday != Some(false))
    && p.name == Some(row.name)
    && p.link == Some(row.link)
    && p.cursor == row.recentJobId
  }

  /** What the browser shows each scraper on one portal, and what robots.txt gives. */
  datatype SiteView = SiteView(robots: RobotsView, load: Load, pages: seq<WorkdayPage>,
                               akkodisLoadFails: bool, akkodisPages: seq<AkkodisScraper.AkkodisPage>)

  /** A site past the given ones: robots.txt cannot be fetched and loading raises. */
  const Unreachable: SiteView := SiteView(RobotsView(None, FetchFailed), LoadRaises, [], true, [])

  function ViewAt(views: seq<SiteView>, k: nat): SiteView {
    if k < |views| then views[k] else Unreachable
  }

  /** One portal of the cycle, routed to its scraper; a skipped portal yields nothing. */
  function PortalOutcome(p: PortalInfo, v: SiteView, maxPages: nat, s: StoreState): PortalRun {
    match RouteOf(p.name, p.link, p.workday)
    case ToAkkodis =>
      AkkodisScraper.PortalSpec(v.robots, v.akkodisLoadFails, v.akkodisPages, maxPages, p.cursor, s, p.id, p.name)
    case ToWorkday => PortalSpec(v.robots, v.load, v.pages, maxPages, p.cursor, s, p.id, p.name)
    case Skip => PortalRun(Ok([]), s, p.cursor)
  }

  /** The jobs a portal adds to `allNewJobs`: its list, or nothing when it raised. */
  function Contribution(run: PortalRun): seq<JobRecord> {
    if run.result.Ok? then run.result.value else []
  }

  /** The cycle so far: the new jobs of every portal in order, and the store afterwards. */
  datatype Cycle = Cycle(jobs: seq<JobRecord>, store: StoreState)

  /** The portal loop of `run` over `ps`, each portal seeing the store the previous ones
      left; an exception from one portal is caught and the loop goes on. */
  function RunOver(ps: seq<PortalInfo>, views: seq<SiteView>, maxPages: nat, s: StoreState): Cycle {
    if ps == [] then Cycle([], s)
    else
      var before := RunOver(ps[..|ps| - 1], views, maxPages, s);
      var run := PortalOutcome(ps[|ps| - 1], ViewAt(views, |ps| - 1), maxPages, before.store);
      Cycle(before.jobs + Contribution(run), run.store)
  }

  /** The notification `run` hands over: none when no portal found a new job. */
  function MailSpec(jobs: seq<JobRecord>, subscribers: Option<seq<Email.Subscriber>>, sendFails: bool)
    : Option<Email.MailOutcome>
  {
    if jobs == [] then None else Some(Email.SendSpec(subscribers, Some(jobs), sendFails))
  }

  /** The whole cycle: the jobs collected, the store afterwards, and the mail outcome. */
  method Run(db: DatabaseManager, views: seq<SiteView>, maxPages: nat,
             subscribers: Option<seq<Email.Subscriber>>, sendFails: bool)
    returns (allNewJobs: seq<Job>, mail: Option<Email.MailOutcome>, ghost fetched: seq<PortalInfo>)
    requires db.Valid()
    modifies db
    ensures db.Valid()
    ensures FetchedInOrder(fetched, old(db.State()).portals)
    ensures var cycle := RunOver(fetched, views, maxPages, old(db.State()));
      Records(allNewJobs) == cycle.jobs && db.State() == cycle.store
    ensures mail == MailSpec(Records(allNewJobs), subscribers, sendFails)
  {
    var portals;
    portals, fetched := FetchPortals(db);
    allNewJobs, mail := [], None;
    if portals == [] {
      // Returns before the browser is started.
      return;
    }
    allNewJobs := ScrapeAll(db, portals, views, maxPages, fetched);
    if allNewJobs != [] {
      var outcome := Email.SendNewJobsEmail(subscribers, Some(allNewJobs), sendFails);
      mail := Some(outcome);
    }
  }

  /** `fetchAllPortals`, with the portals as values beside the objects. */
  method FetchPortals(db: DatabaseManager) returns (portals: seq<Portal>, ghost fetched: seq<PortalInfo>)
    ensures FetchedInOrder(fetched, db.State().portals)
    ensures |fetched| == |portals| && forall m :: 0 <= m < |portals| ==> InfoOf(portals[m]) == fetched[m]
    ensures forall i, j :: 0 <= i < j < |portals| ==> portals[i].id < portals[j].id
    ensures forall m :: 0 <= m < |portals| ==> fresh(portals[m])
  {
    portals := db.FetchAllPortals();
    fetched := Infos(portals);
    FetchedPortalsInOrder(portals, fetched, db.State().portals);
  }

  /** The portal loop of `run`: every portal in id order, through its scraper. */
  method ScrapeAll(db: DatabaseManager, portals: seq<Portal>, views: seq<SiteView>, maxPages: nat,
                   ghost fetched: seq<PortalInfo>)
    returns (allNewJobs: seq<Job>)
    requires db.Valid()
    requires |fetched| == |portals| && forall m :: 0 <= m < |portals| ==> InfoOf(portals[m]) == fetched[m]
    requires forall i, j :: 0 <= i < j < |portals| ==> portals[i].id < portals[j].id
    modifies db, set p | p in portals
    ensures db.Valid()
    ensures var cycle := RunOver(fetched, views, maxPages, old(db.State()));
      Records(allNewJobs) == cycle.jobs && db.State() == cycle.store
  {
    allNewJobs := [];
    ghost var s0 := db.State();
    ghost var jobs: seq<JobRecord> := [];
    for i := 0 to |portals|
      invariant db.Valid()
      invariant Records(allNewJobs) == jobs
      invariant Cycle(jobs, db.State()) == RunOver(fetched[..i], views, maxPages, s0)
      invariant forall m :: i <= m < |portals| ==> InfoOf(portals[m]) == fetched[m]
    {
      var portal := portals[i];
      var view := ViewAt(views, i);
      ghost var later := portals[i + 1..];
      LaterPortalsDiffer(portals, i);
      RunOverStep(fetched, i, views, maxPages, s0);
      ghost var run := PortalOutcome(fetched[i], view, maxPages, db.State());
      ghost var jobsBefore := jobs;
      var r := ScrapeRouted(db, portal, view, maxPages, allNewJobs, later);
      assert ResultRecords(r) == run.result && db.State() == run.store;
      forall m | i < m < |portals|
        ensures InfoOf(portals[m]) == fetched[m]
      {
        assert portals[m] == later[m - i - 1];
      }
      if r.Ok? {
        RecordsAppend(allNewJobs, r.value);
        allNewJobs := allNewJobs + r.value;
        jobs := jobs + Records(r.value);
      }
      assert jobs == jobsBefore + Contribution(run);
      // An exception from the portal is logged and the loop goes on.
    }
    assert fetched[..|portals|] == fetched;
  }

  /** The routing in the body of the portal loop. */
  method ScrapeRouted(db: DatabaseManager, portal: Portal, view: SiteView, maxPages: nat,
                      ghost sofar: seq<Job>, ghost others: seq<Portal>)
    returns (r: Result<seq<Job>, ScrapeError>)
    requires db.Valid()
    requires portal !in others
    modifies db, portal`recentJobId
    ensures db.Valid()
    ensures var run := PortalOutcome(old(InfoOf(portal)), view, maxPages, old(db.State()));
      ResultRecords(r) == run.result && db.State() == run.store
    ensures Records(sofar) == old(Records(sofar))
    ensures forall q :: q in others ==> InfoOf(q) == old(InfoOf(q))
  {
    if IsAkkodisPortal(portal.portal, portal.link) {
      // Routed to Akkodis even when `workday` is true.
      r := AkkodisScraper.ScrapePortal(db, portal, view.robots, view.akkodisLoadFails, view.akkodisPages, maxPages);
    } else if portal.workday {
      r := ScrapePortal(db, portal, view.robots, view.load, view.pages, maxPages);
    } else {
      r := Ok([]);
    }
  }

  lemma FetchedPortalsInOrder(ps: seq<Portal>, infos: seq<PortalInfo>, rows: map<int, PortalRow>)
    requires |infos| == |ps| && forall k :: 0 <= k < |ps| ==> infos[k] == InfoOf(ps[k])
    requires forall i, j :: 0 <= i < j < |ps| ==> ps[i].id < ps[j].id
    requires forall id :: id in rows <==> exists k :: 0 <= k < |ps| && ps[k].id == id
    requires forall k :: 0 <= k < |ps| ==> ps[k].id in rows && PortalMatchesRow(ps[k], rows[ps[k].id])
    ensures FetchedInOrder(infos, rows)
  {
    forall id | id in rows
      ensures exists k :: 0 <= k < |infos| && infos[k].id == id
    {
      var k :| 0 <= k < |ps| && ps[k].id == id;
      assert infos[k].id == id;
    }
  }

  /** The portals as values, in order. */
  function Infos(ps: seq<Portal>): (r: seq<PortalInfo>)
    reads set p | p in ps
    ensures |r| == |ps|
    ensures forall k {:trigger r[k]} :: 0 <= k < |ps| ==> r[k] == InfoOf(ps[k])
  {
    if ps == [] then [] else [InfoOf(ps[0])] + Infos(ps[1..])
  }

  // ---------------------------------------------------------------------
  // Properties of the cycle
  // ---------------------------------------------------------------------

  /** Ids strictly increase, so the portal at `i` is none of those after it. */
  lemma LaterPortalsDiffer(ps: seq<Portal>, i: nat)
    requires i < |ps|
    requires forall i, j :: 0 <= i < j < |ps| ==> ps[i].id < ps[j].id
    ensures ps[i] !in ps[i + 1..]
  {
  }

  /** One more portal of the loop. */
  lemma RunOverStep(ps: seq<PortalInfo>, i: nat, views: seq<SiteView>, maxPages: nat, s: StoreState)
    requires i < |ps|
    ensures var before := RunOver(ps[..i], views, maxPages, s);
      var run := PortalOutcome(ps[i], ViewAt(views, i), maxPages, before.store);
      RunOver(ps[..i + 1], views, maxPages, s) == Cycle(before.jobs + Contribution(run), run.store)
  {
    assert ps[..i + 1][..i] == ps[..i];
  }

  /** The new jobs of a cycle are those of its first portals followed by those of the last. */
  lemma RunOverSnoc(ps: seq<PortalInfo>, p: PortalInfo, views: seq<SiteView>, maxPages: nat, s: StoreState)
    ensures var before := RunOver(ps, views, maxPages, s);
      RunOver(ps + [p], views, maxPages, s).jobs
        == before.jobs + Contribution(PortalOutcome(p, ViewAt(views, |ps|), maxPages, before.store))
  {
    assert (ps + [p])[..|ps|] == ps;
  }

  /** Portals that are neither Akkodis nor Workday portals leave the store alone and add
      nothing, so a cycle over them only sends no mail. */
  lemma {:induction false} SkippedPortalsChangeNothing(ps: seq<PortalInfo>, views: seq<SiteView>, maxPages: nat,
                                                       s: StoreState)
    requires forall k :: 0 <= k < |ps| ==> RouteOf(ps[k].name, ps[k].link, ps[k].workday) == Skip
    ensures RunOver(ps, views, maxPages, s) == Cycle([], s)
  {
    if ps != [] {
      SkippedPortalsChangeNothing(ps[..|ps| - 1], views, maxPages, s);
    }
  }

  /** Every job of the cycle belongs to one of the portals it visited. */
  lemma {:induction false} RunJobsBelongToPortals(ps: seq<PortalInfo>, views: seq<SiteView>, maxPages: nat,
                                                  s: StoreState)
    ensures forall j :: j in RunOver(ps, views, maxPages, s).jobs ==>
      exists k :: 0 <= k < |ps| && j.portalId == ps[k].id
  {
    if ps != [] {
      var init := ps[..|ps| - 1];
      RunJobsBelongToPortals(init, views, maxPages, s);
      var last := ps[|ps| - 1];
      var before := RunOver(init, views, maxPages, s);
      var run := PortalOutcome(last, ViewAt(views, |ps| - 1), maxPages, before.store);
      PortalJobsCarryId(last, ViewAt(views, |ps| - 1), maxPages, before.store);
      forall j | j in RunOver(ps, views, maxPages, s).jobs
        ensures exists k :: 0 <= k < |ps| && j.portalId == ps[k].id
      {
        if j in before.jobs {
          var k :| 0 <= k < |init| && j.portalId == init[k].id;
          assert ps[k] == init[k];
        } else {
          assert j in Contribution(run);
          assert j.portalId == ps[|ps| - 1].id;
        }
      }
    }
  }

  /** The jobs one portal returns carry its id. */
  lemma PortalJobsCarryId(p: PortalInfo, v: SiteView, maxPages: nat, s: StoreState)
    ensures forall j :: j in Contribution(PortalOutcome(p, v, maxPages, s)) ==> j.portalId == p.id
  {
    match RouteOf(p.name, p.link, p.workday)
    case ToAkkodis =>
      var pages := AkkodisScraper.AllPageJobs(v.akkodisPages, p.id, p.name);
      forall k | 0 <= k < |pages|
        ensures forall j: JobRecord :: j in pages[k] ==> j.portalId == p.id
      {
        var page := v.akkodisPages[k];
        if page.containerAppears && page.items.Some? {
          AkkodisScraper.ItemRecordsShape(page.items.value, p.id, p.name);
        }
      }
      ScrapeKeepsPortal(pages, AkkodisScraper.AllPageSteps(v.akkodisPages), maxPages, p.cursor, s, p.id);
    case ToWorkday =>
      var pages := AllPageJobs(v.pages, p.id, p.name);
      forall k | 0 <= k < |pages|
        ensures forall j: JobRecord :: j in pages[k] ==> j.portalId == p.id
      {
        if v.pages[k].items.Some? {
          ItemRecordsShape(v.pages[k].items.value, p.id, p.name);
        }
      }
      ScrapeKeepsPortal(pages, AllPageSteps(v.pages), maxPages, p.cursor, s, p.id);
    case Skip =>
  }

  /** A scrape returns only jobs of its pages; when they all carry the portal's id, so
      does the result. */
  lemma ScrapeKeepsPortal(pages: seq<seq<JobRecord>>, steps: seq<Step>, maxPages: nat,
                          cursor: JString, s: StoreState, pid: int)
    requires forall k :: 0 <= k < |pages| ==> forall j :: j in pages[k] ==> j.portalId == pid
    ensures var run := ScrapeSpec(pages, steps, maxPages, cursor, s, pid);
      forall j :: j in Contribution(run) ==> j.portalId == pid
  {
    var w := WalkFrom(pages, steps, 0, maxPages, cursor, s, pid);
    WalkBound(pages, steps, 0, maxPages, cursor, s, pid);
    WalkKeepsBeforeHit(pages, steps, 0, maxPages, cursor, s, pid);
    var all := Flatten(pages, 0, w.examined);
    FlattenCarries(pages, 0, w.examined, pid);
    BeforeHitShape(all, cursor);
    var front := BeforeHit(all, cursor);
    KeepNewMembers(front, s, pid);
    forall j | j in w.kept
      ensures j.portalId == pid
    {
      assert j in front;
      var k :| 0 <= k < |front| && front[k] == j;
      assert j == all[k];
    }
  }

  lemma {:induction false} FlattenCarries(pages: seq<seq<JobRecord>>, lo: nat, hi: nat, pid: int)
    requires forall k :: 0 <= k < |pages| ==> forall j :: j in pages[k] ==> j.portalId == pid
    ensures forall j :: j in Flatten(pages, lo, hi) ==> j.portalId == pid
    decreases hi - lo
  {
    if lo < hi {
      FlattenCarries(pages, lo + 1, hi, pid);
    }
  }

  // ---------------------------------------------------------------------
  // humanDelay
  // ---------------------------------------------------------------------

  /** The sleep `humanDelay` chooses, given the value `pick` that `nextInt` drew. */
  function HumanDelay(minMs: int, maxMs: int, pick: nat): (delay: int)
    requires pick < if maxMs - minMs > 1 then maxMs - minMs else 1
    ensures minMs <= delay
    ensures delay < maxMs || (maxMs - minMs <= 1 && delay == minMs)
  {
    minMs + pick
  }
}
