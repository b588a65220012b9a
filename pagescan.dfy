/** The incremental page walk that both scrapers share: pages in document
    order up to `maxPages`, an early stop at the stored cursor, only jobs the
    store does not hold yet, a batch insert, and the cursor re-anchored to
    the first job of page 1. */
module PageScan {

  import opened Values
  import opened JobModel
  import opened Database
  import opened PortalModel

  /** The outcome of one "next page" attempt: the page moved, there is no next page,
      or an exception escaped and aborts the portal. */
  datatype Step = Advance | End | Abort

  datatype ScrapeError = BrowserError | StoreError(error: DbError)

  /** The jobs extracted from page `k` (0-based); past the given pages a page is empty. */
  function PageAt(pages: seq<seq<JobRecord>>, k: nat): seq<JobRecord> {
    if k < |pages| then pages[k] else []
  }

  /** The next-page outcome after page `k`; past the given steps there is no next page. */
  function StepAt(steps: seq<Step>, k: nat): Step {
    if k < |steps| then steps[k] else End
  }

  /** `job.getReqId() != null && job.getReqId().equals(portal.getRecentJobId())`. */
  predicate Hits(j: JobRecord, cursor: JString) {
    j.reqId.Some? && cursor == j.reqId
  }

  /** Some job of the list hits the cursor. */
  predicate HasHit(js: seq<JobRecord>, cursor: JString) {
    js != [] && (Hits(js[0], cursor) || HasHit(js[1..], cursor))
  }

  /** `HasHit` holds exactly when some position of the list holds a job that hits. */
  lemma {:induction false} HasHitIff(js: seq<JobRecord>, cursor: JString)
    ensures HasHit(js, cursor) <==> exists k :: 0 <= k < |js| && Hits(js[k], cursor)
  {
    if js != [] {
      HasHitIff(js[1..], cursor);
      if HasHit(js[1..], cursor) {
        var k :| 0 <= k < |js[1..]| && Hits(js[1..][k], cursor);
        assert js[k + 1] == js[1..][k];
      }
      if exists k :: 0 <= k < |js| && Hits(js[k], cursor) {
        var k :| 0 <= k < |js| && Hits(js[k], cursor);
        if k > 0 {
          assert js[1..][k - 1] == js[k];
        }
      }
    }
  }

  /** The jobs in front of the first one that hits the cursor (all of them without a hit). */
  function BeforeHit(js: seq<JobRecord>, cursor: JString): (r: seq<JobRecord>)
    ensures |r| <= |js|
  {
    if js == [] then []
    else if Hits(js[0], cursor) then []
    else [js[0]] + BeforeHit(js[1..], cursor)
  }

  /** `BeforeHit` is the prefix in front of the first hit. */
  lemma {:induction false} BeforeHitShape(js: seq<JobRecord>, cursor: JString)
    ensures var r := BeforeHit(js, cursor);
      && r == js[..|r|]
      && (forall k :: 0 <= k < |r| ==> !Hits(js[k], cursor))
      && (|r| < |js| ==> Hits(js[|r|], cursor))
  {
    if js != [] && !Hits(js[0], cursor) {
      BeforeHitShape(js[1..], cursor);
      var rest := BeforeHit(js[1..], cursor);
      assert forall k :: 1 <= k < |js| ==> js[k] == js[1..][k - 1];
      assert [js[0]] + js[1..][..|rest|] == js[..|rest| + 1];
    }
  }

  /** `BeforeHit` keeps the whole list exactly when no job in it hits the cursor. */
  lemma {:induction false} BeforeHitWhole(js: seq<JobRecord>, cursor: JString)
    ensures |BeforeHit(js, cursor)| == |js| <==> !HasHit(js, cursor)
    ensures BeforeHit(js, cursor) == js <==> !HasHit(js, cursor)
  {
    if js != [] && !Hits(js[0], cursor) {
      BeforeHitWhole(js[1..], cursor);
      assert [js[0]] + js[1..] == js;
    }
  }

  /** The jobs for which `jobExists` is false, in order. */
  function KeepNew(js: seq<JobRecord>, s: StoreState, pid: int): (r: seq<JobRecord>)
    ensures |r| <= |js|
  {
    if js == [] then []
    else (if JobExistsIn(s, js[0].reqId, pid) then [] else [js[0]]) + KeepNew(js[1..], s, pid)
  }

  /** `KeepNew` keeps exactly the jobs the store does not hold. */
  lemma {:induction false} KeepNewMembers(js: seq<JobRecord>, s: StoreState, pid: int)
    ensures forall x :: x in KeepNew(js, s, pid) <==> x in js && !JobExistsIn(s, x.reqId, pid)
  {
    if js != [] {
      KeepNewMembers(js[1..], s, pid);
      assert forall x :: x in js <==> x == js[0] || x in js[1..];
    }
  }

  lemma KeepNewAppend(a: seq<JobRecord>, b: seq<JobRecord>, s: StoreState, pid: int)
    ensures KeepNew(a + b, s, pid) == KeepNew(a, s, pid) + KeepNew(b, s, pid)
  {
    if a == [] {
      assert a + b == b;
    } else {
      assert (a + b)[0] == a[0];
      assert (a + b)[1..] == a[1..] + b;
      KeepNewAppend(a[1..], b, s, pid);
    }
  }

  /** The front of `a + b` before the first hit, when `a` holds no hit. */
  lemma {:induction false} BeforeHitAppend(a: seq<JobRecord>, b: seq<JobRecord>, cursor: JString)
    requires !HasHit(a, cursor)
    ensures BeforeHit(a + b, cursor) == a + BeforeHit(b, cursor)
  {
    if a == [] {
      assert a + b == b;
    } else {
      assert (a + b)[0] == a[0];
      assert (a + b)[1..] == a[1..] + b;
      HasHitTail(a, cursor);
      BeforeHitAppend(a[1..], b, cursor);
      calc {
        BeforeHit(a + b, cursor);
        [a[0]] + BeforeHit(a[1..] + b, cursor);
        [a[0]] + (a[1..] + BeforeHit(b, cursor));
        { AppendAssoc([a[0]], a[1..], BeforeHit(b, cursor)); assert [a[0]] + a[1..] == a; }
        a + BeforeHit(b, cursor);
      }
    }
  }

  /** A list without a hit starts with a job that does not hit, followed by a list without one. */
  lemma HasHitTail(a: seq<JobRecord>, cursor: JString)
    requires a != [] && !HasHit(a, cursor)
    ensures !Hits(a[0], cursor) && !HasHit(a[1..], cursor)
  {
  }

  /** The jobs of pages `lo` up to `hi` (exclusive), in page-then-position order. */
  function Flatten(pages: seq<seq<JobRecord>>, lo: nat, hi: nat): seq<JobRecord>
    decreases hi - lo
  {
    if lo >= hi then [] else PageAt(pages, lo) + Flatten(pages, lo + 1, hi)
  }

  // ---------------------------------------------------------------------
  // The page loop
  // ---------------------------------------------------------------------

  /** What a walk from some page on produced: the jobs kept, the number of the last
      page it loaded (pages are numbered from 1), whether it stopped at the cursor,
      and whether a next-page step aborted it. */
  datatype Walk = Walk(kept: seq<JobRecord>, examined: nat, hit: bool, aborted: bool)

  /** The page loop from page `page` (0-based) on. An empty page, a cursor hit or a
      failed step ends it; so does reaching `maxPages`. */
  function WalkFrom(pages: seq<seq<JobRecord>>, steps: seq<Step>, page: nat, maxPages: nat,
                    cursor: JString, s: StoreState, pid: int): Walk
    decreases maxPages - page
  {
    if page >= maxPages then Walk([], page, false, false)
    else
      var jobs := PageAt(pages, page);
      if jobs == [] then Walk([], page + 1, false, false)
      else
        var here := KeepNew(BeforeHit(jobs, cursor), s, pid);
        if HasHit(jobs, cursor) then Walk(here, page + 1, true, false)
        else
          match StepAt(steps, page)
          case Abort => Walk(here, page + 1, false, true)
          case End => Walk(here, page + 1, false, false)
          case Advance =>
            var rest := WalkFrom(pages, steps, page + 1, maxPages, cursor, s, pid);
            rest.(kept := here + rest.kept)
  }

  /** One step of the loop that moves on: the page's kept jobs come in front of the rest. */
  lemma WalkAdvances(pages: seq<seq<JobRecord>>, steps: seq<Step>, page: nat, maxPages: nat,
                     cursor: JString, s: StoreState, pid: int)
    requires page < maxPages && PageAt(pages, page) != [] && !HasHit(PageAt(pages, page), cursor)
    requires StepAt(steps, page) == Advance
    ensures var w := WalkFrom(pages, steps, page, maxPages, cursor, s, pid);
      var rest := WalkFrom(pages, steps, page + 1, maxPages, cursor, s, pid);
      w.kept == KeepNew(BeforeHit(PageAt(pages, page), cursor), s, pid) + rest.kept && w.aborted == rest.aborted
  {
  }

  /** The loop invariant "everything kept so far, then the walk from page `k`" carried
      across a page that moves on. */
  lemma WalkInvariantAdvances(pages: seq<seq<JobRecord>>, steps: seq<Step>, k: nat, maxPages: nat,
                              cursor: JString, s: StoreState, pid: int, walk: Walk, kept: seq<JobRecord>)
    requires var rest := WalkFrom(pages, steps, k, maxPages, cursor, s, pid);
      walk.kept == kept + rest.kept && walk.aborted == rest.aborted
    requires k < maxPages && PageAt(pages, k) != [] && !HasHit(PageAt(pages, k), cursor)
    requires StepAt(steps, k) == Advance
    ensures var next := WalkFrom(pages, steps, k + 1, maxPages, cursor, s, pid);
      && walk.kept == (kept + KeepNew(BeforeHit(PageAt(pages, k), cursor), s, pid)) + next.kept
      && walk.aborted == next.aborted
  {
    WalkAdvances(pages, steps, k, maxPages, cursor, s, pid);
  }

  /** The loop ends at this page without aborting: the page is past `maxPages` or empty,
      hits the cursor, or has no next page. */
  lemma WalkStops(pages: seq<seq<JobRecord>>, steps: seq<Step>, page: nat, maxPages: nat,
                  cursor: JString, s: StoreState, pid: int)
    requires page >= maxPages || PageAt(pages, page) == [] || HasHit(PageAt(pages, page), cursor)
             || StepAt(steps, page) == End
    ensures var w := WalkFrom(pages, steps, page, maxPages, cursor, s, pid);
      && !w.aborted
      && w.kept == if page >= maxPages || PageAt(pages, page) == [] then []
                   else KeepNew(BeforeHit(PageAt(pages, page), cursor), s, pid)
  {
  }

  /** The loop ends at this page by aborting, keeping nothing after it. */
  lemma WalkAborts(pages: seq<seq<JobRecord>>, steps: seq<Step>, page: nat, maxPages: nat,
                   cursor: JString, s: StoreState, pid: int)
    requires page < maxPages && PageAt(pages, page) != [] && !HasHit(PageAt(pages, page), cursor)
    requires StepAt(steps, page) == Abort
    ensures WalkFrom(pages, steps, page, maxPages, cursor, s, pid).aborted
  {
  }

  /** The req id of the first job of page 1, captured only when page 1 is loaded and non-empty. */
  function FirstReqId(pages: seq<seq<JobRecord>>, maxPages: nat): JString {
    if maxPages >= 1 && PageAt(pages, 0) != [] then PageAt(pages, 0)[0].reqId else None
  }

  /** The loop never loads more than `maxPages` pages. */
  lemma {:induction false} WalkBound(pages: seq<seq<JobRecord>>, steps: seq<Step>, page: nat, maxPages: nat,
                                     cursor: JString, s: StoreState, pid: int)
    requires page <= maxPages
    ensures var w := WalkFrom(pages, steps, page, maxPages, cursor, s, pid);
      page <= w.examined <= maxPages && (page < maxPages ==> page < w.examined)
    decreases maxPages - page
  {
    if page < maxPages && PageAt(pages, page) != [] && !HasHit(PageAt(pages, page), cursor)
       && StepAt(steps, page) == Advance {
      WalkBound(pages, steps, page + 1, maxPages, cursor, s, pid);
    }
  }

  /** Early stop, declaratively: the kept jobs are those of the loaded pages, in order,
      in front of the first cursor hit, that the store does not hold; and the walk
      stopped at the cursor iff one of the loaded jobs hits it. */
  lemma {:induction false} WalkKeepsBeforeHit(pages: seq<seq<JobRecord>>, steps: seq<Step>, page: nat, maxPages: nat,
                                              cursor: JString, s: StoreState, pid: int)
    requires page <= maxPages
    ensures var w := WalkFrom(pages, steps, page, maxPages, cursor, s, pid);
      && w.kept == KeepNew(BeforeHit(Flatten(pages, page, w.examined), cursor), s, pid)
      && (w.hit <==> HasHit(Flatten(pages, page, w.examined), cursor))
    decreases maxPages - page
  {
    if page < maxPages {
      var jobs := PageAt(pages, page);
      if jobs != [] && !HasHit(jobs, cursor) && StepAt(steps, page) == Advance {
        WalkKeepsBeforeHit(pages, steps, page + 1, maxPages, cursor, s, pid);
        WalkKeepsAdvance(pages, steps, page, maxPages, cursor, s, pid);
      } else {
        WalkKeepsStop(pages, steps, page, maxPages, cursor, s, pid);
      }
    }
  }

  /** The step of `WalkKeepsBeforeHit` at the page the loop ends on. */
  lemma WalkKeepsStop(pages: seq<seq<JobRecord>>, steps: seq<Step>, page: nat, maxPages: nat,
                      cursor: JString, s: StoreState, pid: int)
    requires page < maxPages
    requires PageAt(pages, page) == [] || HasHit(PageAt(pages, page), cursor) || StepAt(steps, page) != Advance
    ensures var w := WalkFrom(pages, steps, page, maxPages, cursor, s, pid);
      && w.kept == KeepNew(BeforeHit(Flatten(pages, page, w.examined), cursor), s, pid)
      && (w.hit <==> HasHit(Flatten(pages, page, w.examined), cursor))
  {
    var w := WalkFrom(pages, steps, page, maxPages, cursor, s, pid);
    assert w.examined == page + 1;
    FlattenOne(pages, page);
  }

  /** The step of `WalkKeepsBeforeHit` across a page that moves on. */
  lemma WalkKeepsAdvance(pages: seq<seq<JobRecord>>, steps: seq<Step>, page: nat, maxPages: nat,
                         cursor: JString, s: StoreState, pid: int)
    requires page < maxPages && PageAt(pages, page) != [] && !HasHit(PageAt(pages, page), cursor)
    requires StepAt(steps, page) == Advance
    requires var rest := WalkFrom(pages, steps, page + 1, maxPages, cursor, s, pid);
      && rest.kept == KeepNew(BeforeHit(Flatten(pages, page + 1, rest.examined), cursor), s, pid)
      && (rest.hit <==> HasHit(Flatten(pages, page + 1, rest.examined), cursor))
    ensures var w := WalkFrom(pages, steps, page, maxPages, cursor, s, pid);
      && w.kept == KeepNew(BeforeHit(Flatten(pages, page, w.examined), cursor), s, pid)
      && (w.hit <==> HasHit(Flatten(pages, page, w.examined), cursor))
  {
    var jobs := PageAt(pages, page);
    WalkBound(pages, steps, page + 1, maxPages, cursor, s, pid);
    var rest := WalkFrom(pages, steps, page + 1, maxPages, cursor, s, pid);
    var tail := Flatten(pages, page + 1, rest.examined);
    assert Flatten(pages, page, rest.examined) == jobs + tail;
    KeepsAcrossPage(jobs, tail, cursor, s, pid);
  }

  lemma FlattenOne(pages: seq<seq<JobRecord>>, page: nat)
    ensures Flatten(pages, page, page + 1) == PageAt(pages, page)
  {
    assert Flatten(pages, page + 1, page + 1) == [];
    assert PageAt(pages, page) + [] == PageAt(pages, page);
  }

  /** A page without a hit is kept whole (less the stored jobs) in front of what follows. */
  lemma KeepsAcrossPage(jobs: seq<JobRecord>, tail: seq<JobRecord>, cursor: JString, s: StoreState, pid: int)
    requires !HasHit(jobs, cursor)
    ensures KeepNew(BeforeHit(jobs + tail, cursor), s, pid)
      == KeepNew(BeforeHit(jobs, cursor), s, pid) + KeepNew(BeforeHit(tail, cursor), s, pid)
    ensures HasHit(jobs + tail, cursor) <==> HasHit(tail, cursor)
  {
    BeforeHitAppend(jobs, tail, cursor);
    KeepNewAppend(jobs, BeforeHit(tail, cursor), s, pid);
    BeforeHitAppend(jobs, [], cursor);
    assert jobs + [] == jobs;
    HasHitAppend(jobs, tail, cursor);
  }

  lemma {:induction false} HasHitAppend(a: seq<JobRecord>, b: seq<JobRecord>, cursor: JString)
    ensures HasHit(a + b, cursor) <==> HasHit(a, cursor) || HasHit(b, cursor)
  {
    if a == [] {
      assert a + b == b;
    } else {
      assert (a + b)[0] == a[0];
      assert (a + b)[1..] == a[1..] + b;
      HasHitAppend(a[1..], b, cursor);
    }
  }

  /** Why the loop ended: every page before the last one loaded was non-empty, had no
      cursor hit and moved on; the last one was empty, hit the cursor, had no next
      page, or was page `maxPages`. */
  lemma {:induction false} WalkStopReason(pages: seq<seq<JobRecord>>, steps: seq<Step>, page: nat, maxPages: nat,
                                          cursor: JString, s: StoreState, pid: int)
    requires page < maxPages
    ensures var w := WalkFrom(pages, steps, page, maxPages, cursor, s, pid);
      && w.examined > page
      && (forall k :: page <= k < w.examined - 1 ==>
            PageAt(pages, k) != [] && !HasHit(PageAt(pages, k), cursor) && StepAt(steps, k) == Advance)
      && (var last := w.examined - 1;
          && (PageAt(pages, last) == [] || HasHit(PageAt(pages, last), cursor)
              || StepAt(steps, last) != Advance || w.examined == maxPages)
          && (w.aborted <==> PageAt(pages, last) != [] && !HasHit(PageAt(pages, last), cursor)
                             && StepAt(steps, last) == Abort))
    decreases maxPages - page
  {
    var jobs := PageAt(pages, page);
    var w := WalkFrom(pages, steps, page, maxPages, cursor, s, pid);
    if jobs == [] || HasHit(jobs, cursor) || StepAt(steps, page) != Advance {
      assert w.examined == page + 1;
    } else if page + 1 == maxPages {
      assert w.examined == page + 1 && !w.aborted;
    } else {
      WalkStopReason(pages, steps, page + 1, maxPages, cursor, s, pid);
      var rest := WalkFrom(pages, steps, page + 1, maxPages, cursor, s, pid);
      assert w.examined == rest.examined && w.aborted == rest.aborted;
    }
  }

  lemma {:induction false} NullCursorNeverHits(js: seq<JobRecord>)
    ensures !HasHit(js, None)
  {
    if js != [] {
      NullCursorNeverHits(js[1..]);
    }
  }

  /** A null cursor never matches, so the walk keeps every new job of the loaded pages. */
  lemma NullCursorKeepsAll(pages: seq<seq<JobRecord>>, steps: seq<Step>, maxPages: nat, s: StoreState, pid: int)
    ensures var w := WalkFrom(pages, steps, 0, maxPages, None, s, pid);
      !w.hit && w.kept == KeepNew(Flatten(pages, 0, w.examined), s, pid)
  {
    var w := WalkFrom(pages, steps, 0, maxPages, None, s, pid);
    WalkKeepsBeforeHit(pages, steps, 0, maxPages, None, s, pid);
    var all := Flatten(pages, 0, w.examined);
    NullCursorNeverHits(all);
    BeforeHitWhole(all, None);
    assert BeforeHit(all, None) == all;
  }

  // ---------------------------------------------------------------------
  // Persisting a walk
  // ---------------------------------------------------------------------

  /** A portal's outcome: the returned jobs (or the exception), the store afterwards and
      the in-memory cursor afterwards. */
  datatype PortalRun = PortalRun(result: Result<seq<JobRecord>, ScrapeError>, store: StoreState, cursor: JString)

  /** Insert the kept jobs if there are any, then, if page 1 gave a first req id, write it
      to the store and then to the in-memory portal. An exception from the store stops
      the sequence where it is raised. */
  function Persist(s: StoreState, pid: int, kept: seq<JobRecord>, first: JString, cursor: JString): PortalRun {
    var (ins, s1) := if kept == [] then (Ok(0), s) else InsertJobsSpec(s, Some(kept));
    if ins.Failure? then PortalRun(Failure(StoreError(ins.error)), s, cursor)
    else if first.None? then PortalRun(Ok(kept), s1, cursor)
    else
      match UpdateCursorSpec(s1, pid, first)
      case Failure(e) => PortalRun(Failure(StoreError(e)), s1, cursor)
      case Ok(s2) => PortalRun(Ok(kept), s2, first)
  }

  /** The page loop followed by persistence; an aborted walk persists nothing. */
  function ScrapeSpec(pages: seq<seq<JobRecord>>, steps: seq<Step>, maxPages: nat,
                      cursor: JString, s: StoreState, pid: int): PortalRun
  {
    var w := WalkFrom(pages, steps, 0, maxPages, cursor, s, pid);
    if w.aborted then PortalRun(Failure(BrowserError), s, cursor)
    else Persist(s, pid, w.kept, FirstReqId(pages, maxPages), cursor)
  }

  /** Cursor anchoring: after a successful scrape whose page 1 is non-empty, the stored
      and the in-memory cursor are page 1's first req id, whether or not that job was new;
      when page 1 is empty both are unchanged. */
  lemma CursorAnchoring(pages: seq<seq<JobRecord>>, steps: seq<Step>, maxPages: nat,
                        cursor: JString, s: StoreState, pid: int)
    requires TablesValid(s) && pid in s.portals
    ensures var run := ScrapeSpec(pages, steps, maxPages, cursor, s, pid);
      && (run.result.Ok? && FirstReqId(pages, maxPages).Some? ==>
            run.cursor == FirstReqId(pages, maxPages) && run.store.portals[pid].recentJobId == run.cursor)
      && (FirstReqId(pages, maxPages).None? ==> run.cursor == cursor && run.store.portals == s.portals)
  {
    var w := WalkFrom(pages, steps, 0, maxPages, cursor, s, pid);
    if w.kept != [] {
      InsertJobsBounds(s, Some(w.kept));
    }
  }

  /** Idempotence: scraping again after a successful scrape, with the same first job on
      page 1, keeps nothing and leaves the store and the cursor as they were (the cursor
      update is issued again, with the value already stored). */
  lemma RescrapeIsIdempotent(pages: seq<seq<JobRecord>>, steps: seq<Step>,
                             pages': seq<seq<JobRecord>>, steps': seq<Step>,
                             maxPages: nat, cursor: JString, s: StoreState, pid: int)
    requires TablesValid(s)
    requires maxPages >= 1 && PageAt(pages, 0) != [] && PageAt(pages, 0)[0].reqId.Some?
    requires PageAt(pages', 0) != [] && PageAt(pages', 0)[0].reqId == PageAt(pages, 0)[0].reqId
    requires ScrapeSpec(pages, steps, maxPages, cursor, s, pid).result.Ok?
    ensures var first := ScrapeSpec(pages, steps, maxPages, cursor, s, pid);
      var again := ScrapeSpec(pages', steps', maxPages, first.cursor, first.store, pid);
      again == PortalRun(Ok([]), first.store, first.cursor)
  {
    var first := ScrapeSpec(pages, steps, maxPages, cursor, s, pid);
    var w := WalkFrom(pages, steps, 0, maxPages, cursor, s, pid);
    var id := PageAt(pages, 0)[0].reqId;
    var s1 := if w.kept == [] then s else InsertJobsSpec(s, Some(w.kept)).1;
    if w.kept != [] {
      InsertJobsBounds(s, Some(w.kept));
    }
    assert first.cursor == id;
    var s2 := UpdateCursorSpec(s1, pid, id).value;
    assert first.store == s2;
    var w' := WalkFrom(pages', steps', 0, maxPages, id, s2, pid);
    assert Hits(PageAt(pages', 0)[0], id);
    assert BeforeHit(PageAt(pages', 0), id) == [];
    assert w'.kept == [];
    if pid in s2.portals {
      assert s2.portals[pid].recentJobId == id;
      assert s2.portals[pid := s2.portals[pid].(recentJobId := id)] == s2.portals;
    }
    assert UpdateCursorSpec(s2, pid, id) == Ok(s2);
  }

  /** Only the stored table is consulted, so a req id listed on two loaded pages and not
      in the store is returned twice. */
  lemma RepeatedReqIdKeptTwice(j: JobRecord, s: StoreState, pid: int)
    requires j.reqId.Some? && !JobExistsIn(s, j.reqId, pid)
    ensures var w := WalkFrom([[j], [j]], [Advance], 0, 2, None, s, pid);
      w.kept == [j, j] && w.examined == 2
  {
    var pages := [[j], [j]];
    assert PageAt(pages, 0) == [j] && PageAt(pages, 1) == [j];
    assert !HasHit([j], None);
    assert BeforeHit([j], None) == [j];
    assert KeepNew([j], s, pid) == [j];
  }

  // ---------------------------------------------------------------------
  // Scanning one page against the cursor and the store
  // ---------------------------------------------------------------------

  /** The scan of one page's jobs: stop at the first one hitting the cursor, and keep
      each earlier one for which `jobExists` is false. */
  method ScanPage(db: DatabaseManager, jobs: seq<Job>, cursor: JString, pid: int)
    returns (kept: seq<Job>, hit: bool)
    ensures Records(kept) == KeepNew(BeforeHit(Records(jobs), cursor), db.State(), pid)
    ensures hit == HasHit(Records(jobs), cursor)
  {
    kept, hit := [], false;
    ghost var all := Records(jobs);
    ghost var s := db.State();
    ghost var keptRecs: seq<JobRecord> := [];
    var i := 0;
    while i < |jobs|
      invariant 0 <= i <= |jobs|
      invariant !HasHit(all[..i], cursor)
      invariant Records(kept) == keptRecs
      invariant keptRecs == KeepNew(all[..i], s, pid)
    {
      var job := jobs[i];
      assert job.Record() == all[i];
      if Hits(job.Record(), cursor) {
        hit := true;
        ScanStopsAt(all, i, cursor);
        return;
      }
      ScanPassesOver(all, i, cursor, s, pid);
      if !db.JobExists(job.reqId, pid) {
        RecordsAppend(kept, [job]);
        kept := kept + [job];
        keptRecs := keptRecs + [all[i]];
      }
      i := i + 1;
    }
    assert all[..i] == all;
    ScanEnds(all, cursor);
  }

  /** The scan stops at the first job hitting the cursor: what is in front of it is all
      that `BeforeHit` keeps. */
  lemma ScanStopsAt(all: seq<JobRecord>, i: nat, cursor: JString)
    requires i < |all| && !HasHit(all[..i], cursor) && Hits(all[i], cursor)
    ensures BeforeHit(all, cursor) == all[..i] && HasHit(all, cursor)
  {
    BeforeHitAppend(all[..i], all[i..], cursor);
    assert all == all[..i] + all[i..];
    assert all[i..][0] == all[i];
    assert all[..i] + [] == all[..i];
    HasHitAppend(all[..i], all[i..], cursor);
  }

  /** Passing over a job that does not hit the cursor. */
  lemma ScanPassesOver(all: seq<JobRecord>, i: nat, cursor: JString, s: StoreState, pid: int)
    requires i < |all| && !HasHit(all[..i], cursor) && !Hits(all[i], cursor)
    ensures !HasHit(all[..i + 1], cursor)
    ensures KeepNew(all[..i + 1], s, pid)
      == KeepNew(all[..i], s, pid) + (if JobExistsIn(s, all[i].reqId, pid) then [] else [all[i]])
  {
    assert all[..i + 1] == all[..i] + [all[i]];
    KeepNewAppend(all[..i], [all[i]], s, pid);
    HasHitAppend(all[..i], [all[i]], cursor);
  }

  /** A scan that reaches the end of the page kept every job in front of no hit. */
  lemma ScanEnds(all: seq<JobRecord>, cursor: JString)
    requires !HasHit(all[..|all|], cursor)
    ensures BeforeHit(all, cursor) == all && !HasHit(all, cursor)
  {
    assert all[..|all|] == all;
    BeforeHitAppend(all, [], cursor);
    assert all + [] == all;
  }

  // ---------------------------------------------------------------------
  // Persisting for real
  // ---------------------------------------------------------------------

  /** The records of a portal's returned jobs. */
  function ResultRecords(r: Result<seq<Job>, ScrapeError>): Result<seq<JobRecord>, ScrapeError>
    reads if r.Ok? then set j | j in r.value else {}
  {
    if r.Ok? then Ok(Records(r.value)) else Failure(r.error)
  }

  /** Insert the new jobs if there are any, then re-anchor the cursor in the store and in
      the portal when page 1 gave a first req id; the list itself is returned. */
  method PersistAndReturn(db: DatabaseManager, portal: Portal, newJobs: seq<Job>, first: JString)
    returns (r: Result<seq<Job>, ScrapeError>)
    requires db.Valid()
    modifies db, portal`recentJobId
    ensures db.Valid()
    ensures var run := Persist(old(db.State()), portal.id, Records(newJobs), first, old(portal.recentJobId));
      ResultRecords(r) == run.result && db.State() == run.store && portal.recentJobId == run.cursor
    ensures r.Ok? ==> r.value == newJobs
  {
    if newJobs != [] {
      var inserted := db.InsertJobs(Some(newJobs));
      if inserted.Failure? {
        return Failure(StoreError(inserted.error));
      }
    }
    if first.Some? {
      var updated := db.UpdateRecentJobId(portal.id, first);
      if updated.Failure? {
        return Failure(StoreError(updated.error));
      }
      portal.SetRecentJobId(first);
    }
    return Ok(newJobs);
  }
}
