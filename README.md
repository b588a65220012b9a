# workday-scraper, modelled in Dafny

This project models the core of a job-board scraper. On each cycle the
scraper does the following:

- It reads every portal row from the `portals` table.
- It sends each portal to one of two scrapers:
  - the Workday scraper, for structured `<li>` items;
  - the Akkodis scraper, for free-text items.
- It walks each portal's result pages in document order, up to `maxPages`.
- It stops at the portal's stored cursor (`recent_job_id`).
- It keeps only the jobs the `jobs` table does not hold yet.
- It batch-inserts those jobs.
- It re-anchors the cursor to the first job of page 1.
- In the end it mails an HTML table of every new job to the subscribers.

Before a portal is loaded, its robots.txt is checked.

The browser is not part of the model; each page is an input. For each
page, the model is given:

- the items that the scraper's element lookups return;
- the attributes the lookups read;
- what happens when a "next" control is tried.

Everything the scraper computes from those inputs is modelled with the
source's own branches, constants and error paths. In the model:

- a Java `null` is `None`;
- a Java `String` is `JString` (`Option<string>`);
- an exception that ends a portal is a `Failure` in the result.

The modules, one file each:

| module | file | models |
|---|---|---|
| `Values` | values.dfy | `Option`, `Result`, `JString`, four sequence facts |
| `Text` | text.dfy | the `String` operations the source uses: `trim`, `isBlank`, `toLowerCase` (ASCII), `indexOf`, `lastIndexOf`, `\s+` runs, `replace` |
| `JobModel` | job.dfy | class `Job`: six mutable fields, two constructors, six setters |
| `PortalModel` | portal.dfy | class `Portal`: four `const` fields and the mutable `recentJobId` |
| `Database` | database.dfy | class `DatabaseManager`: the `jobs` rows and the `portals` map with the constraints the DDL states |
| `PageScan` | pagescan.dfy | the page loop both scrapers share, the scan of one page against the cursor, `persistAndReturn` |
| `Robots` | robots.dfy | `RobotsChecker.isAllowed` on the fetched lines and the path |
| `AkkodisText` | akkodistext.dfy | the pure free-text helpers of the Akkodis scraper |
| `AkkodisScraper` | akkodis.dfy | Akkodis item extraction, pagination and `scrapePortal` |
| `Email` | email.dfy | the recipients, `escape`, `buildHtmlBody` and `sendNewJobsEmail` |
| `WorkdayScraper` | workday.dfy | Workday item extraction, pagination, `scrapePortal`, routing and `run` |

Points where the code's behaviour is easy to misread:

- **Akkodis req id order.** `extractJobFromItem` parses the URL first and
  calls `findReqIdInItem` only when that id is null or blank
  (AkkodisScraper.java:162-183). `findReqIdInItem` in turn falls back to
  the URL once more (AkkodisScraper.java:201).
- **Workday pagination errors.** `navigateToNextPage` catches only
  `NoSuchElementException` and `TimeoutException`
  (WorkdayScraper.java:314-339). Any other exception ends the portal, and
  nothing of that portal is written. This is `Press.PressRaises` and
  `NextButton.StaleButton` in the model.
- **A null `workday` column.** It is read as `true`.
- **The Workday disabled check.** It compares with exactly `"true"`, so
  case matters. The Akkodis check ignores case for `disabled`.

## Model

| member | source | states |
|---|---|---|
| Text.Trim | src/main/java/com/jobscraper/util/RobotsChecker.java:41 | `String.trim`: the result has no leading or trailing char `<= ' '`, and everything cut away is such a char |
| Text.TrimIdempotent | src/main/java/com/jobscraper/util/RobotsChecker.java:41 | trimming twice gives the same string as trimming once |
| Text.TrimKeeps | src/main/java/com/jobscraper/util/RobotsChecker.java:41 | a char that is not trimmable lies inside the kept range and is kept at its shifted position |
| Text.Lower | src/main/java/com/jobscraper/util/RobotsChecker.java:44 | `toLowerCase` keeps the length and maps each char on its own |
| Text.LowerAppend | src/main/java/com/jobscraper/scraper/WorkdayScraper.java:458-460 | lower-casing distributes over concatenation |
| Text.LowerSlice | src/main/java/com/jobscraper/scraper/AkkodisScraper.java:292-295 | lower-casing commutes with taking a slice |
| Text.IndexOfFrom | src/main/java/com/jobscraper/scraper/AkkodisScraper.java:292-295 | `indexOf`: -1 exactly when the needle occurs nowhere; otherwise the needle occurs at the result and at no earlier position |
| Text.LastIndexOfBelow | src/main/java/com/jobscraper/scraper/WorkdayScraper.java:447 | `lastIndexOf`: -1 or a position of the char, with no occurrence after it |
| Text.SpaceRun | src/main/java/com/jobscraper/scraper/AkkodisScraper.java:281-284 | the maximal run of `\s` chars from a position |
| Text.DigitRun | src/main/java/com/jobscraper/scraper/AkkodisScraper.java:212-214 | the maximal run of ASCII digits from a position |
| Text.KeepDigits | src/main/java/com/jobscraper/scraper/WorkdayScraper.java:449-450 | `replaceAll("[^0-9]", "")`: the result is all digits, never longer than its input, and the identity on a string of digits |
| Text.KeepDigitsEmpty | src/main/java/com/jobscraper/scraper/WorkdayScraper.java:449-451 | the stripped text is empty iff the input holds no digit |
| Text.KeepDigitsChar | src/main/java/com/jobscraper/scraper/WorkdayScraper.java:449-450 | one char is kept iff it is an ASCII digit |
| Text.KeepDigitsAppend | src/main/java/com/jobscraper/scraper/WorkdayScraper.java:449-450 | stripping works char by char (it distributes over concatenation), so with `KeepDigitsChar` the result is exactly the digits of the input, in order |
| Text.CollapseSpaces | src/main/java/com/jobscraper/scraper/AkkodisScraper.java:281-284 | `replaceAll("\\s+", " ")`: no `\s` other than a single space is left, no two spaces are adjacent, the first char is kept or becomes a space, every output char is a space or an input char, and the result is empty only for an empty input |
| Text.CollapseSpacesNoSpace | src/main/java/com/jobscraper/scraper/AkkodisScraper.java:281-284 | a text without `\s` is left as it is |
| Text.CollapseSpacesRun | src/main/java/com/jobscraper/scraper/AkkodisScraper.java:281-284 | a whole run of `\s` becomes exactly one space |
| Text.CollapseSpacesAppend | src/main/java/com/jobscraper/scraper/AkkodisScraper.java:281-284 | collapsing distributes over a concatenation whose seam does not join two `\s`; with the two lemmas above this fixes the result on any text split into words and whitespace runs |
| Text.CollapseSpacesJoin | src/main/java/com/jobscraper/scraper/AkkodisScraper.java:281-284 | two words around a whitespace run become the words joined by one space |
| Text.RemoveSpaces | src/main/java/com/jobscraper/scraper/AkkodisScraper.java:281-284 | the reference used to state what collapsing keeps: the text with every `\s` removed, no longer than its input and holding no `\s` |
| Text.CollapseSpacesKeepsText | src/main/java/com/jobscraper/scraper/AkkodisScraper.java:281-284 | collapsing keeps every non-`\s` char, in order, and adds none: only the whitespace between them changes |
| Text.ReplaceChar | src/main/java/com/jobscraper/util/EmailService.java:136-139 | `replace` of a char: the char is gone when the replacement does not hold it, and other chars are present as before |
| Text.ReplaceCharOne | src/main/java/com/jobscraper/util/EmailService.java:136-139 | on one char: the replacement when it is the target, the char itself otherwise |
| Text.ReplaceCharAppend | src/main/java/com/jobscraper/util/EmailService.java:136-139 | char replacement distributes over concatenation, so with `ReplaceCharOne` it is fixed on every string |
| JobModel.Job.constructor | src/main/java/com/jobscraper/model/Job.java:8-15 | `new Job()`: every string field null and `portalId` 0 |
| JobModel.Job.Of | src/main/java/com/jobscraper/model/Job.java:17-25 | the six arguments land in their own fields |
| JobModel.Job.SetReqId | src/main/java/com/jobscraper/model/Job.java:31-33 | only `reqId` changes, and reading it back gives the value set |
| JobModel.Job.SetPortalId | src/main/java/com/jobscraper/model/Job.java:39-41 | only `portalId` changes, and reading it back gives the value set |
| JobModel.Job.SetPortalName | src/main/java/com/jobscraper/model/Job.java:47-49 | only `portalName` changes, and reading it back gives the value set |
| JobModel.Job.SetPosition | src/main/java/com/jobscraper/model/Job.java:55-57 | only `position` changes, and reading it back gives the value set |
| JobModel.Job.SetLocation | src/main/java/com/jobscraper/model/Job.java:63-65 | only `location` changes, and reading it back gives the value set |
| JobModel.Job.SetJobUrl | src/main/java/com/jobscraper/model/Job.java:71-73 | only `jobUrl` changes, and reading it back gives the value set |
| JobModel.Records | src/main/java/com/jobscraper/model/Job.java:27-73 | the field snapshot of each job of a list, position by position |
| JobModel.RecordsAppend | src/main/java/com/jobscraper/model/Job.java:27-73 | snapshots of a concatenation are the concatenated snapshots |
| PortalModel.Portal.constructor | src/main/java/com/jobscraper/model/Portal.java:14-21 | each of the five arguments is stored; `workday` is a non-null `bool` |
| PortalModel.Portal.SetRecentJobId | src/main/java/com/jobscraper/model/Portal.java:39-45 | the cursor becomes the value set; the frame allows no other field to change (the other four are `const`) |
| Database.CountPositive | src/main/java/com/jobscraper/db/DatabaseManager.java:279-281 | the count of positive batch results never exceeds the number of statements |
| Database.InsertOneCases | src/main/java/com/jobscraper/db/DatabaseManager.java:43-54 | one `INSERT ... ON CONFLICT DO NOTHING`: a null or over-long req id or an unknown portal raises; an existing key is a no-op; otherwise exactly the new row is appended |
| Database.InsertOneValid | src/main/java/com/jobscraper/db/DatabaseManager.java:43-54 | a successful insert keeps the unique key, the foreign key and the column widths |
| Database.InsertOne | src/main/java/com/jobscraper/db/DatabaseManager.java:43-54 | one execution of the insert statement; `InsertOneCases` states its cases and `InsertOneValid` the constraints it keeps |
| Database.ExecuteBatch | src/main/java/com/jobscraper/db/DatabaseManager.java:266-285 | `executeBatch`: statements in order, the first error aborting all; `BatchShape`, `BatchAddsKeys`, `BatchCountsNewKeys`, `BatchFailsIff` state its properties |
| Database.BatchShape | src/main/java/com/jobscraper/db/DatabaseManager.java:267-281 | a successful batch keeps the table constraints, keeps the old rows as a prefix, gives one result per job, and its positive results count the rows added |
| Database.BatchAddsKeys | src/main/java/com/jobscraper/db/DatabaseManager.java:267-277 | after a successful batch the table keys are the old keys plus the batch's keys |
| Database.BatchCountsNewKeys | src/main/java/com/jobscraper/db/DatabaseManager.java:276-281 | the count returned is the number of distinct batch keys not in the table before, so a key repeated in the batch counts once |
| Database.BatchFailsIff | src/main/java/com/jobscraper/db/DatabaseManager.java:266-285 | the batch raises iff some job has a null or over-long req id, or an unknown portal |
| Database.InsertedJobsExist | src/main/java/com/jobscraper/db/DatabaseManager.java:253-307 | after a successful `insertJobs`, `jobExists` holds for every job of the list, and the portals are untouched |
| Database.InsertJobsBounds | src/main/java/com/jobscraper/db/DatabaseManager.java:253-289 | `insertJobs` keeps the constraints and the old rows; the count lies between 0 and the list size (0 for null); a failure leaves the store as it was (no commit) |
| Database.InsertJobsSpec | src/main/java/com/jobscraper/db/DatabaseManager.java:253-289 | `insertJobs` on a store; `InsertJobsBounds` and `InsertedJobsExist` state its properties, and `DatabaseManager.InsertJobs` computes it |
| Database.JobExistsIn | src/main/java/com/jobscraper/db/DatabaseManager.java:294-307 | `jobExists` on a store: a key with a null req id matches no row; used by `InsertedJobsExist` and `KeepNewMembers` |
| Database.UpdateCursorOnlyTarget | src/main/java/com/jobscraper/db/DatabaseManager.java:167-181 | the update raises iff the req id is longer than 50; otherwise it overwrites `recent_job_id` of the matching row only, and the jobs are untouched |
| Database.UpdateCursorSpec | src/main/java/com/jobscraper/db/DatabaseManager.java:167-181 | the `UPDATE` on the store; `UpdateCursorOnlyTarget` states what it changes, and `DatabaseManager.UpdateRecentJobId` computes it |
| Database.DatabaseManager.constructor | src/main/java/com/jobscraper/db/DatabaseManager.java:76-95 | a manager over given tables that satisfy the constraints |
| Database.DatabaseManager.InsertJob | src/main/java/com/jobscraper/db/DatabaseManager.java:191-219 | the result is `true` iff the job was insertable and its key was absent, and `false` iff the key was present; the table changes only by the statement's effect |
| Database.DatabaseManager.InsertJobs | src/main/java/com/jobscraper/db/DatabaseManager.java:253-289 | the count and the new table are those of `InsertJobsSpec`: 0 at once for a null or empty list, otherwise the batch committed only when every statement succeeded |
| Database.DatabaseManager.UpdateRecentJobId | src/main/java/com/jobscraper/db/DatabaseManager.java:167-181 | the new store is that of `UpdateCursorSpec`; on a failure it is unchanged |
| Database.DatabaseManager.JobExists | src/main/java/com/jobscraper/db/DatabaseManager.java:294-307 | `jobExists` on the manager's current tables |
| Database.DatabaseManager.FetchAllPortals | src/main/java/com/jobscraper/db/DatabaseManager.java:137-162 | one fresh `Portal` per row, ids strictly ascending, and each one's fields match its row, with a null `workday` read as `true` |
| Database.BindBatch | src/main/java/com/jobscraper/db/DatabaseManager.java:267-274 | one parameter set per job, in list order |
| Database.CountInserted | src/main/java/com/jobscraper/db/DatabaseManager.java:279-281 | the loop counts the positive results |
| Database.OrderedIds | src/main/java/com/jobscraper/db/DatabaseManager.java:138 | `ORDER BY id`: every key exactly once, strictly ascending |
| PageScan.HasHitIff | src/main/java/com/jobscraper/scraper/WorkdayScraper.java:173-175 | a page hits the cursor iff some job on it has a non-null req id equal to the cursor |
| PageScan.BeforeHit | src/main/java/com/jobscraper/scraper/WorkdayScraper.java:173-179 | the jobs scanned before the first cursor hit |
| PageScan.BeforeHitShape | src/main/java/com/jobscraper/scraper/WorkdayScraper.java:173-179 | the jobs before the hit form a prefix in which nothing hits, followed by the hitting job when there is one |
| PageScan.BeforeHitWhole | src/main/java/com/jobscraper/scraper/WorkdayScraper.java:173-179 | the whole page is scanned iff nothing on it hits |
| PageScan.KeepNew | src/main/java/com/jobscraper/scraper/WorkdayScraper.java:181-183 | the jobs for which `jobExists` is false, in order |
| PageScan.KeepNewMembers | src/main/java/com/jobscraper/scraper/WorkdayScraper.java:181-183 | a job is kept iff it is listed and the store does not hold its key |
| PageScan.KeepNewAppend | src/main/java/com/jobscraper/scraper/WorkdayScraper.java:181-183 | filtering distributes over concatenation |
| PageScan.BeforeHitAppend | src/main/java/com/jobscraper/scraper/WorkdayScraper.java:173-186 | a page without a hit is scanned whole and the scan goes on into what follows |
| PageScan.HasHitAppend | src/main/java/com/jobscraper/scraper/WorkdayScraper.java:173-186 | a concatenation hits iff one of its parts does |
| PageScan.KeepsAcrossPage | src/main/java/com/jobscraper/scraper/WorkdayScraper.java:156-195 | jobs kept across a page without a hit are that page's kept jobs followed by those of the rest |
| PageScan.WalkAdvances | src/main/java/com/jobscraper/scraper/WorkdayScraper.java:156-195 | a page without a hit, followed by a successful next step, contributes its kept jobs in front of the rest of the walk |
| PageScan.WalkStops | src/main/java/com/jobscraper/scraper/WorkdayScraper.java:156-195 | reaching `maxPages`, an empty page, a cursor hit or a failed next step ends the walk without an abort |
| PageScan.WalkAborts | src/main/java/com/jobscraper/scraper/WorkdayScraper.java:189-192 | an exception from the next step aborts the walk |
| PageScan.WalkBound | src/main/java/com/jobscraper/scraper/WorkdayScraper.java:156 | page bound: never more than `maxPages` pages are loaded, and at least one when `maxPages >= 1` |
| PageScan.WalkKeepsBeforeHit | src/main/java/com/jobscraper/scraper/WorkdayScraper.java:156-195 | early stop: the kept jobs are the not-yet-stored jobs before the first cursor hit, over the loaded pages flattened in page-then-position order; the walk reports a hit iff one occurred |
| PageScan.WalkStopReason | src/main/java/com/jobscraper/scraper/WorkdayScraper.java:156-195 | every loaded page but the last was non-empty, hit-free and followed by a successful step; the last one is the reason the walk stopped |
| PageScan.WalkFrom | src/main/java/com/jobscraper/scraper/WorkdayScraper.java:156-195 | the page loop; `WalkAdvances`, `WalkStops`, `WalkAborts`, `WalkBound`, `WalkKeepsBeforeHit` and `WalkStopReason` state its properties |
| PageScan.NullCursorNeverHits | src/main/java/com/jobscraper/scraper/WorkdayScraper.java:173-175 | a null cursor never matches |
| PageScan.NullCursorKeepsAll | src/main/java/com/jobscraper/scraper/WorkdayScraper.java:173-186 | with a null cursor, every unstored job of every loaded page is kept |
| PageScan.CursorAnchoring | src/main/java/com/jobscraper/scraper/WorkdayScraper.java:166-170 | after a successful scrape with a non-empty page 1, the stored and the in-memory cursor are page 1's first req id, whether or not that job was new; with an empty page 1 both are unchanged |
| PageScan.RescrapeIsIdempotent | src/main/java/com/jobscraper/scraper/WorkdayScraper.java:197-210 | a second scrape whose page 1 starts with the same job keeps nothing and leaves the store and the cursor as they were (the cursor update is issued again, with the value already stored) |
| PageScan.RepeatedReqIdKeptTwice | src/main/java/com/jobscraper/scraper/WorkdayScraper.java:181-183 | only the stored table is consulted, so an unstored req id listed on two pages is kept twice |
| PageScan.ScanPage | src/main/java/com/jobscraper/scraper/WorkdayScraper.java:173-186 | the jobs kept from one page are the unstored ones before the first hit, and the hit flag says whether there was one |
| PageScan.ScanStopsAt | src/main/java/com/jobscraper/scraper/WorkdayScraper.java:174-179 | the first hitting job ends the scan at its own position |
| PageScan.ScanPassesOver | src/main/java/com/jobscraper/scraper/WorkdayScraper.java:181-183 | a job that does not hit is kept exactly when the store does not hold it |
| PageScan.ScanEnds | src/main/java/com/jobscraper/scraper/WorkdayScraper.java:173-186 | a scan that reaches the end of the page found no hit and took the whole page |
| PageScan.PersistAndReturn | src/main/java/com/jobscraper/scraper/AkkodisScraper.java:115-128 | inserts only a non-empty list; then, iff page 1 gave a req id, updates the store and then the portal's cursor; a store exception stops there |
| PageScan.Persist | src/main/java/com/jobscraper/scraper/AkkodisScraper.java:115-128 | insert, then the cursor writes; `PersistAndReturn` computes it and `CursorAnchoring` states its cursor effect |
| PageScan.ScrapeSpec | src/main/java/com/jobscraper/scraper/WorkdayScraper.java:152-213 | the page loop followed by persistence, nothing persisted after an abort; `CursorAnchoring` and `RescrapeIsIdempotent` state its properties |
| Robots.IsAllowed | src/main/java/com/jobscraper/util/RobotsChecker.java:27-82 | the decision equals `AllowedSpec`: the rules parsed from the fetched lines, Allow before Disallow, and true on every failure |
| Robots.AllowedSpec | src/main/java/com/jobscraper/util/RobotsChecker.java:27-82 | `isAllowed` on its inputs, through `ParseLines` (the parse loop over all lines) and `Decide` (Allow prefixes, then Disallow prefixes); `AllowBeatsDisallow`, `NoRulesAllowEverything`, `MoreRulesMonotone`, `FailsOpen` state its properties |
| Robots.ParseLine | src/main/java/com/jobscraper/util/RobotsChecker.java:40-55 | one line of the parse loop; `CommentLinesIgnored`, `ParseUserAgentLine`, `UserAgentOverwrites`, `ParseDisallowLine`, `RuleValueVerbatim`, `ParseAllowLine`, `AllowValueVerbatim`, `EmptyRuleValueCollectsNothing`, `IrrelevantBlockCollectsNothing` state its cases |
| Robots.AllowBeatsDisallow | src/main/java/com/jobscraper/util/RobotsChecker.java:58-64 | a matching Allow wins even over a longer matching Disallow |
| Robots.NoRulesAllowEverything | src/main/java/com/jobscraper/util/RobotsChecker.java:66-75 | with no rules, every path is allowed |
| Robots.MoreRulesMonotone | src/main/java/com/jobscraper/util/RobotsChecker.java:58-75 | adding an Allow can only change false to true; adding a Disallow can only change true to false |
| Robots.FailsOpen | src/main/java/com/jobscraper/util/RobotsChecker.java:77-81 | a failed fetch or a non-200 status allows |
| Robots.CommentLinesIgnored | src/main/java/com/jobscraper/util/RobotsChecker.java:40-42 | a comment line or a blank line leaves the parser state as it was |
| Robots.ParseUserAgentLine | src/main/java/com/jobscraper/util/RobotsChecker.java:44-46 | a `user-agent:` line (any case) sets relevance to whether its value is `*` or, ignoring case, `java` |
| Robots.UserAgentOverwrites | src/main/java/com/jobscraper/util/RobotsChecker.java:44-46 | each `user-agent:` line overwrites the previous flag, whatever it was |
| Robots.ParseDisallowLine | src/main/java/com/jobscraper/util/RobotsChecker.java:47-50 | in a relevant block, a `disallow:` line appends its trimmed non-empty value at the end |
| Robots.RuleValueVerbatim | src/main/java/com/jobscraper/util/RobotsChecker.java:47-50 | the value is kept as written; an inline `#` is not stripped |
| Robots.ParseAllowLine | src/main/java/com/jobscraper/util/RobotsChecker.java:47-53 | in a relevant block, an `allow:` line appends its trimmed non-empty value to the Allow list, and is never taken for a `user-agent:` or `disallow:` line |
| Robots.AllowValueVerbatim | src/main/java/com/jobscraper/util/RobotsChecker.java:51-53 | an `allow:` value is kept as written |
| Robots.EmptyRuleValueCollectsNothing | src/main/java/com/jobscraper/util/RobotsChecker.java:47-53 | a `disallow:` or `allow:` line whose value trims to nothing leaves the whole parser state unchanged |
| Robots.IrrelevantBlockCollectsNothing | src/main/java/com/jobscraper/util/RobotsChecker.java:47-55 | outside a relevant block no rule is collected |
| AkkodisText.SafeText | src/main/java/com/jobscraper/scraper/AkkodisScraper.java:281-284 | null stays null, and a string stays non-null |
| AkkodisText.SafeTextNormalised | src/main/java/com/jobscraper/scraper/AkkodisScraper.java:281-284 | the result is trimmed, has no whitespace run, and holds no line break |
| AkkodisText.SafeTextIdentity | src/main/java/com/jobscraper/scraper/AkkodisScraper.java:281-284 | a text with no char up to U+0020 comes back unchanged |
| AkkodisText.SafeTextJoins | src/main/java/com/jobscraper/scraper/AkkodisScraper.java:281-284 | two words around a whitespace run come back joined by one space |
| AkkodisText.SafeTextKeepsText | src/main/java/com/jobscraper/scraper/AkkodisScraper.java:281-284 | when every char up to U+0020 in the text is `\s`, every other char is kept, in order, and none is added |
| AkkodisText.FirstNonBlank | src/main/java/com/jobscraper/scraper/AkkodisScraper.java:286-290 | null iff both are null or blank; otherwise the first non-blank argument |
| AkkodisText.IndexOfIgnoreCase | src/main/java/com/jobscraper/scraper/AkkodisScraper.java:292-295 | -1 for a null argument; otherwise the leftmost case-insensitive occurrence, or -1 iff there is none |
| AkkodisText.CutBefore | src/main/java/com/jobscraper/scraper/AkkodisScraper.java:241-257 | a truncation applies only at an index above 0 with a non-blank trimmed prefix |
| AkkodisText.PositionShape | src/main/java/com/jobscraper/scraper/AkkodisScraper.java:237-260 | the position is null iff both texts are null or blank; otherwise it is non-blank, and it is either the candidate verbatim or a trimmed proper prefix of it |
| AkkodisText.PositionStopsAtReference | src/main/java/com/jobscraper/scraper/AkkodisScraper.java:241-245 | when "Reference Number" truncation applies, it wins, and the result no longer holds the marker |
| AkkodisText.PositionFromSafeText | src/main/java/com/jobscraper/scraper/AkkodisScraper.java:170-172 | on normalised texts the line-break branch never fires |
| AkkodisText.ExtractPositionText | src/main/java/com/jobscraper/scraper/AkkodisScraper.java:237-260 | `extractPositionText`, characterised by `PositionShape`, `PositionStopsAtReference` and `PositionFromSafeText` |
| AkkodisText.HasFiveDigitsOnOneLine | src/main/java/com/jobscraper/scraper/AkkodisScraper.java:212 | `text.matches(".*\\d{5,}.*")`: no line terminator, because `.` matches none, and a run of five digits; `FiveDigitMatch` then gives that run |
| AkkodisText.FirstDigitRunFrom | src/main/java/com/jobscraper/scraper/AkkodisScraper.java:212-214 | the leftmost position where enough digits start, or none at all |
| AkkodisText.FiveDigitMatch | src/main/java/com/jobscraper/scraper/AkkodisScraper.java:213-214 | `m.group()` of `\d{5,}`: at least five digits |
| AkkodisText.FiveDigitMatchIsMaximal | src/main/java/com/jobscraper/scraper/AkkodisScraper.java:213-214 | the run found has no digit directly before or after it (greedy and leftmost) |
| AkkodisText.FirstSlashRunFrom | src/main/java/com/jobscraper/scraper/AkkodisScraper.java:297-305 | the leftmost match of `/(\d{n,})\b`, or none anywhere |
| AkkodisText.SlashRunDigits | src/main/java/com/jobscraper/scraper/AkkodisScraper.java:297-305 | `group(1)`: the whole digit run after the slash |
| AkkodisText.AkkodisReqIdFromUrl | src/main/java/com/jobscraper/scraper/AkkodisScraper.java:297-305 | a non-null result comes from a non-null URL and is at least five digits |
| AkkodisText.AkkodisReqIdFromUrlSource | src/main/java/com/jobscraper/scraper/AkkodisScraper.java:297-305 | the id is a slash-led run at a word boundary; an 8-digit run anywhere wins over a shorter one; null iff no such 5-digit run exists |
| AkkodisText.AkkodisTrailingNumber | src/main/java/com/jobscraper/scraper/AkkodisScraper.java:297-305 | a URL ending in `/` and a number of five or more digits, with no earlier slash-digit, gives that number |
| AkkodisText.DigitRunToEnd | src/main/java/com/jobscraper/scraper/AkkodisScraper.java:297-305 | a suffix made of digits is one run to the end |
| AkkodisText.LazyPlaceEnd | src/main/java/com/jobscraper/scraper/AkkodisScraper.java:267 | lazy `(.+?)` tried from a given end: a result lies between that end and the text's end (its meaning is stated by `LazyPlaceEndIsFirst`) |
| AkkodisText.LazyPlaceEndIsFirst | src/main/java/com/jobscraper/scraper/AkkodisScraper.java:267 | its result is an end at which the group stays on one line and `\s+calendar_today\b` or `$` follows, no earlier end from the one tried on works; none iff no end up to the text's end works |
| AkkodisText.FirstPlaceEnd | src/main/java/com/jobscraper/scraper/AkkodisScraper.java:267 | the lazy group started at a position: a result is an end after that start, within the text |
| AkkodisText.FirstPlaceEndIsFirst | src/main/java/com/jobscraper/scraper/AkkodisScraper.java:267 | its result is the smallest end admissible for that group start; none iff no end is admissible |
| AkkodisText.FirstPlaceEndBound | src/main/java/com/jobscraper/scraper/AkkodisScraper.java:267 | whenever some end is admissible for a group start, the first end exists and is no later |
| AkkodisText.PlaceWithSpaces | src/main/java/com/jobscraper/scraper/AkkodisScraper.java:267 | greedy `\s+` backing off: the largest group start after the keyword for which `FirstPlaceEnd` succeeds, with that end; every later start in range fails; none iff every start in range fails |
| AkkodisText.PlaceWithSpacesMatches | src/main/java/com/jobscraper/scraper/AkkodisScraper.java:267 | at a `place` keyword on a word boundary, the backed-off search yields a full match with the largest group start and then the smallest end, and none iff there is no match there |
| AkkodisText.PlaceAt | src/main/java/com/jobscraper/scraper/AkkodisScraper.java:267 | the pattern at one position: a result is a match (`PlaceMatchAt`), and among all matches there it has the largest group start and then the smallest end; none iff there is no match at that position |
| AkkodisText.PlaceFrom | src/main/java/com/jobscraper/scraper/AkkodisScraper.java:267-268 | `placeMatcher.find()`: the result is the match at some start with no match at any earlier start; none iff no start from the given one matches |
| AkkodisText.CityRun | src/main/java/com/jobscraper/scraper/AkkodisScraper.java:273 | the maximal run of `[A-Za-z .'-]`: every char in it is in the class, and the char after it is not |
| AkkodisText.LastBoundaryIn | src/main/java/com/jobscraper/scraper/AkkodisScraper.java:273 | backtracking to a word boundary: the largest position in the range with a boundary; none iff the range holds no boundary |
| AkkodisText.CityAt | src/main/java/com/jobscraper/scraper/AkkodisScraper.java:273 | the "Word, Word" pattern at one position: a result is the end of some match (`CityMatch`) and no match there ends later; none iff there is no match at that position |
| AkkodisText.CityFrom | src/main/java/com/jobscraper/scraper/AkkodisScraper.java:273-274 | `cityStateMatcher.find()`: the result starts where `CityAt` matches and no earlier start matches; none iff no start matches |
| AkkodisText.LocationShape | src/main/java/com/jobscraper/scraper/AkkodisScraper.java:262-279 | null for a null or blank text; otherwise a trimmed non-blank string |
| AkkodisText.PlaceBeatsCity | src/main/java/com/jobscraper/scraper/AkkodisScraper.java:266-270 | a non-blank "place" group wins over the comma pattern |
| AkkodisText.PlaceAtPicks | src/main/java/com/jobscraper/scraper/AkkodisScraper.java:267 | at a matching start, a match with the largest group start and then the smallest end is the one returned |
| AkkodisText.PlaceFromIsLeftmost | src/main/java/com/jobscraper/scraper/AkkodisScraper.java:267-268 | the search returns the group of the leftmost match, picked as the engine does there |
| AkkodisText.NoPlaceMatchAnywhere | src/main/java/com/jobscraper/scraper/AkkodisScraper.java:267-268 | no "place" match anywhere means the search fails |
| AkkodisText.CityAtPicks | src/main/java/com/jobscraper/scraper/AkkodisScraper.java:273 | at a matching start, the match whose last word is longest is the one returned |
| AkkodisText.CityFromIsLeftmost | src/main/java/com/jobscraper/scraper/AkkodisScraper.java:273-274 | the search returns the leftmost match, with its last word as long as a boundary allows |
| AkkodisText.LocationIsLeftmostPlace | src/main/java/com/jobscraper/scraper/AkkodisScraper.java:262-270 | the location is the trimmed group of the leftmost "place" match when that group is not blank |
| AkkodisText.LocationIsLeftmostCity | src/main/java/com/jobscraper/scraper/AkkodisScraper.java:262-276 | with no "place" match, the location is the trimmed group of the leftmost "City, Region" match |
| AkkodisText.LocationNullIff | src/main/java/com/jobscraper/scraper/AkkodisScraper.java:262-279 | with no "place" match, the location is null iff nothing in the normalised text matches the "City, Region" pattern |
| AkkodisText.NormaliseForLocation | src/main/java/com/jobscraper/scraper/AkkodisScraper.java:265 | the text matched against: line breaks become spaces, whitespace runs collapse, then trim; used by the lemmas above |
| AkkodisText.ExtractLocationText | src/main/java/com/jobscraper/scraper/AkkodisScraper.java:262-279 | `extractLocationText`, characterised by `LocationShape`, `PlaceBeatsCity`, `LocationIsLeftmostPlace`, `LocationIsLeftmostCity` and `LocationNullIff` |
| AkkodisText.MarkerAdvancedIff | src/main/java/com/jobscraper/scraper/AkkodisScraper.java:374-386 | the marker has advanced iff it is non-null and differs from the one before (for a null before-value: has become non-null) |
| AkkodisText.IsElementEnabled | src/main/java/com/jobscraper/scraper/AkkodisScraper.java:350-359 | `isElementEnabled`: `disabled` equal to "true" or "disabled", `aria-disabled` equal to "true" (ignoring case), or a lower-cased class containing "disabled" disables; used by `DisabledCandidatesNeverAdvance` and `DisabledIsCaseSensitive` |
| AkkodisScraper.FirstIdInShape | src/main/java/com/jobscraper/scraper/AkkodisScraper.java:210-215 | an id found in the element texts is at least five digits |
| AkkodisScraper.FirstIdInGroupsShape | src/main/java/com/jobscraper/scraper/AkkodisScraper.java:207-218 | an id found over the selectors is at least five digits |
| AkkodisScraper.IdInText | src/main/java/com/jobscraper/scraper/AkkodisScraper.java:210-215 | the id one element text gives: its trimmed text, when non-empty and matching `.*\d{5,}.*`, yields its first run of five or more digits; `FirstIdInShape` states its shape |
| AkkodisScraper.ReqIdInItem | src/main/java/com/jobscraper/scraper/AkkodisScraper.java:201-220 | `findReqIdInItem`: the first element id, else the URL's; `FindReqIdInItem` computes it with the source's loops |
| AkkodisScraper.FindReqIdInItem | src/main/java/com/jobscraper/scraper/AkkodisScraper.java:201-220 | selectors in their fixed order, elements in document order, the first id found, then the URL's id; a selector that raised is passed over |
| AkkodisScraper.FindLocationInItem | src/main/java/com/jobscraper/scraper/AkkodisScraper.java:222-235 | the first selector whose element gives a non-empty location |
| AkkodisScraper.LocationInItem | src/main/java/com/jobscraper/scraper/AkkodisScraper.java:222-235 | `findLocationInItem`: the first selector giving a non-empty location; `FindLocationInItem` computes it with the loop |
| AkkodisScraper.ItemRecordReqId | src/main/java/com/jobscraper/scraper/AkkodisScraper.java:173-184 | the req id is the URL's when it has one, else the element scan's; it is at least five digits, and the portal and URL fields are set |
| AkkodisScraper.ItemWithoutLinkDropped | src/main/java/com/jobscraper/scraper/AkkodisScraper.java:168-179 | an item without a job link, or one that raises, is dropped |
| AkkodisScraper.ItemRecord | src/main/java/com/jobscraper/scraper/AkkodisScraper.java:162-199 | the record `extractJobFromItem` builds, or none; characterised by `ItemRecordReqId`, `ItemWithoutLinkDropped` and `ItemRecordLocation` |
| AkkodisScraper.ItemRecordLocation | src/main/java/com/jobscraper/scraper/AkkodisScraper.java:186-191 | the location comes from the elements, and from the item text only when no element gives one |
| AkkodisScraper.ExtractJobFromItem | src/main/java/com/jobscraper/scraper/AkkodisScraper.java:162-199 | the job built through the setters has the fields `ItemRecord` gives, or is null exactly when `ItemRecord` drops the item |
| AkkodisScraper.ItemRecordsShape | src/main/java/com/jobscraper/scraper/AkkodisScraper.java:130-156 | every extracted job carries a req id of at least five digits and the portal's id |
| AkkodisScraper.ExtractJobsFromCurrentPage | src/main/java/com/jobscraper/scraper/AkkodisScraper.java:130-156 | the jobs of the items that give one, in order; none when the item lookup raised |
| AkkodisScraper.AddJobFromItem | src/main/java/com/jobscraper/scraper/AkkodisScraper.java:141-152 | one turn of the item loop appends the item's job when it has one |
| AkkodisScraper.WaitForPageAdvance | src/main/java/com/jobscraper/scraper/AkkodisScraper.java:374-386 | true iff the container is there and some observed marker has advanced |
| AkkodisScraper.FirstJobMarker | src/main/java/com/jobscraper/scraper/AkkodisScraper.java:361-372 | `getFirstJobMarker`: the first item's non-blank `href`, else its link text; null for no item, no link or a raising lookup; used by `WaitForPageAdvance` |
| AkkodisScraper.NavigateToNextPage | src/main/java/com/jobscraper/scraper/AkkodisScraper.java:307-341 | true iff some candidate is enabled, raises nothing, and makes the marker advance |
| AkkodisScraper.PageStep | src/main/java/com/jobscraper/scraper/AkkodisScraper.java:307-341 | the step after a page: it moves on iff some candidate advances (`Advances`: enabled, clicked without raising, container shown and some observed marker advanced), and never aborts; `NavigateToNextPage` computes it |
| AkkodisScraper.DisabledCandidatesNeverAdvance | src/main/java/com/jobscraper/scraper/AkkodisScraper.java:350-359 | when every candidate is disabled, the page never moves on |
| AkkodisScraper.PageDescribed | src/main/java/com/jobscraper/scraper/AkkodisScraper.java:73-110 | the inputs of the walk give each page's jobs and its next step |
| AkkodisScraper.ScrapeCurrentPage | src/main/java/com/jobscraper/scraper/AkkodisScraper.java:84-107 | one page: empty flag, first req id, the jobs kept before the hit, and the next step when the scan did not stop |
| AkkodisScraper.VisitPage | src/main/java/com/jobscraper/scraper/AkkodisScraper.java:73-110 | one pass of the page loop agrees with `WalkFrom` at that page |
| AkkodisScraper.WalkPages | src/main/java/com/jobscraper/scraper/AkkodisScraper.java:70-110 | the page loop yields the walk's kept jobs, never aborts, and captures page 1's first req id |
| AkkodisScraper.ScrapePortal | src/main/java/com/jobscraper/scraper/AkkodisScraper.java:58-113 | the result, the store and the cursor are those of `PortalSpec`: a robots denial returns [] and writes nothing, a failing load raises, and otherwise the walk is persisted |
| AkkodisScraper.PortalSpec | src/main/java/com/jobscraper/scraper/AkkodisScraper.java:58-113 | `scrapePortal` on its inputs: a robots denial returns [] and writes nothing, a failing load raises, otherwise the walk is persisted; `ScrapePortal` computes it |
| Email.ValidEmailsMembers | src/main/java/com/jobscraper/util/EmailService.java:64-66 | the addresses left are exactly the non-null, non-blank emails |
| Email.DistinctMembers | src/main/java/com/jobscraper/util/EmailService.java:67 | `distinct()` keeps every value |
| Email.DistinctUnique | src/main/java/com/jobscraper/util/EmailService.java:67 | `distinct()` leaves no duplicate |
| Email.DistinctOrder | src/main/java/com/jobscraper/util/EmailService.java:67 | `distinct()` keeps the order of first appearance |
| Email.RecipientsSpec | src/main/java/com/jobscraper/util/EmailService.java:64-68 | the recipients: every valid email once, in the order of its first appearance among the subscribers |
| Email.RecipientsEmptyIff | src/main/java/com/jobscraper/util/EmailService.java:70-73 | nobody is addressed iff no subscriber has a non-null, non-blank email |
| Email.Recipients | src/main/java/com/jobscraper/util/EmailService.java:64-68 | the addresses a message goes to; `RecipientsSpec` and `RecipientsEmptyIff` state what they are |
| Email.Escape | src/main/java/com/jobscraper/util/EmailService.java:132-140 | no raw `<` or `>` is left, and null gives "" |
| Email.EscapeAttribute | src/main/java/com/jobscraper/util/EmailService.java:142-144 | additionally no raw `"` is left |
| Email.EscapeOneChar | src/main/java/com/jobscraper/util/EmailService.java:136-139 | the three `replace` calls on one char give that char's entity (`&` first) |
| Email.EscapeIsCharwise | src/main/java/com/jobscraper/util/EmailService.java:136-139 | the replacements in sequence equal escaping each char on its own |
| Email.EscapeAttributeIsCharwise | src/main/java/com/jobscraper/util/EmailService.java:142-144 | so does adding `&quot;` |
| Email.QuoteEach | src/main/java/com/jobscraper/util/EmailService.java:142-144 | replacing `"` after the three replacements is the per-char attribute escape |
| Email.AmpersandsBeginEntities | src/main/java/com/jobscraper/util/EmailService.java:136-139 | every `&` of the output begins `&amp;`, `&lt;` or `&gt;` (or `&quot;` in an attribute) |
| Email.UnescapeEscapeEach | src/main/java/com/jobscraper/util/EmailService.java:132-144 | decoding the entities undoes the per-char escape |
| Email.EscapeRoundTrip | src/main/java/com/jobscraper/util/EmailService.java:132-144 | round trip: decoding `escape(s)` or `escapeAttribute(s)` gives `s` back |
| Email.EscapeNullRoundTrip | src/main/java/com/jobscraper/util/EmailService.java:132-135 | decoding `escape(null)` gives "" |
| Email.LinkCellShape | src/main/java/com/jobscraper/util/EmailService.java:146-152 | "" iff the URL is null or blank; otherwise an anchor whose `href` has no raw `"` and decodes to the trimmed URL |
| Email.RowsSnoc | src/main/java/com/jobscraper/util/EmailService.java:117-125 | one more job appends exactly its row |
| Email.BuildHtmlBody | src/main/java/com/jobscraper/util/EmailService.java:103-130 | the loop's output equals `HtmlBody` of the jobs |
| Email.HtmlBody | src/main/java/com/jobscraper/util/EmailService.java:103-130 | the body: header, `Rows` (one `Row` per job, five `Cell`s with the link column from `LinkCell`) and footer; `HtmlBodyReadsBack` states that it parses back to one row per job |
| Email.ReadCellOf | src/main/java/com/jobscraper/util/EmailService.java:119-122 | an escaped cell reads back as its decoded content |
| Email.ReadLinkCellOf | src/main/java/com/jobscraper/util/EmailService.java:123 | the link cell reads back as the trimmed URL, or "" for no link |
| Email.ReadRowOf | src/main/java/com/jobscraper/util/EmailService.java:117-125 | a row reads back as its five cells: portal, req id, position, location, link |
| Email.ReadRowsOf | src/main/java/com/jobscraper/util/EmailService.java:117-128 | the rows followed by the footer read back as one entry per job |
| Email.HtmlBodyReadsBack | src/main/java/com/jobscraper/util/EmailService.java:103-130 | parsing the body back gives exactly one five-cell row per job, in input order, with the values shown |
| Email.ShownJobsLength | src/main/java/com/jobscraper/util/EmailService.java:117-125 | one shown row per job, position by position |
| Email.SendAttemptedIff | src/main/java/com/jobscraper/util/EmailService.java:55-101 | a send is attempted iff the subscriber list is non-null, the job list is non-null and non-empty, and some subscriber has a valid email |
| Email.SentMessage | src/main/java/com/jobscraper/util/EmailService.java:75-97 | a sent message goes to the recipients, has the fixed subject, and its body reads back as the jobs |
| Email.SendNewJobsEmail | src/main/java/com/jobscraper/util/EmailService.java:55-101 | the outcome is `SendSpec`: the early exits, the recipients, the body, and a caught `MessagingException` |
| Email.SendSpec | src/main/java/com/jobscraper/util/EmailService.java:55-101 | `sendNewJobsEmail` on its inputs; `SendAttemptedIff` and `SentMessage` state its properties |
| WorkdayScraper.WorkdayReqIdFromUrl | src/main/java/com/jobscraper/scraper/WorkdayScraper.java:445-455 | a non-null result is a non-empty string of digits |
| WorkdayScraper.WorkdayReqIdFromUrlIff | src/main/java/com/jobscraper/scraper/WorkdayScraper.java:445-455 | non-null iff the URL is non-null, a `_` occurs before the last char, and a digit follows the last `_`; then the result is the digits after the last `_` |
| WorkdayScraper.DigitAfter | src/main/java/com/jobscraper/scraper/WorkdayScraper.java:449-452 | the digits after a position are non-empty iff a digit occurs after it |
| WorkdayScraper.WorkdayTrailingId | src/main/java/com/jobscraper/scraper/WorkdayScraper.java:445-455 | a URL ending in `_` and digits gives those digits |
| WorkdayScraper.WorkdayReqIdExample | src/main/java/com/jobscraper/scraper/WorkdayScraper.java:441-443 | `/job/Store1046/Title_202603061` gives `202603061` |
| WorkdayScraper.ItemRecordReqId | src/main/java/com/jobscraper/scraper/WorkdayScraper.java:288-301 | a present subtitle gives its trimmed text with no URL fallback; an absent one gives the URL's id; the id is never blank |
| WorkdayScraper.BlankSubtitleDropsItem | src/main/java/com/jobscraper/scraper/WorkdayScraper.java:288-301 | a blank subtitle drops the item, with no URL fallback |
| WorkdayScraper.NoTitleDropsItem | src/main/java/com/jobscraper/scraper/WorkdayScraper.java:269-276 | an item without a title link is dropped |
| WorkdayScraper.ItemRecord | src/main/java/com/jobscraper/scraper/WorkdayScraper.java:263-304 | the record `extractJobFromListItem` builds, or none; characterised by `ItemRecordReqId`, `BlankSubtitleDropsItem`, `NoTitleDropsItem` and `ItemRecordFields` |
| WorkdayScraper.ItemRecordFields | src/main/java/com/jobscraper/scraper/WorkdayScraper.java:263-304 | position is the trimmed title, URL is its `href`, location is null iff there is no location element (else its trimmed text); the portal fields are the portal's |
| WorkdayScraper.ExtractJobFromListItem | src/main/java/com/jobscraper/scraper/WorkdayScraper.java:263-304 | the job built through the setters is `ItemRecord`'s, or null exactly when `ItemRecord` drops the item |
| WorkdayScraper.ItemRecordsShape | src/main/java/com/jobscraper/scraper/WorkdayScraper.java:219-247 | every extracted job has a non-blank req id and the portal's id and name |
| WorkdayScraper.ScrapeCurrentPageItems | src/main/java/com/jobscraper/scraper/WorkdayScraper.java:219-247 | the jobs of the items that give one, in order; a raising item is skipped, and a raising lookup gives none |
| WorkdayScraper.AddJobFromItem | src/main/java/com/jobscraper/scraper/WorkdayScraper.java:232-243 | one turn of the item loop appends the item's job when it has one |
| WorkdayScraper.NavigateToNextPage | src/main/java/com/jobscraper/scraper/WorkdayScraper.java:314-343 | the step equals `NextStep`: no button or a disabled one ends the loop, a click that completes moves on, absorbed exceptions end, others abort |
| WorkdayScraper.NextStepAdvanceIff | src/main/java/com/jobscraper/scraper/WorkdayScraper.java:319-323 | the loop moves on iff there is a button, neither attribute is exactly "true" (the predicate `Disabled` is false), and the click completes |
| WorkdayScraper.NextStep | src/main/java/com/jobscraper/scraper/WorkdayScraper.java:314-343 | the step of `navigateToNextPage`; characterised by `NextStepAdvanceIff` and `DisabledIsCaseSensitive`, and computed by `NavigateToNextPage` |
| WorkdayScraper.PageStep | src/main/java/com/jobscraper/scraper/WorkdayScraper.java:189-192 | the step after a page is that of its next button |
| WorkdayScraper.DisabledIsCaseSensitive | src/main/java/com/jobscraper/scraper/WorkdayScraper.java:321 | `disabled="TRUE"` does not stop the Workday loop, while the Akkodis check does treat it as disabled |
| WorkdayScraper.PageDescribed | src/main/java/com/jobscraper/scraper/WorkdayScraper.java:156-195 | the inputs of the walk give each page's jobs and its next step |
| WorkdayScraper.PortalWritesOnlyAfterWalk | src/main/java/com/jobscraper/scraper/WorkdayScraper.java:135-150 | a robots denial, a results timeout, a failing load or an aborted walk leaves the store and the cursor untouched and returns no jobs |
| WorkdayScraper.ScrapeCurrentPage | src/main/java/com/jobscraper/scraper/WorkdayScraper.java:158-192 | one page: empty flag, first req id, the jobs kept before the hit, and the next step when the scan did not stop |
| WorkdayScraper.VisitPage | src/main/java/com/jobscraper/scraper/WorkdayScraper.java:156-195 | one pass of the page loop agrees with `WalkFrom` at that page |
| WorkdayScraper.WalkPages | src/main/java/com/jobscraper/scraper/WorkdayScraper.java:152-195 | the page loop reports the walk's abort, yields its kept jobs, and captures page 1's first req id |
| WorkdayScraper.ScrapePortal | src/main/java/com/jobscraper/scraper/WorkdayScraper.java:133-213 | the result, the store and the cursor are those of `PortalSpec` |
| WorkdayScraper.PortalSpec | src/main/java/com/jobscraper/scraper/WorkdayScraper.java:133-213 | `scrapePortal` on its inputs; `PortalWritesOnlyAfterWalk` states when nothing is written, and `ScrapePortal` computes it |
| WorkdayScraper.RouteCases | src/main/java/com/jobscraper/scraper/WorkdayScraper.java:95-106 | Akkodis iff the portal looks like Akkodis (even with `workday` set); Workday iff it does not and `workday` is set; otherwise skipped |
| WorkdayScraper.AkkodisNameInAnyCase | src/main/java/com/jobscraper/scraper/WorkdayScraper.java:457-461 | a name holding "akkodis" in any ASCII case routes to Akkodis |
| WorkdayScraper.IsAkkodisPortal | src/main/java/com/jobscraper/scraper/WorkdayScraper.java:457-461 | `isAkkodisPortal`: the lower-cased name contains "akkodis" or the lower-cased link contains "akkodis.com", a null counting as ""; used by `AkkodisNameInAnyCase` |
| WorkdayScraper.RouteOf | src/main/java/com/jobscraper/scraper/WorkdayScraper.java:95-106 | the scraper a portal goes to; `RouteCases` states all three cases |
| WorkdayScraper.Run | src/main/java/com/jobscraper/scraper/WorkdayScraper.java:76-127 | the portals are read in id order; the jobs and the store are those of `RunOver` (per-portal failures isolated, results concatenated in portal order); a mail goes out only for a non-empty list |
| WorkdayScraper.FetchPortals | src/main/java/com/jobscraper/scraper/WorkdayScraper.java:77-82 | the fetched portals in id order, each matching its row |
| WorkdayScraper.ScrapeAll | src/main/java/com/jobscraper/scraper/WorkdayScraper.java:89-113 | the portal loop yields `RunOver` of the fetched portals |
| WorkdayScraper.ScrapeRouted | src/main/java/com/jobscraper/scraper/WorkdayScraper.java:95-110 | one routed portal with its exception caught; no other portal and no earlier job changes |
| WorkdayScraper.FetchedPortalsInOrder | src/main/java/com/jobscraper/db/DatabaseManager.java:137-162 | the fetched portals are ordered by id and cover the rows |
| WorkdayScraper.Infos | src/main/java/com/jobscraper/model/Portal.java:23-41 | the portal fields of each portal, position by position |
| WorkdayScraper.RunOverStep | src/main/java/com/jobscraper/scraper/WorkdayScraper.java:89-113 | one more portal appends its contribution and passes its store on |
| WorkdayScraper.RunOverSnoc | src/main/java/com/jobscraper/scraper/WorkdayScraper.java:107-110 | the new jobs of a cycle are the earlier portals' followed by the last one's contribution |
| WorkdayScraper.RunOver | src/main/java/com/jobscraper/scraper/WorkdayScraper.java:89-113 | the portal loop of `run`; `RunOverStep`, `RunOverSnoc`, `SkippedPortalsChangeNothing`, `RunJobsBelongToPortals` state its properties, and `ScrapeAll` computes it |
| WorkdayScraper.SkippedPortalsChangeNothing | src/main/java/com/jobscraper/scraper/WorkdayScraper.java:103-106 | a cycle over skipped portals finds nothing and writes nothing |
| WorkdayScraper.RunJobsBelongToPortals | src/main/java/com/jobscraper/scraper/WorkdayScraper.java:89-113 | every new job of a cycle belongs to one of the fetched portals |
| WorkdayScraper.PortalJobsCarryId | src/main/java/com/jobscraper/scraper/WorkdayScraper.java:95-106 | the jobs a portal contributes carry that portal's id |
| WorkdayScraper.ScrapeKeepsPortal | src/main/java/com/jobscraper/scraper/WorkdayScraper.java:152-213 | a scrape over jobs of one portal returns jobs of that portal |
| WorkdayScraper.FlattenCarries | src/main/java/com/jobscraper/scraper/WorkdayScraper.java:156-195 | flattening pages keeps the portal id of every job |
| WorkdayScraper.HumanDelay | src/main/java/com/jobscraper/scraper/WorkdayScraper.java:432-439 | the delay is at least `min` and below `max`, or exactly `min` when `max - min <= 1` |

## Left out

- The browser (Selenium WebDriver) is an input. This covers driver creation and teardown, `driver.get`, the element lookups, clicks, scripts, scrolling, waits and staleness. A page is the items the lookups return, and each step is what trying the next control does. `waitForPageChange`, `getCurrentPageText`, `findNextArrowCandidates` and `findClickableParent` are folded into those inputs.
- The fetch of robots.txt (HTTP, timeouts, `URI` parsing) is an input: the path and the fetch result.
- SMTP (session, transport, `InternetAddress`, authentication) is left out. Whether the send raises is an input (`sendFails`), and the message is a value.
- JDBC, the connection pool, `initSchema`, `close` and `fetchAllSubscribers` are left out. The tables are values, and the subscribers are an input of `Run`.
- `AppConfig`, `Main` and `Subscriber`'s bean methods are left out: configuration is passed in as parameters. `Subscriber` is a datatype.
- Logging and `Thread.sleep` are left out, so the pauses between pages and portals are not modelled. `humanDelay` is modelled only for the delay it chooses.
- WorkdayScraper.HumanDelay: Java `int` overflow of `maxMs - minMs` is not modelled, because the delays are small configured constants.
- WorkdayScraper.HumanDelay: a negative delay is not modelled. `humanDelay` catches only `InterruptedException` (WorkdayScraper.java:432-439, AkkodisScraper.java:400-407), and `Thread.sleep` on a negative value throws `IllegalArgumentException`. Nothing checks `PAGE_DELAY_MIN_MS` (AppConfig.java:100-102), so a negative setting would make the delay after a page advance (WorkdayScraper.java:194, AkkodisScraper.java:109) abort the portal with nothing persisted, and `run`'s per-portal catch would log it. The model assumes the configured delays are non-negative, so its walk never aborts this way.
- Java case mapping is modelled for ASCII only (`toLowerCase`, `equalsIgnoreCase`, `(?i)`). Non-ASCII characters whose Java mapping differs are not modelled: U+212A KELVIN SIGN lower-cases to `k`, U+0130 to `i` plus a combining dot, and `equalsIgnoreCase` also folds the dotless `ı` with `I`. A default locale other than ROOT or English is not modelled either; under Turkish, `"DISALLOW:".toLowerCase()` is `"dısallow:"`, so such a line would not be recognised.
- The regex engine is not modelled. Only the patterns the code uses are written out as string functions, with `\b` over ASCII word chars `[A-Za-z0-9_]`. The JDK's wider notion of a word char is not modelled. Up to JDK 18, `\b` also counts Unicode letters and digits as word chars. Every JDK, up to 21 at least, also counts a combining mark (a non-spacing mark) that follows a letter or digit as a word char. So in NFD text such as "Montre\u0301al, Quebec", Java sees no boundary before `al` and finds no "City, Region" match, where the model returns "al, Quebec". The same holds for `\bplace` ("e\u0301place X") and for `/(\d{5,})\b` ("/12345\u0301").
- `maxPages` is a `nat`; a negative configured value behaves as 0 in the source too, since the loop does not run.
- The serial `id` and the `scraped_at` column of `jobs` are not modelled.
- The model does not store `SQLException` messages or the exception type that ends a portal; the result only says whether the failure came from the browser or from the store.
