# A model of the IR14 code-search web crawler

This project models the crawler of `ir.control.WebCrawler` and its frontier
record `ir.model.ItemUrl` in Dafny, and proves properties of the model.

The crawler keeps four shared lists:

- `nextUrls`: ready items, each a URL with its crawl depth;
- `tentativeUrls`: links discovered by the workers;
- `visitedUrls`;
- `excludedUrls`: robots.txt entries.

The main thread runs the seed pipeline once and crawls the first seed
itself. After that it loops:

1. deduplicate the ready list;
2. assign each ready host to a `CrawlerThread` worker;
3. merge the discovered links into the ready list.

It stops when both lists are empty and no worker is busy.

A worker makes passes over the hosts it is responsible for. In each pass it
claims the first ready item of each host and normalizes its URL. A visited
URL is dropped. Otherwise the item's depth decides what happens:

- crawl the page and enqueue its outlinks one level deeper;
- only index the page;
- or leave it alone.

The model is functional. Lists are sequences, and `java.net.URL` is a
record whose printed form `text` is what every comparison in the crawler
reads. That printed form is the URL parser's canonical spelling of the text
the URL was built from (the scheme lower-cased, surrounding blanks and a
`url:` prefix dropped), so it comes from the parser, which is a parameter. Every scheduler and worker decision is a single-step function on
immutable state.

Modules, one per concern of the source:

| module | what it holds |
|---|---|
| `Wrappers` | `Option` and `Result` |
| `ItemUrl` | the frontier record, Java `int` depths, `new URL` |
| `JavaString` | `contains`, `startsWith`, `trim`, `replace` and `split` with Java's semantics; the faults the crawler can raise |
| `Sequences` | subsequences, filters, and the index-removal loop with a shift counter used by the list helpers |
| `Frontier` | the list helpers and the visited/excluded checks |
| `Questions` | the stackoverflow.com question rule |
| `Normalize` | both `normalize` overloads |
| `Robots` | `getExcludedList` |
| `Pipelines` | the seed pipeline, the per-cycle merge, and the loop condition |
| `Scheduler` | the worker pool, host assignment, and one cycle of `innerCrawl` |
| `WorkerPass` | a worker's turn and pass, and the crawl of the first seed |
| `Classifier` | the programming-language field of the index |

Where the code and its comments disagree, the model follows the code:

- A crawl that throws still marks the URL visited. Only an excluded URL is
  left unmarked (`WebCrawler.java:1643-1644`).
- The main thread marks the first seed visited even when the prefix rule
  excludes it (`WebCrawler.java:624`).
- `removeRepeated` removes duplicates only when the positions it collects
  happen to be ascending. It gathers positions in discovery order in a
  `LinkedHashSet`, then deletes them with an ascending shift count. For
  `[a, b, c, b, x, a]` it deletes `c` and keeps both `b`s
  (`Frontier.RemoveRepeatedKeepsDuplicate`). The model uses the removal as
  written wherever the source calls it: robots entries, the excluded list
  and the seeds.
- `normalize(String)` is not idempotent. `.../questions/12//foo` becomes
  `.../questions/12/`, and a second pass gives `.../questions/12`
  (`Normalize.PartialNotIdempotentExample`).
- `isVisitedHost` compares protocol and host joined into one string, so an
  `http` visit to host `shost` counts as a visit to `https` host `host`
  (`Frontier.VisitedHostJoinsStrings`).
- The crawl branch of a worker reuses its local `results` variable. After
  a robots fetch that found entries, `results` holds the whole rewritten
  excluded list. If the page is then excluded or the crawl throws, that
  list is enqueued as links at `depth + 1`
  (`WorkerPass.ExcludedCrawlLeaks`, `WorkerPass.FailedCrawlLeaks`). Each leaked entry is excluded by the
  list it came from (`WorkerPass.LeakedAreExcluded`), so the next merge's
  prefix filter drops it only while the shared excluded list still holds
  it. A later `removeRepeated` of that list can lose a unique entry (see
  below), and then the leaked entry is crawled.
- A fault of `normalize` on a claimed item, or of `isVisited` on a
  stackoverflow URL, is an uncaught `ArrayIndexOutOfBoundsException`. It
  ends the worker thread with its busy flag still set, which keeps
  `innerCrawl` looping (`WorkerPass.Visit`, outcome `Halted`).
- A claimed item whose normalized text `new URL` rejects is removed and
  the busy flag cleared, but the null URL left behind then raises a
  `NullPointerException` in `isVisited`, which ends the thread
  (`WorkerPass.Visit`, outcome `Halted(NullPointer)`).
- A fault of the robots step inside a crawl or index branch is caught: the
  item is abandoned without a fetch, yet the URL is still marked visited
  (outcome `Aborted`, `WorkerPass.CrawlBranchFrame`).

## Model

| member | source | states |
|---|---|---|
| ItemUrl.NewItem | src/ir/model/ItemUrl.java:18-33 | the getters of a new item return the URL and depth it was built with |
| ItemUrl.SetUrl | src/ir/model/ItemUrl.java:27-29 | `setUrl` replaces the URL and keeps the depth |
| ItemUrl.SetDepth | src/ir/model/ItemUrl.java:35-37 | `setDepth` replaces the depth and keeps the URL |
| ItemUrl.SettersIndependent | src/ir/model/ItemUrl.java:27-37 | setting the old value back undoes either setter, and the two setters commute |
| ItemUrl.ParseUrl | src/ir/control/WebCrawler.java:1556 | `new URL(s)` succeeds exactly when the parser accepts `s`, and the URL prints as the parser's canonical spelling of `s`, with the host it parsed |
| ItemUrl.IncDepth | src/ir/control/WebCrawler.java:1640 | `depth + 1` on a Java `int` is congruent to the true successor modulo 2^32, and equals it below `Integer.MAX_VALUE` |
| ItemUrl.IncDepthWraps | src/ir/control/WebCrawler.java:1589 | the successor exceeds the depth exactly when the depth is not `Integer.MAX_VALUE`, which wraps to `Integer.MIN_VALUE` |
| Frontier.CleanUrlList | src/ir/control/WebCrawler.java:1236-1274 | no two result items print alike; every input URL is in the result; each result item is an input URL at the lowest depth among that URL's copies; results follow the order of first occurrence |
| Frontier.CleanFromIsDedup | src/ir/control/WebCrawler.java:1245-1274 | the source's loop, which marks later copies as discarded and keeps the lowest depth, computes exactly the first-occurrence deduplication with minimal depths |
| Frontier.CleanDominates | src/ir/control/WebCrawler.java:1245-1274 | every input item has a copy in the result at no greater depth |
| Frontier.MinDepthIsMinimum | src/ir/control/WebCrawler.java:1262-1268 | the depth kept for a URL is at most every copy's depth and is the depth of some copy |
| Frontier.RemoveIfExistsInOtherList | src/ir/control/WebCrawler.java:1191-1208 | the result is an order-preserving subsequence; a URL printing like a blocked one is gone, and every other URL keeps its full multiplicity |
| Frontier.RemoveIfExistsIsFilter | src/ir/control/WebCrawler.java:1191-1208 | the index collection plus the shifted removals equal the filter that keeps the unblocked URLs |
| Sequences.ApplyAscendingRemovals | src/ir/control/WebCrawler.java:1202-1206 | for ascending positions, removing at `i - removedSoFar` deletes exactly the listed positions |
| Sequences.ApplyRemovalsSubseq | src/ir/control/WebCrawler.java:1226-1232 | whatever positions are collected, the removal loop only deletes elements |
| Frontier.RemoveRepeated | src/ir/control/WebCrawler.java:1215-1234 | every position handed to `remove` is in range; the result is a subsequence that keeps the first entry; a list without repeats comes back unchanged |
| Frontier.RemoveRepeatedKeepsDuplicate | src/ir/control/WebCrawler.java:1215-1234 | for `[a, b, c, b, x, a]` the positions collected are `[5, 3]` and the result is `[a, b, b, x]`: a repeat survives and a unique URL is lost |
| Frontier.RemoveVisited | src/ir/control/WebCrawler.java:1286-1301 | the result is an order-preserving subsequence; an item whose URL prints like a visited one is gone, and every other item keeps its full multiplicity |
| Frontier.IsExcluded | src/ir/control/WebCrawler.java:1157-1169 | true exactly when some excluded entry `e` has the URL starting with `e + "/"` or equal to `e` after trimming |
| Frontier.RemoveExcluded | src/ir/control/WebCrawler.java:1313-1330 | the result is an order-preserving subsequence in which no entry excludes any item; an excluded item is gone, and every other item keeps its full multiplicity |
| Frontier.ExclusionLaw | src/ir/control/WebCrawler.java:1162 | for trimmed texts, `e` excludes `u` exactly when `u == e` or `u` starts with `e + "/"` |
| Frontier.ExclusionIsByPathSegment | src/ir/control/WebCrawler.java:1162 | `http://h/private` excludes `http://h/private/page` but not `http://h/privateX` |
| Frontier.MarkAsVisited | src/ir/control/WebCrawler.java:1426-1439 | the URL is listed afterwards; the list only grows at its end, by the URL, and only when the URL was not listed; a list without repeats keeps none |
| Frontier.MarkAsVisitedIdempotent | src/ir/control/WebCrawler.java:1426-1439 | marking twice is marking once |
| Frontier.VisitedFrom | src/ir/control/WebCrawler.java:1350-1387 | from entry `i` on: a "visited" answer has an entry printing alike or, with the stackoverflow check on, naming the same numeric question with one text containing the other; such an entry rules out a "not visited" answer; a fault is an index fault of the stackoverflow check; with the check off the answer is exact membership |
| Frontier.IsVisited | src/ir/control/WebCrawler.java:1345-1393 | an empty URL is not visited; without the stackoverflow marker the answer is exact membership; with it, "visited" is answered only when some entry prints alike or names the same numeric question with containment, and every such entry rules out "not visited"; a fault needs the marker and is an index fault |
| Frontier.IsVisitedHost | src/ir/control/WebCrawler.java:1403-1417 | true exactly when the URL is non-empty and some visited entry's protocol joined to its host equals the URL's |
| Frontier.VisitedHostJoinsStrings | src/ir/control/WebCrawler.java:1408 | an `http` visit to `shost` counts as a visit to `https` host `host` |
| Questions.QuestionId | src/ir/control/WebCrawler.java:1359-1362 | the id compared by `isVisited` has no `/` |
| Questions.QuestionIdOf | src/ir/control/WebCrawler.java:1359-1362 | for `marker + id + "/" + more`, the id extracted is `id` |
| Questions.QuestionIdOfBareMarker | src/ir/control/WebCrawler.java:1359 | with nothing after the marker, the lookup of element 1 raises an index fault |
| Questions.Collapse | src/ir/control/WebCrawler.java:2316-2333 | a text without the marker is unchanged; a changed text starts with the marker |
| Questions.CollapseQuestion | src/ir/control/WebCrawler.java:2316-2333 | `marker + num + "/" + slug + rest` collapses to `marker + num + "/" + slug` when `num` is numeric and is unchanged otherwise |
| Questions.CollapseSingleChunk | src/ir/control/WebCrawler.java:2318-2319 | a marker followed by a single chunk is unchanged |
| Questions.CollapseBareMarker | src/ir/control/WebCrawler.java:2317 | the bare marker raises an index fault |
| Questions.CollapseAvoids | src/ir/control/WebCrawler.java:2316-2333 | the collapse introduces no text that contains no `/` and that neither the input nor the marker contains |
| Normalize.CutAt | src/ir/control/WebCrawler.java:2285-2287 | cutting at a marker found after the start leaves a non-empty marker-free prefix; any other text is unchanged |
| Normalize.Strip | src/ir/control/WebCrawler.java:2301-2312 | the result is a marker-free prefix, empty when the text starts with the marker, and the text itself when it has no marker |
| Normalize.StripAll | src/ir/control/WebCrawler.java:2205-2223 | the base-aware marker steps leave a prefix with no `?`, `#` or `javascript:` |
| Normalize.DropTrailingSlash | src/ir/control/WebCrawler.java:2314-2315 | at most one trailing `/` is removed, and nothing else changes |
| JavaString.Length | src/ir/control/WebCrawler.java:2292 | `length()` counts UTF-16 code units: at least the characters, at most twice them, and exactly them when no character lies beyond U+FFFF |
| Normalize.SpaceStep | src/ir/control/WebCrawler.java:2288-2296 | a space-free text is unchanged; a changed text is a space-free word longer than two UTF-16 code units |
| Normalize.SpaceStepCountsCodeUnits | src/ir/control/WebCrawler.java:2288-2296 | in `a`, space, U+1F600 followed by `z`, space, `b`, the middle word, two characters but three code units, is picked |
| Normalize.NormalizePartial | src/ir/control/WebCrawler.java:2283-2335 | a result holds no `#` or `javascript:`; the only fault is an index fault, and it needs the marker in the stripped text |
| Normalize.PartialAvoidsMarkers | src/ir/control/WebCrawler.java:2283-2335 | a space-free input yields no `?`, `#` or `javascript:`, the collapse included |
| Normalize.LeadingQueryClears | src/ir/control/WebCrawler.java:2285-2299 | a space-free input starting with `?` normalizes to `""` |
| Normalize.LeadingFragmentClears | src/ir/control/WebCrawler.java:2301-2306 | a space-free input starting with `#` normalizes to `""` |
| Normalize.LeadingScriptClears | src/ir/control/WebCrawler.java:2307-2312 | a space-free input starting with `javascript:` normalizes to `""` |
| Normalize.PartialIsPrefix | src/ir/control/WebCrawler.java:2283-2315 | away from the stackoverflow marker, a space-free input yields a prefix of itself: the stripped text less at most one trailing `/` |
| Normalize.StrippedWithoutSpaces | src/ir/control/WebCrawler.java:2205-2223 | without spaces, the two overloads cut away the same parts |
| Normalize.PartialNotIdempotent | src/ir/control/WebCrawler.java:2314-2333 | `marker + num + "//" + rest` normalizes to `marker + num + "/"`, which normalizes again to `marker + num` |
| Normalize.PartialNotIdempotentExample | src/ir/control/WebCrawler.java:2314-2333 | `.../questions/12//foo` becomes `.../questions/12/`, which becomes `.../questions/12` |
| Normalize.PartialEmptyQuestionFails | src/ir/control/WebCrawler.java:2316-2317 | `marker + "/"` makes the collapse raise an index fault |
| Normalize.Rebuilt | src/ir/control/WebCrawler.java:2238-2240 | the rebuilt text starts with `protocol://host` |
| Normalize.RebuiltKeepsPlainPath | src/ir/control/WebCrawler.java:2238-2240 | a path without the literal `/$` is appended verbatim |
| Normalize.NormalizeFull | src/ir/control/WebCrawler.java:2203-2263 | for an absolute base (every caller passes one), the result is a malformed-URL fault exactly when resolution fails; otherwise, with `d` the rebuilt text less one trailing `/`, it is exactly `d` when `d` has no stackoverflow marker, any fault is an index fault, and a result other than `d` starts with the marker |
| Normalize.FullPlain | src/ir/control/WebCrawler.java:2236-2262 | a resolved URL whose rebuilt text has no stackoverflow marker normalizes to that text less one trailing `/` |
| Normalize.FullQuestion | src/ir/control/WebCrawler.java:2236-2262 | a rebuilt text `marker + num + "/" + slug + rest` normalizes to `marker + num + "/" + slug` when `num` is numeric, and to itself otherwise |
| Normalize.FullIgnoresPort | src/ir/control/WebCrawler.java:2240 | two resolutions that differ only in the port give the same result |
| Normalize.PartialFaults | src/ir/control/WebCrawler.java:2317 | the only fault `normalize(String)` raises is an index fault |
| Robots.BaseLink | src/ir/control/WebCrawler.java:2122-2124 | the link is `protocol://host`, followed by `:` and the port's decimal digits when a port is named |
| Robots.DigitsRoundTrip | src/ir/control/WebCrawler.java:2124 | the printed port reads back as the port |
| Robots.LineStep | src/ir/control/WebCrawler.java:2155-2172 | one line: a kept line (a plain `Disallow: ` path in the star section whose normalization is not the base link) that parses adds exactly its URL; the scan stops only at the next `User-Agent:` line of the section or at a kept line the parser rejects; a fault is the normalizer's fault on the line; nothing happens before the first star line |
| Robots.StopEnds | src/ir/control/WebCrawler.java:2158-2163 | the star section ends at its first `User-Agent:` line: no later line belongs to it |
| Robots.SecondStarDoesNotReopen | src/ir/control/WebCrawler.java:2155-2163 | in `User-Agent: *`, `User-Agent: bot`, `User-Agent: *`, `Disallow: /x` the last line is outside the scanned section, since the scan returned at the second line |
| Robots.ScanFrom | src/ir/control/WebCrawler.java:2151-2174 | the scan only appends entries, each a kept line's URL; every kept line whose URL parses, with all kept lines before it parsing, is among them; with no star line ahead nothing is added; a fault is the normalizer's fault on some line |
| Robots.EntriesSurvive | src/ir/control/WebCrawler.java:2178-2179 | removing repeats keeps only scanned entries |
| Robots.GetExcludedList | src/ir/control/WebCrawler.java:2121-2180 | an unreadable robots file gives `[]`; a file without `User-Agent: *` gives `[]`; every entry comes from a kept line of the star section; it fails exactly when the scan does, with the normalizer's fault on some line; the result is a subsequence of the scan, and equal to it when the scan has no repeats |
| Robots.ExcludedListComplete | src/ir/control/WebCrawler.java:2151-2180 | every kept line whose URL parses, with all kept lines before it parsing, is in the scan, and in the returned list when the scan has no repeats |
| Pipelines.SeedItem | src/ir/control/WebCrawler.java:516-536 | a seed fails exactly when its normalization does; at most one item results, and when the seed normalizes and parses to a URL the prefix rule does not exclude, it is that URL at depth 0 |
| Pipelines.SeedItemsFail | src/ir/control/WebCrawler.java:516-536 | the loop fails exactly when some seed's normalization fails, with that fault |
| Pipelines.SeedItemsSound | src/ir/control/WebCrawler.java:516-536 | every item is at depth 0, not excluded, and yielded by some seed |
| Pipelines.SeedItemsComplete | src/ir/control/WebCrawler.java:516-536 | every seed yielding a non-excluded URL contributes that URL at depth 0 |
| Pipelines.SeedsSurvive | src/ir/control/WebCrawler.java:491-515 | the seeds reaching normalization are input seeds listed as neither visited nor excluded |
| Pipelines.SeedPipelineSound | src/ir/control/WebCrawler.java:491-537 | `SeedPipeline`: every ready item is at depth 0, not excluded, and yielded by an input seed listed as neither visited nor excluded; a fault is some such seed's normalization fault |
| Pipelines.SeedPipelineComplete | src/ir/control/WebCrawler.java:491-537 | `SeedPipeline`: with no repeated seeds, every unlisted seed whose normalization parses to a non-excluded URL becomes a ready item at depth 0 |
| Pipelines.MergeTentative | src/ir/control/WebCrawler.java:756-803 | the merged ready list has no repeats and nothing visited |
| Pipelines.MergeSources | src/ir/control/WebCrawler.java:756-803 | every merged URL was ready before, or was discovered and is not excluded |
| Pipelines.MergeKeepsCandidates | src/ir/control/WebCrawler.java:756-803 | every unvisited ready item and every unvisited, non-excluded discovered item is in the merged list at no greater depth |
| Pipelines.CycleLists | src/ir/control/WebCrawler.java:655-803 | a cycle drains the tentative list, keeps the visited and excluded lists, and leaves a ready list with no repeats and nothing visited |
| Pipelines.KeepCrawling | src/ir/control/WebCrawler.java:640 | the loop stops exactly when both lists are empty and no worker is busy |
| Scheduler.InitialPool | src/ir/control/WebCrawler.java:239-242 | the empty pool is well formed |
| Scheduler.FreeThread | src/ir/control/WebCrawler.java:1447-1453 | the result is the lowest position of a worker that is not busy, and none exactly when every worker is busy |
| Scheduler.ThreadsBusy | src/ir/control/WebCrawler.java:1462-1468 | true exactly when some worker is busy |
| Scheduler.FreeAndBusy | src/ir/control/WebCrawler.java:1447-1468 | a non-empty pool with no free worker has a busy one, and a pool with no busy worker has its first worker free |
| Scheduler.Assign | src/ir/control/WebCrawler.java:663-752 | afterwards the host is indexed to the chosen worker, which is busy |
| Scheduler.SharedWorker | src/ir/control/WebCrawler.java:670-676 | a saturated pool shares its first free worker, or the random draw when every worker is busy |
| Scheduler.AssignWellFormed | src/ir/control/WebCrawler.java:663-752 | the pool stays within `MAX_NUM_THREADS`, and the host index and the workers' host lists agree |
| Scheduler.AssignKeepsIndex | src/ir/control/WebCrawler.java:663-752 | an index entry is set only when absent and never changes afterwards |
| Scheduler.AssignGrowsPool | src/ir/control/WebCrawler.java:663-752 | the pool grows by one fresh worker holding only the host exactly when the host is new and the pool is below its cap |
| Scheduler.AssignAppendsHost | src/ir/control/WebCrawler.java:663-752 | a new host is appended to the chosen worker's list, and no other list changes |
| Scheduler.AssignSaturatedChoice | src/ir/control/WebCrawler.java:670-676 | a new host in a saturated pool goes to the lowest-positioned idle worker, or to the random draw when all are busy |
| Scheduler.AssignRestartsIdle | src/ir/control/WebCrawler.java:663-752 | an existing worker is restarted exactly when it was idle, and no other busy flag changes |
| Scheduler.AssignStable | src/ir/control/WebCrawler.java:663-752 | assigning a host again chooses the same worker and changes no index, whatever the random draw |
| Scheduler.AssignFrom | src/ir/control/WebCrawler.java:661-752 | the loop over the ready list keeps the pool well formed, keeps every index entry and never shrinks the pool |
| Scheduler.AssignFromHosts | src/ir/control/WebCrawler.java:661-752 | after the loop every ready host is indexed, and every new index entry is a ready host |
| Scheduler.Cycle | src/ir/control/WebCrawler.java:640-803 | a cycle keeps the pool well formed and every index entry, indexes every ready host, drains the tentative list, and leaves a ready list with no repeats |
| Scheduler.Continues | src/ir/control/WebCrawler.java:832-838 | the loop ends exactly when both lists are empty and no worker is busy |
| WorkerPass.Claim | src/ir/control/WebCrawler.java:1545-1553 | the claimed position is the first ready item of the host, and none exactly when the host has no ready item |
| WorkerPass.RemoveAt | src/ir/control/WebCrawler.java:1759 | the claimed entry is removed and the others keep their order |
| WorkerPass.AtDepth | src/ir/control/WebCrawler.java:1638-1642 | each link becomes an item at the given depth |
| WorkerPass.Target | src/ir/control/WebCrawler.java:1554-1569 | a fault is the normalizer's fault; otherwise the URL exists exactly when the normalized text parses, and prints as that text |
| WorkerPass.TargetFaults | src/ir/control/WebCrawler.java:1556 | with the crawler's normalizer the only uncaught fault is an index fault |
| WorkerPass.RobotsUpdate | src/ir/control/WebCrawler.java:1592-1603 | a known host changes nothing; a fault is the robots fetch's fault; found entries come from the robots file; the new excluded list is a subsequence of the old list plus the entries, and equals it when there are no repeats |
| WorkerPass.RobotsFaults | src/ir/control/WebCrawler.java:1592-1603 | with the crawler's normalizer the robots step raises only index faults |
| WorkerPass.Leaked | src/ir/control/WebCrawler.java:1589-1603 | `results` is empty exactly when nothing was found or the rewritten list is empty, and is the rewritten list otherwise |
| WorkerPass.CrawlBranchFrame | src/ir/control/WebCrawler.java:1589-1644 | `CrawlBranch`: the crawl branch keeps the ready list; it ends crawled, with the URL marked, excluded, with the URL unmarked and excluded, or aborted exactly when the robots step throws, with only the URL marked and the busy flag cleared |
| WorkerPass.IndexBranchFrame | src/ir/control/WebCrawler.java:1646-1756 | `IndexBranch`: the index-only branch keeps the ready list; it ends indexed, with the URL marked, excluded, with the URL unmarked and excluded, or aborted exactly when the robots step throws, with only the URL marked and the busy flag cleared |
| WorkerPass.DispatchRules | src/ir/control/WebCrawler.java:1589-1646 | `Dispatch`: `depth + 1 <= max` (in 32-bit arithmetic) crawls, `depth == max` only indexes, and anything else is left alone |
| WorkerPass.DispatchMarks | src/ir/control/WebCrawler.java:1643-1756 | `Dispatch`: a crawled, indexed or aborted URL is marked visited; an excluded one is not, and the updated list excludes it |
| WorkerPass.DispatchEnqueues | src/ir/control/WebCrawler.java:1589-1642 | `Dispatch`: only the crawl branch enqueues, only at `depth + 1`, after what was pending; a crawled URL that is not excluded and whose crawl returns appends exactly the page's links at `depth + 1` |
| WorkerPass.CrawlBranchEnqueues | src/ir/control/WebCrawler.java:1589-1642 | `CrawlBranch`: after a robots fault nothing is enqueued; otherwise the page's links when the URL is not excluded and the crawl returns, and the leaked `results` when it is excluded or the crawl throws, all at `depth + 1` behind what was pending |
| WorkerPass.VisitNoItem | src/ir/control/WebCrawler.java:1546-1553 | `Visit`: a host without a ready item leaves everything unchanged, and only then is nothing claimed |
| WorkerPass.VisitRemovesClaim | src/ir/control/WebCrawler.java:1554-1759 | `Visit`: the claimed item leaves the ready list on every path but an uncaught fault; a fault of the normalizer or of `isVisited` changes nothing, while a malformed URL is removed and clears the busy flag before the null URL kills the thread |
| WorkerPass.VisitDiscards | src/ir/control/WebCrawler.java:1571-1579 | `Visit`: an already visited URL is removed from the ready list and nothing else changes |
| WorkerPass.VisitDispatch | src/ir/control/WebCrawler.java:1580-1759 | `Visit`: an unvisited URL goes to the depth dispatch with the claimed item removed |
| WorkerPass.VisitAppendsVisited | src/ir/control/WebCrawler.java:1554-1759 | `Visit`: a turn only appends to the visited list and keeps it free of repeats |
| WorkerPass.ExcludedCrawlLeaks | src/ir/control/WebCrawler.java:1589-1642 | `CrawlBranch`: an excluded URL after a non-empty robots fetch enqueues the whole rewritten excluded list at `depth + 1` |
| WorkerPass.FailedCrawlLeaks | src/ir/control/WebCrawler.java:1602-1642 | `CrawlBranch`: a crawl that throws after a non-empty robots fetch enqueues the whole rewritten excluded list at `depth + 1`, and the URL counts as crawled |
| WorkerPass.LeakedAreExcluded | src/ir/control/WebCrawler.java:1157-1169 | each leaked entry is excluded by the list it came from |
| WorkerPass.VisitTurnRules | src/ir/control/WebCrawler.java:1538-1768 | a turn removes at most one ready item, exactly one when it attempts a visit, and only appends to the visited list without repeats |
| WorkerPass.PassFrom | src/ir/control/WebCrawler.java:1538-1768 | a pass leaves a subsequence of the ready list, and an attempt once reported stays reported |
| WorkerPass.PassConsumes | src/ir/control/WebCrawler.java:1538-1768 | a pass removes at most one ready item per host, and reports an attempt only if one was reported before or the ready list shrank |
| WorkerPass.PassAppendsVisited | src/ir/control/WebCrawler.java:1538-1768 | a pass only appends to the visited list, and keeps it free of repeats |
| WorkerPass.RunPass | src/ir/control/WebCrawler.java:1522-1768 | one pass removes at most one ready item per host, shrinks the ready list when it reports an attempt, and only appends to the visited list without repeats |
| WorkerPass.SomethingLeft | src/ir/control/WebCrawler.java:1777-1799 | true exactly when some ready item belongs to one of the worker's hosts, that is, when some host has something to claim |
| WorkerPass.AfterPass | src/ir/control/WebCrawler.java:1777-1812 | a fault kills the thread; otherwise the thread stops when nothing of its hosts is left, sleeps when something is left and a visit was attempted, and passes again at once otherwise |
| WorkerPass.FirstPages | src/ir/control/WebCrawler.java:565-572 | the first page's links join the tentative list at depth 1: the result has no repeats, nothing visited and nothing excluded, every URL in it is at depth 1 or was pending, and every unvisited, non-excluded link or pending item has a copy in it at no greater depth |
| WorkerPass.FirstPagesKeeps | src/ir/control/WebCrawler.java:565-572 | no unvisited, non-excluded link of the page or pending item is lost by the deduplication and the two filters |
| WorkerPass.BootstrapMarksSeed | src/ir/control/WebCrawler.java:624-625 | `Bootstrap`: the first seed leaves the ready list and is marked visited without an exclusion check |
| WorkerPass.BootstrapTentative | src/ir/control/WebCrawler.java:539-632 | `Bootstrap`: only the crawl branch changes the tentative list, which then has no repeats, nothing visited before the seed and nothing excluded, with every new URL at depth 1 |
| WorkerPass.BootstrapCrawl | src/ir/control/WebCrawler.java:545-572 | `Bootstrap`: the crawl branch hands `FirstPages` the page's links, or the raw robots entries when the crawl throws, or nothing after a robots fault, with the updated excluded list |
| WorkerPass.BootstrapEnqueuesLinks | src/ir/control/WebCrawler.java:545-572 | `Bootstrap`: every link of the crawled first page that is neither visited nor excluded reaches the tentative list at depth 1 or less |
| Classifier.Language | src/ir/control/WebCrawler.java:1894-1945 | the label is empty exactly when no rule fires; otherwise it is the name of the first rule in priority order that fires |
| Classifier.CodeOnlyLabels | src/ir/control/WebCrawler.java:1896-1929 | `javascript` and `php` are only ever read off the code text |
| Classifier.ContentJavascriptIsJava | src/ir/control/WebCrawler.java:1896-1900 | content mentioning `javascript` with code that does not is labelled `java` |

## Left out

- Threads: starting, joining and sleeping, the locks, and the races
  between a worker's snapshot of the ready list and its removal. The model
  runs one scheduler cycle, or one worker pass, as a sequential step.
- Busy flags: a worker the scheduler starts or restarts is taken to be busy
  at once. In the source the worker sets its flag itself, a moment later.
- Fetching and redirects: Jsoup fetching, link extraction and the redirect
  loops (`WebCrawler.java:591-616, 1693-1733, 2058-2086`). Outlinks, the
  robots file, and whether the index-only visit (fetch, `indexPage` and
  redirect walk) ends without a caught exception are parameters of the
  environment. The URLs the redirect walk marks visited along the way are
  not modelled. A robots file that cannot be opened or is not ready is
  `None`.
- Indexing: Lucene `indexPage` (float boosts, index locking and retries)
  and the summariser. Only the classifier, which is pure, is modelled.
- Persistence: reading and writing the visited and excluded files, the
  verbose printing and the sorting done for output.
- `toLowerCase` before classification: `Classifier.Language` takes the
  lower-cased texts as inputs.
- `java.net.URL` parsing and URI resolution: these are the parameters
  `parse` and `resolve`. The parser also supplies the printed form, so its
  canonical spelling rules are not modelled.
- `Double.parseDouble`: this is the parameter `numeric`.
- The random draw of host assignment: this is the parameter `pick`, with
  values in range.
- WorkerPass.Target: the normalizer is a parameter of the environment.
  `WorkerPass.UsesPartial` ties it to `normalize(String)`, and the fault
  lemmas assume it.
- Robots.GetExcludedList: the normalizer is a parameter; the crawler passes
  `normalize(String)` (`Normalize.Partial`). A fault is stated as some
  line's fault, not as the first line's fault. Completeness is stated for
  scans without repeats, because `removeRepeated` can drop a unique entry
  (`Frontier.RemoveRepeatedKeepsDuplicate`).
- WorkerPass.PassFrom: the turn is a parameter, constrained by
  `TurnRules`. `WorkerPass.RunPass` instantiates it with `Visit`.
- Scheduler.Cycle: "every ready host is indexed" is stated for ready lists
  whose equal-printing entries are equal URLs (`Scheduler.Coherent`). For
  `java.net.URL` this always holds, since the parts are a function of the
  text.
- Frontier.RemoveRepeated: the contract does not claim that repeats are
  removed, because the source does not always remove them (see
  `Frontier.RemoveRepeatedKeepsDuplicate`).
- Normalize.NormalizeFull: a relative base, for which `uribase.toURL()`
  raises `IllegalArgumentException` rather than a malformed-URL fault, is
  not modelled; every call site passes an absolute URL (the page being
  crawled, or the previous hop of a redirect).
- Questions.Collapse: the general contract states only unchanged-or-marker.
  The full input–output relation is given for the shapes in
  `Questions.CollapseQuestion`, `Questions.CollapseSingleChunk` and
  `Questions.CollapseBareMarker`.
- `String.split` is modelled for the literal patterns the crawler uses,
  plus `.` as a wildcard; other regular-expression syntax is not modelled.
- The search side (`SearchHandler`), the entry point (`CodeSearch`), the
  Swing dialog and the search result record are not part of this model.
