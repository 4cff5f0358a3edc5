# Helpsites in Dafny

Helpsites serves the help sites of workspaces on domains of their own. This project models the parts of it where it isn't
obvious that the code does what it's for, and proves that it does, or exactly when it does:

- **Certificate storage** (`CertTable`, `Paging`, `Paths`, `Tree`, `DynamoStorage`): a tree of files kept on a flat
  DynamoDB table, listed by scans that are read a page at a time while other instances write.
- **The lease lock** kept in that table (`LeaseLock`): any number of instances, with clocks that are off, puts and deletes
  that apply after any delay or, sent again, twice, and crashes.
- **Test databases** (`TestDatabases`, `TestDatabaseSafety`, `TestDatabaseRuns`, `TestDatabaseClaims`, `TestDatabaseGap`,
  `TestDatabaseSweeps`): test binaries that build, claim, clone, sweep and drop databases on one Postgres, kept apart by
  advisory locks, any of which may die at any step.
- **Search** (`Snippet`, `SnippetMarkup`, `SnippetLongest`, `SnippetEntities`, `SearchCache`, `SearchRuns`): the window of
  text a result shows, its escaping and marking, and the cache of answers.
- **A site's addresses** (`Articles`, `Redirects`, `Routing`, `AddressSpace`, `Sitemap`, `Hosts`, `Palette`): link targets,
  redirects from an older site, routes, the sitemap, the names a site is reached by, and its palette.

`Common` and `Text` hold what the others share. Protocols are state machines whose runs interleave the steps of everyone
involved. What the source does by changing fields, growing slices and looping is a class or a method, proved to compute a
function of its inputs; what's promised of it is proved of that function. Times are integers, in nanoseconds.

Some promises turned out to hold only with a condition. Each has its counterexample, and the condition that's exact:

- The lease lock keeps a second holder out only of those who leave within their lease, to the nanosecond, and only while
  no delete that's sent again hits somebody else's lock, since unlocking doesn't check whose lock it is.
- The comment at `testsuite/dbtemplate.go:159-160` says there's no window in which a template can be swept before it's
  claimed. There's none exactly when, as the creation lock is granted, no other live sweep has the template ahead.
- Normalizing an address twice is normalizing it once exactly when what's before its query, less its slashes, doesn't end
  in a space; and a domain, exactly when what's kept of it has no edge space, port or www. of its own.
- Names that certificates are obtained for are those that find a site exactly when the verified domains are what they
  normalize to.
- Every link target is the address of its very page exactly when every readable article is in a section of the site, none
  under another article. An article under another has a target without a page, to which a redirect can go round forever,
  and the one it's under has a target that depends on the order rows come in, and in one order is not found. A single
  target is its page's address exactly when the last row that made one for it is in a section.
- A section is listed for a published article of any source, and has a page exactly when one of its own is.
- A snippet shows its window unless a marked term starts or ends inside an entity, which with the terms a search makes is
  exactly when the window has an ampersand and a term is amp.
- The longest term is marked, in every text and however ties are sorted, exactly when for each term that begins another
  but for case, some term that's the other but for case has a longer encoding than the first. That's so of all terms a
  search makes, and of any whose letters have encodings as long as those they're the same as but for case.

## Model

| member | source | states |
|---|---|---|
| `LeaseLock.LeaseExclusion` | core/certs/storage.go:142-177 | In every run of any number of instances, with every clock within d of true time, any delay between reading it and the put or delete applying, and requests sent again, nobody shares a lock up to the first moment somebody overstays the lease less 2d, counted from its clock read, or a delete sent again hits a lock somebody else is inside |
| `LeaseLock.StepKeepsInv` | core/certs/storage.go:142-177 | Every step of any instance, a crash or a write of other data included, keeps a held lock's item the one its holder put, and holders alone |
| `LeaseLock.LeaseRefuses` | core/certs/storage.go:144-159 | The conditional put is refused while a holder is within its lease, so truncating expiry and clock to whole seconds never shortens a lease |
| `LeaseLock.LeaseBoundIsExact` | core/certs/storage.go:142-159 | The bound can't be relaxed by a nanosecond, whatever d is |
| `LeaseLock.OverstayerBreaksOthers` | core/certs/storage.go:174-177 | Unlocking isn't checked for ownership: one overstayer's unlock puts two others, both within their leases, in one lock |
| `LeaseLock.ResentDeleteBreaksOthers` | core/certs/storage.go:174-177 | So does an unlock that's sent again as its answer was lost, though nobody ever overstays and clocks are perfect |
| `LeaseLock.LostPutIsKeptOut` | core/certs/storage.go:144-166 | An instance that doesn't hear its put was granted isn't inside, and keeps everybody out for a lease |
| `LeaseLock.CrashKeepsOut` | core/certs/storage.go:142-159 | Nor is anybody let in before the lease of one that crashed inside is over |
| `LeaseLock.UnexpiringStays` | core/certs/storage.go:151-153 | What's stored without an expiry is never taken |
| `DynamoStorage.AbandonedLockIsReclaimed` | core/certs/storage.go:142-172 | A dead instance's lock is granted to a sole waiter strictly after 300 and before 302 seconds from the clock read it was taken at |
| `DynamoStorage.FirstPollIsUnique` | core/certs/storage.go:143-171 | The poll it's granted at is the only one that can be the first granted, so it's the one `Lock` returns at |
| `DynamoStorage.DynamoStorage.Lock` | core/certs/storage.go:141-172 | Polls every second, puts the item at the first poll that may, and otherwise leaves the table alone and gives up when its context is done or a put fails for another reason than its condition |
| `DynamoStorage.DynamoStorage.Unlock` | core/certs/storage.go:174-177 | Removes the lock's item, whoever put it |
| `Paging.ScanFromOnce` | core/certs/storage.go:200-223 | A scan returns no key twice, whatever is stored and deleted between its pages |
| `Paging.ScanFromExact` | core/certs/storage.go:200-223 | A scan returns a key exactly when it has the prefix and is there when its own page is read |
| `Paging.ScanUnderInterference` | core/certs/storage.go:200-223 | Keys there throughout are returned once; nothing is that no page saw; pages that filter to nothing don't end a scan |
| `Paging.UndisturbedScan` | core/certs/storage.go:200-223 | Undisturbed, a scan returns exactly the table's keys with the prefix |
| `Paging.KeysWithPrefix` | core/certs/storage.go:200-223 | The loop over pages computes that scan, and fails if any page does |
| `Paths.JoinSplit` | core/certs/storage.go:95-119 | Splitting a key into segments loses nothing |
| `Paths.SplitJoin` | core/certs/storage.go:95-119 | Nor does joining segments |
| `Paths.UnderIsProperPrefix` | core/certs/storage.go:95 | A key begins with a directory and a slash exactly when its segments properly extend the directory's |
| `Paths.IndexSlash` | core/certs/storage.go:109-111 | Cutting at the first slash leaves the first segment |
| `Tree.ChildOwnsSubtree` | core/certs/storage.go:104-117 | A key under a directory is at or under exactly one of its listed children, which is deeper |
| `Tree.ChildrenExact` | core/certs/storage.go:104-117 | The children are those of some key, each once |
| `Tree.ListedChildrenExist` | core/certs/storage.go:94-119 | Every listed child satisfies `Exists`, and every key under the directory is at or under one |
| `Tree.WalkVisitsEachOnce` | core/certs/storage.go:94-119 | Walking by repeated non-recursive `List` terminates and visits exactly the keys of the recursive one, each once |
| `Tree.FlatTableRefinesPaths` | core/certs/storage.go:48-80 | After any sequence of operations the flat table stands for what they make of a store indexed by path, where deleting empties one subtree |
| `Tree.QueriesRefine` | core/certs/storage.go:57-139 | `Exists` holds exactly when `Stat` finds something, and `Stat` is terminal, with the value's size, exactly when a value is at the path |
| `Tree.ChildrenRefine` | core/certs/storage.go:94-119 | The listed children are the paths one segment longer than the directory that lead somewhere |
| `Tree.LocksAndDataApart` | core/certs/storage.go:145-175 | No operation outside locks/ changes a lock, and none on a lock changes what's said of a key outside |
| `DynamoStorage.DeleteUnderInterference` | core/certs/storage.go:68-80 | Whatever others do between pages, a delete is asked for once for the key and everything under it throughout the scan, and for nothing outside |
| `DynamoStorage.DynamoStorage.Delete` | core/certs/storage.go:68-80 | Removes what the scan found and then the key, up to the first request that fails; never touches anything outside the subtree; undisturbed and unfailing, empties it |
| `DynamoStorage.DynamoStorage.Store` | core/certs/storage.go:48-55 | Puts the value with the time, and changes nothing else |
| `DynamoStorage.DynamoStorage.Load` | core/certs/storage.go:57-66 | Succeeds exactly when `Stat` is terminal, with a value of that size, and says so when there's nothing |
| `DynamoStorage.DynamoStorage.Exists` | core/certs/storage.go:82-92 | Undisturbed, says whether there's something at or under the key; false on any error |
| `DynamoStorage.DynamoStorage.List` | core/certs/storage.go:94-119 | What the scan found, or its immediate children; undisturbed and recursive, exactly what's under the path |
| `DynamoStorage.DynamoStorage.Stat` | core/certs/storage.go:121-139 | An item's facts, whatever the scan would say; or a directory's, if the scan finds anything, disturbed or not; or that nothing is there, or the error |
| `DynamoStorage.ImmediateChildren` | core/certs/storage.go:104-118 | The loop with its seen map lists each child where it's first met |
| `TestDatabases.NamesAreApart` | testsuite/dbtemplate.go:36-38 | Names of templates, scratch databases and test databases never coincide, and a sweep lists all of them |
| `TestDatabaseSafety.LockKeepsOthersOff` | testsuite/dbtemplate.go:24-28 | While a session holds a database's key, in either mode, no other session's step changes that database |
| `TestDatabaseSafety.StepKeepsInv` | testsuite/dbtemplate.go:98-307 | Every step of any process keeps re-entrant lock counts in line with where processes are, and databases as processes rely on them |
| `TestDatabaseSafety.RunKeepsInv` | testsuite/dbtemplate.go:98-307 | So every reachable state has both, even if two names hash to one key |
| `TestDatabaseRuns.SweepDropsUnclaimed` | testsuite/dbtemplate.go:236-249 | A sweep drops a database only when no other session holds its key |
| `TestDatabaseRuns.TestDatabaseOutlives` | testsuite/dbtemplate.go:255-307 | A test's database stays as it is from its cloning until that test drops it or its process dies, also past a drop that failed |
| `TestDatabaseRuns.EndedTestLeavesNothing` | testsuite/dbtemplate.go:283-307 | In every run the step that ends a running test drops its database, with the lock on it still held, and it's never there again while the process lives |
| `TestDatabaseRuns.TestDatabaseIsClaimed` | testsuite/dbtemplate.go:255-307 | From its claim on a test's database is never there without the lock on its key while its process lives, whatever fails; so a test that's gone left none |
| `TestDatabaseRuns.ClaimedTemplateStays` | testsuite/dbtemplate.go:159-163 | A template there when a claim on it is granted stays, unchanged, as long as the claimant lives |
| `TestDatabaseRuns.TemplatesAreWhole` | testsuite/dbtemplate.go:127-157 | What's under a template's final name was wholly restored with the extras applied, whatever failed or died |
| `TestDatabaseRuns.OneActsOnADatabase` | testsuite/dbtemplate.go:132-157 | No two live builders or sweepers are ever at work on one database |
| `TestDatabaseRuns.NoDeadlock` | testsuite/dbtemplate.go:118-169 | In any reachable state in which the databases in use hash to different keys, none the creation lock's, there's no cycle of processes waiting for one another, in whatever order requests queued up |
| `TestDatabaseClaims.ClaimFindsTemplate` | testsuite/dbtemplate.go:118-163 | In every run, a process granted the creation lock while no other live sweep has its template ahead finds the template there when its claim is granted |
| `TestDatabaseGap.ClaimCanMiss` | testsuite/dbtemplate.go:118-169 | From every reachable state in which one has, there's a way on to a claim granted with the template gone, given that the keys of the template, the scratch, the other's template and creation differ |
| `TestDatabaseGap.SureIffUnthreatened` | testsuite/dbtemplate.go:159-160 | So that's exactly when a process granted the creation lock is sure of its template |
| `TestDatabaseGap.TemplateSweptBeforeClaim` | testsuite/dbtemplate.go:150-169 | Any two processes with dumps whose keys differ have a run in which a template is built, swept by the other, and then claimed by its builder though gone |
| `TestDatabaseSweeps.SweepLists` | testsuite/dbtemplate.go:217-234 | A sweep lists every template, scratch and test database there is |
| `TestDatabaseSweeps.SweepReclaims` | testsuite/dbtemplate.go:236-249 | One that comes to its end has dropped every database on its list whose key no other session held, unless the drop itself failed |
| `TestDatabaseSweeps.OrphanIsUnclaimed` | testsuite/dbtemplate.go:27-28 | And that's so of what a dead process left, unless a database somebody alive is using hashes to its key |
| `TestDatabaseSweeps.OthersAreSpared` | testsuite/dbtemplate.go:217-234 | In no run is a database that isn't named as those for tests are touched by anybody but whose it is |
| `Snippet.LowerTermsAre` | core/search/snippet.go:22-27 | The terms looked for are the lowercase of each that isn't empty, in order and as often as it's there |
| `Snippet.LowerEach` | core/search/snippet.go:22-27 | The loop over terms computes them |
| `Snippet.IndexIsFirst` | core/search/snippet.go:73-90 | The index found is the first place a term occurs, and -1 means nowhere |
| `Snippet.EarliestHitIsEarliest` | core/search/snippet.go:29-34 | The hit the window is around is the earliest of any term |
| `Snippet.WindowIsAroundEarliest` | core/search/snippet.go:29-57 | The window is around the earliest place where any term that isn't empty occurs but for case, or at the start if none does |
| `Snippet.IndexRunes` | core/search/snippet.go:73-90 | The nested loops compute that index |
| `Snippet.LastIndexRune` | core/search/snippet.go:92-99 | The last place of a rune, or -1 |
| `Snippet.FindFirst` | core/search/snippet.go:29-34 | The loop over terms computes the earliest hit |
| `Snippet.WindowLength` | core/search/snippet.go:47-57 | A window is at most the length asked for and two ellipses |
| `Snippet.EllipsisWhereCut` | core/search/snippet.go:47-57 | A window is a contiguous slice of the text, with an ellipsis on exactly the sides it's cut on |
| `Snippet.StartsOnWord` | core/search/snippet.go:36-45 | A hit's window starts a quarter of the length before it, moved back to just after the last space before that, if there is one |
| `Snippet.StopsOnWord` | core/search/snippet.go:47-54 | A window that's cut stops at the last space past its middle, if there is one, and otherwise has the length asked for |
| `Snippet.HitShownExactly` | core/search/snippet.go:36-57 | The whole hit is in the final window exactly when it ends within the length from the window's start and isn't beyond the space the window is cut back to |
| `Snippet.ShortHitIsShown` | core/search/snippet.go:36-57 | It is whenever its length and the way back to the space before the lead-in come to a quarter of the length at most |
| `Snippet.HitCanBeMissed` | core/search/snippet.go:36-57 | At every length, a hit that far into a word isn't shown at all |
| `Snippet.CutWindow` | core/search/snippet.go:36-58 | Start, end and ellipses as computed are those of the window |
| `SnippetMarkup.UnescapeEscape` | core/search/snippet.go:59 | Unescaping undoes escaping |
| `SnippetMarkup.EscapedHasNoQuotes` | core/search/snippet.go:59 | And leaves no quote of either kind |
| `SnippetMarkup.SnippetShowsWindow` | core/search/snippet.go:59-70 | Whatever the terms, a snippet less its marks has no other markup and unescapes to exactly the window |
| `SnippetMarkup.MarkTagsRuns` | core/search/snippet.go:60-69 | Marking puts tags around runs of the escaped text that don't overlap and changes nothing else |
| `SnippetMarkup.RunsAreMatches` | core/search/snippet.go:60-69 | Each marked run is a match of a term, the first alternative that matches there |
| `SnippetMarkup.RunsAreMarks` | core/search/snippet.go:60-69 | What's marked is exactly matches of the lowercase of terms that aren't empty, and every place one matches is in a run |
| `SnippetMarkup.MatchesIgnoreCase` | core/search/snippet.go:67 | Terms that are the same but for case match at the same places |
| `SnippetMarkup.MatchesAreInRuns` | core/search/snippet.go:60-69 | No match of a term starts outside a marked run |
| `SnippetMarkup.LongestEncodingTaken` | core/search/snippet.go:61-67 | A marked term is one of longest encoding of those that match at its start |
| `SnippetLongest.MarksLongestIff` | core/search/snippet.go:61-67 | Of these terms every run, in every text and after every sort by encoded length, is as long as the longest term that matches where it starts, exactly when for each term that begins a longer one but for case, a term that's the longer one but for case has a longer encoding than the first |
| `SnippetLongest.RunsAreLongest` | core/search/snippet.go:61-67 | That's so if the terms' own runes have encodings as long as those they're the same as but for case |
| `SnippetEntities.SearchMarksLongest` | core/search/search.go:69-75 | It's so of the terms a search makes |
| `SnippetLongest.LongestCanBeMissed` | core/search/snippet.go:62 | With other terms, of letters beyond ASCII, a shorter one can be marked |
| `SnippetEntities.SeenIffUncut` | core/search/snippet.go:59-69 | What a reader sees, decoded piece by piece between tags, is exactly the window exactly when no marked run starts or ends inside an entity, whatever the terms |
| `SnippetEntities.WordsAreSplit` | core/search/search.go:69-71 | A query is split into the longest runs of word characters, in order, none of which is lost |
| `SnippetEntities.LongWordsAre` | core/search/search.go:72-74 | Of which exactly those of more than two characters are kept, in order and as often as they're there |
| `SnippetEntities.SearchTerms` | core/search/search.go:69-75 | The loop computes those |
| `SnippetEntities.SearchCutsIffAmp` | core/search/snippet.go:59-68 | With a search's terms, a run does exactly when the window has an ampersand and some term is amp but for case |
| `SnippetEntities.SnippetOfSearchSeen` | core/search/snippet.go:12-71 | So a search's snippet of any text shows exactly the window but in that case |
| `SnippetMarkup.EntityCanBeSplit` | core/search/snippet.go:59-68 | As with an ampersand and that term |
| `SnippetMarkup.SortTerms` | core/search/snippet.go:61-62 | A permutation of the terms in descending order of encoded length |
| `SnippetMarkup.MakeSnippet` | core/search/snippet.go:15-71 | The whole of it, in terms of the text and the terms as given: tags around everything in the escaped window around the earliest term that's a match of one, and around nothing else, from which the window can be had back |
| `SearchCache.KeysAreApart` | core/search/search.go:49 | Questions share a cache key exactly when they're the same site's, the same but for case, with the same limit |
| `SearchCache.LoadReadableByUuid` | core/models/article.go:157-176 | The map of loaded articles has exactly the readable ones among the uuids |
| `SearchCache.LoadReadableById` | core/models/article.go:178-197 | And of those among the ids |
| `SearchCache.SearchCache.Dedupe` | core/search/search.go:89-95 | Each article's key where it's first met, with the snippet of its best chunk |
| `SearchCache.SearchCache.Fill` | core/search/search.go:97-123 | The loops compute the fresh answer: deduped, readable, cut to the limit, each with a chunk's snippet or else its body's |
| `SearchCache.SearchCache.Reload` | core/search/search.go:52-66 | The loops compute what's left of a cached answer |
| `SearchCache.SearchCache.Search` | core/search/search.go:43-128 | Every branch: an empty query, a hit, a failed mailroom, no mailroom, and a fresh answer that's cached |
| `SearchRuns.HitIsLastAnswerFiltered` | core/search/search.go:51-67 | Over every run a hit is the last answer written for its key, less than five minutes before, less exactly what isn't readable now, in the same order with the same snippets |
| `SearchRuns.LastAnswerWasToSameQuestion` | core/search/search.go:49 | And that was an answer to the same site's same question |
| `SearchRuns.EntryIsLastWrite` | core/search/search.go:130-157 | Through fills, failures, overlapping searches and evictions, what's cached is the last answer written |
| `SearchRuns.AnswersAreSound` | core/search/search.go:43-128 | Every answer is without duplicates, within the limit, and of articles of the site's source readable when it's given |
| `SearchRuns.FreshIsSound` | core/search/search.go:89-123 | A fresh one whatever mailroom said |
| `SearchRuns.FreshIsBest` | core/search/search.go:97-112 | And the best first: what's left out of it isn't readable or comes after all of it, when it's full |
| `SearchRuns.KeysAreFirstHits` | core/search/search.go:89-95 | Articles rank by their first hits |
| `SearchRuns.ChunkIsFirst` | core/search/search.go:91-94 | And their snippets are made of those |
| `SearchRuns.FreshShowHits` | core/search/search.go:91-120 | Each result of a fresh answer has the snippet of the first hit with its article's uuid or, when that's empty, of the article's body |
| `SearchRuns.MissIsAnswered` | core/search/search.go:77-128 | What isn't cached is answered with mailroom's hits, each shown so, for an indexed site, and with nothing when there's no question, mailroom or index or the call fails |
| `SearchRuns.WrittenIffFresh` | core/search/search.go:106-126 | An answer is cached for five minutes exactly when it was made afresh and the cache can be written; nothing else changes it |
| `SearchRuns.FromCacheIsFiltered` | core/search/search.go:52-66 | A cached answer keeps its order and drops only what isn't readable |
| `SearchRuns.AskedAgain` | core/search/search.go:43-128 | Asked again in time with nothing changed, the answer is the same |
| `SearchRuns.FailureNotRemembered` | core/search/search.go:82-87 | A failed call leaves the cache unchanged, and asking again once mailroom answers gets its fresh answer |
| `Articles.LoadSection` | core/models/article.go:86-100 | The published section with the slug, or that there's none |
| `Articles.LoadArticle` | core/models/article.go:120-136 | The readable article with the slug in the section, or that there's none |
| `Articles.ReadableIff` | core/models/article.go:60-62 | What's readable is published and active in a section that is |
| `Articles.LoadLinkTargets` | core/models/article.go:209-226 | The loop over rows computes the targets, later rows replacing earlier ones |
| `Articles.TargetIsLastMade` | core/models/article.go:209-226 | Each target is what the last row to make one for its uuid makes it |
| `Articles.TargetsAreYielded` | core/models/article.go:199-226 | So every target is one some readable article makes, for itself or its section |
| `Articles.TargetsAreExact` | core/models/article.go:199-226 | With two levels, every readable article and its section have just the address they have now, whatever order rows come in |
| `Redirects.NormalizedForm` | core/models/site.go:220-229 | A leading slash, no trailing one, lowercase and no query |
| `Redirects.NormalizedTwice` | core/models/site.go:223-229 | Normalizing again changes nothing exactly when what's before the query, less the slashes at its end, doesn't end in a space |
| `Redirects.NormalizedTwiceDiffers` | core/models/site.go:223-229 | As it can |
| `Redirects.SlashIgnored` | core/models/site.go:220-229 | A path with and without its trailing slash is one address |
| `Redirects.QueryIgnored` | core/models/site.go:220-229 | So is one with and without a query or fragment |
| `Redirects.EdgesAndCaseIgnored` | core/models/site.go:220-229 | And one with and without spaces around it, in any case |
| `Redirects.GetRedirect` | core/models/site.go:238-255 | The mapped page or home, or home for an index of old addresses, or nothing, however the map is iterated |
| `Redirects.LeadsHomeOrToPage` | core/models/site.go:234-237 | Never anywhere but home or to a link target |
| `Redirects.IndexLeadsHome` | core/models/site.go:247-253 | An address without a page leads home exactly when it's mapped there or the mapping has one below it, by segments |
| `Routing.LoadArticles` | core/models/article.go:102-118 | Exactly the readable articles of the section |
| `Routing.ArticlesOnce` | core/models/article.go:102-118 | Each of them once |
| `Routing.NotFoundIsSentOn` | web/site/handlers.go:151-166 | Of an address without a page: one mapped home goes home, one mapped to a page goes there, one above an old address, by segments, goes home, and only another is not found |
| `Routing.SectionIsPaged` | web/site/handlers.go:79-102 | A slug is answered with the page of the section it finds, of exactly the readable articles in it, when there are any; and otherwise as what isn't found is |
| `Routing.ArticleIsShown` | web/site/handlers.go:104-146 | Two slugs are answered with the page of the readable article they find, with exactly the readable articles of its section, each once, and the targets of exactly the readable articles and what they're in; and otherwise as what isn't found is |
| `Routing.ViewsAreCounted` | web/site/handlers.go:130-135 | After any answers an article has as many views as readers, not previews, got its page |
| `Routing.ResolvedUp` | web/middleware.go:121-125 | In a redirect's location a segment is undone by going up, and empty ones and dots don't count |
| `Routing.ResolvedIsClean` | web/middleware.go:121-125 | And none of these is left |
| `Routing.SiteRouter.HandleArticle` | web/site/handlers.go:104-146 | Computes the answer `Routing.ArticleIsShown` is about; records one view of the article, of nothing else, and none in a preview |
| `Routing.SiteRouter.Handle` | web/site/handlers.go:28-37 | The handler of each route; a preview has no root files |
| `Routing.SiteRouter.Get` | web/middleware.go:117-130 | The answer to a GET through the redirect to a trailing slash, and the views it records |
| `AddressSpace.SectionRouted` | web/site/handlers.go:34 | A section's address is routed to it, unless it's called search or static |
| `AddressSpace.ArticleRouted` | web/site/handlers.go:35 | And an article's to it |
| `AddressSpace.FixedAnswers` | web/site/handlers.go:28-37 | Home, search, static files and, but in a preview, robots.txt and the sitemap are at their own addresses |
| `AddressSpace.ArticlePageIs` | web/site/handlers.go:104-146 | An article's page is answered only at the address of its section's slug and its own, with all that it shows |
| `AddressSpace.PageTargetsAreServed` | web/site/handlers.go:124-144 | And in a well-formed table each target its links can have leads to that very page |
| `AddressSpace.TargetsAreServed` | core/models/article.go:205-226 | In a well-formed table every link target is the address of that very page, on the site and in a preview |
| `AddressSpace.ServedIffInSection` | web/site/handlers.go:104-124 | In any table with unique slugs, the address made of a readable article's slug and its parent's serves its page exactly when that parent is a section of the site |
| `AddressSpace.TargetServedIff` | core/models/article.go:199-226 | Whatever the table's levels, a target is the address of its very page exactly when the last row that made one for it is in a section of the site |
| `AddressSpace.LinksLeadToPagesIff` | core/models/article.go:199-226 | And every target is exactly when every readable article is in a section of the site, rather than under another article |
| `AddressSpace.ThirdLevelIsLost` | core/models/article.go:199-226 | Each article that isn't in a section has a target that isn't its page's address, in any order of rows |
| `AddressSpace.RedirectsAreServed` | web/site/handlers.go:154-163 | Every address a redirect leads to is served with a page |
| `AddressSpace.OneRedirectWithSlash` | web/site/handlers.go:148-166 | A request with its slash is redirected once at most, and then to a page |
| `AddressSpace.AtMostTwoRedirects` | web/middleware.go:115-130 | A public site answers any plain path with something other than a redirect after two at most |
| `AddressSpace.UnslashedReachesPage` | web/middleware.go:115-130 | A page's address without its slash leads straight to that page |
| `AddressSpace.MappedReachesPage` | web/site/handlers.go:148-163 | An old address mapped to a page leads to that page, wherever there's no page now: no such section, nothing readable in it, or no such article |
| `AddressSpace.UnmappedIsNotFound` | web/site/handlers.go:150-165 | An address without a page is not found exactly when it isn't mapped home or to a page there is, nor above an old address |
| `AddressSpace.RedirectsStayPlain` | web/middleware.go:121-125 | Every redirect on the way is to a plain path of the same site |
| `AddressSpace.TwoRedirectsHappen` | web/middleware.go:117-130 | Two are what an old address without its slash takes |
| `AddressSpace.ThirdLevelLoops` | core/models/article.go:199-203 | With an article under another article, a redirect to the former can lead to itself for ever |
| `AddressSpace.MiddleTarget` | core/models/article.go:209-226 | The article it's under, though in a section, has the target of a section if its child's row comes after its own |
| `AddressSpace.MiddleTargetLast` | core/models/article.go:209-226 | And its page's address if its own comes last |
| `AddressSpace.MiddleIsNotFound` | web/site/handlers.go:79-102 | That section's address is not found |
| `AddressSpace.MiddleIsSentOn` | web/site/handlers.go:151-163 | And it's where an address mapped to that article is sent |
| `Sitemap.SectionModified` | web/site/sitemap.go:71-80 | The fold over articles ends with the latest time for each section |
| `Sitemap.HandleSitemap` | web/site/sitemap.go:82-100 | The loops make home's entry, then the sections', then the articles', which `Sitemap.ArticleHasEntry` and `Sitemap.SectionHasEntry` are about |
| `Sitemap.SectionTimeIsLastChange` | web/site/sitemap.go:71-80 | A section's time is the maximum over itself and its readable articles, whatever order the rows come in |
| `Sitemap.EntryHasTime` | web/site/sitemap.go:82-100 | Every entry but home's has its page's time: a section's last change, and an article's own |
| `Sitemap.ListedAre` | core/models/article.go:59-77 | Listed are the readable articles that aren't under another, and the sections with something published in them |
| `Sitemap.EntryIsTarget` | web/site/sitemap.go:87-100 | Each entry but home's is where a link to its page leads |
| `Sitemap.TargetHasEntry` | web/site/sitemap.go:87-100 | Everything a link can lead to has an entry |
| `Sitemap.ArticleHasEntry` | web/site/sitemap.go:93-100 | Every listed article has an entry where a link to it leads, with the time it was modified |
| `Sitemap.SectionHasEntry` | web/site/sitemap.go:87-92 | And every listed section, with its last change |
| `Sitemap.EntryIsServed` | web/site/sitemap.go:54-56 | A crawler asking for an entry's address gets that page |
| `Sitemap.EntriesAreDistinct` | web/site/sitemap.go:87-100 | No address has two entries |
| `Sitemap.ListedSectionServedIff` | core/models/article.go:65-77 | A section has a page exactly when an article of its own source is published in it, which isn't quite what listing asks |
| `Sitemap.ListedSectionLacksPage` | core/models/article.go:65-77 | A section with only another source's article in it is listed, and has no page |
| `Hosts.NormalizedTwice` | core/models/site.go:141-149 | Normalizing again changes nothing exactly when what's kept of the host as it was given, less edge spaces, a port and a www. in any case, has none of these |
| `Hosts.NormalizedTwiceDiffers` | core/models/site.go:141-149 | As with two www. prefixes |
| `Hosts.WwwAnswersToo` | core/models/site.go:141-142 | A site answers for its domain's www. form |
| `Hosts.PortAnswersToo` | core/models/site.go:141-142 | And on any port |
| `Hosts.BracketsKept` | core/models/site.go:145-147 | An IPv6 address in brackets keeps its colons and loses a port after them |
| `Hosts.EdgesAndCaseIgnored` | core/models/site.go:144 | Spaces around a host and its case make no difference |
| `Hosts.MatchNormalizesAlike` | web/middleware.go:58-75 | A Host that matches the handshake's name normalizes as it does exactly when the name has nothing like a port |
| `Hosts.ColonFreeNormalizesAlike` | web/middleware.go:58-75 | So always when the name has no colon |
| `Hosts.LoadSiteByDomain` | core/models/site.go:96-106 | A site with that verified domain, or that there's none |
| `Hosts.Manager.Refresh` | core/certs/manager.go:129-142 | Afterwards the set is what the verified domains normalize to |
| `Hosts.Manager.Allowed` | core/certs/manager.go:144-148 | Whether the name normalizes as some verified domain does |
| `Hosts.ReachedIff` | web/middleware.go:58-94 | With a verified domain having one site, a request is misdirected exactly when its handshake was for another name, and otherwise reaches exactly the enabled, live site with the feature that has its Host's domain |
| `Hosts.HostMatchesIff` | web/middleware.go:61-69 | A Host matches a handshake's name exactly when it's that name in any case, with or without a port |
| `Hosts.AllowedIffFound` | web/middleware.go:61-94 | With domains stored normalized, a certificate is allowed for a name exactly when a Host that matches it finds a verified site |
| `Hosts.ReachedByOwnName` | web/middleware.go:58-94 | And the site a request reaches is the one its handshake's name is for |
| `Hosts.AllowedAreFoundIff` | web/middleware.go:61-94 | Every name allowed a certificate finds a site by any Host that matches it exactly when whatever a verified domain normalizes to, if a name can, is one itself |
| `Hosts.FoundAreAllowedIff` | core/certs/manager.go:129-148 | And every name that finds a site is allowed a certificate exactly when every verified domain that a name can find is what one normalizes to |
| `Hosts.UnnormalizedNeverFound` | core/models/site.go:96-106 | A verified domain not in lowercase is allowed certificates, and no Host normalizes to it |
| `Hosts.CapitalFindsNothing` | core/models/site.go:96-106 | A lone site with a capital letter in its domain is allowed a certificate for it and isn't found by it |
| `Palette.ItoaAtoi` | core/models/site.go:207-208 | Parsing undoes printing, of every number that fits |
| `Palette.IndexesAreCanonical` | core/models/site.go:207-210 | The keys kept are exactly the canonical decimals that fit, which printing and parsing take to one another |
| `Palette.PaletteIsUnique` | core/models/site.go:202-218 | There's one list of the wanted entries in index order, so the order a map is iterated in can't show |
| `Palette.PaletteHasIff` | core/models/site.go:206-215 | A key's entry is there exactly when the key is an index and its three colors are colors |
| `Palette.ColorsAreSafe` | core/models/site.go:200-213 | Which are hash signs and 3 to 8 hex digits, and nothing else |
| `Palette.ColumnColors` | core/models/site.go:204-218 | The result is that list: every entry with a canonical index and valid colors, strictly increasing |
| `Palette.SortByIndex` | core/models/site.go:216 | The same entries in strictly increasing order of index |

## Left out

- DynamoDB, Postgres, Valkey, mailroom, certmagic and TLS themselves: a table with an atomic conditional put and pages in a fixed key order, session lock counts, a map with expiry, and an arbitrary list of hits.
- `DynamoStorage.DynamoStorage.Lock`: on its own it's of a sole waiter, whose puts apply at once; several instances, delays and puts that take effect unheard are in `LeaseLock`. If the context is done at the moment of a poll, giving up comes first.
- `DynamoStorage.AbandonedLockIsReclaimed`: the waiter is polling by the time the lease ends, and the expiry isn't second zero of the epoch, which the item would leave out.
- `DynamoStorage.DynamoStorage.Store`: times are numbers, so that formatting and parsing them is exact isn't shown.
- The statements of `ensureTemplate`, `sweepStale`, `createTestDB` and `dropTestDB` are atomic steps of a state machine rather than methods, as any process may come between any two.
- A `pg_restore` that outlives the process that ran it, limits of the connection pool, a live process losing its owner connection, and connections being terminated for a drop.
- `TestDatabaseRuns.NoDeadlock`: of states in which databases in use have keys that differ; what two that hash to one key would wait for isn't in it. Only this, the counterexample and what's left behind being unclaimed assume anything of keys.
- `TestDatabaseSweeps.SweepReclaims`: of a sweep that comes to its end with nobody taking the database's key meanwhile.
- That a template exists after `ensureTemplate`, that a lock is exclusive once its lease is overrun, and that normalizing is idempotent: the code doesn't keep these, as the counterexamples show.
- Case folding is a parameter of snippets, in which a rune lowers to one rune; for hosts, paths and questions it's of ASCII letters.
- `SnippetMarkup.MakeSnippet`: the sort's order among terms of equal length is any; matching is of plain terms, without the regular expression engine; text is a sequence of valid characters; unescaping knows the five entities escaping makes.
- `SearchCache.SearchCache.Search`: how snippets are made of chunks and bodies is a parameter, with the cleaning of markdown and HTML left to it; digests are taken not to collide; a failing database isn't in it.
- `SearchRuns.HitIsLastAnswerFiltered`: a write that comes after other searches did stands for any search overlapping others; a table that changes between two queries of one search isn't in it.
- `Articles.LoadLinkTargets`: all queries of a request see one table; display order, titles, descriptions and languages aren't in rows.
- `AddressSpace.AtMostTwoRedirects`: of GETs of paths without percent-encoding, for which a redirect's location is what the HTTP library makes it; HEAD requests, query strings, previews (whose redirect to a slash lacks their prefix), the table changing between requests, and the file server's own redirects under /static/ aren't in it.
- `Sitemap.HandleSitemap`: entries are by path; the scheme and host in front of them, the images of articles and the XML aren't in it.
- Rendering, search pages, the home page's popular articles, `ResolveLinks`, `ResolveImages`, `ImageURLs`, `PlainText` and `MarkdownPlainText`: user interface, or the work of library engines.
- `IsDarkColor`, which is floating point, and self-signed certificates, which are cryptography.
- Authentication of the internal listener, health checks, logging, configuration, and starting and stopping: they'd only add easy members.
