# django-rag crawler core, modelled in Dafny

django-rag downloads the Django 6.0 documentation from
`https://docs.djangoproject.com` and stores it for retrieval-augmented
generation. This project models its core:

- **`HTMLScraper`**, the newer crawler (`django_knowledge/html_download/html_scraper.py`).
  It keeps three sets: the URLs scraped live, the page files on disk and
  the frontier of URLs to scrape. It dumps each page to a file whose name
  is derived from its URL, and keeps a `;`-separated list of known 404
  URLs. `make_full_valid_url` resolves each `<a>` link by a chain of rules.
  A link is kept only when it passes four scope checks: domain, language
  `en`, version `6.0` and not a known 404.
- **The Django models** of the download app (`models.py`): the tables
  `Page`, `URLToVisit`, `NotFoundURL` and `HREFScraped`, and two caches of
  URL sets that are refreshed only after a write marked them invalid.
- **The older standalone crawler** (`run_scraper.py`). It queues raw
  `href` values, normalises a link only when it is popped, checks language
  and version by fixed-width slices, and never looks at the status code.
- **`TextExtractor`** (`count_tokens_from_dumped_html.py`), which collects
  the visible text of a dumped page and skips `script` and `style` content.
- **The `load_project` command**. It walks a project directory for `.py`
  files outside virtual environments and upserts them into `PythonFile`
  inside one transaction, counting the files found and the rows created.

Modules:

| module | file | what it holds |
|---|---|---|
| `Wrappers` | `wrappers.dfy` | `Option` |
| `Strings` | `strings.dfy` | Python's `startswith`, `in`, `find`, `split`, `join`, `replace`, `strip` and slicing, with their split/join laws |
| `Exceptions` | `exceptions.dfy` | the exceptions raised, and which of them form the crawler's `Error` family |
| `HtmlScraperRules` | `html_scraper_rules.dfy` | constants, the URL-to-file map, the 404-list format, the validators, the link resolver, and the fate of each link in `extend_urls_to_scrape` |
| `HtmlScraper` | `html_scraper.dfy` | class `Scraper` with the three sets and the disk; `get_html`, `add_to_404_urls`, `extend_urls_to_scrape`, and the `scrape_all` loop |
| `PageStore` | `page_store.dfy` | class `Store` (the tables), classes `ScrapedUrlsCache` and `UrlToVisitCache` |
| `RunScraper` | `run_scraper.dfy` | the older crawler, class `OldScraper` |
| `TextExtraction` | `text_extraction.dfy` | class `TextExtractor` over a sequence of parser events |
| `LoadProject` | `load_project.dfy` | `find_python_files`, the upsert loop, and class `Database` |

The network, the HTML parser, `urljoin` and SHA-256 are parameters of the
operations that use them. The disk is a map from file path to content.

## Model

| member | source | states |
|---|---|---|
| `HtmlScraperRules.FileStem` | django_knowledge/html_download/html_scraper.py:43-44 | The stem has no `/`, `.` or `:`: each of them, and so each `//`, became `_`. |
| `HtmlScraperRules.FilePath` | django_knowledge/html_download/html_scraper.py:43-46 | The page file lies directly inside the dump directory, ends in `.html`, and is never the 404 list file `404_urls.txt`. |
| `HtmlScraperRules.FileStemCollides` | django_knowledge/html_download/html_scraper.py:43-46 | The URL-to-file map is not injective: `a.b` and `a_b` map to the same file. |
| `HtmlScraperRules.NotFoundUrls` | django_knowledge/html_download/html_scraper.py:48-53 | A missing list file reads as the empty set. Every URL read back is free of `;`, the separator. |
| `HtmlScraperRules.PiecesOfStoredSet` | django_knowledge/html_download/html_scraper.py:55-59 | Joining a set read back from the list plus a new URL and splitting again gives the old set plus the `;`-pieces of the new URL. |
| `HtmlScraperRules.CheckNotExcluded` | django_knowledge/html_download/html_scraper.py:111-113 | Passes exactly when the URL starts with the domain, and otherwise fails with `ExcludedURL`. |
| `HtmlScraperRules.CheckLanguage` | django_knowledge/html_download/html_scraper.py:95-101 | Fails only with `LanguageNotMatched`. A URL that passes contains `BASE/`. |
| `HtmlScraperRules.CheckVersion` | django_knowledge/html_download/html_scraper.py:103-109 | Fails only with `VersionNotMatched`. A URL that passes contains `BASE/en/`. |
| `HtmlScraperRules.CheckNot404` | django_knowledge/html_download/html_scraper.py:115-117 | Passes exactly when the URL is not in the 404 list, and otherwise fails with `PageNotFound`. |
| `HtmlScraperRules.ValidateUrl` | django_knowledge/html_download/html_scraper.py:122-126 | `assert_url_is_valid` fails only with the four scope exceptions. A URL off the domain always fails the domain check first. `PageNotFound` is raised only for listed URLs. |
| `HtmlScraperRules.ValidatedUrlShape` | django_knowledge/html_download/html_scraper.py:111-126 | A URL that passes is on the domain, contains `BASE/en/`, and is not a known 404. |
| `HtmlScraperRules.EnglishUrlPassesFirstChecks` | django_knowledge/html_download/html_scraper.py:95-113 | Every URL starting with `BASE/en/` passes the domain and language checks. |
| `HtmlScraperRules.VersionCheckReadsSegment` | django_knowledge/html_download/html_scraper.py:103-109 | For `BASE/en/<ver>/<rest>` with a segment without `/` or `:`, the version check passes exactly when `<ver>` starts with `6.0`. |
| `HtmlScraperRules.DocsUrlInScope` | django_knowledge/html_download/html_scraper.py:95-126 | `BASE/en/<ver>/<rest>`, with a segment without `/` or `:` starting with `6.0`, is valid exactly when it is not a known 404, whatever `<rest>` is. |
| `HtmlScraperRules.OtherVersionRejected` | django_knowledge/html_download/html_scraper.py:103-109 | Under `en`, a version segment without `/` or `:` that does not start with `6.0` makes validation fail with `VersionNotMatched`. |
| `HtmlScraperRules.OtherLanguageRejected` | django_knowledge/html_download/html_scraper.py:95-101 | A language segment without `/` or `:` other than `en` (such as `fr` or `zh-hans`) makes validation fail with `LanguageNotMatched`, after the domain check has passed. |
| `HtmlScraperRules.DocsRootUrlInScope` | django_knowledge/html_download/html_scraper.py:122-126 | Every URL built as `DOCS_ROOT/<rest>` is valid exactly when it is not a known 404. |
| `HtmlScraperRules.VersionIsPrefixTest` | django_knowledge/html_download/html_scraper.py:103-109 | The version check is a prefix test: a `6.01` segment passes too. |
| `HtmlScraperRules.DocsRootPrefix` | django_knowledge/html_download/html_scraper.py:14-18 | `DOCS_ROOT/<rest>` starts with `https://` and with the domain. |
| `HtmlScraperRules.RemoveHashtag` | django_knowledge/html_download/html_scraper.py:129-130 | The result is a prefix of the text and has no `#`. When it is shorter than the text, a `#` follows it, so it is the text before the first `#`. |
| `HtmlScraperRules.RemoveHashtagKeepsPlain` | django_knowledge/html_download/html_scraper.py:129-130 | A text without `#` is returned unchanged. |
| `HtmlScraperRules.Validated` | django_knowledge/html_download/html_scraper.py:140-142 | Validate-then-strip either fails with a scope exception or returns a `#`-free URL on the domain. |
| `HtmlScraperRules.MakeFullValidUrl` | django_knowledge/html_download/html_scraper.py:128-177 | Every URL the resolver returns is on the documentation domain and has no `#`. |
| `HtmlScraperRules.ResolveRelative` | django_knowledge/html_download/html_scraper.py:147-177 | The same guarantee for the rules after the scheme checks: class, `contents`/`intro`, `/en/stable/`, `..` and `rel`. |
| `HtmlScraperRules.AfterLast` | django_knowledge/html_download/html_scraper.py:159 | `split(sep)[-1]` is a suffix of the text and contains no `sep`. It is the whole text when `sep` does not occur, and otherwise the text before it ends with `sep`, so it is exactly the piece after the last `sep`. |
| `HtmlScraperRules.ResolverPrecedence` | django_knowledge/html_download/html_scraper.py:132-145 | Empty `href` gives `BlankUrl`, `http://` gives `NonHTTPSPage`, `https://` is validated and stripped, and `#` gives `LinkToCurrentPage`, before any other rule. |
| `HtmlScraperRules.ReferenceInternalResolves` | django_knowledge/html_download/html_scraper.py:147-151 | A `reference internal` link resolves to `DOCS_ROOT/` plus the `href` without leading slashes, minus its fragment, or raises `PageNotFound` when that URL is a known 404. |
| `HtmlScraperRules.ReferenceInternalDoesNotClimb` | django_knowledge/html_download/html_scraper.py:147-151 | Such a link starting with `../` keeps the `../` literally in the result. Nothing is taken off the page URL. |
| `HtmlScraperRules.ClassAttributeBypassesRules` | django_knowledge/html_download/html_scraper.py:147-177 | An anchor with a `class` but without both `reference` and `internal` skips the `contents`, `/en/stable/` and `..` rules. Without `rel` it raises `ValueError`. |
| `HtmlScraperRules.ContentsResolves` | django_knowledge/html_download/html_scraper.py:153-156 | Without a class, `contents`/`intro` (slashes trimmed) resolve under `DOCS_ROOT`. |
| `HtmlScraperRules.EnStablePicksRule` | django_knowledge/html_download/html_scraper.py:158-161 | A class-less `/en/stable/` link other than `contents`/`intro` reaches the `/en/stable/` rule: it is re-rooted under `DOCS_ROOT/` before validation. |
| `HtmlScraperRules.EnStableResolves` | django_knowledge/html_download/html_scraper.py:158-161 | `/en/stable/X` resolves to `DOCS_ROOT/` plus the text after the last `/en/stable/`, or raises `PageNotFound` when that URL is listed. |
| `HtmlScraperRules.ParentLinkIsJoined` | django_knowledge/html_download/html_scraper.py:163-166 | A class-less link starting with `..` that reaches this rule is resolved by `urljoin` against the page URL, then validated and cut at `#`, whatever its `rel`. |
| `HtmlScraperRules.FollowNext` | django_knowledge/html_download/html_scraper.py:168-177 | Succeeds only for a `rel` whose first value is `next`, with a `#`-free URL on the domain. A link without `rel` raises `ValueError` (the `KeyError` is swallowed). |
| `HtmlScraperRules.RelRuleEndsChain` | django_knowledge/html_download/html_scraper.py:168-177 | For a link that reaches the `rel` rule: no `rel` gives `ValueError`, an empty `rel` list gives `IndexError`, a first value `next` gives the validated `urljoin` of the page URL and `href`, and any other first value gives `ValueError`. |
| `HtmlScraperRules.Triage` | django_knowledge/html_download/html_scraper.py:184-201 | A link is queued only with a non-empty, `#`-free URL on the domain that is neither a known 404 nor already scraped, and every resolved URL that is non-empty, not a known 404 and not scraped is queued. An exception outside the `Error` family escapes, and an escaping exception is never an `Error`. |
| `HtmlScraperRules.Extend` | django_knowledge/html_download/html_scraper.py:183-201 | The exception that stops the loop, if any, is outside the `Error` family. |
| `HtmlScraperRules.ExtendAddsTriagedUrls` | django_knowledge/html_download/html_scraper.py:183-201 | Every URL the loop adds comes from some link that the body queues. |
| `HtmlScraperRules.ExtendKeepsEarlier` | django_knowledge/html_download/html_scraper.py:183-201 | The loop only adds: what the first `k` links add is kept after all links. |
| `HtmlScraperRules.ExtendAddsEveryQueuedUrl` | django_knowledge/html_download/html_scraper.py:183-201 | Every URL queued by a link reached before any exception escaped is in the frontier after the loop. |
| `HtmlScraperRules.ExtendStopsAtEscape` | django_knowledge/html_download/html_scraper.py:183-189 | Once a link raises an exception outside the `Error` family, the later links are never looked at. |
| `HtmlScraperRules.ExtendAddsFreshDocsUrls` | django_knowledge/html_download/html_scraper.py:183-201 | Every URL the loop adds to the frontier is non-empty, on the domain, `#`-free, not a known 404, and not already scraped. |
| `HtmlScraperRules.HarmlessLinksAreDropped` | django_knowledge/html_download/html_scraper.py:183-201 | Fragment-only, plain-HTTP and off-domain HTTPS links add nothing and do not stop the loop. |
| `HtmlScraperRules.KnownNotFoundLinkEscapes` | django_knowledge/html_download/html_scraper.py:183-189 | A link to a listed 404 URL is not dropped: its `PageNotFoundException` is outside the `Error` family and leaves the loop. |
| `HtmlScraper.DumpedFiles` | django_knowledge/html_download/html_scraper.py:33-41 | The files found at start-up are files on disk, directly inside the dump directory, and end in `.html`. |
| `HtmlScraper.PageFileIsDumpedFile` | django_knowledge/html_download/html_scraper.py:43-46 | Every page file is a `.html` file directly inside the dump directory, and the 404 list never is. |
| `HtmlScraper.DumpedPageIsFoundAgain` | django_knowledge/html_download/html_scraper.py:33-46 | A page dumped in an earlier run is found by a new crawler on the same disk. |
| `HtmlScraper.NotFoundListIsNoDumpedFile` | django_knowledge/html_download/html_scraper.py:55-59 | Writing the 404 list leaves the set of dumped files unchanged. |
| `HtmlScraper.JoinSet` | django_knowledge/html_download/html_scraper.py:59 | For every iteration order of the set, splitting the joined text again gives the pieces of the items. The empty set gives `""`. |
| `HtmlScraper.Scraper.constructor` | django_knowledge/html_download/html_scraper.py:20-28 | No URLs scraped yet. The file set is exactly the dumped `.html` files. The frontier is `{base_url}` when it is given and non-empty, otherwise `{DOCS_ROOT}`. |
| `HtmlScraper.NotFoundListRoundTrip` | django_knowledge/html_download/html_scraper.py:48-59 | Writing any `;`-join of the old list plus a URL and reading it back gives the old set plus the URL's `;`-pieces, which is the old set plus the URL when it has no `;`. |
| `HtmlScraper.DumpingPageAddsFile` | django_knowledge/html_download/html_scraper.py:86-91 | Dumping a page adds its file, and no other, to the files `find_already_scraped_files` would find, so `already_scraped_files` keeps matching the directory. |
| `HtmlScraper.Scraper.AddTo404Urls` | django_knowledge/html_download/html_scraper.py:55-59 | Re-reading the list gives the old set plus the `;`-pieces of the URL, which is the old set plus the URL when it has no `;`. A missing file reads as empty. No other file changes. |
| `HtmlScraper.Scraper.GetHtml` | django_knowledge/html_download/html_scraper.py:63-93 | The new disk, URL set and file set are given by `FetchEffect`: a known file is returned as not live, with no request and no change. A failed request changes nothing. A 404 rewrites only the 404 list, which then reads as the old set plus the URL's `;`-pieces, and raises `HTTPError`. Other 4xx/5xx raise `HTTPError` and change nothing. A soft-404 page raises `ValueError` after the URL is recorded, with no file written. Otherwise the page is written to its file, the URL and file are recorded, and it is returned live. The frontier never changes. Nothing raised is in the `Error` family or is `PageNotFound`. |
| `HtmlScraper.Scraper.ExtendUrlsToScrape` | django_knowledge/html_download/html_scraper.py:183-201 | The frontier grows by exactly the URLs `Extend` adds, and the exception that stops the loop, if any, is returned. |
| `HtmlScraper.Scraper.ScrapeStep` | django_knowledge/html_download/html_scraper.py:205-227 | Pops a URL of the frontier and fetches it with the effect `FetchEffect` states. On an exception the frontier is the old one minus that URL and the step reports the crash. On a page, the frontier is the old one minus that URL plus exactly the URLs `Extend` adds for the parsed links, and the step reports the visit or the escaping exception. It sleeps exactly when the page was live. The `Error` and `PageNotFound` handlers are never reached. |
| `HtmlScraper.Scraper.ScrapeAll` | django_knowledge/html_download/html_scraper.py:203-229 | `not_found_pages` stays empty. Unless an exception escapes, the loop runs until the frontier is empty or the step budget is spent. |
| `PageStore.WithProcessed` | django_knowledge/html_download/models.py:90-92 | Row by row: the row with the URL is the old row with `processed` set, and every other row is the old row unchanged, so only the flag changes. |
| `PageStore.MarkProcessedIdempotent` | django_knowledge/html_download/models.py:90-92 | Marking twice is marking once. |
| `PageStore.MarkProcessedKeepsUrls` | django_knowledge/html_download/models.py:90-92 | Marking keeps the URL set and the uniqueness of `url`. |
| `PageStore.FirstUnprocessedIndex` | django_knowledge/html_download/models.py:98-100 | The position of the first unprocessed row in key order, or none when every row is processed. |
| `PageStore.FirstUnprocessed` | django_knowledge/html_download/models.py:98-100 | Returns an unprocessed row of the table, or `None` exactly when every row is processed. |
| `PageStore.MarkedRowIsNotReturned` | django_knowledge/html_download/models.py:90-100 | With unique URLs, a marked row is never returned by the unprocessed query. |
| `PageStore.HrefsAfterGetOrCreate` | django_knowledge/html_download/models.py:117-119 | After `get_or_create(u)` the table holds `u`, every old row, and nothing else. |
| `PageStore.GetOrCreateIdempotent` | django_knowledge/html_download/models.py:117-119 | A second call with the same URL adds no row. Uniqueness is kept, and at most one row is added. |
| `PageStore.Store.GetPageByUrl` | django_knowledge/html_download/models.py:34-39 | `None` exactly when no page has the URL. |
| `PageStore.Store.CreatePage` | django_knowledge/html_download/models.py:45-57 | An insert of an existing URL is an integrity error that changes nothing. Otherwise the row holds the content and its digest. The cache flag is set only after a successful insert, and a coherent cache stays coherent. |
| `PageStore.Store.AddExtractedText` | django_knowledge/html_download/models.py:30-32 | Only `cleaned_text` of that page changes. |
| `PageStore.Store.CreateUrlToVisit` | django_knowledge/html_download/models.py:84-88 | The cache is marked invalid before the insert, so also when the insert fails on the unique `url`. A new row is unprocessed. |
| `PageStore.Store.MarkProcessed` | django_knowledge/html_download/models.py:90-92 | The table becomes `WithProcessed` of the old one, and its URL set is unchanged. |
| `PageStore.Store.GetOneNotProcessed` | django_knowledge/html_download/models.py:98-100 | Returns the first unprocessed row, or `None` exactly when there is none. |
| `PageStore.Store.HrefGetOrCreate` | django_knowledge/html_download/models.py:117-119 | The `HREFScraped` table becomes `HrefsAfterGetOrCreate` of the old one, and no other table changes. |
| `PageStore.ScrapedUrlsCache.constructor` | django_knowledge/html_download/models.py:60-62 | A new cache starts invalidated (by default) with no snapshot. |
| `PageStore.ScrapedUrlsCache.GetAll` | django_knowledge/html_download/models.py:64-68 | When invalidated, it snapshots the page URLs and clears the flag. Otherwise it returns the old snapshot, or the `AttributeError` if none was taken. A coherent cache returns the current URL set. |
| `PageStore.UrlToVisitCache.constructor` | django_knowledge/html_download/models.py:103-105 | The same initial state for the URL-to-visit cache. |
| `PageStore.UrlToVisitCache.GetAll` | django_knowledge/html_download/models.py:107-111 | The same refresh-on-invalid rule over the URLs to visit. |
| `RunScraper.Dedot` | run_scraper.py:49 | A URL without `../` is unchanged. Otherwise the result is strictly shorter: every occurrence is deleted. |
| `RunScraper.Normalize` | run_scraper.py:43-56 | Normalisation raises only `BlankUrl` or `NonHTTPSPage`, and its result has no `#`. |
| `RunScraper.NormalizeRejectsFirst` | run_scraper.py:43-47 | A missing or empty `href` gives `BlankUrl`, and an `http:` prefix gives `NonHTTPSPage`, before any other processing. |
| `RunScraper.RelativeLinkGoesUnderRoot` | run_scraper.py:49-56 | A relative link becomes `DOCS_ROOT/` plus the link with every `../` deleted, cut at the first `#`, and lands on the domain. |
| `RunScraper.AbsoluteLinkKeepsHost` | run_scraper.py:49-56 | A link that is `https` after de-dotting is not re-rooted: it is normalised to the de-dotted link cut at `#`, which is on the domain exactly when the de-dotted link is. |
| `RunScraper.DedotDeletesParent` | run_scraper.py:49 | A leading `../` is deleted, not resolved: `../p` becomes `p` when `p` holds no other `../`. |
| `RunScraper.OldCheckLanguage` | run_scraper.py:91-94 | Fails with `IndexError` exactly when the URL lacks `BASE/`, and otherwise only with `LanguageNotMatched`. |
| `RunScraper.OldCheckVersion` | run_scraper.py:96-99 | Fails with `IndexError` exactly when the URL lacks `BASE/en/`, and otherwise only with `VersionNotMatched`. |
| `RunScraper.OldLanguageCheckReadsSegment` | run_scraper.py:91-94 | For `BASE/<seg>/<rest>` with a segment without `/` or `:`, the language check passes exactly when the segment starts with `en` (so `enx` passes), and otherwise fails with `LanguageNotMatched`. |
| `RunScraper.OldVersionCheckReadsSegment` | run_scraper.py:96-99 | For `BASE/en/<ver>/<rest>` with a segment without `/` or `:`, the version check passes exactly when the segment starts with `6.0`, and otherwise fails with `VersionNotMatched`. |
| `RunScraper.OldVersionIsPrefixTest` | run_scraper.py:96-99 | `'6.0' in s[:3]` holds exactly when `s` starts with `6.0`. |
| `RunScraper.BareDomainRaisesIndexError` | run_scraper.py:91-94 | The bare domain passes the domain check and then crashes the language check with `IndexError`. |
| `RunScraper.PlanFetch` | run_scraper.py:40-68 | Refusals are among the blank, scheme and three scope exceptions or `IndexError`. A disk hit is a known file. A request goes to an unknown file named after the URL. |
| `RunScraper.CacheBypassesScopeChecks` | run_scraper.py:58-68 | A normalised URL on the domain whose file is known is served from disk, whatever its language and version. |
| `RunScraper.RequestedUrlIsInScope` | run_scraper.py:58-68 | A URL that is requested passed the domain, language and version checks. |
| `RunScraper.Added` | run_scraper.py:112-118 | The loop adds exactly the raw `href` values (including `None`) that are not already in the scraped set. |
| `RunScraper.ClimbingLinkIsQueuedAgain` | run_scraper.py:112-118 | A `../p` link (with no other `../` in `p`) is queued again after `p` was fetched, because the scraped set holds the de-dotted URL and the check compares the raw one. |
| `RunScraper.OldScraper.constructor` | run_scraper.py:19-23 | No URLs scraped yet. The file set is the dumped `.html` files, and the frontier is `{DOCS_ROOT}`. |
| `RunScraper.OldScraper.GetHtml` | run_scraper.py:40-89 | Carries out `PlanFetch`, with the new disk, sets and result given by `OldFetchEffect`: a refusal changes nothing, a disk hit returns the file as not live, and a request records the de-dotted `href` whatever the status. The soft-404 marker raises `PageNotFound` with nothing written. Otherwise the page is written, its file recorded, and it is returned live. The frontier never changes. |
| `RunScraper.OldScraper.CarryOut` | run_scraper.py:60-89 | Performs a disk read or a request as planned, with the effect `OldFetchEffect` states for that plan. |
| `RunScraper.OldScraper.ExtendUrlsToScrape` | run_scraper.py:112-118 | The frontier grows by exactly `Added`, and nothing else changes. |
| `RunScraper.OldScraper.ScrapeStep` | run_scraper.py:123-142 | Popping from an empty frontier raises `KeyError` and changes nothing. Otherwise the popped `href` came from the frontier and is fetched with the effect `OldFetchEffect` states. On an exception the frontier is the old one minus it, and the step reports the crash, the swallowed `Error` or the `PageNotFound`. On a page the frontier is the old one minus it plus exactly `Added` of the parsed links, and it sleeps exactly after a live fetch. |
| `RunScraper.OldScraper.ScrapeAll` | run_scraper.py:120-144 | The loop has no normal exit: unless an exception escapes, it uses the whole step budget. |
| `TextExtraction.Lower` | count_tokens_from_dumped_html.py:17 | Lower-casing keeps the length and maps each character by itself. |
| `TextExtraction.StripIsIdempotent` | count_tokens_from_dumped_html.py:26 | A stripped text strips to itself. |
| `TextExtraction.Step` | count_tokens_from_dumped_html.py:16-28 | A callback appends at most one piece, and only for data while not skipping. Tags change only the flag, and tags other than `script`/`style` change nothing. Data never changes the flag. |
| `TextExtraction.Run` | count_tokens_from_dumped_html.py:16-28 | Over a run of callbacks the earlier pieces stay a prefix, and at most one piece is added per callback. |
| `TextExtraction.StepKeepsPiecesClean` | count_tokens_from_dumped_html.py:24-28 | A callback only appends non-empty, fully stripped pieces. |
| `TextExtraction.RunKeepsPiecesClean` | count_tokens_from_dumped_html.py:24-28 | Over any run of callbacks, earlier pieces are kept as a prefix and every piece is non-empty and stripped. |
| `TextExtraction.SkipTagNames` | count_tokens_from_dumped_html.py:17-21 | A tag is skipped exactly when it spells `script` or `style` in any letter case, and no other tag is skipped. |
| `TextExtraction.EndStyleInsideScriptResumes` | count_tokens_from_dumped_html.py:16-28 | The flag is not a nesting counter: `</style>` inside `<script>` turns capture back on. |
| `TextExtraction.ScriptTextIsSkipped` | count_tokens_from_dumped_html.py:16-28 | After a `script` start tag in any letter case, nested tags and text add nothing. |
| `TextExtraction.JoinedSplitsBack` | count_tokens_from_dumped_html.py:30-31 | For at least one piece, none holding a newline, splitting `get_text` on `\n` gives the pieces back in order. |
| `TextExtraction.TextExtractor.constructor` | count_tokens_from_dumped_html.py:11-14 | No pieces, capture on. |
| `TextExtraction.TextExtractor.HandleStartTag` | count_tokens_from_dumped_html.py:16-18 | A skipped tag turns the flag on, and any other tag leaves it. The pieces are untouched. |
| `TextExtraction.TextExtractor.HandleEndTag` | count_tokens_from_dumped_html.py:20-22 | A skipped tag turns the flag off, and any other tag leaves it. The pieces are untouched. |
| `TextExtraction.TextExtractor.HandleData` | count_tokens_from_dumped_html.py:24-28 | While skipping nothing changes. Otherwise the stripped text is appended when it is non-empty. |
| `TextExtraction.TextExtractor.GetText` | count_tokens_from_dumped_html.py:30-31 | When there is a piece and none holds a newline, splitting the text on `\n` gives the pieces back. |
| `TextExtraction.TextExtractor.Feed` | count_tokens_from_dumped_html.py:40 | Feeding a sequence of events leaves the state `Run` of the events from the old state. |
| `TextExtraction.ExtractText` | count_tokens_from_dumped_html.py:34-41 | The text is the captured pieces joined by newlines, and every piece is non-empty and stripped. |
| `LoadProject.PythonFiles` | django_knowledge/synthetic_data_generator/management/commands/load_project.py:83-98 | Never more files than walk entries, each below the root. |
| `LoadProject.HasVenvAncestor` | django_knowledge/synthetic_data_generator/management/commands/load_project.py:90-95 | The parent loop with `break` sets `skip_file` exactly when some ancestor has a virtual-environment name: up to the filesystem root for an absolute path, up to `.` for a relative one. |
| `LoadProject.FindPythonFiles` | django_knowledge/synthetic_data_generator/management/commands/load_project.py:83-98 | The generator yields exactly `PythonFiles` of the walk, in walk order. |
| `LoadProject.PythonFilesMembership` | django_knowledge/synthetic_data_generator/management/commands/load_project.py:83-98 | A path is yielded exactly when it is a `.py` regular file of the walk with no virtual-environment ancestor. |
| `LoadProject.RootInsideVenvYieldsNothing` | django_knowledge/synthetic_data_generator/management/commands/load_project.py:86-95 | Ancestors above the root count too: a project inside a `venv` directory yields nothing. |
| `LoadProject.RelativePath` | django_knowledge/synthetic_data_generator/management/commands/load_project.py:38 | A file directly in the root gives its own name. A deeper file gives a path with `/` between components. |
| `LoadProject.RelativePathRestoresFile` | django_knowledge/synthetic_data_generator/management/commands/load_project.py:38 | The stored path is the file path with the root prefix removed: the root plus its components is the file. |
| `LoadProject.Loaded` | django_knowledge/synthetic_data_generator/management/commands/load_project.py:34-55 | Loading keeps every old key, and each row is either the old one or a row of the loading project. |
| `LoadProject.LoadedUpTo` | django_knowledge/synthetic_data_generator/management/commands/load_project.py:34-55 | The same for the first `n` files. |
| `LoadProject.LastStoreWins` | django_knowledge/synthetic_data_generator/management/commands/load_project.py:51-55 | A key stored by file `i` and by no later file among the first `n` holds file `i`'s content and the loading project. |
| `LoadProject.LoadedRows` | django_knowledge/synthetic_data_generator/management/commands/load_project.py:51-55 | After loading, a key some readable file maps to belongs to the loading project and holds the content of the last such file. Every other key keeps its old row or stays absent. |
| `LoadProject.NewRows` | django_knowledge/synthetic_data_generator/management/commands/load_project.py:52-58 | The number of rows created by the first `n` files is at most `n`. |
| `LoadProject.NewRowsAreNewKeys` | django_knowledge/synthetic_data_generator/management/commands/load_project.py:52-58 | The rows counted as created are exactly the keys the table gains, and no key is lost. |
| `LoadProject.LoadedNewRowsBound` | django_knowledge/synthetic_data_generator/management/commands/load_project.py:51-58 | Loading keeps every existing key and creates at most one row per file. |
| `LoadProject.SameModuleInTwoProjects` | django_knowledge/synthetic_data_generator/management/commands/load_project.py:51-55 | The same relative module from two projects leaves one row, with the content and project of the later one. |
| `LoadProject.Database.ProjectGetOrCreate` | django_knowledge/synthetic_data_generator/management/commands/load_project.py:26-29 | A project is created exactly when its name is new, and only then is the `root_path` default used. |
| `LoadProject.Database.PythonFileUpdateOrCreate` | django_knowledge/synthetic_data_generator/management/commands/load_project.py:52-55 | The row keyed by `module_path` is overwritten or created. `created` holds exactly when the key was new. |
| `LoadProject.StoreFile` | django_knowledge/synthetic_data_generator/management/commands/load_project.py:41-58 | A file that could not be read leaves the table as it is. A readable one upserts its row, and `created` is true exactly when the key was new. |
| `LoadProject.StoreFiles` | django_knowledge/synthetic_data_generator/management/commands/load_project.py:34-61 | Every yielded file is counted, unreadable ones included. Only new rows are counted as stored, so stored ≤ found. The table becomes `Loaded`. |
| `LoadProject.Command` | django_knowledge/synthetic_data_generator/management/commands/load_project.py:15-81 | An exception in the traversal rolls both tables back and returns before the deletion step. On completion the counters and tables are as above, and the directory is deleted exactly when `--delete` was given and it is a directory. |

## Left out

- Network and disk I/O are not performed. `requests.get` is the oracle `server`, which returns a status and body or a failed request. The files are a map from path to content. `os.listdir`, `mkdir`, the `timeout`, logging, `sleep` and the final `print` are left out.
- BeautifulSoup parsing is not modelled. `get_soup`/`extract_links` are the oracle `parse`, and an anchor is a record of its `href`, `class` and `rel` attributes.
- `urljoin` is an uninterpreted function, so the `..` and `rel="next"` rules are proved only up to what `urljoin` returns.
- SHA-256 in `Page.create` is the function parameter `digest`.
- `HTMLParser` tokenisation (tags, attributes, character references, `convert_charrefs`) is not modelled: the extractor is fed start-tag, end-tag and data events. The lemmas about tags nested in `script`/`style` (`TextExtraction.EndStyleInsideScriptResumes` and the nested-tag part of `TextExtraction.ScriptTextIsSkipped`) describe the handlers only: `HTMLParser` reads the content of `script` and `style` as raw text, so `feed` on real HTML does not produce such event sequences. Reading the file with its two encodings in `extract_text_from_file` is left out too.
- `TextExtraction.Lower`: only ASCII letters are lowered. `str.lower` also lowers other letters, but none of them lowers to `script` or `style`, so the skip test is the same.
- `HtmlScraper.Scraper.ScrapeAll`: runs at most `steps` iterations. The crawl need not terminate, because pages served from disk are never added to `already_scraped_urls` and can be queued again.
- `RunScraper.OldScraper.ScrapeAll`: runs at most `steps` iterations, because the `while True` loop only ends by an exception.
- `HtmlScraper.Scraper.GetHtml`: requires that the URL is not in the frontier. This holds at its only call site, right after `scrape_all` popped it.
- The old crawler's `breakpoint()` (run_scraper.py:121) is left out. The loop's use of the module-level `scraper` instead of `self` (run_scraper.py:134-136) is modelled as `self`, as it is the same object when run as a script.
- The dead `if not url_to_scrape: raise ValueError` (run_scraper.py:70-71) can never fire: the URL always starts with the domain by then. It is left out.
- Django ORM mechanics are not modelled: primary keys, `save`, `auto_now` timestamps, and query sets beyond the ones named. Foreign keys are the URL or name of the referenced row. `NotFoundURL` is only read (`AllNotFoundUrls`), as nothing in the core writes it.
- `Project.objects.get_or_create` on a name held by two rows (`MultipleObjectsReturned`) is not modelled: the `Project` table is keyed by name.
- The transaction of `load_project`: only one kind of failure is modelled, an exception at a chosen position of the yielded files, which rolls both tables back. The failures of `rglob`, `shutil.rmtree` and `Path.absolute` are not modelled; the walk, the reads and the absolute path are parameters.
- `rglob` order and symbolic links are not modelled: the walk is the given sequence of entries below the root, each with a regular-file flag.
