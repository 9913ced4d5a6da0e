/** The earlier, standalone crawler of `run_scraper.py`. It keeps raw
    `href` values in its frontier and normalises each one when it is
    popped: blank and `http:` links are refused, every `../` is deleted,
    relative links are put under the documentation root, and the fragment
    is cut. Its language and version checks slice fixed-width prefixes,
    and it never looks at the status code of a reply. */
module RunScraper {
  import opened Wrappers
  import opened Strings
  import opened Exceptions
  import opened HtmlScraperRules
  import Crawler = HtmlScraper

  /** `url.replace('../', '')`: every `../` found scanning left to right is
      deleted, so the URL is unchanged exactly when it holds no `../`. */
  function Dedot(url: string): (r: string)
    ensures !Contains(url, "../") ==> r == url
    ensures Contains(url, "../") ==> |r| < |url|
  {
    var parts := Split(url, "../");
    SplitHasSecondPiece(url, "../");
    JoinLength(parts, "../");
    Join(parts, "")
  }

  /** The normalisation at the top of `get_html`: what the raw `href`
      turns into before any check on the result. */
  function Normalize(href: Option<string>): (r: Outcome<string>)
    ensures r.Raised? ==> r.exc in {BlankUrl, NonHTTPSPage}
    ensures r.Ok? ==> '#' !in r.value
  {
    if href.None? || href.value == "" then Raised(BlankUrl)
    else if StartsWith(href.value, "http:") then Raised(NonHTTPSPage)
    else
      var url := Dedot(href.value);
      var full := if StartsWith(url, "https") then url else DOCS_ROOT + "/" + url;
      Ok(RemoveHashtag(full))
  }

  /** The blank and `http:` checks come first, whatever else the link is. */
  lemma NormalizeRejectsFirst(href: Option<string>)
    ensures href.None? || href == Some("") ==> Normalize(href) == Raised(BlankUrl)
    ensures href.Some? && href.value != "" && StartsWith(href.value, "http:")
            ==> Normalize(href) == Raised(NonHTTPSPage)
  {
  }

  /** A relative link is put under the documentation root after its `../`
      are deleted; it therefore passes the domain check. */
  lemma RelativeLinkGoesUnderRoot(href: string)
    requires href != "" && !StartsWith(href, "http:") && !StartsWith(Dedot(href), "https")
    ensures Normalize(Some(href)) == Ok(RemoveHashtag(DOCS_ROOT + "/" + Dedot(href)))
    ensures StartsWith(Normalize(Some(href)).value, BASE_URL)
  {
    DocsRootPrefix(Dedot(href));
    BaseUrlFacts();
    FirstPartStartsWith(DOCS_ROOT + "/" + Dedot(href), "#", BASE_URL);
  }

  /** An absolute link is not put under the documentation root: after its
      `../` are deleted only the fragment is cut, so it stays on the
      documentation domain exactly when it was on it. */
  lemma AbsoluteLinkKeepsHost(href: string)
    requires href != "" && !StartsWith(href, "http:") && StartsWith(Dedot(href), "https")
    ensures Normalize(Some(href)) == Ok(RemoveHashtag(Dedot(href)))
    ensures StartsWith(Normalize(Some(href)).value, BASE_URL) <==> StartsWith(Dedot(href), BASE_URL)
  {
    BaseUrlFacts();
    var url := Dedot(href);
    if StartsWith(url, BASE_URL) {
      FirstPartStartsWith(url, "#", BASE_URL);
    }
    var r := RemoveHashtag(url);
    if StartsWith(r, BASE_URL) {
      assert url[..|BASE_URL|] == r[..|BASE_URL|];
    }
  }

  /** A `../` in front of a path that holds no other `../` is simply
      deleted: nothing is climbed, and the recorded URL differs from the
      raw `href`. */
  lemma DedotDeletesParent(path: string)
    requires !Contains(path, "../")
    ensures Dedot("../" + path) == path && "../" + path != path
  {
    var s := "../" + path;
    assert OccursAt(s, "../", 0);
    assert s[3..] == path;
    assert Split(path, "../") == [path];
    assert Split(s, "../") == [""] + Split(path, "../");
    assert Join(["", path], "") == path;
  }

  /** `url.split(BASE + '/')[1][:2]` must be `en`; a URL without `BASE/`
      has no second piece and raises `IndexError`. */
  function OldCheckLanguage(url: string): (r: Verdict)
    ensures r.Fail? ==> r.exc in {IndexError, LanguageNotMatched}
    ensures r == Fail(IndexError) <==> !Contains(url, BASE_URL + "/")
  {
    var parts := Split(url, BASE_URL + "/");
    SplitHasSecondPiece(url, BASE_URL + "/");
    if |parts| < 2 then Fail(IndexError)
    else if Take(parts[1], 2) != LANG then Fail(LanguageNotMatched)
    else Pass
  }

  /** `'6.0' in url.split(BASE + '/en/')[1][:3]`; again `IndexError`
      without a second piece. */
  function OldCheckVersion(url: string): (r: Verdict)
    ensures r.Fail? ==> r.exc in {IndexError, VersionNotMatched}
    ensures r == Fail(IndexError) <==> !Contains(url, BASE_URL + "/" + LANG + "/")
  {
    var parts := Split(url, BASE_URL + "/" + LANG + "/");
    SplitHasSecondPiece(url, BASE_URL + "/" + LANG + "/");
    if |parts| < 2 then Fail(IndexError)
    else if !Contains(Take(parts[1], 3), VERSION) then Fail(VersionNotMatched)
    else Pass
  }

  /** `'6.0' in s[:3]` holds exactly when `s` starts with `6.0`. */
  lemma OldVersionIsPrefixTest(segment: string)
    ensures Contains(Take(segment, 3), VERSION) <==> StartsWith(segment, VERSION)
  {
    var t := Take(segment, 3);
    if Contains(t, VERSION) {
      var i := IndexOf(t, VERSION).value;
      assert OccursAt(t, VERSION, i);
      assert i == 0;
      assert t[..3] == VERSION;
    }
  }

  /** The language test reads the segment after `BASE/`: for a segment
      without `/` or `:` it passes exactly when the segment starts with
      `en`, so a segment such as `enx` passes too. */
  lemma OldLanguageCheckReadsSegment(seg: string, rest: string)
    requires '/' !in seg && ':' !in seg
    ensures OldCheckLanguage(BASE_URL + "/" + seg + "/" + rest)
         == if StartsWith(seg, LANG) then Pass else Fail(LanguageNotMatched)
  {
    BaseUrlFacts();
    var sep := BASE_URL + "/";
    assert BASE_URL + "/" + seg + "/" + rest == sep + seg + "/" + rest;
    SecondPieceStartsWithSegment(sep, seg, rest);
    var piece := Split(sep + seg + "/" + rest, sep)[1];
    PrefixWithinSegment(piece, seg, LANG);
    TakeIsPrefixTest(piece, LANG);
  }

  /** The version test reads the segment after `BASE/en/`: for a segment
      without `/` or `:` it passes exactly when the segment starts with
      `6.0`. */
  lemma OldVersionCheckReadsSegment(ver: string, rest: string)
    requires '/' !in ver && ':' !in ver
    ensures OldCheckVersion(BASE_URL + "/" + LANG + "/" + ver + "/" + rest)
         == if StartsWith(ver, VERSION) then Pass else Fail(VersionNotMatched)
  {
    BaseUrlFacts();
    var sep := BASE_URL + "/" + LANG + "/";
    assert BASE_URL + "/" + LANG + "/" + ver + "/" + rest == sep + ver + "/" + rest;
    SecondPieceStartsWithSegment(sep, ver, rest);
    var piece := Split(sep + ver + "/" + rest, sep)[1];
    PrefixWithinSegment(piece, ver, VERSION);
    OldVersionIsPrefixTest(piece);
  }

  /** The bare domain passes the domain check and then crashes the
      language check: there is nothing after it to split off. */
  lemma BareDomainRaisesIndexError()
    ensures StartsWith(BASE_URL, BASE_URL) && OldCheckLanguage(BASE_URL) == Fail(IndexError)
  {
    assert |Split(BASE_URL, BASE_URL + "/")| == 1;
  }

  /** What `get_html` decides before it touches anything: refuse the link,
      serve the dumped file, or request the URL. The domain check comes
      before the look-up of the file; the language and version checks only
      after it. */
  datatype Plan = Refused(exc: Exc) | FromDisk(path: string) | Request(url: string, path: string)

  function PlanFetch(href: Option<string>, dumpDir: string, files: set<string>): (p: Plan)
    ensures p.Refused? ==> p.exc in {BlankUrl, NonHTTPSPage, ExcludedURL, LanguageNotMatched,
                                     VersionNotMatched, IndexError}
    ensures p.FromDisk? ==> p.path in files
    ensures p.Request? ==> p.path !in files && p.path == FilePath(dumpDir, p.url)
    ensures p.Request? ==> href.Some?
  {
    match Normalize(href)
    case Raised(e) => Refused(e)
    case Ok(url) =>
      var path := FilePath(dumpDir, url);
      if !StartsWith(url, BASE_URL) then Refused(ExcludedURL)
      else if path in files then FromDisk(path)
      else if OldCheckLanguage(url).Fail? then Refused(OldCheckLanguage(url).exc)
      else if OldCheckVersion(url).Fail? then Refused(OldCheckVersion(url).exc)
      else Request(url, path)
  }

  /** A dumped file is served whatever its URL's language and version;
      an excluded URL is refused even when a file for it exists. */
  lemma CacheBypassesScopeChecks(href: Option<string>, dumpDir: string, files: set<string>)
    requires Normalize(href).Ok?
    ensures var url := Normalize(href).value;
      && (!StartsWith(url, BASE_URL) ==> PlanFetch(href, dumpDir, files) == Refused(ExcludedURL))
      && (StartsWith(url, BASE_URL) && FilePath(dumpDir, url) in files
          ==> PlanFetch(href, dumpDir, files) == FromDisk(FilePath(dumpDir, url)))
  {
  }

  /** A URL that is requested passed all three scope checks. */
  lemma RequestedUrlIsInScope(href: Option<string>, dumpDir: string, files: set<string>)
    requires PlanFetch(href, dumpDir, files).Request?
    ensures var url := PlanFetch(href, dumpDir, files).url;
      StartsWith(url, BASE_URL) && OldCheckLanguage(url) == Pass && OldCheckVersion(url) == Pass
      && '#' !in url && url == Normalize(href).value
  {
  }

  /** What the loop of `extend_urls_to_scrape` adds: every raw `href`
      (`None` included) that is not a recorded URL. */
  function Added(links: seq<Anchor>, scraped: set<string>): (added: set<Option<string>>)
    ensures forall h :: h in added ==> h.None? || h.value !in scraped
    ensures forall h :: h in added ==> exists k :: 0 <= k < |links| && links[k].href == h
    ensures forall k :: 0 <= k < |links| && (links[k].href.None? || links[k].href.value !in scraped)
                        ==> links[k].href in added
  {
    if |links| == 0 then {}
    else
      var last := links[|links| - 1];
      var prev := Added(links[..|links| - 1], scraped);
      if last.href.Some? && last.href.value in scraped then prev else prev + {last.href}
  }

  /** A link that climbs with `../` is queued again after its page was
      fetched: the URL recorded is the one without `../`. */
  lemma ClimbingLinkIsQueuedAgain(path: string, scraped: set<string>, classes: Option<seq<string>>,
                                  rel: Option<seq<string>>)
    requires !Contains(path, "../") && "../" + path !in scraped
    ensures Some("../" + path) in Added([Anchor(Some("../" + path), classes, rel)], scraped + {Dedot("../" + path)})
  {
    DedotDeletesParent(path);
  }

  /** How one iteration of the `while True` loop ended. */
  datatype OldStep =
    | Visited(href: Option<string>, slept: bool)
    | Skipped(href: Option<string>)      // `except self.Error`
    | NotFound(href: Option<string>)     // `except self.PageNotFoundException`
    | Crashed(exc: Exc)                  // an exception left `scrape_all`

  /** What the old `get_html` does to the crawler's state once it has
      planned `plan` for `href`, with `r` its result: `disk0`, `scraped0`
      and `files0` before, `disk1`, `scraped1` and `files1` after. Only a live reply changes anything: it records
      the de-dotted `href`, and the page is dumped unless it carries the
      soft-404 marker. The status code is never looked at. */
  ghost predicate OldFetchEffect(href: Option<string>, plan: Plan, server: string -> Crawler.Reply,
                                 disk0: map<string, string>, scraped0: set<string>, files0: set<string>,
                                 r: Outcome<Crawler.Fetched>,
                                 disk1: map<string, string>, scraped1: set<string>, files1: set<string>)
  {
    match plan
    case Refused(e) =>
      r == Raised(e) && disk1 == disk0 && scraped1 == scraped0 && files1 == files0
    case FromDisk(path) =>
      && path in disk0 && r == Ok(Crawler.Fetched(disk0[path], false))
      && disk1 == disk0 && scraped1 == scraped0 && files1 == files0
    case Request(url, path) =>
      match server(url)
      case ConnectionFailed =>
        r == Raised(RequestFailed) && disk1 == disk0 && scraped1 == scraped0 && files1 == files0
      case Reply(_, text) =>
        && href.Some? && scraped1 == scraped0 + {Dedot(href.value)}
        && if Contains(text, NOT_FOUND_MARKER) then
             r == Raised(PageNotFound) && disk1 == disk0 && files1 == files0
           else
             && r == Ok(Crawler.Fetched(text, true))
             && disk1 == disk0[path := text] && files1 == files0 + {path}
  }

  class OldScraper {
    /** The de-dotted URLs of the pages fetched live. */
    var alreadyScrapedUrls: set<string>
    var alreadyScrapedFiles: set<string>
    /** Raw `href` values, possibly `None`. */
    var urlsToScrape: set<Option<string>>
    var disk: map<string, string>
    const dumpDir: string

    ghost predicate Valid()
      reads this
    {
      alreadyScrapedFiles == Crawler.DumpedFiles(dumpDir, disk)
    }

    /** `__init__`: the dumped files are found; the frontier is the
        documentation root. */
    constructor (dumpDir: string, disk: map<string, string>)
      ensures this.dumpDir == dumpDir && this.disk == disk
      ensures alreadyScrapedUrls == {} && alreadyScrapedFiles == Crawler.DumpedFiles(dumpDir, disk)
      ensures urlsToScrape == {Some(DOCS_ROOT)}
      ensures Valid()
    {
      this.dumpDir := dumpDir;
      this.disk := disk;
      alreadyScrapedUrls := {};
      alreadyScrapedFiles := Crawler.DumpedFiles(dumpDir, disk);
      urlsToScrape := {Some(DOCS_ROOT)};
    }

    /** `get_html`: normalise and plan as `PlanFetch` does, then carry out
        the plan with the effect `OldFetchEffect` states. */
    method GetHtml(href: Option<string>, server: string -> Crawler.Reply) returns (r: Outcome<Crawler.Fetched>)
      requires Valid()
      modifies this
      ensures Valid() && urlsToScrape == old(urlsToScrape)
      ensures OldFetchEffect(href, PlanFetch(href, dumpDir, old(alreadyScrapedFiles)), server,
                             old(disk), old(alreadyScrapedUrls), old(alreadyScrapedFiles),
                             r, disk, alreadyScrapedUrls, alreadyScrapedFiles)
    {
      var plan := PlanFetch(href, dumpDir, alreadyScrapedFiles);
      r := CarryOut(href, plan, server);
    }

    /** The part of `get_html` after the checks: serve the dumped file, or
        request the page, record the de-dotted `href` and dump the page
        unless it carries the soft-404 marker. */
    method CarryOut(href: Option<string>, plan: Plan, server: string -> Crawler.Reply)
      returns (r: Outcome<Crawler.Fetched>)
      requires Valid()
      requires plan.FromDisk? ==> plan.path in alreadyScrapedFiles
      requires plan.Request? ==> href.Some? && plan.path == FilePath(dumpDir, plan.url)
      modifies this
      ensures Valid() && urlsToScrape == old(urlsToScrape)
      ensures OldFetchEffect(href, plan, server, old(disk), old(alreadyScrapedUrls), old(alreadyScrapedFiles),
                             r, disk, alreadyScrapedUrls, alreadyScrapedFiles)
    {
      match plan
      case Refused(e) =>
        return Raised(e);
      case FromDisk(path) =>
        return Ok(Crawler.Fetched(disk[path], false));
      case Request(url, path) =>
        var resp := server(url);
        if resp.ConnectionFailed? {
          return Raised(RequestFailed);
        }
        alreadyScrapedUrls := alreadyScrapedUrls + {Dedot(href.value)};
        if Contains(resp.text, NOT_FOUND_MARKER) {
          return Raised(PageNotFound);
        }
        Crawler.DumpingPageAddsFile(dumpDir, disk, url, resp.text);
        disk := disk[path := resp.text];
        alreadyScrapedFiles := alreadyScrapedFiles + {path};
        return Ok(Crawler.Fetched(resp.text, true));
    }

    /** `extend_urls_to_scrape`: each raw `href` is queued unless it is a
        recorded URL. */
    method ExtendUrlsToScrape(links: seq<Anchor>)
      modifies this
      ensures urlsToScrape == old(urlsToScrape) + Added(links, alreadyScrapedUrls)
      ensures alreadyScrapedUrls == old(alreadyScrapedUrls) && disk == old(disk)
      ensures alreadyScrapedFiles == old(alreadyScrapedFiles)
    {
      var i := 0;
      while i < |links|
        invariant 0 <= i <= |links|
        invariant urlsToScrape == old(urlsToScrape) + Added(links[..i], alreadyScrapedUrls)
        invariant alreadyScrapedUrls == old(alreadyScrapedUrls) && disk == old(disk)
        invariant alreadyScrapedFiles == old(alreadyScrapedFiles)
      {
        assert links[..i + 1][..i] == links[..i];
        var url := links[i].href;
        if !(url.Some? && url.value in alreadyScrapedUrls) {
          urlsToScrape := urlsToScrape + {links[i].href};
        }
        i := i + 1;
      }
      assert links[..i] == links;
    }

    /** One iteration of `while True`: pop (a `KeyError` on an empty
        frontier), get the page, queue its links, sleep after a live fetch.
        `popped` is the `href` taken from the frontier and `fetched` what
        `get_html` returned for it. */
    method ScrapeStep(server: string -> Crawler.Reply, parse: string -> seq<Anchor>)
      returns (s: OldStep, ghost popped: Option<string>, ghost fetched: Outcome<Crawler.Fetched>)
      requires Valid()
      modifies this
      ensures Valid()
      ensures old(urlsToScrape) == {} ==>
        s == Crashed(KeyError) && urlsToScrape == {} && disk == old(disk)
        && alreadyScrapedUrls == old(alreadyScrapedUrls) && alreadyScrapedFiles == old(alreadyScrapedFiles)
      ensures old(urlsToScrape) != {} ==>
        && popped in old(urlsToScrape)
        && OldFetchEffect(popped, PlanFetch(popped, dumpDir, old(alreadyScrapedFiles)), server,
                          old(disk), old(alreadyScrapedUrls), old(alreadyScrapedFiles),
                          fetched, disk, alreadyScrapedUrls, alreadyScrapedFiles)
      // A refused or missing page is dropped from the frontier; an `Error`
      // is skipped, a soft 404 is noted, anything else leaves the loop.
      ensures old(urlsToScrape) != {} && fetched.Raised? ==>
        && urlsToScrape == old(urlsToScrape) - {popped}
        && s == if fetched.exc.IsError() then Skipped(popped)
                else if fetched.exc == PageNotFound then NotFound(popped)
                else Crashed(fetched.exc)
      // A page that is got queues its links.
      ensures old(urlsToScrape) != {} && fetched.Ok? ==>
        && urlsToScrape == (old(urlsToScrape) - {popped}) + Added(parse(fetched.value.html), alreadyScrapedUrls)
        && s == Visited(popped, fetched.value.live)
    {
      if urlsToScrape == {} {
        return Crashed(KeyError), None, Raised(KeyError);
      }
      var href :| href in urlsToScrape;
      urlsToScrape := urlsToScrape - {href};
      var r := GetHtml(href, server);
      popped, fetched := href, r;
      if r.Raised? {
        if r.exc.IsError() {
          return Skipped(href), popped, fetched;
        } else if r.exc == PageNotFound {
          return NotFound(href), popped, fetched;
        }
        return Crashed(r.exc), popped, fetched;
      }
      ExtendUrlsToScrape(parse(r.value.html));
      return Visited(href, r.value.live), popped, fetched;
    }

    /** `scrape_all` for at most `steps` iterations. It has no normal exit:
        the loop runs until an exception leaves it, at the latest the
        `KeyError` of popping from an empty frontier. */
    method ScrapeAll(steps: nat, server: string -> Crawler.Reply, parse: string -> seq<Anchor>)
      returns (notFoundPages: set<Option<string>>, ran: nat, crashed: Option<Exc>)
      requires Valid()
      modifies this
      ensures Valid()
      ensures ran <= steps
      ensures crashed.None? ==> ran == steps
    {
      notFoundPages := {};
      ran := 0;
      while ran < steps
        invariant Valid() && ran <= steps
      {
        var s, _, _ := ScrapeStep(server, parse);
        ran := ran + 1;
        match s
        case Crashed(e) =>
          return notFoundPages, ran, Some(e);
        case NotFound(h) =>
          notFoundPages := notFoundPages + {h};
        case Skipped(_) =>
        case Visited(_, _) =>
      }
      return notFoundPages, ran, None;
    }
  }
}
