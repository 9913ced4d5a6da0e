/** The stateful side of the documentation crawler `HTMLScraper`: the three
    sets it keeps in memory, the files it reads and writes, and the crawl
    loop over the frontier. The network is the oracle `server`, the HTML
    parser the oracle `parse`, and `urljoin` stays an uninterpreted
    function. The disk is a map from file path to content. */
module HtmlScraper {
  import opened Wrappers
  import opened Strings
  import opened Exceptions
  import opened HtmlScraperRules

  /** What `requests.get` produces: a reply with a status code and a body,
      or a failure of the request itself. */
  datatype Reply = Reply(status: int, text: string) | ConnectionFailed

  /** The pair `get_html` returns: the page text, and whether it was
      fetched live (`True`) or read from a dumped file (`False`). */
  datatype Fetched = Fetched(html: string, live: bool)

  /** How one iteration of the `scrape_all` loop ended. */
  datatype StepResult =
    | Visited(url: string, slept: bool)  // the page was processed
    | Skipped(url: string)               // `except self.Error`
    | NotFound(url: string)              // `except self.PageNotFoundException`
    | Crashed(url: string, exc: Exc)     // an exception left `scrape_all`

  /** `file` lies directly inside the directory `dir`. */
  predicate InDir(dir: string, file: string) {
    StartsWith(file, dir + "/") && '/' !in file[|dir| + 1..]
  }

  /** What `find_already_scraped_files` finds: the `.html` files directly
      inside the dump directory. */
  function DumpedFiles(dumpDir: string, disk: map<string, string>): (files: set<string>)
    ensures files <= disk.Keys
    ensures forall f :: f in files ==> InDir(dumpDir, f) && EndsWith(f, ".html")
  {
    set f | f in disk && InDir(dumpDir, f) && EndsWith(f, ".html")
  }

  /** Every page file is a `.html` file directly inside the dump directory,
      and the not-found list never is one. */
  lemma PageFileIsDumpedFile(dumpDir: string, url: string)
    ensures InDir(dumpDir, FilePath(dumpDir, url)) && EndsWith(FilePath(dumpDir, url), ".html")
    ensures !InDir(dumpDir, NOT_FOUND_FILE)
  {
    var f := FilePath(dumpDir, url);
    assert f[|dumpDir| + 1..] == FileStem(url) + ".html";
    assert f[..|dumpDir| + 1] == dumpDir + "/";
    assert f[|f| - 5..] == ".html";
    NoSlashNotInDir(dumpDir, NOT_FOUND_FILE);
  }

  /** Dumping a page adds its file, and only it, to the dumped files. */
  lemma DumpingPageAddsFile(dumpDir: string, disk: map<string, string>, url: string, text: string)
    ensures var fp := FilePath(dumpDir, url);
      DumpedFiles(dumpDir, disk[fp := text]) == DumpedFiles(dumpDir, disk) + {fp}
  {
    PageFileIsDumpedFile(dumpDir, url);
  }

  /** A name without a slash is never inside a directory. */
  lemma NoSlashNotInDir(dir: string, file: string)
    requires '/' !in file
    ensures !InDir(dir, file)
  {
    if |dir| + 1 <= |file| {
      assert file[..|dir| + 1][|dir|] == file[|dir|];
    }
  }

  /** A page dumped in an earlier run is found again by a new crawler on the
      same disk, so it is served from the file rather than fetched. */
  lemma DumpedPageIsFoundAgain(dumpDir: string, url: string, disk: map<string, string>)
    requires FilePath(dumpDir, url) in disk
    ensures FilePath(dumpDir, url) in DumpedFiles(dumpDir, disk)
  {
    PageFileIsDumpedFile(dumpDir, url);
  }

  /** Writing the not-found list leaves the set of dumped files as it is. */
  lemma NotFoundListIsNoDumpedFile(dumpDir: string, disk: map<string, string>, text: string)
    ensures DumpedFiles(dumpDir, disk[NOT_FOUND_FILE := text]) == DumpedFiles(dumpDir, disk)
  {
    PageFileIsDumpedFile(dumpDir, "");
  }

  /** `set(a + b)` is `set(a) | set(b)`. */
  lemma SetOfConcat(a: seq<string>, b: seq<string>)
    ensures SetOf(a + b) == SetOf(a) + SetOf(b)
  {
    forall p | p in SetOf(a + b) ensures p in SetOf(a) + SetOf(b) {
      assert p in a + b;
    }
    forall p | p in SetOf(a) + SetOf(b) ensures p in SetOf(a + b) {
      assert p in a + b;
    }
  }

  /** `sep.join(items)` over a set: Python picks some iteration order, so
      the pieces are taken in an arbitrary order here. Whatever the order,
      splitting the text again yields the pieces of the items. */
  method JoinSet(items: set<string>, sep: char) returns (text: string)
    ensures items != {} ==> SetOf(Split(text, [sep])) == Pieces(items, sep)
    ensures items == {} ==> text == ""
  {
    text := "";
    var rest := items;
    while rest != {}
      invariant rest <= items && JoinedSoFar(items, rest, text, sep)
      decreases |rest|
    {
      var x :| x in rest;
      JoinOneMore(items, rest, text, x, sep);
      text := if rest == items then x else text + [sep] + x;
      rest := rest - {x};
    }
    assert items - rest == items;
  }

  /** The loop invariant of `JoinSet`: `text` joins the items taken so far. */
  ghost predicate JoinedSoFar(items: set<string>, rest: set<string>, text: string, sep: char) {
    && (rest == items ==> text == "")
    && (rest != items ==> SetOf(Split(text, [sep])) == Pieces(items - rest, sep))
  }

  lemma JoinOneMore(items: set<string>, rest: set<string>, text: string, x: string, sep: char)
    requires rest <= items && x in rest && JoinedSoFar(items, rest, text, sep)
    ensures JoinedSoFar(items, rest - {x}, if rest == items then x else text + [sep] + x, sep)
  {
    var done := items - rest;
    assert items - (rest - {x}) == done + {x};
    if rest == items {
      assert done == {};
      PiecesAdd({}, x, sep);
    } else {
      JoinStep(text, x, done, sep);
    }
  }

  /** One more item joined on the right adds its pieces. */
  lemma JoinStep(text: string, x: string, done: set<string>, sep: char)
    requires SetOf(Split(text, [sep])) == Pieces(done, sep)
    ensures SetOf(Split(text + [sep] + x, [sep])) == Pieces(done + {x}, sep)
  {
    SplitConcatChar(text, x, sep);
    SetOfConcat(Split(text, [sep]), Split(x, [sep]));
    PiecesAdd(done, x, sep);
  }

  /** Collecting the pieces distributes over adding one more item. */
  lemma PiecesAdd(items: set<string>, x: string, sep: char)
    ensures Pieces(items + {x}, sep) == Pieces(items, sep) + SetOf(Split(x, [sep]))
  {
    forall p | p in Pieces(items + {x}, sep) ensures p in Pieces(items, sep) + SetOf(Split(x, [sep])) {
      var y :| y in items + {x} && p in Split(y, [sep]);
    }
    forall p | p in SetOf(Split(x, [sep])) ensures p in Pieces(items + {x}, sep) {
      assert p in Split(x, [sep]);
    }
  }

  /** The round trip of the not-found list: writing any join of the old
      list plus `url` and reading it back gives the old list plus the
      `;`-pieces of `url`, which is `url` itself when it holds no `;`. */
  lemma NotFoundListRoundTrip(disk: map<string, string>, url: string, text: string)
    requires SetOf(Split(text, [';'])) == Pieces(NotFoundUrls(disk) + {url}, ';')
    ensures NotFoundUrls(disk[NOT_FOUND_FILE := text]) == NotFoundUrls(disk) + SetOf(Split(url, ";"))
    ensures ';' !in url ==> NotFoundUrls(disk[NOT_FOUND_FILE := text]) == NotFoundUrls(disk) + {url}
  {
    PiecesOfStoredSet(NotFoundUrls(disk), url);
    assert ";" == [';'];
    if ';' !in url {
      NoOccurrence(url, ";");
      assert SetOf([url]) == {url};
    }
  }

  /** What `get_html` does to the crawler's state, with `r` its result:
      `disk0`, `scraped0` and `files0` are the disk, the scraped URLs and
      the known page files before, `disk1`, `scraped1` and `files1` after.
      A known page file is read with no request; otherwise the reply
      decides: a failed request changes nothing; an error status changes
      only the not-found list, and only for a 404; a live page marks the
      URL as scraped, and is dumped to its file unless it carries the
      soft-404 marker. */
  ghost predicate FetchEffect(dumpDir: string, url: string, server: string -> Reply,
                              disk0: map<string, string>, scraped0: set<string>, files0: set<string>,
                              r: Outcome<Fetched>,
                              disk1: map<string, string>, scraped1: set<string>, files1: set<string>)
  {
    var fp := FilePath(dumpDir, url);
    if fp in files0 then
      && fp in disk0 && r == Ok(Fetched(disk0[fp], false))
      && disk1 == disk0 && scraped1 == scraped0 && files1 == files0
    else match server(url)
      case ConnectionFailed =>
        && r == Raised(RequestFailed)
        && disk1 == disk0 && scraped1 == scraped0 && files1 == files0
      case Reply(status, text) =>
        if 400 <= status < 600 then
          && r == Raised(HTTPError(status))
          && scraped1 == scraped0 && files1 == files0
          && if status == 404 then
               && NOT_FOUND_FILE in disk1 && disk1 == disk0[NOT_FOUND_FILE := disk1[NOT_FOUND_FILE]]
               && NotFoundUrls(disk1) == NotFoundUrls(disk0) + SetOf(Split(url, ";"))
             else disk1 == disk0
        else if Contains(text, NOT_FOUND_MARKER) then
          && r == Raised(ValueError)
          && disk1 == disk0 && scraped1 == scraped0 + {url} && files1 == files0
        else
          && r == Ok(Fetched(text, true))
          && disk1 == disk0[fp := text] && scraped1 == scraped0 + {url} && files1 == files0 + {fp}
  }

  class Scraper {
    /** `already_scraped_urls`: the URLs fetched live in this run. */
    var alreadyScrapedUrls: set<string>
    /** `already_scraped_files`: the page files known to be on disk. */
    var alreadyScrapedFiles: set<string>
    /** `urls_to_scrape`: the frontier. */
    var urlsToScrape: set<string>
    /** The file system: path to content. */
    var disk: map<string, string>
    /** The directory the pages are dumped to. */
    const dumpDir: string
    /** The URL the crawl starts from. */
    ghost const seed: string

    /** The crawler's invariant: the file record matches the dump directory;
        the frontier holds the seed and otherwise only fragment-free URLs on
        the documentation domain; no URL fetched live is queued again. */
    ghost predicate Valid()
      reads this
    {
      && alreadyScrapedFiles == DumpedFiles(dumpDir, disk)
      && (forall u :: u in urlsToScrape ==> u == seed || (StartsWith(u, BASE_URL) && '#' !in u))
      && urlsToScrape !! alreadyScrapedUrls
    }

    /** `__init__`: the files already dumped are found; the frontier is
        `baseUrl` when it is given and non-empty, else the documentation
        root. */
    constructor (baseUrl: Option<string>, dumpDir: string, disk: map<string, string>)
      ensures this.dumpDir == dumpDir && this.disk == disk
      ensures alreadyScrapedUrls == {}
      ensures alreadyScrapedFiles == DumpedFiles(dumpDir, disk)
      ensures urlsToScrape == if baseUrl.Some? && baseUrl.value != "" then {baseUrl.value} else {DOCS_ROOT}
      ensures Valid()
    {
      this.dumpDir := dumpDir;
      this.disk := disk;
      alreadyScrapedUrls := {};
      alreadyScrapedFiles := DumpedFiles(dumpDir, disk);
      if baseUrl.Some? && baseUrl.value != "" {
        urlsToScrape := {baseUrl.value};
        seed := baseUrl.value;
      } else {
        urlsToScrape := {DOCS_ROOT};
        seed := DOCS_ROOT;
      }
    }

    /** `add_to_404_urls`: read the list, add `url`, write it back joined
        with `;`. Read back, the list is the old one plus `url` (plus its
        pieces, should `url` itself hold a `;`). */
    method AddTo404Urls(url: string)
      modifies this
      ensures NOT_FOUND_FILE in disk && disk == old(disk)[NOT_FOUND_FILE := disk[NOT_FOUND_FILE]]
      ensures NotFoundUrls(disk) == NotFoundUrls(old(disk)) + SetOf(Split(url, ";"))
      ensures ';' !in url ==> NotFoundUrls(disk) == NotFoundUrls(old(disk)) + {url}
      ensures alreadyScrapedUrls == old(alreadyScrapedUrls) && urlsToScrape == old(urlsToScrape)
      ensures alreadyScrapedFiles == old(alreadyScrapedFiles)
    {
      var notFoundUrls := NotFoundUrls(disk) + {url};
      var text := JoinSet(notFoundUrls, ';');
      NotFoundListRoundTrip(disk, url, text);
      disk := disk[NOT_FOUND_FILE := text];
    }

    /** `get_html`, with the effect `FetchEffect` states. */
    method GetHtml(url: string, server: string -> Reply) returns (r: Outcome<Fetched>)
      requires Valid() && url !in urlsToScrape
      modifies this
      ensures Valid() && urlsToScrape == old(urlsToScrape)
      ensures FetchEffect(dumpDir, url, server, old(disk), old(alreadyScrapedUrls), old(alreadyScrapedFiles),
                          r, disk, alreadyScrapedUrls, alreadyScrapedFiles)
      // Nothing `get_html` raises is caught by either handler of `scrape_all`.
      ensures r.Raised? ==> !r.exc.IsError() && r.exc != PageNotFound
    {
      var fp := FilePath(dumpDir, url);
      if fp in alreadyScrapedFiles {
        return Ok(Fetched(disk[fp], false));
      }
      var resp := server(url);
      if resp.ConnectionFailed? {
        return Raised(RequestFailed);
      }
      if resp.status == 404 {
        ghost var before := disk;
        AddTo404Urls(url);
        NotFoundListIsNoDumpedFile(dumpDir, before, disk[NOT_FOUND_FILE]);
      }
      if 400 <= resp.status < 600 {
        return Raised(HTTPError(resp.status));
      }
      alreadyScrapedUrls := alreadyScrapedUrls + {url};
      if Contains(resp.text, NOT_FOUND_MARKER) {
        return Raised(ValueError);
      }
      DumpingPageAddsFile(dumpDir, disk, url, resp.text);
      disk := disk[fp := resp.text];
      alreadyScrapedFiles := alreadyScrapedFiles + {fp};
      return Ok(Fetched(resp.text, true));
    }

    /** `extend_urls_to_scrape`: every link is triaged in order; the
        frontier grows by the URLs `Extend` adds, and the loop stops at the
        first exception that is not an `Error`. */
    method ExtendUrlsToScrape(links: seq<Anchor>, pageUrl: string, urljoin: (string, string) -> string)
      returns (escaped: Option<Exc>)
      requires Valid()
      modifies this
      ensures Valid()
      ensures var ext := Extend(links, pageUrl, NotFoundUrls(disk), alreadyScrapedUrls, urljoin);
        urlsToScrape == old(urlsToScrape) + ext.added && escaped == ext.escaped
      ensures disk == old(disk) && alreadyScrapedUrls == old(alreadyScrapedUrls)
      ensures alreadyScrapedFiles == old(alreadyScrapedFiles)
    {
      var notFound := NotFoundUrls(disk);
      var i := 0;
      while i < |links|
        invariant 0 <= i <= |links| && Valid()
        invariant disk == old(disk) && alreadyScrapedUrls == old(alreadyScrapedUrls)
        invariant alreadyScrapedFiles == old(alreadyScrapedFiles)
        invariant var ext := Extend(links[..i], pageUrl, notFound, alreadyScrapedUrls, urljoin);
          urlsToScrape == old(urlsToScrape) + ext.added && ext.escaped == None
      {
        assert links[..i + 1][..i] == links[..i];
        var fate := Triage(links[i], pageUrl, notFound, alreadyScrapedUrls, urljoin);
        if fate.Escape? {
          ExtendStopsAtEscape(links, i + 1, pageUrl, notFound, alreadyScrapedUrls, urljoin);
          return Some(fate.exc);
        } else if fate.Enqueue? {
          ExtendAddsFreshDocsUrls(links[..i + 1], pageUrl, notFound, alreadyScrapedUrls, urljoin, fate.url);
          urlsToScrape := urlsToScrape + {fate.url};
        }
        i := i + 1;
      }
      assert links[..i] == links;
      return None;
    }

    /** One iteration of `scrape_all`: pop a URL, get its page, extend the
        frontier with the page's links; sleep only after a live fetch.
        `fetched` is what `get_html` returned for the popped URL. */
    method ScrapeStep(server: string -> Reply, parse: string -> seq<Anchor>,
                      urljoin: (string, string) -> string) returns (s: StepResult, ghost fetched: Outcome<Fetched>)
      requires Valid() && urlsToScrape != {}
      modifies this
      ensures Valid()
      ensures s.url in old(urlsToScrape)
      ensures FetchEffect(dumpDir, s.url, server, old(disk), old(alreadyScrapedUrls), old(alreadyScrapedFiles),
                          fetched, disk, alreadyScrapedUrls, alreadyScrapedFiles)
      // Whatever `get_html` raises leaves the loop; a page is searched for
      // links up to the first one that raises something other than an `Error`.
      ensures fetched.Raised? ==>
        s == Crashed(s.url, fetched.exc) && urlsToScrape == old(urlsToScrape) - {s.url}
      ensures fetched.Ok? ==>
        var ext := Extend(parse(fetched.value.html), s.url, NotFoundUrls(disk), alreadyScrapedUrls, urljoin);
        && urlsToScrape == (old(urlsToScrape) - {s.url}) + ext.added
        && s == if ext.escaped.Some? then Crashed(s.url, ext.escaped.value) else Visited(s.url, fetched.value.live)
      // A live fetch is slept after and is never queued again; a page read
      // from disk is not recorded as scraped, so its links may queue it anew.
      ensures s.Visited? ==> (s.slept <==> s.url in alreadyScrapedUrls)
      ensures s.Visited? && s.slept ==> s.url !in urlsToScrape
      // The two handlers of the loop never fire.
      ensures !s.Skipped? && !s.NotFound?
    {
      var url :| url in urlsToScrape;
      urlsToScrape := urlsToScrape - {url};
      var r := GetHtml(url, server);
      fetched := r;
      if r.Raised? {
        if r.exc.IsError() {
          return Skipped(url), fetched;
        } else if r.exc == PageNotFound {
          return NotFound(url), fetched;
        }
        return Crashed(url, r.exc), fetched;
      }
      var escaped := ExtendUrlsToScrape(parse(r.value.html), url, urljoin);
      if escaped.Some? {
        return Crashed(url, escaped.value), fetched;
      }
      return Visited(url, r.value.live), fetched;
    }

    /** `scrape_all`, for at most `steps` iterations (the loop itself need
        not end: pages served from disk are queued again by their
        neighbours). It stops early when the frontier is empty or an
        exception escapes; the set of not-found pages it prints is always
        empty, as neither of its handlers can fire. */
    method ScrapeAll(steps: nat, server: string -> Reply, parse: string -> seq<Anchor>,
                     urljoin: (string, string) -> string)
      returns (notFoundPages: set<string>, ran: nat, crashed: Option<Exc>)
      requires Valid()
      modifies this
      ensures Valid()
      ensures notFoundPages == {}
      ensures ran <= steps
      ensures crashed.None? ==> urlsToScrape == {} || ran == steps
    {
      notFoundPages := {};
      ran := 0;
      while ran < steps && urlsToScrape != {}
        invariant Valid() && ran <= steps && notFoundPages == {}
      {
        var s, _ := ScrapeStep(server, parse, urljoin);
        ran := ran + 1;
        match s
        case Crashed(_, e) =>
          return notFoundPages, ran, Some(e);
        case NotFound(u) =>
          notFoundPages := notFoundPages + {u};
        case Skipped(_) =>
        case Visited(_, _) =>
      }
      return notFoundPages, ran, None;
    }
  }
}
