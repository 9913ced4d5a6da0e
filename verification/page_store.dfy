/** The persistent store of the newer crawler: the tables `Page`,
    `NotFoundURL`, `URLToVisit` and `HREFScraped`, and the two caches of URL
    sets that are refreshed only after a write has marked them invalid.
    The tables are the fields of one `Store` object; a table whose rows the
    code reads in primary-key order is a sequence, the `Page` table a map
    keyed by its unique URL. Timestamps are left out. */
module PageStore {
  import opened Wrappers

  /** A `Page` row without its key and timestamps. */
  datatype PageRow = PageRow(htmlContent: string, htmlContentHash: Option<string>, cleanedText: Option<string>)

  /** A `URLToVisit` row; `sourcePage` is the URL of the page it was found on. */
  datatype VisitRow = VisitRow(sourcePage: string, url: string, linkElement: string, processed: bool)

  /** An `INSERT`: it succeeds, or violates a unique constraint. */
  datatype Insert = Inserted | IntegrityError

  /** The `url` column of the rows. */
  function Urls(rows: seq<VisitRow>): set<string> {
    set r | r in rows :: r.url
  }

  /** The `url` column holds no value twice. */
  predicate UniqueUrls(rows: seq<VisitRow>) {
    forall i, j :: 0 <= i < j < |rows| ==> rows[i].url != rows[j].url
  }

  /** A text column holds no value twice. */
  predicate NoDuplicates(xs: seq<string>) {
    forall i, j :: 0 <= i < j < |xs| ==> xs[i] != xs[j]
  }

  /** The table after `mark_processed` on the row for `url`. */
  function WithProcessed(rows: seq<VisitRow>, url: string): (r: seq<VisitRow>)
    ensures |r| == |rows|
    ensures forall i :: 0 <= i < |rows| && rows[i].url != url ==> r[i] == rows[i]
    ensures forall i :: 0 <= i < |rows| && rows[i].url == url ==> r[i] == rows[i].(processed := true)
  {
    seq(|rows|, i requires 0 <= i < |rows| =>
      if rows[i].url == url then rows[i].(processed := true) else rows[i])
  }

  /** Marking twice is marking once. */
  lemma MarkProcessedIdempotent(rows: seq<VisitRow>, url: string)
    ensures WithProcessed(WithProcessed(rows, url), url) == WithProcessed(rows, url)
  {
  }

  /** Marking changes no URL, so neither the URL set nor its uniqueness. */
  lemma MarkProcessedKeepsUrls(rows: seq<VisitRow>, url: string)
    ensures Urls(WithProcessed(rows, url)) == Urls(rows)
    ensures UniqueUrls(rows) ==> UniqueUrls(WithProcessed(rows, url))
  {
    var r := WithProcessed(rows, url);
    forall u | u in Urls(r) ensures u in Urls(rows) {
      var k :| 0 <= k < |r| && r[k].url == u;
      assert rows[k] in rows;
    }
    forall u | u in Urls(rows) ensures u in Urls(r) {
      var k :| 0 <= k < |rows| && rows[k].url == u;
      assert r[k] in r;
    }
  }

  /** The position of the first unprocessed row, if any. */
  function FirstUnprocessedIndex(rows: seq<VisitRow>): (r: Option<nat>)
    ensures r.None? <==> forall i :: 0 <= i < |rows| ==> rows[i].processed
    ensures r.Some? ==> r.value < |rows| && !rows[r.value].processed
    ensures r.Some? ==> forall i :: 0 <= i < r.value ==> rows[i].processed
  {
    if |rows| == 0 then None
    else if !rows[0].processed then Some(0)
    else match FirstUnprocessedIndex(rows[1..])
      case None => None
      case Some(k) => Some(k + 1)
  }

  /** `filter(processed=False).first()`: the first unprocessed row in
      primary-key order, or `None`. */
  function FirstUnprocessed(rows: seq<VisitRow>): (r: Option<VisitRow>)
    ensures r.None? <==> forall i :: 0 <= i < |rows| ==> rows[i].processed
    ensures r.Some? ==> r.value in rows && !r.value.processed
  {
    match FirstUnprocessedIndex(rows)
    case None => None
    case Some(k) => Some(rows[k])
  }

  /** Once the row `url` is marked, the query no longer returns it. */
  lemma MarkedRowIsNotReturned(rows: seq<VisitRow>, url: string)
    requires UniqueUrls(rows)
    ensures var r := FirstUnprocessed(WithProcessed(rows, url));
      r.Some? ==> r.value.url != url
  {
  }

  /** The table after `HREFScraped.get_or_create(url)`. */
  function HrefsAfterGetOrCreate(hrefs: seq<string>, url: string): (r: seq<string>)
    ensures url in r
    ensures hrefs <= r
    ensures forall x :: x in r ==> x in hrefs || x == url
  {
    if url in hrefs then hrefs else hrefs + [url]
  }

  /** A second `get_or_create` with the same URL adds no row, and the
      column never holds a value twice. */
  lemma GetOrCreateIdempotent(hrefs: seq<string>, url: string)
    ensures HrefsAfterGetOrCreate(HrefsAfterGetOrCreate(hrefs, url), url) == HrefsAfterGetOrCreate(hrefs, url)
    ensures NoDuplicates(hrefs) ==> NoDuplicates(HrefsAfterGetOrCreate(hrefs, url))
    ensures |HrefsAfterGetOrCreate(hrefs, url)| <= |hrefs| + 1
  {
  }

  /** The four tables. */
  class Store {
    /** `Page`, keyed by its unique `url`. */
    var pages: map<string, PageRow>
    /** `NotFoundURL.url`, in primary-key order. */
    var notFoundUrls: seq<string>
    /** `URLToVisit`, in primary-key order. */
    var toVisit: seq<VisitRow>
    /** `HREFScraped.href_url`, in primary-key order. */
    var hrefs: seq<string>

    /** The constraints of the schema: unique URLs, and every `URLToVisit`
        points at an existing page; `HREFScraped` is only written through
        `get_or_create`, so it holds no URL twice. */
    ghost predicate Valid()
      reads this
    {
      && NoDuplicates(notFoundUrls)
      && UniqueUrls(toVisit)
      && (forall r :: r in toVisit ==> r.sourcePage in pages)
      && NoDuplicates(hrefs)
    }

    constructor ()
      ensures pages == map[] && notFoundUrls == [] && toVisit == [] && hrefs == []
      ensures Valid()
    {
      pages := map[];
      notFoundUrls := [];
      toVisit := [];
      hrefs := [];
    }

    /** `Page.all_scraped_urls` */
    function AllScrapedUrls(): set<string>
      reads this
    {
      pages.Keys
    }

    /** `URLToVisit.all` */
    function AllToVisit(): set<string>
      reads this
    {
      Urls(toVisit)
    }

    /** `NotFoundURL.all_not_found_urls` */
    function AllNotFoundUrls(): seq<string>
      reads this
    {
      notFoundUrls
    }

    /** `Page.get_page_by_url`: the row, or `None` when there is none. */
    function GetPageByUrl(url: string): (r: Option<PageRow>)
      reads this
      ensures r.None? <==> url !in AllScrapedUrls()
    {
      if url in pages then Some(pages[url]) else None
    }

    /** `Page.create`: insert the page with the hex digest of its content
        (`digest` stands for SHA-256 over the UTF-8 bytes); the cache is
        marked invalid only once the insert has succeeded. */
    method CreatePage(url: string, htmlContent: string, digest: string -> string, cache: ScrapedUrlsCache)
      returns (r: Insert)
      requires Valid()
      modifies this, cache
      ensures Valid()
      ensures r == (if url in old(pages) then IntegrityError else Inserted)
      ensures r.Inserted? ==> pages == old(pages)[url := PageRow(htmlContent, Some(digest(htmlContent)), None)]
      ensures r.Inserted? ==> GetPageByUrl(url) == Some(PageRow(htmlContent, Some(digest(htmlContent)), None))
      ensures r.Inserted? ==> AllScrapedUrls() == old(AllScrapedUrls()) + {url}
      ensures r.IntegrityError? ==> pages == old(pages)
      ensures cache.invalidated == (r.Inserted? || old(cache.invalidated))
      ensures cache.cachedUrls == old(cache.cachedUrls)
      ensures notFoundUrls == old(notFoundUrls) && toVisit == old(toVisit) && hrefs == old(hrefs)
      // The cache never goes stale through this write.
      ensures old(cache.Coherent(this)) ==> cache.Coherent(this)
    {
      if url in pages {
        return IntegrityError;
      }
      pages := pages[url := PageRow(htmlContent, Some(digest(htmlContent)), None)];
      cache.invalidated := true;
      return Inserted;
    }

    /** `Page.add_extracted_text` */
    method AddExtractedText(url: string, text: string)
      requires Valid() && url in pages
      modifies this
      ensures Valid()
      ensures pages == old(pages)[url := old(pages)[url].(cleanedText := Some(text))]
      ensures AllScrapedUrls() == old(AllScrapedUrls())
      ensures notFoundUrls == old(notFoundUrls) && toVisit == old(toVisit) && hrefs == old(hrefs)
    {
      pages := pages[url := pages[url].(cleanedText := Some(text))];
    }

    /** `URLToVisit.create`: the cache is marked invalid first, so even an
        insert that fails on the unique `url` leaves it marked. */
    method CreateUrlToVisit(sourcePage: string, url: string, link: string, cache: UrlToVisitCache)
      returns (r: Insert)
      requires Valid() && sourcePage in pages
      modifies this, cache
      ensures Valid()
      ensures cache.invalidated && cache.cachedUrls == old(cache.cachedUrls)
      ensures r == (if url in old(AllToVisit()) then IntegrityError else Inserted)
      ensures r.Inserted? ==> toVisit == old(toVisit) + [VisitRow(sourcePage, url, link, false)]
      ensures r.Inserted? ==> AllToVisit() == old(AllToVisit()) + {url}
      ensures r.IntegrityError? ==> toVisit == old(toVisit)
      ensures pages == old(pages) && notFoundUrls == old(notFoundUrls) && hrefs == old(hrefs)
    {
      cache.invalidated := true;
      if url in Urls(toVisit) {
        return IntegrityError;
      }
      var row := VisitRow(sourcePage, url, link, false);
      forall i | 0 <= i < |toVisit| ensures toVisit[i].url != url {
        assert toVisit[i] in toVisit;
      }
      toVisit := toVisit + [row];
      assert Urls(toVisit) == old(Urls(toVisit)) + {url} by {
        forall u | u in Urls(toVisit) ensures u in old(Urls(toVisit)) + {url} {
          var x :| x in toVisit && x.url == u;
          if x != row {
            assert x in old(toVisit);
          }
        }
      }
      return Inserted;
    }

    /** `mark_processed` on the row for `url`. */
    method MarkProcessed(url: string)
      requires Valid() && url in AllToVisit()
      modifies this
      ensures Valid()
      ensures toVisit == WithProcessed(old(toVisit), url)
      ensures AllToVisit() == old(AllToVisit())
      ensures pages == old(pages) && notFoundUrls == old(notFoundUrls) && hrefs == old(hrefs)
    {
      MarkProcessedKeepsUrls(toVisit, url);
      toVisit := WithProcessed(toVisit, url);
    }

    /** `URLToVisit.get_one_not_processed`: scan the rows in primary-key
        order for the first one not yet processed. */
    method GetOneNotProcessed() returns (r: Option<VisitRow>)
      ensures r == FirstUnprocessed(toVisit)
      ensures r.None? <==> forall i :: 0 <= i < |toVisit| ==> toVisit[i].processed
      ensures r.Some? ==> r.value in toVisit && !r.value.processed
    {
      var i := 0;
      while i < |toVisit|
        invariant 0 <= i <= |toVisit|
        invariant FirstUnprocessed(toVisit) == FirstUnprocessed(toVisit[i..])
      {
        if !toVisit[i].processed {
          return Some(toVisit[i]);
        }
        assert toVisit[i..][1..] == toVisit[i + 1..];
        i := i + 1;
      }
      return None;
    }

    /** `HREFScraped.get_or_create` */
    method HrefGetOrCreate(url: string)
      requires Valid()
      modifies this
      ensures Valid()
      ensures hrefs == HrefsAfterGetOrCreate(old(hrefs), url)
      ensures pages == old(pages) && notFoundUrls == old(notFoundUrls) && toVisit == old(toVisit)
    {
      GetOrCreateIdempotent(hrefs, url);
      if url !in hrefs {
        hrefs := hrefs + [url];
      }
    }
  }

  /** `ScrapedURLsCache`: a snapshot of the page URLs, refreshed on the
      first read after it was marked invalid. Until the first refresh it
      has no snapshot at all (reading it then is an `AttributeError`). */
  class ScrapedUrlsCache {
    var invalidated: bool
    var cachedUrls: Option<set<string>>

    constructor (invalidated: bool := true)
      ensures this.invalidated == invalidated && cachedUrls == None
    {
      this.invalidated := invalidated;
      cachedUrls := None;
    }

    /** A valid snapshot is the current set of page URLs. */
    ghost predicate Coherent(store: Store)
      reads this, store
    {
      !invalidated ==> cachedUrls == Some(store.pages.Keys)
    }

    /** `get_all`; `None` stands for the `AttributeError`. */
    method GetAll(store: Store) returns (urls: Option<set<string>>)
      modifies this
      ensures !invalidated && urls == cachedUrls
      ensures old(invalidated) ==> cachedUrls == Some(store.AllScrapedUrls())
      ensures !old(invalidated) ==> cachedUrls == old(cachedUrls)
      ensures Coherent(store) == old(invalidated || Coherent(store))
      ensures old(Coherent(store)) ==> urls == Some(store.AllScrapedUrls())
    {
      if invalidated {
        cachedUrls := Some(store.AllScrapedUrls());
        invalidated := false;
      }
      return cachedUrls;
    }
  }

  /** `URLToVisitCache`: the same refresh rule over the URLs to visit. */
  class UrlToVisitCache {
    var invalidated: bool
    var cachedUrls: Option<set<string>>

    constructor (invalidated: bool := true)
      ensures this.invalidated == invalidated && cachedUrls == None
    {
      this.invalidated := invalidated;
      cachedUrls := None;
    }

    /** A valid snapshot is the current set of URLs to visit. */
    ghost predicate Coherent(store: Store)
      reads this, store
    {
      !invalidated ==> cachedUrls == Some(Urls(store.toVisit))
    }

    /** `get_all`; `None` stands for the `AttributeError`. */
    method GetAll(store: Store) returns (urls: Option<set<string>>)
      modifies this
      ensures !invalidated && urls == cachedUrls
      ensures old(invalidated) ==> cachedUrls == Some(store.AllToVisit())
      ensures !old(invalidated) ==> cachedUrls == old(cachedUrls)
      ensures Coherent(store) == old(invalidated || Coherent(store))
      ensures old(Coherent(store)) ==> urls == Some(store.AllToVisit())
    {
      if invalidated {
        cachedUrls := Some(store.AllToVisit());
        invalidated := false;
      }
      return cachedUrls;
    }
  }
}
