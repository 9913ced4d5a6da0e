/** The pure part of the documentation crawler `HTMLScraper`: its constants,
    the URL-to-file mapping, the text format of the not-found list, the scope
    validators and the link resolver `make_full_valid_url`, and the fate of
    each link in `extend_urls_to_scrape`. */
module HtmlScraperRules {
  import opened Wrappers
  import opened Strings
  import opened Exceptions

  const BASE_URL: string := "https://docs.djangoproject.com"
  const LANG: string := "en"
  const VERSION: string := "6.0"
  const DOCS_ROOT: string := BASE_URL + "/" + LANG + "/" + VERSION
  /** The file, relative to the working directory, that lists known 404 URLs. */
  const NOT_FOUND_FILE: string := "404_urls.txt"
  /** The phrase by which the site's "page not found" page is recognised. */
  const NOT_FOUND_MARKER: string :=
    "Looks like you followed a bad link. If you think it's our fault, please"

  // ---------------------------------------------------------------------
  // url_to_filepath

  /** The file name stem: `//`, then `/`, `.` and `:` replaced by `_`. The
      stem is a single path component without dots or colons, so the
      `.html` suffix is the only extension of the file. */
  function FileStem(url: string): (r: string)
    ensures '/' !in r && '.' !in r && ':' !in r
  {
    var s1 := Replace(url, "//", "_");
    var s2 := Replace(s1, "/", "_");
    var s3 := Replace(s2, ".", "_");
    ReplaceRemovesChar(s1, '/', "_");
    ReplaceRemovesChar(s2, '.', "_");
    ReplaceKeepsAbsent(s2, ".", "_", '/');
    ReplaceRemovesChar(s3, ':', "_");
    ReplaceKeepsAbsent(s3, ":", "_", '/');
    ReplaceKeepsAbsent(s3, ":", "_", '.');
    Replace(s3, ":", "_")
  }

  /** Where the page at `url` is dumped inside the directory `dumpDir`: a
      `.html` file directly inside it, and never the not-found list. */
  function FilePath(dumpDir: string, url: string): (r: string)
    ensures StartsWith(r, dumpDir + "/") && '/' !in r[|dumpDir| + 1..]
    ensures EndsWith(r, ".html") && r != NOT_FOUND_FILE
  {
    var stem := FileStem(url);
    PageFileShape(dumpDir, stem);
    dumpDir + "/" + stem + ".html"
  }

  /** A `/`-free stem with the `.html` suffix, inside `dumpDir`. */
  lemma PageFileShape(dumpDir: string, stem: string)
    requires '/' !in stem
    ensures var r := dumpDir + "/" + stem + ".html";
      StartsWith(r, dumpDir + "/") && '/' !in r[|dumpDir| + 1..] &&
      EndsWith(r, ".html") && r != NOT_FOUND_FILE
  {
    var r := dumpDir + "/" + stem + ".html";
    assert r[..|dumpDir| + 1] == dumpDir + "/";
    assert r[|dumpDir| + 1..] == stem + ".html";
    assert r[|r| - 5..] == ".html";
    assert r[|r| - 1] == 'l' != NOT_FOUND_FILE[|NOT_FOUND_FILE| - 1];
  }

  /** The mapping is not injective: wherever a dot stands in a URL, an
      underscore gives the same file. */
  lemma FileStemCollides(a: string, b: string)
    requires '/' !in a && '.' !in a && ':' !in a
    requires '/' !in b && '.' !in b && ':' !in b
    ensures FileStem(a + "." + b) == FileStem(a + "_" + b) == a + "_" + b
  {
    var dotted := a + "." + b;
    var plain := a + "_" + b;
    NoOccurrence(dotted, "//");
    NoOccurrence(dotted, "/");
    NoOccurrence(plain, "//");
    NoOccurrence(plain, "/");
    NoOccurrence(plain, ".");
    NoOccurrence(plain, ":");
    assert Replace(dotted, "//", "_") == dotted;
    assert Replace(dotted, "/", "_") == dotted;
    assert dotted == a + ['.'] + b;
    SplitConcatChar(a, b, '.');
    NoOccurrence(a, ".");
    NoOccurrence(b, ".");
    assert Split(dotted, ".") == [a, b];
    assert [a, b][1..] == [b];
    assert Join([a, b], "_") == a + "_" + b;
    assert Replace(dotted, ".", "_") == plain;
    assert Replace(plain, "//", "_") == plain;
    assert Replace(plain, "/", "_") == plain;
    assert Replace(plain, ".", "_") == plain;
    assert Replace(plain, ":", "_") == plain;
  }

  /** A text without any character of `pat` is left alone by a split on it. */
  lemma NoOccurrence(s: string, pat: string)
    requires |pat| > 0 && pat[0] !in s
    ensures Split(s, pat) == [s]
  {
    forall j ensures !OccursAt(s, pat, j) {
      if 0 <= j && j + |pat| <= |s| {
        assert s[j..j + |pat|][0] == s[j];
      }
    }
  }

  // ---------------------------------------------------------------------
  // get_404_urls

  /** What `get_404_urls` returns for the files on `disk`: the `;`-separated
      pieces of the list file, or nothing when the file is missing. Every
      URL read back is free of the separator. */
  function NotFoundUrls(disk: map<string, string>): (r: set<string>)
    ensures NOT_FOUND_FILE !in disk ==> r == {}
    ensures forall u :: u in r ==> ';' !in u
  {
    if NOT_FOUND_FILE in disk then
      var parts := Split(disk[NOT_FOUND_FILE], ";");
      SplitPartsFree(disk[NOT_FOUND_FILE], ";");
      assert ";" == [';'];
      assert forall k :: 0 <= k < |parts| ==> ';' !in parts[k] by {
        forall k | 0 <= k < |parts| ensures ';' !in parts[k] {
          ContainsChar(parts[k], ';');
        }
      }
      SetOf(parts)
    else {}
  }

  /** The set of all pieces of all the given texts, split on `sep`. */
  function Pieces(items: set<string>, sep: char): set<string> {
    set x, p | x in items && p in Split(x, [sep]) :: p
  }

  /** Adding a separator-free URL to a set read back from the list adds
      exactly that URL to the pieces. */
  lemma PiecesOfStoredSet(stored: set<string>, u: string)
    requires forall x :: x in stored ==> ';' !in x
    ensures Pieces(stored + {u}, ';') == stored + SetOf(Split(u, ";"))
  {
    var lhs := Pieces(stored + {u}, ';');
    var rhs := stored + SetOf(Split(u, ";"));
    assert ";" == [';'];
    forall x | x in stored ensures Split(x, ";") == [x] {
      NoOccurrence(x, ";");
    }
    forall p | p in lhs ensures p in rhs {
      var x :| x in stored + {u} && p in Split(x, [';']);
      if x in stored {
        assert Split(x, [';']) == [x];
      } else {
        assert p in SetOf(Split(u, ";"));
      }
    }
    forall p | p in rhs ensures p in lhs {
      if p in stored {
        assert Split(p, [';']) == [p];
        assert p in Split(p, [';']);
      } else {
        assert p in Split(u, [';']);
      }
    }
  }

  // ---------------------------------------------------------------------
  // The scope validators

  /** The URL must be on the documentation domain. */
  function CheckNotExcluded(url: string): (r: Verdict)
    ensures r == Pass <==> StartsWith(url, BASE_URL)
    ensures r.Fail? ==> r.exc == ExcludedURL
  {
    if StartsWith(url, BASE_URL) then Pass else Fail(ExcludedURL)
  }

  /** The path segment after the first `BASE_URL/` must be `LANG`; a URL
      in which `BASE_URL/` does not occur fails. */
  function CheckLanguage(url: string): (r: Verdict)
    ensures r.Fail? ==> r.exc == LanguageNotMatched
    ensures r == Pass ==> Contains(url, BASE_URL + "/")
  {
    var parts := Split(url, BASE_URL + "/");
    SplitHasSecondPiece(url, BASE_URL + "/");
    if |parts| < 2 then Fail(LanguageNotMatched)
    else if Split(parts[1], "/")[0] != LANG then Fail(LanguageNotMatched)
    else Pass
  }

  /** The path segment after the first `BASE_URL/LANG/` must start with
      `VERSION`; a URL in which `BASE_URL/LANG/` does not occur fails. */
  function CheckVersion(url: string): (r: Verdict)
    ensures r.Fail? ==> r.exc == VersionNotMatched
    ensures r == Pass ==> Contains(url, BASE_URL + "/" + LANG + "/")
  {
    var parts := Split(url, BASE_URL + "/" + LANG + "/");
    SplitHasSecondPiece(url, BASE_URL + "/" + LANG + "/");
    if |parts| < 2 then Fail(VersionNotMatched)
    else if !StartsWith(Split(parts[1], "/")[0], VERSION) then Fail(VersionNotMatched)
    else Pass
  }

  /** The URL must not be a known 404. */
  function CheckNot404(url: string, notFound: set<string>): (r: Verdict)
    ensures r == Pass <==> url !in notFound
    ensures r.Fail? ==> r.exc == PageNotFound
  {
    if url in notFound then Fail(PageNotFound) else Pass
  }

  /** `assert_url_is_valid`: the four checks in order; the first that fails
      decides the exception. */
  function ValidateUrl(url: string, notFound: set<string>): (r: Verdict)
    ensures r.Fail? ==> r.exc in {ExcludedURL, LanguageNotMatched, VersionNotMatched, PageNotFound}
    ensures !StartsWith(url, BASE_URL) ==> r == Fail(ExcludedURL)
    ensures r == Fail(PageNotFound) ==> url in notFound
  {
    if CheckNotExcluded(url).Fail? then CheckNotExcluded(url)
    else if CheckLanguage(url).Fail? then CheckLanguage(url)
    else if CheckVersion(url).Fail? then CheckVersion(url)
    else CheckNot404(url, notFound)
  }

  /** A split with a second piece found an occurrence of the separator. */
  lemma SecondPieceMeansOccurrence(s: string, sep: string)
    requires |sep| > 0 && |Split(s, sep)| >= 2
    ensures Contains(s, sep)
  {
  }

  /** A validated URL is on the documentation domain, names the language
      path somewhere, and is not a known 404. */
  lemma ValidatedUrlShape(url: string, notFound: set<string>)
    requires ValidateUrl(url, notFound) == Pass
    ensures StartsWith(url, BASE_URL)
    ensures Contains(url, BASE_URL + "/" + LANG + "/")
    ensures url !in notFound
  {
    SecondPieceMeansOccurrence(url, BASE_URL + "/" + LANG + "/");
  }

  /** The second piece of a split on a leading separator is the first piece
      of the rest. */
  lemma SecondPieceAfterLeadingSeparator(s: string, sep: string)
    requires |sep| > 0 && StartsWith(s, sep)
    ensures |Split(s, sep)| >= 2 && Split(s, sep)[1] == Split(s[|sep|..], sep)[0]
  {
    assert OccursAt(s, sep, 0);
  }

  /** After a leading separator that starts with a scheme (`https:/`), the
      first `/`-segment of the second piece is the segment that follows the
      separator, provided the segment holds no `:`: the separator cannot
      start inside it. */
  lemma SegmentAfterLeadingSeparator(sep: string, seg: string, rest: string)
    requires StartsWith(sep, "https:/") && ':' !in seg && '/' !in seg
    ensures var s := sep + seg + "/" + rest;
      |Split(s, sep)| >= 2 && Split(Split(s, sep)[1], "/")[0] == seg
  {
    SecondPieceStartsWithSegment(sep, seg, rest);
    assert seg + "/" == seg + ['/'];
    FirstPartExact(Split(sep + seg + "/" + rest, sep)[1], '/', seg);
  }

  /** After a leading separator that starts with a scheme (`https:/`), the
      second piece of the split starts with a `:`-free and `/`-free segment
      and the `/` that closes it. */
  lemma SecondPieceStartsWithSegment(sep: string, seg: string, rest: string)
    requires StartsWith(sep, "https:/") && ':' !in seg && '/' !in seg
    ensures var s := sep + seg + "/" + rest;
      |Split(s, sep)| >= 2 && StartsWith(Split(s, sep)[1], seg + "/")
  {
    var tail := seg + "/" + rest;
    var s := sep + tail;
    assert sep + seg + "/" + rest == s;
    SecondPieceAfterLeadingSeparator(s, sep);
    assert s[|sep|..] == tail;
    SchemeNotInSegment(sep, seg, rest);
    FirstPartKeepsPrefix(tail, sep, seg + "/");
  }

  /** A separator that starts with `https:/` does not start inside a
      `:`-free and `/`-free segment followed by `/`. */
  lemma SchemeNotInSegment(sep: string, seg: string, rest: string)
    requires StartsWith(sep, "https:/") && ':' !in seg && '/' !in seg
    ensures forall j :: 0 <= j < |seg + "/"| ==> !OccursAt(seg + "/" + rest, sep, j)
  {
    var t := seg + "/" + rest;
    assert t[|seg|] == '/';
    forall j | 0 <= j < |seg + "/"| ensures !OccursAt(t, sep, j) {
      if j + |sep| <= |t| {
        // The first character of a match that differs: the `/` of the
        // scheme inside the segment, the `:` inside it, or the `/` after
        // it against a letter of `https:`.
        var m := |seg| - j;
        var k := if m >= 7 then 6 else if m == 6 then 5 else m;
        assert sep[k] == "https:/"[k];
        assert t[j + k] != sep[k];
        assert t[j..j + |sep|][k] == t[j + k];
      }
    }
  }

  lemma BaseUrlFacts()
    ensures |BASE_URL| == 30 && BASE_URL[0] == 'h' && '#' !in BASE_URL
    ensures StartsWith(BASE_URL, "https://")
  {
  }

  /** A URL that starts with `BASE_URL/en/` passes the domain and
      language checks. */
  lemma EnglishUrlPassesFirstChecks(tail: string)
    ensures var url := BASE_URL + "/" + LANG + "/" + tail;
      CheckNotExcluded(url) == Pass && CheckLanguage(url) == Pass
  {
    BaseUrlFacts();
    var url := BASE_URL + "/" + LANG + "/" + tail;
    var sep1 := BASE_URL + "/";
    assert ':' !in LANG && '/' !in LANG;
    SegmentAfterLeadingSeparator(sep1, LANG, tail);
    assert url == sep1 + LANG + "/" + tail;
    assert StartsWith(url, BASE_URL) by {
      assert url[..|BASE_URL|] == BASE_URL;
    }
  }

  /** The version check reads the segment after `BASE_URL/en/`. */
  lemma VersionCheckReadsSegment(ver: string, rest: string)
    requires '/' !in ver && ':' !in ver
    ensures CheckVersion(BASE_URL + "/" + LANG + "/" + ver + "/" + rest)
         == if StartsWith(ver, VERSION) then Pass else Fail(VersionNotMatched)
  {
    BaseUrlFacts();
    var sep2 := BASE_URL + "/" + LANG + "/";
    SegmentAfterLeadingSeparator(sep2, ver, rest);
    assert BASE_URL + "/" + LANG + "/" + ver + "/" + rest == sep2 + ver + "/" + rest;
  }

  /** Every URL of the form `BASE_URL/en/<ver>/<rest>` with a version
      segment that starts with `VERSION` passes the three scope checks,
      whatever `rest` is: only the not-found list can reject it. */
  lemma DocsUrlInScope(ver: string, rest: string, notFound: set<string>)
    requires StartsWith(ver, VERSION) && '/' !in ver && ':' !in ver
    ensures var url := BASE_URL + "/" + LANG + "/" + ver + "/" + rest;
      ValidateUrl(url, notFound) == if url in notFound then Fail(PageNotFound) else Pass
  {
    var url := BASE_URL + "/" + LANG + "/" + ver + "/" + rest;
    EnglishUrlPassesFirstChecks(ver + "/" + rest);
    assert BASE_URL + "/" + LANG + "/" + (ver + "/" + rest) == url;
    VersionCheckReadsSegment(ver, rest);
    assert CheckNotExcluded(url) == Pass && CheckLanguage(url) == Pass && CheckVersion(url) == Pass;
    assert ValidateUrl(url, notFound) == CheckNot404(url, notFound);
  }

  /** Under `en`, a version segment that does not start with `6.0` is
      rejected by the version check. */
  lemma OtherVersionRejected(ver: string, rest: string, notFound: set<string>)
    requires !StartsWith(ver, VERSION) && '/' !in ver && ':' !in ver
    ensures ValidateUrl(BASE_URL + "/" + LANG + "/" + ver + "/" + rest, notFound) == Fail(VersionNotMatched)
  {
    var url := BASE_URL + "/" + LANG + "/" + ver + "/" + rest;
    EnglishUrlPassesFirstChecks(ver + "/" + rest);
    assert BASE_URL + "/" + LANG + "/" + (ver + "/" + rest) == url;
    VersionCheckReadsSegment(ver, rest);
    assert CheckNotExcluded(url) == Pass && CheckLanguage(url) == Pass;
    assert CheckVersion(url) == Fail(VersionNotMatched);
  }

  /** A language segment other than `en` is rejected by the language check,
      after the domain check has passed. */
  lemma OtherLanguageRejected(lang: string, rest: string, notFound: set<string>)
    requires lang != LANG && '/' !in lang && ':' !in lang
    ensures ValidateUrl(BASE_URL + "/" + lang + "/" + rest, notFound) == Fail(LanguageNotMatched)
  {
    BaseUrlFacts();
    var sep1 := BASE_URL + "/";
    var url := BASE_URL + "/" + lang + "/" + rest;
    assert url == sep1 + lang + "/" + rest;
    SegmentAfterLeadingSeparator(sep1, lang, rest);
    assert CheckNotExcluded(url) == Pass by {
      assert url[..|BASE_URL|] == BASE_URL;
    }
    assert CheckLanguage(url) == Fail(LanguageNotMatched);
  }

  /** Everything built as `DOCS_ROOT/<rest>` is in scope. */
  lemma DocsRootUrlInScope(rest: string, notFound: set<string>)
    ensures var url := DOCS_ROOT + "/" + rest;
      ValidateUrl(url, notFound) == if url in notFound then Fail(PageNotFound) else Pass
  {
    DocsUrlInScope(VERSION, rest, notFound);
    assert DOCS_ROOT + "/" + rest == BASE_URL + "/" + LANG + "/" + VERSION + "/" + rest;
  }

  /** The version check is a prefix test: `6.01` passes as well as `6.0`. */
  lemma VersionIsPrefixTest(rest: string, notFound: set<string>)
    requires BASE_URL + "/" + LANG + "/" + "6.01" + "/" + rest !in notFound
    ensures ValidateUrl(BASE_URL + "/" + LANG + "/" + "6.01" + "/" + rest, notFound) == Pass
  {
    assert StartsWith("6.01", VERSION) && '/' !in "6.01" && ':' !in "6.01";
    DocsUrlInScope("6.01", rest, notFound);
  }

  // ---------------------------------------------------------------------
  // make_full_valid_url

  /** How the leading characters of an `href` decide the scheme rules. */
  lemma SchemeFacts(u: string)
    ensures StartsWith(u, "https://") ==> !StartsWith(u, "http://")
    ensures |u| > 0 && u[0] in {'#', '/', '.'} ==> !StartsWith(u, "http://") && !StartsWith(u, "https://")
    ensures |u| > 0 && u[0] in {'/', '.'} ==> !StartsWith(u, "#")
  {
    if StartsWith(u, "https://") {
      assert u[4] == 's';
    }
    if StartsWith(u, "http://") || StartsWith(u, "https://") {
      assert u[0] == 'h';
    }
    if StartsWith(u, "#") {
      assert u[0] == '#';
    }
  }

  /** Every URL built under the documentation root is an `https://` URL on
      the documentation domain. */
  lemma DocsRootPrefix(rest: string)
    ensures StartsWith(DOCS_ROOT + "/" + rest, BASE_URL)
    ensures StartsWith(DOCS_ROOT + "/" + rest, "https://")
  {
    BaseUrlFacts();
    var url := DOCS_ROOT + "/" + rest;
    assert url[..|BASE_URL|] == BASE_URL;
    assert url[..8] == BASE_URL[..8];
  }

  /** An `<a>` element as the crawler sees it: its `href`, and its `class`
      and `rel` attributes (both multi-valued), each possibly absent. */
  datatype Anchor = Anchor(href: Option<string>, classes: Option<seq<string>>, rel: Option<seq<string>>)

  /** `remove_hashtag`: the text before the first `#`. */
  function RemoveHashtag(text: string): (r: string)
    ensures StartsWith(text, r) && '#' !in r
    ensures |r| < |text| ==> text[|r|] == '#'
  {
    var parts := Split(text, "#");
    SplitPartsFree(text, "#");
    ContainsChar(parts[0], '#');
    IndexOfCharFacts(text, '#');
    parts[0]
  }

  /** Text without a `#` is returned unchanged. */
  lemma RemoveHashtagKeepsPlain(text: string)
    requires '#' !in text
    ensures RemoveHashtag(text) == text
  {
    var r := RemoveHashtag(text);
    assert text[..|r|] == r;
  }

  /** Validate `full`, then return it without its fragment. */
  function Validated(full: string, notFound: set<string>): (r: Outcome<string>)
    ensures r.Ok? ==> StartsWith(r.value, BASE_URL) && '#' !in r.value
    ensures r.Raised? ==> r.exc in {ExcludedURL, LanguageNotMatched, VersionNotMatched, PageNotFound}
  {
    match ValidateUrl(full, notFound)
    case Pass =>
      BaseUrlFacts();
      FirstPartStartsWith(full, "#", BASE_URL);
      Ok(RemoveHashtag(full))
    case Fail(e) => Raised(e)
  }

  /** The `rel` rule that ends the chain: pagination links are joined to the
      page URL; anything else is a `ValueError` (a missing `rel` raises a
      `KeyError` that is caught first; an empty one an `IndexError`). */
  function FollowNext(link: Anchor, url: string, pageUrl: string, notFound: set<string>,
                      urljoin: (string, string) -> string): (r: Outcome<string>)
    ensures r.Ok? ==> link.rel.Some? && |link.rel.value| > 0 && link.rel.value[0] == "next"
    ensures r.Ok? ==> StartsWith(r.value, BASE_URL) && '#' !in r.value
    ensures link.rel.None? ==> r == Raised(ValueError)
  {
    match link.rel
    case None => Raised(ValueError)
    case Some(rels) =>
      if |rels| == 0 then Raised(IndexError)
      else if rels[0] == "next" then Validated(urljoin(pageUrl, url), notFound)
      else Raised(ValueError)
  }

  /** `make_full_valid_url`: the first matching rule decides. `urljoin` is
      the standard library's relative-reference resolution. */
  function MakeFullValidUrl(link: Anchor, pageUrl: string, notFound: set<string>,
                            urljoin: (string, string) -> string): (r: Outcome<string>)
    ensures r.Ok? ==> StartsWith(r.value, BASE_URL) && '#' !in r.value
  {
    if link.href.None? || link.href.value == "" then Raised(BlankUrl)
    else
      var url := link.href.value;
      if StartsWith(url, "http://") then Raised(NonHTTPSPage)
      else if StartsWith(url, "https://") then Validated(url, notFound)
      else if StartsWith(url, "#") then Raised(LinkToCurrentPage)
      else ResolveRelative(link, url, pageUrl, notFound, urljoin)
  }

  /** The rules after the scheme checks: the `class` attribute first, then
      the shape of the `href`, then the `rel` attribute. */
  function ResolveRelative(link: Anchor, url: string, pageUrl: string, notFound: set<string>,
                           urljoin: (string, string) -> string): (r: Outcome<string>)
    ensures r.Ok? ==> StartsWith(r.value, BASE_URL) && '#' !in r.value
  {
    if link.classes.Some? then
      if "reference" in link.classes.value && "internal" in link.classes.value then
        Validated(DOCS_ROOT + "/" + LStrip(url, {'/'}), notFound)
      else
        FollowNext(link, url, pageUrl, notFound, urljoin)
    else if Strip(url, {'/'}) in {"contents", "intro"} then
      Validated(DOCS_ROOT + "/" + LStrip(url, {'/'}), notFound)
    else if StartsWith(url, "/en/stable/") then
      Validated(DOCS_ROOT + "/" + AfterLast(url, "/en/stable/"), notFound)
    else if StartsWith(url, "..") then
      Validated(urljoin(pageUrl, url), notFound)
    else
      FollowNext(link, url, pageUrl, notFound, urljoin)
  }

  /** `s.split(sep)[-1]`: the text after the last `sep`, or all of `s`
      when `sep` does not occur in it. */
  function AfterLast(s: string, sep: string): (r: string)
    requires |sep| > 0
    ensures EndsWith(s, r) && !Contains(r, sep)
    ensures !Contains(s, sep) ==> r == s
    ensures Contains(s, sep) ==> EndsWith(s[..|s| - |r|], sep)
  {
    var parts := Split(s, sep);
    SplitPartsFree(s, sep);
    JoinEndsWithLast(parts, sep);
    JoinSeparatorBeforeLast(parts, sep);
    parts[|parts| - 1]
  }

  /** The first four rules look only at the `href`, in this order. */
  lemma ResolverPrecedence(link: Anchor, pageUrl: string, notFound: set<string>,
                           urljoin: (string, string) -> string)
    requires link.href.Some?
    ensures var r := MakeFullValidUrl(link, pageUrl, notFound, urljoin);
      var u := link.href.value;
      && (u == "" ==> r == Raised(BlankUrl))
      && (StartsWith(u, "http://") ==> r == Raised(NonHTTPSPage))
      && (StartsWith(u, "#") ==> r == Raised(LinkToCurrentPage))
      && (StartsWith(u, "https://") ==> r == Validated(u, notFound))
  {
    var u := link.href.value;
    SchemeFacts(u);
    if StartsWith(u, "#") {
      assert u[0] == u[..1][0] == '#';
      assert !StartsWith(u, "http://") && !StartsWith(u, "https://");
    }
  }

  /** A `reference internal` link never fails a scope check: it resolves to
      the documentation root, a slash, and the `href` without its leading
      slashes (a `../` is kept, not climbed), unless that URL is a known 404. */
  lemma ReferenceInternalResolves(href: string, classes: seq<string>, rel: Option<seq<string>>,
                                  pageUrl: string, notFound: set<string>,
                                  urljoin: (string, string) -> string)
    requires href != "" && !StartsWith(href, "http://") && !StartsWith(href, "https://")
    requires !StartsWith(href, "#")
    requires "reference" in classes && "internal" in classes
    ensures var full := DOCS_ROOT + "/" + LStrip(href, {'/'});
      MakeFullValidUrl(Anchor(Some(href), Some(classes), rel), pageUrl, notFound, urljoin)
      == if full in notFound then Raised(PageNotFound) else Ok(RemoveHashtag(full))
  {
    DocsRootUrlInScope(LStrip(href, {'/'}), notFound);
  }

  /** A `reference internal` link that climbs with `../` keeps the `../`
      in the URL it resolves to: nothing is taken off the page URL. The
      one-level-up test's `../blah/` thus becomes
      `https://docs.djangoproject.com/en/6.0/../blah/`. */
  lemma ReferenceInternalDoesNotClimb(href: string, classes: seq<string>, pageUrl: string, notFound: set<string>,
                                      urljoin: (string, string) -> string)
    requires "reference" in classes && "internal" in classes
    requires StartsWith(href, "../") && '#' !in href
    requires DOCS_ROOT + "/" + href !in notFound
    ensures MakeFullValidUrl(Anchor(Some(href), Some(classes), None),
                             pageUrl, notFound, urljoin)
         == Ok(DOCS_ROOT + "/" + href)
  {
    DotRelativeFacts(href);
    ReferenceInternalResolves(href, classes, None, pageUrl, notFound, urljoin);
    NoFragmentUnderDocsRoot(href);
  }

  /** An `href` starting with a dot passes the scheme rules untouched and
      has no leading slash to strip. */
  lemma DotRelativeFacts(href: string)
    requires |href| > 0 && href[0] == '.'
    ensures href != "" && !StartsWith(href, "http://") && !StartsWith(href, "https://")
    ensures !StartsWith(href, "#") && LStrip(href, {'/'}) == href
  {
    SchemeFacts(href);
  }

  /** A fragment-free path under the documentation root stays as it is. */
  lemma NoFragmentUnderDocsRoot(rest: string)
    requires '#' !in rest
    ensures RemoveHashtag(DOCS_ROOT + "/" + rest) == DOCS_ROOT + "/" + rest
  {
    BaseUrlFacts();
    RemoveHashtagKeepsPlain(DOCS_ROOT + "/" + rest);
  }

  /** Any `class` attribute takes the anchor out of the `contents`/`intro`,
      `/en/stable/` and `..` rules: without `reference internal` only a
      `next` relation can still resolve it. */
  lemma ClassAttributeBypassesRules(href: string, classes: seq<string>, pageUrl: string,
                                    notFound: set<string>, urljoin: (string, string) -> string)
    requires href != "" && !StartsWith(href, "http://") && !StartsWith(href, "https://")
    requires !StartsWith(href, "#")
    requires !("reference" in classes && "internal" in classes)
    ensures MakeFullValidUrl(Anchor(Some(href), Some(classes), None), pageUrl, notFound, urljoin)
         == Raised(ValueError)
  {
  }

  /** Without a `class`, `contents` and `intro` (slashes trimmed) resolve
      under the documentation root. */
  lemma ContentsResolves(href: string, pageUrl: string, notFound: set<string>,
                         urljoin: (string, string) -> string)
    requires href != "" && !StartsWith(href, "http://") && !StartsWith(href, "https://")
    requires !StartsWith(href, "#")
    requires Strip(href, {'/'}) in {"contents", "intro"}
    ensures var full := DOCS_ROOT + "/" + LStrip(href, {'/'});
      MakeFullValidUrl(Anchor(Some(href), None, None), pageUrl, notFound, urljoin)
      == if full in notFound then Raised(PageNotFound) else Ok(RemoveHashtag(full))
  {
    DocsRootUrlInScope(LStrip(href, {'/'}), notFound);
  }

  /** `/en/stable/X` is moved under the documentation root, keeping the text
      after the last `/en/stable/`, and is then in scope. */
  lemma EnStableResolves(href: string, pageUrl: string, notFound: set<string>,
                         urljoin: (string, string) -> string)
    requires StartsWith(href, "/en/stable/")
    requires Strip(href, {'/'}) !in {"contents", "intro"}
    ensures var tail := AfterLast(href, "/en/stable/");
      var full := DOCS_ROOT + "/" + tail;
      MakeFullValidUrl(Anchor(Some(href), None, None), pageUrl, notFound, urljoin)
      == if full in notFound then Raised(PageNotFound) else Ok(RemoveHashtag(full))
  {
    var tail := AfterLast(href, "/en/stable/");
    EnStablePicksRule(href, pageUrl, notFound, urljoin);
    ValidatedUnderRoot(tail, notFound);
  }

  /** A bare `/en/stable/` link is re-rooted under the documentation root. */
  lemma EnStablePicksRule(href: string, pageUrl: string, notFound: set<string>,
                          urljoin: (string, string) -> string)
    requires StartsWith(href, "/en/stable/")
    requires Strip(href, {'/'}) !in {"contents", "intro"}
    ensures MakeFullValidUrl(Anchor(Some(href), None, None), pageUrl, notFound, urljoin)
         == Validated(DOCS_ROOT + "/" + AfterLast(href, "/en/stable/"), notFound)
  {
    var link := Anchor(Some(href), None, None);
    assert href[0] == "/en/stable/"[0];
    SlashRelativeFacts(href);
    RelativeHrefResolves(link, pageUrl, notFound, urljoin);
  }

  /** An `href` that passes the scheme rules goes on to the relative rules. */
  lemma RelativeHrefResolves(link: Anchor, pageUrl: string, notFound: set<string>,
                             urljoin: (string, string) -> string)
    requires link.href.Some? && link.href.value != ""
    requires !StartsWith(link.href.value, "http://") && !StartsWith(link.href.value, "https://")
    requires !StartsWith(link.href.value, "#")
    ensures MakeFullValidUrl(link, pageUrl, notFound, urljoin)
         == ResolveRelative(link, link.href.value, pageUrl, notFound, urljoin)
  {
  }

  /** Without a `class`, a link that climbs with `..` is joined to the
      page URL (the one rule that climbs), whatever its `rel`. */
  lemma ParentLinkIsJoined(href: string, rel: Option<seq<string>>, pageUrl: string, notFound: set<string>,
                           urljoin: (string, string) -> string)
    requires StartsWith(href, "..")
    ensures MakeFullValidUrl(Anchor(Some(href), None, rel), pageUrl, notFound, urljoin)
         == Validated(urljoin(pageUrl, href), notFound)
  {
    var link := Anchor(Some(href), None, rel);
    assert href[0] == '.';
    DotRelativeFacts(href);
    RelativeHrefResolves(link, pageUrl, notFound, urljoin);
    var trimmed := RStrip(href, {'/'});
    assert |trimmed| > 0 && trimmed[0] == '.';
    assert Strip(href, {'/'}) == trimmed;
    assert trimmed !in {"contents", "intro"} by {
      assert "contents"[0] == 'c' && "intro"[0] == 'i';
    }
    assert !StartsWith(href, "/en/stable/") by {
      assert "/en/stable/"[0] == '/';
    }
  }

  /** A link that no earlier rule takes is decided by its `rel`: a first
      relation `next` is joined to the page URL; any other first relation,
      or no `rel` at all, ends in `ValueError`; an empty `rel` raises
      `IndexError`, which is not caught. */
  lemma RelRuleEndsChain(link: Anchor, pageUrl: string, notFound: set<string>,
                         urljoin: (string, string) -> string)
    requires link.href.Some? && link.href.value != ""
    requires !StartsWith(link.href.value, "http://") && !StartsWith(link.href.value, "https://")
    requires !StartsWith(link.href.value, "#")
    requires link.classes.Some? ==> !("reference" in link.classes.value && "internal" in link.classes.value)
    requires link.classes.None? ==>
      && Strip(link.href.value, {'/'}) !in {"contents", "intro"}
      && !StartsWith(link.href.value, "/en/stable/") && !StartsWith(link.href.value, "..")
    ensures var r := MakeFullValidUrl(link, pageUrl, notFound, urljoin);
      && (link.rel.None? ==> r == Raised(ValueError))
      && (link.rel == Some([]) ==> r == Raised(IndexError))
      && (link.rel.Some? && |link.rel.value| > 0 && link.rel.value[0] == "next"
          ==> r == Validated(urljoin(pageUrl, link.href.value), notFound))
      && (link.rel.Some? && |link.rel.value| > 0 && link.rel.value[0] != "next"
          ==> r == Raised(ValueError))
  {
    RelativeHrefResolves(link, pageUrl, notFound, urljoin);
  }

  /** A URL under the documentation root is accepted unless it is known missing. */
  lemma ValidatedUnderRoot(rest: string, notFound: set<string>)
    ensures var url := DOCS_ROOT + "/" + rest;
      Validated(url, notFound) == if url in notFound then Raised(PageNotFound) else Ok(RemoveHashtag(url))
  {
    DocsRootUrlInScope(rest, notFound);
  }

  /** An `href` starting with a slash passes the scheme rules. */
  lemma SlashRelativeFacts(href: string)
    requires |href| > 0 && href[0] == '/'
    ensures href != "" && !StartsWith(href, "http://") && !StartsWith(href, "https://")
    ensures !StartsWith(href, "#")
  {
    SchemeFacts(href);
  }

  // ---------------------------------------------------------------------
  // The fate of one link in extend_urls_to_scrape

  datatype LinkFate = Enqueue(url: string) | Drop | Escape(exc: Exc)

  /** One iteration of the `for link in links` loop: `Error`s are swallowed;
      any other exception leaves the loop; a resolved URL is added unless it
      is empty, a known 404 or already scraped. */
  function Triage(link: Anchor, pageUrl: string, notFound: set<string>, scraped: set<string>,
                  urljoin: (string, string) -> string): (r: LinkFate)
    ensures r.Enqueue? ==> r.url != "" && StartsWith(r.url, BASE_URL) && '#' !in r.url
    ensures r.Enqueue? ==> r.url !in notFound && r.url !in scraped
    ensures r.Escape? ==> !r.exc.IsError()
    ensures var m := MakeFullValidUrl(link, pageUrl, notFound, urljoin);
      m.Ok? && m.value != "" && m.value !in notFound && m.value !in scraped ==> r == Enqueue(m.value)
    ensures var m := MakeFullValidUrl(link, pageUrl, notFound, urljoin);
      m.Raised? && !m.exc.IsError() ==> r == Escape(m.exc)
  {
    match MakeFullValidUrl(link, pageUrl, notFound, urljoin)
    case Raised(e) => if e.IsError() then Drop else Escape(e)
    case Ok(u) =>
      if u == "" || u in notFound || u in scraped then Drop else Enqueue(u)
  }

  /** What the whole loop adds, and the exception that ends it early, if any. */
  datatype Extension = Extension(added: set<string>, escaped: Option<Exc>)

  function Extend(links: seq<Anchor>, pageUrl: string, notFound: set<string>, scraped: set<string>,
                  urljoin: (string, string) -> string): (r: Extension)
    ensures r.escaped.Some? ==> !r.escaped.value.IsError()
    decreases |links|
  {
    if |links| == 0 then Extension({}, None)
    else
      var prev := Extend(links[..|links| - 1], pageUrl, notFound, scraped, urljoin);
      if prev.escaped.Some? then prev
      else match Triage(links[|links| - 1], pageUrl, notFound, scraped, urljoin)
        case Escape(e) => Extension(prev.added, Some(e))
        case Drop => prev
        case Enqueue(u) => Extension(prev.added + {u}, None)
  }

  /** Once a link escapes, the links after it are never looked at. */
  lemma {:induction false} ExtendStopsAtEscape(links: seq<Anchor>, k: nat, pageUrl: string,
                                               notFound: set<string>, scraped: set<string>,
                                               urljoin: (string, string) -> string)
    requires k <= |links| && Extend(links[..k], pageUrl, notFound, scraped, urljoin).escaped.Some?
    ensures Extend(links, pageUrl, notFound, scraped, urljoin) == Extend(links[..k], pageUrl, notFound, scraped, urljoin)
    decreases |links|
  {
    if k < |links| {
      var prefix := links[..|links| - 1];
      assert prefix[..k] == links[..k];
      ExtendStopsAtEscape(prefix, k, pageUrl, notFound, scraped, urljoin);
    } else {
      assert links[..k] == links;
    }
  }

  /** The frontier only ever grows by non-empty, fragment-free URLs on the
      documentation domain that are neither known 404s nor already scraped. */
  lemma {:induction false} ExtendAddsFreshDocsUrls(links: seq<Anchor>, pageUrl: string,
                                                   notFound: set<string>, scraped: set<string>,
                                                   urljoin: (string, string) -> string, u: string)
    requires u in Extend(links, pageUrl, notFound, scraped, urljoin).added
    ensures u != "" && StartsWith(u, BASE_URL) && '#' !in u
    ensures u !in notFound && u !in scraped
    decreases |links|
  {
    var prefix := links[..|links| - 1];
    if u in Extend(prefix, pageUrl, notFound, scraped, urljoin).added {
      ExtendAddsFreshDocsUrls(prefix, pageUrl, notFound, scraped, urljoin, u);
    }
  }

  /** Every URL the loop adds is the resolution of one of the links. */
  lemma {:induction false} ExtendAddsTriagedUrls(links: seq<Anchor>, pageUrl: string,
                                                 notFound: set<string>, scraped: set<string>,
                                                 urljoin: (string, string) -> string, u: string)
    requires u in Extend(links, pageUrl, notFound, scraped, urljoin).added
    ensures exists k :: 0 <= k < |links| && Triage(links[k], pageUrl, notFound, scraped, urljoin) == Enqueue(u)
    decreases |links|
  {
    var prefix := links[..|links| - 1];
    if u in Extend(prefix, pageUrl, notFound, scraped, urljoin).added {
      ExtendAddsTriagedUrls(prefix, pageUrl, notFound, scraped, urljoin, u);
      var k :| 0 <= k < |prefix| && Triage(prefix[k], pageUrl, notFound, scraped, urljoin) == Enqueue(u);
      assert links[k] == prefix[k];
    } else {
      assert Triage(links[|links| - 1], pageUrl, notFound, scraped, urljoin) == Enqueue(u);
    }
  }

  /** The loop never takes back what it added: a prefix of the links adds
      no more than all of them. */
  lemma {:induction false} ExtendKeepsEarlier(links: seq<Anchor>, k: nat, pageUrl: string,
                                              notFound: set<string>, scraped: set<string>,
                                              urljoin: (string, string) -> string)
    requires k <= |links|
    ensures Extend(links[..k], pageUrl, notFound, scraped, urljoin).added
         <= Extend(links, pageUrl, notFound, scraped, urljoin).added
    decreases |links|
  {
    if k < |links| {
      var prefix := links[..|links| - 1];
      assert prefix[..k] == links[..k];
      ExtendKeepsEarlier(prefix, k, pageUrl, notFound, scraped, urljoin);
    } else {
      assert links[..k] == links;
    }
  }

  /** Every link reached before any exception escapes and queued by the
      loop body ends up in the frontier. */
  lemma ExtendAddsEveryQueuedUrl(links: seq<Anchor>, k: nat, pageUrl: string,
                                 notFound: set<string>, scraped: set<string>,
                                 urljoin: (string, string) -> string, u: string)
    requires k < |links| && Extend(links[..k], pageUrl, notFound, scraped, urljoin).escaped.None?
    requires Triage(links[k], pageUrl, notFound, scraped, urljoin) == Enqueue(u)
    ensures u in Extend(links, pageUrl, notFound, scraped, urljoin).added
  {
    var upTo := links[..k + 1];
    assert upTo[..k] == links[..k] && upTo[k] == links[k];
    assert u in Extend(upTo, pageUrl, notFound, scraped, urljoin).added;
    ExtendKeepsEarlier(links, k + 1, pageUrl, notFound, scraped, urljoin);
  }

  /** A link is harmless when it is fragment-only, plain HTTP, or absolute
      HTTPS off the documentation domain. */
  predicate Harmless(link: Anchor) {
    link.href.Some? &&
    (StartsWith(link.href.value, "#") || StartsWith(link.href.value, "http://") ||
     (StartsWith(link.href.value, "https://") && !StartsWith(link.href.value, BASE_URL)))
  }

  /** Such links are dropped silently: they neither enter the frontier nor
      stop the loop. */
  lemma {:induction false} HarmlessLinksAreDropped(links: seq<Anchor>, pageUrl: string,
                                                   notFound: set<string>, scraped: set<string>,
                                                   urljoin: (string, string) -> string)
    requires forall k :: 0 <= k < |links| ==> Harmless(links[k])
    ensures Extend(links, pageUrl, notFound, scraped, urljoin) == Extension({}, None)
    decreases |links|
  {
    if |links| > 0 {
      var prefix := links[..|links| - 1];
      HarmlessLinksAreDropped(prefix, pageUrl, notFound, scraped, urljoin);
      var link := links[|links| - 1];
      var u := link.href.value;
      assert Harmless(link);
      if StartsWith(u, "#") {
        assert !StartsWith(u, "http://") && !StartsWith(u, "https://") by {
          assert u[0] == '#';
        }
      }
    }
  }

  /** A link to a URL already in the not-found list is not dropped: the
      `PageNotFoundException` of the validator is not an `Error`, so it
      leaves the loop (and the crawl). */
  lemma KnownNotFoundLinkEscapes(rest: string, pageUrl: string, notFound: set<string>,
                                 scraped: set<string>, urljoin: (string, string) -> string)
    requires DOCS_ROOT + "/" + rest in notFound
    ensures Triage(Anchor(Some(DOCS_ROOT + "/" + rest), None, None), pageUrl, notFound, scraped, urljoin)
         == Escape(PageNotFound)
  {
    var url := DOCS_ROOT + "/" + rest;
    DocsRootUrlInScope(rest, notFound);
    DocsRootPrefix(rest);
    SchemeFacts(url);
    assert MakeFullValidUrl(Anchor(Some(url), None, None), pageUrl, notFound, urljoin) == Raised(PageNotFound);
  }
}
