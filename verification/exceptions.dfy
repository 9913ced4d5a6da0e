/** The exceptions the two crawlers raise, or let through from the
    libraries they call, as one closed set of tagged variants. */
module Exceptions {

  datatype Exc =
    // The `HTMLScraper.Error` family: the crawl loops catch these.
    | ExcludedURL
    | LanguageNotMatched
    | VersionNotMatched
    | LinkToCurrentPage
    | NonHTTPSPage
    | BlankUrl
    // `PageNotFoundException` derives from `Exception`, not from `Error`.
    | PageNotFound
    // Python built-ins and library errors, none of them an `Error`.
    | ValueError          // a link no rule resolves; a soft-404 page
    | IndexError          // `[0]` on an empty list, `[1]` on a one-piece split
    | KeyError            // `set.pop()` on an empty set
    | HTTPError(status: int)  // `raise_for_status()` on a 4xx or 5xx reply
    | RequestFailed       // `requests.get` itself raised (connection, timeout)
  {
    /** Whether `except self.Error` catches this exception. */
    predicate IsError() {
      ExcludedURL? || LanguageNotMatched? || VersionNotMatched? ||
      LinkToCurrentPage? || NonHTTPSPage? || BlankUrl?
    }
  }

  /** A call that returns a value or raises. */
  datatype Outcome<T> = Ok(value: T) | Raised(exc: Exc)

  /** A check that returns normally or raises. */
  datatype Verdict = Pass | Fail(exc: Exc)
}
