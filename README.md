# Link/result table of a colly-driven link checker

The crawler starts from a seed URL and lets the gocolly library traverse the
site. The repository's own logic is the bookkeeping around that traversal: a
`sync.Map` from URL string to `ExecutionResult{StatusCode, Status, IsError}`,
where the zero value `ExecutionResult{}` marks a URL that was admitted but has
not been scraped yet (the placeholder). Two near-identical variants exist:

- `main.go` (`LinksCheck`, `collyFunc`, `main`): seeds the table, admits links,
  records outcomes, and afterwards filters the placeholders into a slice that
  it sorts by descending status code.
- `cmd/app/crawler.go` (`DoCrawl`, `searchForLinks`, `removeEmptyResults`,
  `prepareCrawler`): the same admission and recording, then deletes the
  placeholders from the table in place.

The model has five modules:

- `Outcome` (outcome.dfy): the `ExecutionResult` record declared identically in
  both files, the placeholder, the classification a scraped response gets
  (`IsError` is `StatusCode >= 203`), and `WithoutPlaceholders`, the table
  that placeholder removal leaves.
- `Patterns` (patterns.dfy): the pattern strings given to the library. `Escape` is
  `strings.ReplaceAll(s, ".", "\\.")`, and `Unescape` is the reverse
  replacement, used to state the round trip. `DomainPattern`, `HostPattern`
  and `EndpointPattern` are the three pattern strings.
- `LinkTable` (link_table.dfy): the class `ResultTable`. Its fields are the
  table (`entries`), the log of visits issued (`visits`), and
  `http.StatusText` (`statusText`). Its methods are the callbacks: `Seed`,
  `Admit` (`collyFunc` in main.go:148-158 and `searchForLinks` in
  cmd/app/crawler.go:118-128, which are the same code), `Record` (the
  `OnScraped` callbacks of main.go:130-136 and cmd/app/crawler.go:58-64), and
  `RemoveEmptyResults`. Its invariant `Valid` says three things. No URL is
  visited twice. Every visited URL has an entry. Every value is the
  placeholder or a classified response.
- `Crawl` (crawl.dfy): the drivers `LinksCheck` and `DoCrawl`. The library's
  callback order is given as a sequence of `Callback` events, and each event
  runs as one atomic step.
- `Report` (report.dfy): main.go's aggregation. `Collect` is the Range loop
  that skips placeholders and appends. `SortByStatusDesc` sorts the array in
  place, standing for `sort.Slice`. `BuildReport` does both.

Notable behaviour of the code, and whether the model keeps it:

- Ties in the final sort are in no particular order, because `sort.Slice` is
  not stable. The model keeps this: its sort promises no order among ties.
- Admission is a separate membership test followed by a store, not one atomic
  check-and-insert. The model does not keep this: each callback is one atomic
  step (see "## Left out").
- Admission has no depth bound of its own; the library's `MaxDepth` applies.
  The model keeps the first part, and leaves `MaxDepth` to the callback
  sequence it is given.
- In main.go the crawl is kept to the seed's host by `AllowedDomains(hostname)`
  (main.go:95), and the `.*host.*` string (main.go:107) only selects the
  requests the rate-limit rule applies to. In cmd/app/crawler.go the `.*host`
  string (cmd/app/crawler.go:95, 111) is likewise a rate-limit selector. The
  crawl's scope is restricted only by the URL filter built from the escaped
  seed URL followed by `.*` (cmd/app/crawler.go:96, 103-105); `MaxDepth`
  (cmd/app/crawler.go:100) bounds its depth. The model keeps the pattern
  strings, but not the filtering the library does with them.
- `IsError` holds for every code from 203 upward. So 203 to 206 count as
  errors while 200 to 202 do not, and 1xx codes are not errors. The model
  keeps this.

## Model

| member | source | states |
|---|---|---|
| `Outcome.ClassifyMeaning` | main.go:130-136 | The recorded outcome keeps the response code, has the status text of that code, and has the error flag set exactly when the code is 203 or more. The recorder in cmd/app/crawler.go:58-64 is the same. |
| `Outcome.ScrapedAsPlaceholder` | main.go:58-68 | A scraped outcome equals the placeholder exactly when its code is 0 and the text of 0 is empty. The filter drops such an outcome together with the pending entries. |
| `Outcome.WithoutPlaceholders` | cmd/app/crawler.go:76-84 | The cleaned table has a key exactly when the old table has it with a non-placeholder value. That value is unchanged, and no key is added. |
| `Outcome.WithoutPlaceholdersIdempotent` | cmd/app/crawler.go:76-84 | Removing placeholders a second time changes nothing. |
| `Outcome.WithoutPlaceholdersFixpoint` | cmd/app/crawler.go:76-84 | Cleanup leaves a table unchanged if and only if none of its values is the placeholder. |
| `Outcome.WithoutPlaceholdersWellFormed` | cmd/app/crawler.go:58-84 | After cleanup, every remaining value is the classified outcome of its own status code. |
| `Patterns.Escape` | cmd/app/crawler.go:95-96 | The escaped string is longer than the input by the number of dots. Every dot in it is preceded by a backslash. It never starts with a dot. An input without dots is returned unchanged. |
| `Patterns.UnescapeEscape` | cmd/app/crawler.go:95-96 | Replacing each backslash-dot of the escaped string with a dot gives back the input. |
| `Patterns.EscapeInjective` | main.go:107 | Two host names give the same escaped string if and only if they are equal. |
| `Patterns.DomainPattern` | main.go:107 | The DomainRegexp is ".*", then the escaped host, then ".*". Its middle un-escapes to the host, and every dot in it has a backslash right before it. Its length is the host's length plus its dot count plus 4. |
| `Patterns.HostPattern` | cmd/app/crawler.go:95 | regexForHost is ".*" followed by the escaped host name, with nothing after it. The rest un-escapes to the host, and every dot in it has a backslash right before it. |
| `Patterns.EndpointPattern` | cmd/app/crawler.go:96 | regexForEndpoint is the escaped URL string followed by ".*". The prefix un-escapes to the URL, and every dot in it has a backslash right before it. |
| `LinkTable.ResultTable.constructor` | main.go:91 | A fresh table is empty, has no visits and satisfies the invariant. |
| `LinkTable.ResultTable.Seed` | main.go:138-140 | On a table with no visits yet, the seed is stored as a placeholder and becomes the first and only visit. Every other key is unchanged. The same code is at cmd/app/crawler.go:66-68. |
| `LinkTable.ResultTable.Admit` | main.go:148-158 | An empty link, or one already in the table, leaves the table and the visits unchanged. A new link is added as a placeholder, no other key changes, and exactly that link is appended to the visits. The invariant (no URL visited twice) is kept. searchForLinks at cmd/app/crawler.go:118-128 is identical. |
| `LinkTable.ResultTable.Record` | main.go:130-136 | The request URL's entry becomes the code, its status text, and the flag code >= 203. No other key changes and no visit is issued. The same code is at cmd/app/crawler.go:58-64. |
| `LinkTable.ResultTable.RemoveEmptyResults` | cmd/app/crawler.go:76-84 | The loop deletes while ranging. Afterwards the table is WithoutPlaceholders of the old table, no value is the placeholder, and the visits are unchanged. |
| `Crawl.RunCallbacks` | main.go:127-141 | Running the callbacks in order keeps the invariant and loses no key. Each visit after the first is a non-empty link whose first finding callback came before any scrape of it, and the visits come in the order of those callbacks. Every key was visited or scraped. Every non-empty found link ends up in the table, and it was visited unless a scrape of it came first. Every non-placeholder value comes from a scrape of that URL with that code. For every URL, the table holds the classified outcome of its last scrape. |
| `Crawl.AdmitStep` | main.go:148-158 | One link-admission callback carries all the driver's guarantees from the first i callbacks to the first i + 1. |
| `Crawl.RecordStep` | main.go:130-136 | Given a step that stores this scrape's classified outcome under the scraped URL, changes no other key and issues no visit, the driver's guarantees carry from the first i callbacks to the first i + 1. |
| `Crawl.AppendKeepsOrder` | main.go:152-156 | Appending a link whose first finding callback comes after the first finding callbacks of all earlier visits keeps the visits in the order they were found. |
| `Crawl.LastScrapeFrom` | cmd/app/crawler.go:58-64 | Every scrape among the first n callbacks is followed by a last scrape of the same URL within them. |
| `Crawl.OutcomesAreLastScrapes` | cmd/app/crawler.go:58-64 | Once the callbacks have run, every non-placeholder value in the table is the classified outcome of the last scrape of its URL. |
| `Crawl.LinksCheck` | main.go:90-146 | The seed is the first visit, and no URL is visited twice. Every later visit is a non-empty link whose first finding callback came before any scrape of it, and the later visits come in the order of those callbacks. Every key of the returned table was visited or scraped. Every non-empty found link is in the table, and it was visited unless a scrape of it came first. Every non-placeholder value is the classified outcome of the last scrape of that URL. Every scraped URL holds the classified outcome of its last scrape. |
| `Crawl.DoCrawl` | cmd/app/crawler.go:42-74 | The seed is the first visit, and no URL is visited twice. Every later visit is a non-empty link whose first finding callback came before any scrape of it, and the later visits come in the order of those callbacks. Every non-empty found link was visited unless a scrape of it came first. Every entry of the returned table is not the placeholder, and it is the classified outcome of the last scrape of its URL. Every URL whose last scrape is not the placeholder keeps that outcome after cleanup. |
| `Report.KeptIsWithoutPlaceholders` | main.go:58-68 | The entries main.go's filter keeps are exactly the entries removeEmptyResults of cmd/app/crawler.go leaves. |
| `Report.Collect` | main.go:58-68 | The collected slice is, as a multiset, exactly the set of (value, link) pairs whose value is not the placeholder. |
| `Report.SortByStatusDesc` | main.go:70-72 | After the sort, the status codes are non-increasing and the array is a permutation of what it was. |
| `Report.BuildReport` | main.go:53-72 | The report is sorted by non-increasing status code and is a permutation of the kept entries. |
| `Report.ReportLines` | main.go:58-68 | Read against the table, such a report has these properties. Every line is a non-placeholder entry with its own link. Every non-placeholder entry has a line. No link appears twice. The number of lines is the number of kept entries. |

## Left out

- The colly collector is not modelled: traversal order, `MaxDepth`, `AllowedDomains`, `URLFilters`, `Limit` parallelism and `RandomDelay`, `AbsoluteURL`, `Visit`/`Wait`. Its callback order is an input sequence, a found link is already absolute, and a visit is an entry appended to the log.
- Regular-expression matching of the pattern strings is not modelled. Only the strings are modelled.
- Concurrency is not modelled. `sync.Map` is treated as a sequential map and each callback as atomic. The Go load-then-store in link admission can race, and the model claims nothing about races.
- The context-deadline hooks (`OnRequest`, `OnResponseHeaders`, `abortRequestOnContext`) are not modelled, because they concern timing and cancellation. A cancelled crawl shows up only as callbacks that never happen.
- `http.StatusText` is not part of this model. It is the table's `statusText` parameter, and `runtime.NumCPU` is not modelled.
- A scraped URL is not tied to a visit. The scrape callback stores under the request's URL string, which the library may normalise or redirect. So the model promises only that every key was visited or scraped, not that it was visited.
- `WriteResultToFile` in both files is not modelled, because it is file I/O with formatted printing.
- cmd/app/main.go is not modelled: it only parses the URL, sets the timeout and wires the parts together.
- Report.SortByStatusDesc: is an insertion sort standing for the library's `sort.Slice`. It promises what `sort.Slice` promises for this `less` function, a sorted permutation, and no order among equal status codes.
