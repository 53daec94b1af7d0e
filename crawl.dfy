/**
 The two crawl drivers, LinksCheck (main.go) and DoCrawl (cmd/app/crawler.go).
 The crawling library decides which callbacks fire and in what order; the model
 takes that order as a sequence of callbacks and runs each one as an atomic
 step on the table. A found link is already in absolute form.
 */
module Crawl {
  import opened Outcome
  import opened LinkTable

  /** One callback invocation: an [href]/[src] attribute found on a page, or a
      page scraped with its response status code. */
  datatype Callback = FoundLink(link: string) | Scraped(url: string, statusCode: int)

  /** `url` was scraped with status `code` by one of the first `n` callbacks. */
  ghost predicate ScrapedBefore(callbacks: seq<Callback>, n: int, url: string, code: int)
  {
    exists j :: 0 <= j < n && j < |callbacks| && callbacks[j] == Scraped(url, code)
  }

  /** `url` was scraped, with any status, by one of the first `n` callbacks. */
  ghost predicate ScrapedAny(callbacks: seq<Callback>, n: int, url: string)
  {
    exists j :: 0 <= j < n && j < |callbacks| && callbacks[j].Scraped? && callbacks[j].url == url
  }

  /** Callback `j` is a scrape and no later one of the first `n` callbacks scrapes the same URL. */
  ghost predicate IsLastScrape(callbacks: seq<Callback>, n: int, j: int)
  {
    && 0 <= j < n && j < |callbacks| && callbacks[j].Scraped?
    && forall l :: j < l < n && l < |callbacks| ==>
         !(callbacks[l].Scraped? && callbacks[l].url == callbacks[j].url)
  }

  /** Callback `j` is the first to find `v`, and no earlier callback scraped `v`:
      the point at which link admission visits `v`. */
  ghost predicate FirstFoundFresh(callbacks: seq<Callback>, j: int, v: string)
  {
    && 0 <= j < |callbacks| && callbacks[j] == FoundLink(v)
    && (forall l :: 0 <= l < j ==> callbacks[l] != FoundLink(v))
    && !ScrapedAny(callbacks, j, v)
  }

  /** A link is first found at one callback only. */
  lemma FirstFoundUnique(callbacks: seq<Callback>, j1: int, j2: int, v: string)
    requires FirstFoundFresh(callbacks, j1, v) && FirstFoundFresh(callbacks, j2, v)
    ensures j1 == j2
  {
  }

  /** One of the first `n` callbacks is the first to find `v`, with `v` not scraped before it. */
  ghost predicate FreshBefore(callbacks: seq<Callback>, n: int, v: string)
  {
    exists j :: 0 <= j < n && FirstFoundFresh(callbacks, j, v)
  }

  /** The visits after the seed come in the order of the callbacks that first found them. */
  ghost predicate InFoundOrder(callbacks: seq<Callback>, visits: seq<string>)
  {
    forall a, b, ja, jb ::
      (1 <= a < b < |visits| && FirstFoundFresh(callbacks, ja, visits[a]) && FirstFoundFresh(callbacks, jb, visits[b]))
      ==> ja < jb
  }

  /** The seed is the first visit; every later visit is a non-empty link that one
      of the first `n` callbacks found first and unscraped; and the later visits
      come in the order of those callbacks. */
  ghost predicate VisitsFound(seed: string, callbacks: seq<Callback>, n: int, visits: seq<string>)
  {
    && |visits| >= 1 && visits[0] == seed
    && (forall i :: 1 <= i < |visits| ==>
          visits[i] != "" && FreshBefore(callbacks, n, visits[i]))
    && InFoundOrder(callbacks, visits)
  }

  /** Every key of the table was visited or scraped. */
  ghost predicate KeysVisitedOrScraped(callbacks: seq<Callback>, n: int,
                                       entries: map<string, ExecutionResult>, visits: seq<string>)
  {
    forall k :: k in entries ==> k in visits || ScrapedAny(callbacks, n, k)
  }

  /** Every non-empty link found by the first `n` callbacks is in the table, and
      was visited unless a scrape of it came before it was found. */
  ghost predicate FoundLinksAdmitted(callbacks: seq<Callback>, n: int,
                                     entries: map<string, ExecutionResult>, visits: seq<string>)
  {
    forall j :: 0 <= j < n && j < |callbacks| && callbacks[j].FoundLink? && callbacks[j].link != "" ==>
      callbacks[j].link in entries &&
      (callbacks[j].link in visits || ScrapedAny(callbacks, j, callbacks[j].link))
  }

  /** Every stored outcome comes from a scrape of its URL with its code. */
  ghost predicate OutcomesScraped(callbacks: seq<Callback>, n: int, entries: map<string, ExecutionResult>)
  {
    forall k :: k in entries && entries[k] != Placeholder ==>
      ScrapedBefore(callbacks, n, k, entries[k].statusCode)
  }

  /** The table holds, for each URL, the outcome of its last scrape. */
  ghost predicate LastScrapesHeld(statusText: int -> string, callbacks: seq<Callback>, n: int,
                                  entries: map<string, ExecutionResult>)
  {
    forall j :: IsLastScrape(callbacks, n, j) ==>
      callbacks[j].url in entries &&
      entries[callbacks[j].url] == Classify(callbacks[j].statusCode, statusText)
  }

  /** What the driver guarantees after the first `n` callbacks on a table seeded with `seed`. */
  ghost predicate Replayed(seed: string, statusText: int -> string, callbacks: seq<Callback>, n: int,
                           entries: map<string, ExecutionResult>, visits: seq<string>)
  {
    && seed in entries
    && VisitsFound(seed, callbacks, n, visits)
    && KeysVisitedOrScraped(callbacks, n, entries, visits)
    && FoundLinksAdmitted(callbacks, n, entries, visits)
    && OutcomesScraped(callbacks, n, entries)
    && LastScrapesHeld(statusText, callbacks, n, entries)
  }

  /** What the first `i` callbacks did, the first `i + 1` did too. */
  lemma BeforeMonotone(callbacks: seq<Callback>, i: int)
    requires 0 <= i
    ensures forall k, c :: ScrapedBefore(callbacks, i, k, c) ==> ScrapedBefore(callbacks, i + 1, k, c)
    ensures forall k :: ScrapedAny(callbacks, i, k) ==> ScrapedAny(callbacks, i + 1, k)
    ensures forall v :: FreshBefore(callbacks, i, v) ==> FreshBefore(callbacks, i + 1, v)
  {
    forall v | FreshBefore(callbacks, i, v) ensures FreshBefore(callbacks, i + 1, v) {
      var w :| 0 <= w < i && FirstFoundFresh(callbacks, w, v);
    }
    forall k, c | ScrapedBefore(callbacks, i, k, c) ensures ScrapedBefore(callbacks, i + 1, k, c) {
      var w :| 0 <= w < i && w < |callbacks| && callbacks[w] == Scraped(k, c);
    }
    forall k | ScrapedAny(callbacks, i, k) ensures ScrapedAny(callbacks, i + 1, k) {
      var w :| 0 <= w < i && w < |callbacks| && callbacks[w].Scraped? && callbacks[w].url == k;
    }
  }

  /** Appending a link first found by callback `i` keeps the visits in found order,
      when every earlier visit was first found before `i`. */
  lemma AppendKeepsOrder(callbacks: seq<Callback>, i: int, visits: seq<string>, link: string)
    requires FirstFoundFresh(callbacks, i, link)
    requires forall a :: 1 <= a < |visits| ==> FreshBefore(callbacks, i, visits[a])
    requires InFoundOrder(callbacks, visits)
    ensures InFoundOrder(callbacks, visits + [link])
  {
    var visits1 := visits + [link];
    forall a, b, ja, jb | 1 <= a < b < |visits1| &&
        FirstFoundFresh(callbacks, ja, visits1[a]) && FirstFoundFresh(callbacks, jb, visits1[b])
      ensures ja < jb
    {
      assert visits1[a] == visits[a];
      if b == |visits| {
        FirstFoundUnique(callbacks, jb, i, link);
        var j :| 0 <= j < i && FirstFoundFresh(callbacks, j, visits[a]);
        FirstFoundUnique(callbacks, ja, j, visits[a]);
      } else {
        assert visits1[b] == visits[b];
      }
    }
  }

  /** Admission keeps the seed first and appends only a link found for the
      first time and not scraped before, after every earlier visit. */
  lemma AdmitKeepsVisitsFound(seed: string, callbacks: seq<Callback>, i: int,
                              entries0: map<string, ExecutionResult>, visits0: seq<string>,
                              entries1: map<string, ExecutionResult>, visits1: seq<string>)
    requires 0 <= i < |callbacks| && callbacks[i].FoundLink?
    requires AdmitEffect(callbacks[i].link, entries0, visits0, entries1, visits1)
    requires VisitsFound(seed, callbacks, i, visits0)
    requires FoundLinksAdmitted(callbacks, i, entries0, visits0)
    requires forall k :: ScrapedAny(callbacks, i, k) ==> k in entries0
    ensures VisitsFound(seed, callbacks, i + 1, visits1)
  {
    var link := callbacks[i].link;
    BeforeMonotone(callbacks, i);
    if link != "" && link !in entries0 {
      forall l | 0 <= l < i ensures callbacks[l] != FoundLink(link) {
        assert callbacks[l].FoundLink? && callbacks[l].link != "" ==> callbacks[l].link in entries0;
      }
      assert FirstFoundFresh(callbacks, i, link);
      assert FreshBefore(callbacks, i + 1, link);
      AppendKeepsOrder(callbacks, i, visits0, link);
      assert visits1 == visits0 + [link];
    }
  }

  /** Every URL scraped by the first `n` callbacks is a key of a table that holds their last scrapes. */
  lemma ScrapedInTable(statusText: int -> string, callbacks: seq<Callback>, n: int,
                       entries: map<string, ExecutionResult>)
    requires n <= |callbacks|
    requires LastScrapesHeld(statusText, callbacks, n, entries)
    ensures forall k :: ScrapedAny(callbacks, n, k) ==> k in entries
  {
    forall k | ScrapedAny(callbacks, n, k) ensures k in entries {
      var w :| 0 <= w < n && w < |callbacks| && callbacks[w].Scraped? && callbacks[w].url == k;
      LastScrapeFrom(callbacks, n, w);
    }
  }

  /** After admission the found link is in the table, and it was visited unless a scrape of it came first. */
  lemma AdmitKeepsFoundLinksAdmitted(callbacks: seq<Callback>, i: int,
                                     entries0: map<string, ExecutionResult>, visits0: seq<string>,
                                     entries1: map<string, ExecutionResult>, visits1: seq<string>)
    requires 0 <= i < |callbacks| && callbacks[i].FoundLink?
    requires AdmitEffect(callbacks[i].link, entries0, visits0, entries1, visits1)
    requires KeysVisitedOrScraped(callbacks, i, entries0, visits0)
    requires FoundLinksAdmitted(callbacks, i, entries0, visits0)
    ensures KeysVisitedOrScraped(callbacks, i + 1, entries1, visits1)
    ensures FoundLinksAdmitted(callbacks, i + 1, entries1, visits1)
  {
    var link := callbacks[i].link;
    BeforeMonotone(callbacks, i);
    forall j | 0 <= j <= i && callbacks[j].FoundLink? && callbacks[j].link != ""
      ensures callbacks[j].link in entries1
      ensures callbacks[j].link in visits1 || ScrapedAny(callbacks, j, callbacks[j].link)
    {
      if j == i && link in entries0 && link !in visits0 {
        assert ScrapedAny(callbacks, i, link);
      }
    }
  }

  /** Admission only adds a placeholder under a new key, so every stored outcome stays as it was. */
  lemma AdmitKeepsOutcomes(statusText: int -> string, callbacks: seq<Callback>, i: int,
                           entries0: map<string, ExecutionResult>, visits0: seq<string>,
                           entries1: map<string, ExecutionResult>, visits1: seq<string>)
    requires 0 <= i < |callbacks| && callbacks[i].FoundLink?
    requires AdmitEffect(callbacks[i].link, entries0, visits0, entries1, visits1)
    requires OutcomesScraped(callbacks, i, entries0)
    requires LastScrapesHeld(statusText, callbacks, i, entries0)
    ensures OutcomesScraped(callbacks, i + 1, entries1)
    ensures LastScrapesHeld(statusText, callbacks, i + 1, entries1)
  {
    BeforeMonotone(callbacks, i);
    forall j | IsLastScrape(callbacks, i + 1, j)
      ensures callbacks[j].url in entries1
      ensures entries1[callbacks[j].url] == Classify(callbacks[j].statusCode, statusText)
    {
      assert IsLastScrape(callbacks, i, j);
    }
  }

  /** Admitting the link found by callback `i` carries the guarantees from `i` to `i + 1` callbacks. */
  lemma AdmitStep(seed: string, statusText: int -> string, callbacks: seq<Callback>, i: int,
                  entries0: map<string, ExecutionResult>, visits0: seq<string>,
                  entries1: map<string, ExecutionResult>, visits1: seq<string>)
    requires 0 <= i < |callbacks| && callbacks[i].FoundLink?
    requires Replayed(seed, statusText, callbacks, i, entries0, visits0)
    requires AdmitEffect(callbacks[i].link, entries0, visits0, entries1, visits1)
    ensures Replayed(seed, statusText, callbacks, i + 1, entries1, visits1)
  {
    ScrapedInTable(statusText, callbacks, i, entries0);
    AdmitKeepsVisitsFound(seed, callbacks, i, entries0, visits0, entries1, visits1);
    AdmitKeepsFoundLinksAdmitted(callbacks, i, entries0, visits0, entries1, visits1);
    AdmitKeepsOutcomes(statusText, callbacks, i, entries0, visits0, entries1, visits1);
  }

  /** Recording issues no visit and adds at most the scraped URL as a key. */
  lemma RecordKeepsVisits(seed: string, callbacks: seq<Callback>, i: int,
                          entries0: map<string, ExecutionResult>, visits0: seq<string>,
                          entries1: map<string, ExecutionResult>, st: int -> string)
    requires 0 <= i < |callbacks| && callbacks[i].Scraped?
    requires entries1 == entries0[callbacks[i].url := Classify(callbacks[i].statusCode, st)]
    requires VisitsFound(seed, callbacks, i, visits0)
    requires KeysVisitedOrScraped(callbacks, i, entries0, visits0)
    requires FoundLinksAdmitted(callbacks, i, entries0, visits0)
    ensures VisitsFound(seed, callbacks, i + 1, visits0)
    ensures KeysVisitedOrScraped(callbacks, i + 1, entries1, visits0)
    ensures FoundLinksAdmitted(callbacks, i + 1, entries1, visits0)
  {
    BeforeMonotone(callbacks, i);
    assert callbacks[i] == Scraped(callbacks[i].url, callbacks[i].statusCode);
    assert ScrapedAny(callbacks, i + 1, callbacks[i].url);
  }

  /** The scraped URL now holds the outcome of its latest scrape; no other key changes. */
  lemma RecordKeepsOutcomes(statusText: int -> string, callbacks: seq<Callback>, i: int,
                            entries0: map<string, ExecutionResult>, entries1: map<string, ExecutionResult>)
    requires 0 <= i < |callbacks| && callbacks[i].Scraped?
    requires entries1 == entries0[callbacks[i].url := Classify(callbacks[i].statusCode, statusText)]
    requires OutcomesScraped(callbacks, i, entries0)
    requires LastScrapesHeld(statusText, callbacks, i, entries0)
    ensures OutcomesScraped(callbacks, i + 1, entries1)
    ensures LastScrapesHeld(statusText, callbacks, i + 1, entries1)
  {
    var url, code := callbacks[i].url, callbacks[i].statusCode;
    BeforeMonotone(callbacks, i);
    assert callbacks[i] == Scraped(url, code);
    assert ScrapedBefore(callbacks, i + 1, url, code);
    forall j | IsLastScrape(callbacks, i + 1, j)
      ensures callbacks[j].url in entries1
      ensures entries1[callbacks[j].url] == Classify(callbacks[j].statusCode, statusText)
    {
      if j < i {
        assert callbacks[j].url != url;
        assert IsLastScrape(callbacks, i, j);
      }
    }
  }

  /** Recording the page scraped by callback `i` carries the guarantees from `i` to `i + 1` callbacks. */
  lemma RecordStep(seed: string, statusText: int -> string, callbacks: seq<Callback>, i: int,
                   entries0: map<string, ExecutionResult>, visits0: seq<string>,
                   entries1: map<string, ExecutionResult>)
    requires 0 <= i < |callbacks| && callbacks[i].Scraped?
    requires Replayed(seed, statusText, callbacks, i, entries0, visits0)
    requires entries1 == entries0[callbacks[i].url := Classify(callbacks[i].statusCode, statusText)]
    ensures Replayed(seed, statusText, callbacks, i + 1, entries1, visits0)
  {
    RecordKeepsVisits(seed, callbacks, i, entries0, visits0, entries1, statusText);
    RecordKeepsOutcomes(statusText, callbacks, i, entries0, entries1);
  }

  /** A scrape is followed, within the first `n` callbacks, by a last scrape of the same URL. */
  lemma LastScrapeFrom(callbacks: seq<Callback>, n: int, j: int)
    requires 0 <= j < n <= |callbacks| && callbacks[j].Scraped?
    ensures exists l :: IsLastScrape(callbacks, n, l) && callbacks[l].url == callbacks[j].url
    decreases n - j
  {
    if !IsLastScrape(callbacks, n, j) {
      var l :| j < l < n && callbacks[l].Scraped? && callbacks[l].url == callbacks[j].url;
      LastScrapeFrom(callbacks, n, l);
    }
  }

  /** Once all callbacks have run, every stored outcome is the outcome of the last scrape of its URL. */
  lemma OutcomesAreLastScrapes(statusText: int -> string, callbacks: seq<Callback>,
                               entries: map<string, ExecutionResult>)
    requires OutcomesScraped(callbacks, |callbacks|, entries)
    requires LastScrapesHeld(statusText, callbacks, |callbacks|, entries)
    ensures forall k :: k in entries && entries[k] != Placeholder ==>
              exists j :: IsLastScrape(callbacks, |callbacks|, j) && callbacks[j].url == k &&
                          entries[k] == Classify(callbacks[j].statusCode, statusText)
  {
    forall k | k in entries && entries[k] != Placeholder
      ensures exists j :: IsLastScrape(callbacks, |callbacks|, j) && callbacks[j].url == k &&
                          entries[k] == Classify(callbacks[j].statusCode, statusText)
    {
      var j :| 0 <= j < |callbacks| && callbacks[j] == Scraped(k, entries[k].statusCode);
      LastScrapeFrom(callbacks, |callbacks|, j);
    }
  }

  /** Runs the callbacks in order: a found link goes through link admission, a
      scraped page through the outcome recorder. */
  method RunCallbacks(table: ResultTable, seed: string, callbacks: seq<Callback>)
    requires table.Valid() && Replayed(seed, table.statusText, callbacks, 0, table.entries, table.visits)
    modifies table
    ensures table.Valid() && Replayed(seed, table.statusText, callbacks, |callbacks|, table.entries, table.visits)
    ensures old(table.entries).Keys <= table.entries.Keys
  {
    var i := 0;
    while i < |callbacks|
      invariant 0 <= i <= |callbacks|
      invariant table.Valid() && Replayed(seed, table.statusText, callbacks, i, table.entries, table.visits)
      invariant old(table.entries).Keys <= table.entries.Keys
    {
      ghost var entries0, visits0 := table.entries, table.visits;
      match callbacks[i] {
        case FoundLink(link) =>
          table.Admit(link);
          AdmitStep(seed, table.statusText, callbacks, i, entries0, visits0, table.entries, table.visits);
        case Scraped(url, code) =>
          table.Record(url, code);
          RecordStep(seed, table.statusText, callbacks, i, entries0, visits0, table.entries);
      }
      i := i + 1;
    }
  }

  /** LinksCheck (main.go): seed the table, let the callbacks run, return the
      table with its placeholders still in it, and the visit log. */
  method LinksCheck(seed: string, statusText: int -> string, callbacks: seq<Callback>)
    returns (entries: map<string, ExecutionResult>, visits: seq<string>)
    ensures |visits| >= 1 && visits[0] == seed
    ensures NoDuplicates(visits)
    ensures forall v :: v in visits ==> v in entries
    ensures forall i :: 1 <= i < |visits| ==>
              visits[i] != "" && FreshBefore(callbacks, |callbacks|, visits[i])
    ensures InFoundOrder(callbacks, visits)
    ensures forall k :: k in entries ==> k in visits || ScrapedAny(callbacks, |callbacks|, k)
    ensures forall j :: 0 <= j < |callbacks| && callbacks[j].FoundLink? && callbacks[j].link != "" ==>
              callbacks[j].link in entries &&
              (callbacks[j].link in visits || ScrapedAny(callbacks, j, callbacks[j].link))
    ensures forall k :: k in entries && entries[k] != Placeholder ==>
              exists j :: IsLastScrape(callbacks, |callbacks|, j) && callbacks[j].url == k &&
                          entries[k] == Classify(callbacks[j].statusCode, statusText)
    ensures forall j :: IsLastScrape(callbacks, |callbacks|, j) ==>
              callbacks[j].url in entries &&
              entries[callbacks[j].url] == Classify(callbacks[j].statusCode, statusText)
  {
    var table := new ResultTable(statusText);
    table.Seed(seed);
    RunCallbacks(table, seed, callbacks);
    OutcomesAreLastScrapes(statusText, callbacks, table.entries);
    entries, visits := table.entries, table.visits;
  }

  /** DoCrawl (cmd/app/crawler.go): as LinksCheck, then removeEmptyResults, so
      exactly the URLs whose last scrape is not the placeholder are left, each
      with the outcome of that last scrape. */
  method DoCrawl(seed: string, statusText: int -> string, callbacks: seq<Callback>)
    returns (entries: map<string, ExecutionResult>, visits: seq<string>)
    ensures |visits| >= 1 && visits[0] == seed
    ensures NoDuplicates(visits)
    ensures forall i :: 1 <= i < |visits| ==>
              visits[i] != "" && FreshBefore(callbacks, |callbacks|, visits[i])
    ensures InFoundOrder(callbacks, visits)
    ensures forall j :: 0 <= j < |callbacks| && callbacks[j].FoundLink? && callbacks[j].link != "" ==>
              callbacks[j].link in visits || ScrapedAny(callbacks, j, callbacks[j].link)
    ensures forall k :: k in entries ==>
              entries[k] != Placeholder &&
              exists j :: IsLastScrape(callbacks, |callbacks|, j) && callbacks[j].url == k &&
                          entries[k] == Classify(callbacks[j].statusCode, statusText)
    ensures forall j :: IsLastScrape(callbacks, |callbacks|, j) &&
                        Classify(callbacks[j].statusCode, statusText) != Placeholder ==>
              callbacks[j].url in entries &&
              entries[callbacks[j].url] == Classify(callbacks[j].statusCode, statusText)
  {
    var table := new ResultTable(statusText);
    table.Seed(seed);
    RunCallbacks(table, seed, callbacks);
    OutcomesAreLastScrapes(statusText, callbacks, table.entries);
    table.RemoveEmptyResults();
    entries, visits := table.entries, table.visits;
  }
}
