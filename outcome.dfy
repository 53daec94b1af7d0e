/**
 The per-URL outcome recorded by the crawler, the "pending" placeholder that
 stands in for a URL admitted but not yet scraped, and the post-crawl removal
 of placeholders. Both crawler variants (main.go and cmd/app/crawler.go)
 declare the same ExecutionResult record; it is modelled once here.
 */
module Outcome {

  /** Go's ExecutionResult{StatusCode, Status, IsError}. */
  datatype ExecutionResult = ExecutionResult(statusCode: int, status: string, isError: bool)

  /** Go's zero value ExecutionResult{}: the placeholder of a pending URL. */
  const Placeholder := ExecutionResult(0, "", false)

  /** Status codes at or above this value are flagged as errors. */
  const ErrorThreshold := 203

  /** The outcome the OnScraped callback stores for a response with status `code`;
      `statusText` stands for Go's http.StatusText. */
  function Classify(code: int, statusText: int -> string): ExecutionResult
  {
    ExecutionResult(code, statusText(code), code >= ErrorThreshold)
  }

  /** An outcome is either the placeholder or what the recorder stores for its own code. */
  ghost predicate WellFormed(e: ExecutionResult, statusText: int -> string)
  {
    e == Placeholder || e == Classify(e.statusCode, statusText)
  }

  /** Every value of a result table is well formed. */
  ghost predicate AllWellFormed(m: map<string, ExecutionResult>, statusText: int -> string)
  {
    forall k :: k in m ==> WellFormed(m[k], statusText)
  }

  /** Exactly the outcome the recorder stores: the code, its text, and the error flag. */
  lemma ClassifyMeaning(code: int, statusText: int -> string)
    ensures WellFormed(Classify(code, statusText), statusText)
    ensures Classify(code, statusText).statusCode == code
    ensures Classify(code, statusText).status == statusText(code)
    ensures Classify(code, statusText).isError <==> code >= ErrorThreshold
  {
  }

  /** A scraped response is indistinguishable from the placeholder exactly when its
      code is 0 and the status text of 0 is empty (as Go's http.StatusText(0) is);
      such an outcome is later dropped together with the pending entries. */
  lemma ScrapedAsPlaceholder(code: int, statusText: int -> string)
    ensures Classify(code, statusText) == Placeholder <==> code == 0 && statusText(0) == ""
  {
  }

  /** The table that removeEmptyResults leaves: every non-placeholder entry, unchanged. */
  function WithoutPlaceholders(m: map<string, ExecutionResult>): (r: map<string, ExecutionResult>)
    ensures r.Keys <= m.Keys
    ensures forall k :: k in m ==> (k in r <==> m[k] != Placeholder)
    ensures forall k :: k in r ==> r[k] == m[k] && r[k] != Placeholder
  {
    map k | k in m && m[k] != Placeholder :: m[k]
  }

  /** Removing placeholders a second time changes nothing. */
  lemma WithoutPlaceholdersIdempotent(m: map<string, ExecutionResult>)
    ensures WithoutPlaceholders(WithoutPlaceholders(m)) == WithoutPlaceholders(m)
  {
  }

  /** A table without placeholders is left exactly as it is. */
  lemma WithoutPlaceholdersFixpoint(m: map<string, ExecutionResult>)
    ensures WithoutPlaceholders(m) == m <==> forall k :: k in m ==> m[k] != Placeholder
  {
  }

  /** Removing placeholders keeps every value well formed. */
  lemma WithoutPlaceholdersWellFormed(m: map<string, ExecutionResult>, statusText: int -> string)
    requires AllWellFormed(m, statusText)
    ensures AllWellFormed(WithoutPlaceholders(m), statusText)
    ensures forall k :: k in WithoutPlaceholders(m) ==> WithoutPlaceholders(m)[k] == Classify(WithoutPlaceholders(m)[k].statusCode, statusText)
  {
  }
}
