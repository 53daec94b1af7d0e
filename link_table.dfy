/**
 The link/result table both crawler variants keep in a sync.Map: URL string to
 ExecutionResult, where the placeholder marks a URL admitted but not scraped.
 The colly callbacks that act on it are methods here, each one atomic step;
 the visits the callbacks issue are kept as a log in issue order.
 */
module LinkTable {
  import opened Outcome

  /** No URL occurs twice in a visit log. */
  ghost predicate NoDuplicates(s: seq<string>)
  {
    forall i, j :: 0 <= i < j < |s| ==> s[i] != s[j]
  }

  /** The table and the visits after collyFunc / searchForLinks has handled
      `link`: an empty link or one already in the table changes nothing; a new
      link is stored as a placeholder and appended to the visits. */
  ghost predicate AdmitEffect(link: string, entries0: map<string, ExecutionResult>, visits0: seq<string>,
                              entries1: map<string, ExecutionResult>, visits1: seq<string>)
  {
    if link == "" || link in entries0 then entries1 == entries0 && visits1 == visits0
    else entries1 == entries0[link := Placeholder] && visits1 == visits0 + [link]
  }

  class ResultTable {
    /** The sync.Map of results. */
    var entries: map<string, ExecutionResult>
    /** The URLs handed to Visit, in issue order. */
    var visits: seq<string>
    /** Go's http.StatusText, which is not part of this model. */
    const statusText: int -> string

    /** Each URL is visited at most once, every visited URL has an entry,
        and every stored outcome is the placeholder or a classified response. */
    ghost predicate Valid()
      reads this
    {
      && NoDuplicates(visits)
      && (forall v :: v in visits ==> v in entries)
      && AllWellFormed(entries, statusText)
    }

    /** `res := sync.Map{}`: an empty table, nothing visited. */
    constructor (statusText: int -> string)
      ensures Valid()
      ensures entries == map[] && visits == [] && this.statusText == statusText
    {
      entries := map[];
      visits := [];
      this.statusText := statusText;
    }

    /** Store the seed as a placeholder, then visit it: the seed is in the
        table before its visit, so link admission never visits it again. */
    method Seed(url: string)
      requires Valid() && visits == []
      modifies this
      ensures Valid()
      ensures entries == old(entries)[url := Placeholder]
      ensures visits == [url]
    {
      entries := entries[url := Placeholder];
      visits := visits + [url];
    }

    /** collyFunc / searchForLinks: an empty link or one already in the table is
        ignored; a new link is stored as a placeholder and visited once. */
    method Admit(link: string)
      requires Valid()
      modifies this
      ensures Valid()
      ensures AdmitEffect(link, old(entries), old(visits), entries, visits)
    {
      if link != "" {
        if link !in entries {
          entries := entries[link := Placeholder];
          visits := visits + [link];
        }
      }
    }

    /** OnScraped: the entry of the request URL is overwritten with the status
        code, its text and the error flag; no other key changes, no visit. */
    method Record(url: string, statusCode: int)
      requires Valid()
      modifies this
      ensures Valid()
      ensures entries == old(entries)[url := Classify(statusCode, statusText)]
      ensures entries[url].isError <==> statusCode >= ErrorThreshold
      ensures entries[url].status == statusText(statusCode)
      ensures visits == old(visits)
    {
      entries := entries[url := Classify(statusCode, statusText)];
    }

    /** removeEmptyResults: ranges over the table and deletes every entry equal
        to the placeholder; every other entry keeps its value. */
    method RemoveEmptyResults()
      requires AllWellFormed(entries, statusText)
      modifies this
      ensures entries == WithoutPlaceholders(old(entries))
      ensures forall k :: k in entries ==> entries[k] != Placeholder
      ensures AllWellFormed(entries, statusText)
      ensures visits == old(visits)
    {
      var pending := entries.Keys;
      while pending != {}
        invariant pending <= old(entries).Keys
        invariant forall k :: k in entries <==> k in old(entries) && (k in pending || old(entries)[k] != Placeholder)
        invariant forall k :: k in entries ==> entries[k] == old(entries)[k]
        invariant visits == old(visits)
        decreases pending
      {
        var link :| link in pending;
        if entries[link] == Placeholder {
          entries := entries - {link};
        }
        pending := pending - {link};
      }
      assert entries.Keys == WithoutPlaceholders(old(entries)).Keys;
    }
  }
}
