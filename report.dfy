/**
 The aggregation in main.go's main: range over the returned table, skip the
 placeholders, append every other entry with its link to a slice, and sort the
 slice in place by descending status code.
 */
module Report {
  import opened Outcome

  /** Go's TestResult: an ExecutionResult together with its link. */
  datatype TestResult = TestResult(result: ExecutionResult, link: string)

  /** The entries the report keeps: every non-placeholder entry with its link. */
  ghost function Kept(m: map<string, ExecutionResult>): set<TestResult>
  {
    set k | k in m && m[k] != Placeholder :: TestResult(m[k], k)
  }

  /** Non-increasing status codes from left to right. */
  ghost predicate SortedDesc(s: seq<TestResult>)
  {
    forall i, j :: 0 <= i < j < |s| ==> s[i].result.statusCode >= s[j].result.statusCode
  }

  /** Both variants drop the same entries: the report of main.go keeps exactly
      what removeEmptyResults of cmd/app/crawler.go leaves in the table. */
  lemma KeptIsWithoutPlaceholders(m: map<string, ExecutionResult>)
    ensures Kept(m) == set k | k in WithoutPlaceholders(m) :: TestResult(WithoutPlaceholders(m)[k], k)
    ensures Kept(WithoutPlaceholders(m)) == Kept(m)
  {
    var w := WithoutPlaceholders(m);
    assert forall x :: x in Kept(m) <==> x in (set k | k in w :: TestResult(w[k], k));
  }

  /** Moving key `k` from the pending keys to the processed ones adds at most its own entry. */
  lemma KeptStep(m: map<string, ExecutionResult>, pending: set<string>, k: string)
    requires k in pending && k in m
    ensures TestResult(m[k], k) !in Kept(m - pending)
    ensures Kept(m - (pending - {k})) ==
              Kept(m - pending) + (if m[k] != Placeholder then {TestResult(m[k], k)} else {})
  {
    var before := m - pending;
    var after := m - (pending - {k});
    var added: set<TestResult> := if m[k] != Placeholder then {TestResult(m[k], k)} else {};
    assert after == before[k := m[k]];
    forall x | x in Kept(after)
      ensures x in Kept(before) + added
    {
      if x.link != k {
        assert x.link in before && before[x.link] == after[x.link];
      }
    }
    forall x | x in Kept(before) + added
      ensures x in Kept(after)
    {
      if x in Kept(before) {
        assert x.link in after && after[x.link] == before[x.link];
      } else {
        assert x.link == k && k in after;
      }
    }
  }

  /** A set gains one occurrence of a new element in its multiset. */
  lemma MultisetOfSetAdd(a: set<TestResult>, x: TestResult)
    requires x !in a
    ensures multiset(a + {x}) == multiset(a) + multiset{x}
  {
  }

  /** The Range-and-append loop: the collected slice holds every kept entry
      exactly once and nothing else, in the (unspecified) order of the range. */
  method Collect(m: map<string, ExecutionResult>) returns (rs: seq<TestResult>)
    ensures multiset(rs) == multiset(Kept(m))
  {
    rs := [];
    var pending := m.Keys;
    assert m - pending == map[];
    while pending != {}
      invariant pending <= m.Keys
      invariant multiset(rs) == multiset(Kept(m - pending))
      decreases pending
    {
      var link :| link in pending;
      KeptStep(m, pending, link);
      if m[link] != Placeholder {
        MultisetOfSetAdd(Kept(m - pending), TestResult(m[link], link));
        rs := rs + [TestResult(m[link], link)];
      }
      pending := pending - {link};
    }
    assert m - pending == m;
  }

  /** Exchanges two elements; the array stays a permutation of what it was. */
  method Swap(a: array<TestResult>, i: int, j: int)
    requires 0 <= i < a.Length && 0 <= j < a.Length
    modifies a
    ensures a[..] == old(a[..])[i := old(a[j])][j := old(a[i])]
    ensures multiset(a[..]) == multiset(old(a[..]))
  {
    a[i], a[j] := a[j], a[i];
  }

  /** The elements of positions 0..i except position j are in non-increasing order. */
  ghost predicate SortedExcept(s: seq<TestResult>, i: int, j: int)
    requires 0 <= i < |s|
  {
    forall p, q :: 0 <= p < q <= i && p != j && q != j ==> s[p].result.statusCode >= s[q].result.statusCode
  }

  /** One pass of insertion: moves a[i] left past every smaller code, so that
      a[..i+1] becomes sorted when a[..i] was. */
  method InsertBack(a: array<TestResult>, i: int)
    requires 0 <= i < a.Length && SortedDesc(a[..i])
    modifies a
    ensures SortedDesc(a[..i + 1])
    ensures multiset(a[..]) == multiset(old(a[..]))
  {
    var j := i;
    while j > 0 && a[j - 1].result.statusCode < a[j].result.statusCode
      invariant 0 <= j <= i
      invariant SortedExcept(a[..], i, j)
      invariant forall q :: j < q <= i ==> a[j].result.statusCode > a[q].result.statusCode
      invariant multiset(a[..]) == multiset(old(a[..]))
    {
      Swap(a, j - 1, j);
      j := j - 1;
    }
  }

  /** sort.Slice with `less(i, j) = StatusCode[i] > StatusCode[j]`: the slice
      is permuted into non-increasing status codes; the order of equal codes
      is not specified. */
  method SortByStatusDesc(a: array<TestResult>)
    modifies a
    ensures SortedDesc(a[..])
    ensures multiset(a[..]) == multiset(old(a[..]))
  {
    var i := 0;
    while i < a.Length
      invariant 0 <= i <= a.Length
      invariant SortedDesc(a[..i])
      invariant multiset(a[..]) == multiset(old(a[..]))
    {
      InsertBack(a, i);
      i := i + 1;
    }
    assert a[..a.Length] == a[..];
  }

  /** main's aggregation: collect the kept entries, then sort them. */
  method BuildReport(m: map<string, ExecutionResult>) returns (rs: seq<TestResult>)
    ensures SortedDesc(rs)
    ensures multiset(rs) == multiset(Kept(m))
  {
    var collected := Collect(m);
    var a := new TestResult[|collected|](i requires 0 <= i < |collected| => collected[i]);
    assert a[..] == collected;
    SortByStatusDesc(a);
    rs := a[..];
  }

  /** Two equal elements at distinct positions occur at least twice. */
  lemma TwoOccurrences(s: seq<TestResult>, i: int, j: int)
    requires 0 <= i < j < |s| && s[i] == s[j]
    ensures multiset(s)[s[i]] >= 2
  {
    assert s == s[..j] + s[j..];
    assert s[i] in s[..j];
    assert s[j..][0] == s[j];
    assert s[j] in s[j..];
    assert multiset(s) == multiset(s[..j]) + multiset(s[j..]);
  }

  /** What a report with the contents of Kept(m) says about the table: every
      line is a non-placeholder entry of the table, every such entry has a
      line, and no link has two lines. */
  lemma ReportLines(m: map<string, ExecutionResult>, rs: seq<TestResult>)
    requires multiset(rs) == multiset(Kept(m))
    ensures forall i :: 0 <= i < |rs| ==>
              rs[i].link in m && m[rs[i].link] == rs[i].result && rs[i].result != Placeholder
    ensures forall k :: k in m && m[k] != Placeholder ==> TestResult(m[k], k) in rs
    ensures forall i, j :: 0 <= i < j < |rs| ==> rs[i].link != rs[j].link
    ensures |rs| == |Kept(m)|
  {
    forall i | 0 <= i < |rs|
      ensures rs[i] in Kept(m)
    {
      assert rs[i] in multiset(rs);
    }
    forall k | k in m && m[k] != Placeholder
      ensures TestResult(m[k], k) in rs
    {
      assert TestResult(m[k], k) in multiset(Kept(m));
    }
    forall i, j | 0 <= i < j < |rs|
      ensures rs[i].link != rs[j].link
    {
      if rs[i].link == rs[j].link {
        assert rs[i] in Kept(m) && rs[j] in Kept(m);
        assert rs[i] == rs[j];
        TwoOccurrences(rs, i, j);
        assert false;
      }
    }
    assert |multiset(rs)| == |multiset(Kept(m))|;
  }
}
