/**
 The pattern strings handed to the crawling library: a host name or URL with
 every '.' replaced by "\." (strings.ReplaceAll(s, ".", "\\.")), with ".*"
 added before and/or after. Two of them (DomainPattern, HostPattern) select the
 requests a rate-limit rule applies to; only EndpointPattern, given as a URL
 filter, restricts which URLs cmd/app/crawler.go visits. Only the strings are
 modelled; how the library matches them as regular expressions is not.
 */
module Patterns {

  const Backslash: char := '\\'

  /** Number of '.' characters in `s`. */
  function DotCount(s: string): nat
  {
    if s == [] then 0 else (if s[0] == '.' then 1 else 0) + DotCount(s[1..])
  }

  /** Every '.' of `r` has a backslash right before it. (A backslash that was
      already in the input before a dot makes that dot follow two backslashes,
      which a regular expression reads as an unescaped dot.) */
  ghost predicate DotsAfterBackslash(r: string)
  {
    forall i :: 0 <= i < |r| && r[i] == '.' ==> 0 < i && r[i - 1] == Backslash
  }

  /** strings.ReplaceAll(s, ".", "\\."): every dot becomes backslash-dot. */
  function Escape(s: string): (r: string)
    ensures |r| == |s| + DotCount(s)
    ensures DotsAfterBackslash(r)
    ensures r != [] ==> r[0] != '.'
    ensures DotCount(s) == 0 ==> r == s
  {
    if s == [] then []
    else if s[0] == '.' then [Backslash, '.'] + Escape(s[1..])
    else [s[0]] + Escape(s[1..])
  }

  /** strings.ReplaceAll(r, "\\.", "."): scans left to right and turns every
      non-overlapping backslash-dot pair back into a dot. */
  function Unescape(r: string): string
  {
    if |r| >= 2 && r[0] == Backslash && r[1] == '.' then ['.'] + Unescape(r[2..])
    else if r == [] then []
    else [r[0]] + Unescape(r[1..])
  }

  /** Replacing each "\." of the escaped string back with "." yields the input. */
  lemma {:induction false} UnescapeEscape(s: string)
    ensures Unescape(Escape(s)) == s
  {
    if s == [] {
    } else if s[0] == '.' {
      assert Escape(s) == [Backslash, '.'] + Escape(s[1..]);
      assert Escape(s)[2..] == Escape(s[1..]);
      UnescapeEscape(s[1..]);
    } else {
      var tail := Escape(s[1..]);
      assert Escape(s) == [s[0]] + tail;
      assert Escape(s)[1..] == tail;
      // a backslash in the input is never mistaken for the start of an escape:
      // the escaped rest never begins with a dot
      assert |Escape(s)| >= 2 ==> Escape(s)[1] != '.';
      UnescapeEscape(s[1..]);
    }
  }

  /** Escaping is injective: different host names give different patterns. */
  lemma EscapeInjective(s: string, t: string)
    ensures Escape(s) == Escape(t) <==> s == t
  {
    if Escape(s) == Escape(t) {
      UnescapeEscape(s);
      UnescapeEscape(t);
    }
  }

  /** DomainRegexp of main.go's limit rule: ".*" + escaped host + ".*". */
  function DomainPattern(hostname: string): (r: string)
    ensures |r| == |hostname| + DotCount(hostname) + 4
    ensures r[..2] == ".*" && r[|r| - 2..] == ".*"
    ensures Unescape(r[2..|r| - 2]) == hostname
    ensures DotsAfterBackslash(r[2..|r| - 2])
  {
    var r := ".*" + Escape(hostname) + ".*";
    assert r[2..|r| - 2] == Escape(hostname);
    UnescapeEscape(hostname);
    r
  }

  /** regexForHost of cmd/app/crawler.go: ".*" + escaped host, nothing after. */
  function HostPattern(hostname: string): (r: string)
    ensures |r| == |hostname| + DotCount(hostname) + 2
    ensures r[..2] == ".*"
    ensures Unescape(r[2..]) == hostname
    ensures DotsAfterBackslash(r[2..])
  {
    var r := ".*" + Escape(hostname);
    assert r[2..] == Escape(hostname);
    UnescapeEscape(hostname);
    r
  }

  /** regexForEndpoint of cmd/app/crawler.go: escaped URL + ".*", nothing before. */
  function EndpointPattern(url: string): (r: string)
    ensures |r| == |url| + DotCount(url) + 2
    ensures r[|r| - 2..] == ".*"
    ensures Unescape(r[..|r| - 2]) == url
    ensures DotsAfterBackslash(r[..|r| - 2])
  {
    var r := Escape(url) + ".*";
    assert r[..|r| - 2] == Escape(url);
    UnescapeEscape(url);
    r
  }
}
