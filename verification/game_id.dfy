/**
 * The game identifier of a box-score URL: the digit run captured by the
 * regular expression `contests/(\d+)/individual_stats` at its leftmost match
 * (`re.search(...).group(1)`). When nothing matches, `re.search` yields None
 * and the source's `.group(1)` raises; here that is an `Err`.
 */
module GameId {
  import opened Wrappers
  import opened Text

  const Prefix: string := "contests/"
  const Suffix: string := "/individual_stats"

  /** Why scraping a page failed. */
  datatype ScrapeError = NoGameId(url: string)

  /** Length of the run of digits in `s` starting at `i`: what the greedy `\d+` consumes. */
  function DigitRun(s: string, i: nat): (n: nat)
    requires i <= |s|
    ensures i + n <= |s|
    ensures AllDigits(s[i..i + n])
    ensures i + n == |s| || !IsDigit(s[i + n])
    decreases |s| - i
  {
    if i < |s| && IsDigit(s[i]) then
      var n := DigitRun(s, i + 1);
      assert s[i..i + 1 + n] == [s[i]] + s[i + 1..i + 1 + n];
      1 + n
    else 0
  }

  /** The captured group when the pattern matches starting exactly at offset `p`. */
  function MatchAt(url: string, p: nat): Option<string>
    requires p <= |url|
  {
    if StartsWith(url[p..], Prefix) then
      var start := p + |Prefix|;
      var n := DigitRun(url, start);
      if n > 0 && StartsWith(url[start + n..], Suffix) then Some(url[start..start + n]) else None
    else None
  }

  /** `re.search` from offset `p`: the first offset at or after `p` where the pattern matches. */
  function SearchFrom(url: string, p: nat): Option<string>
    requires p <= |url|
    decreases |url| - p
  {
    match MatchAt(url, p)
    case Some(id) => Some(id)
    case None => if p == |url| then None else SearchFrom(url, p + 1)
  }

  /** `re.search(r'contests/(\d+)/individual_stats', url).group(1)`. */
  function Extract(url: string): Result<string, ScrapeError> {
    match SearchFrom(url, 0)
    case Some(id) => Ok(id)
    case None => Err(NoGameId(url))
  }

  /** Reference definition of a match: `id` is a non-empty digit string and the url reads `contests/<id>/individual_stats` from offset `p`. */
  ghost predicate IsMatchAt(url: string, p: int, id: string) {
    0 <= p <= |url| && |id| > 0 && AllDigits(id) && StartsWith(url[p..], Prefix + id + Suffix)
  }

  /** The url continues with `a + b` at `p` exactly when it continues with `a` there and with `b` right after. */
  lemma StartsWithConcat(url: string, p: nat, a: string, b: string)
    requires p <= |url|
    ensures StartsWith(url[p..], a + b) <==>
      (p + |a| <= |url| && StartsWith(url[p..], a) && StartsWith(url[p + |a|..], b))
  {
    if StartsWith(url[p..], a + b) {
      assert url[p..][..|a|] == (a + b)[..|a|] == a;
      assert url[p + |a|..][..|b|] == url[p..][..|a + b|][|a|..] == b;
    }
    if p + |a| <= |url| && StartsWith(url[p..], a) && StartsWith(url[p + |a|..], b) {
      assert url[p..][..|a + b|] == url[p..][..|a|] + url[p + |a|..][..|b|];
    }
  }

  /** A run of `n` digits followed by a non-digit (or the end) is exactly what the greedy run consumes. */
  lemma {:induction false} DigitRunExact(s: string, i: nat, n: nat)
    requires i + n <= |s| && AllDigits(s[i..i + n]) && (i + n == |s| || !IsDigit(s[i + n]))
    ensures DigitRun(s, i) == n
    decreases n
  {
    if n > 0 {
      assert s[i] == s[i..i + n][0];
      assert s[i + 1..i + n] == s[i..i + n][1..];
      DigitRunExact(s, i + 1, n - 1);
    }
  }

  /** A match at `p` of the reference definition, split into its three parts. */
  lemma IsMatchAtParts(url: string, p: nat, id: string)
    requires p <= |url|
    ensures IsMatchAt(url, p, id) <==>
      (|id| > 0 && AllDigits(id) && p + |Prefix| + |id| <= |url| && StartsWith(url[p..], Prefix) &&
       url[p + |Prefix|..p + |Prefix| + |id|] == id && StartsWith(url[p + |Prefix| + |id|..], Suffix))
  {
    var start := p + |Prefix|;
    StartsWithConcat(url, p, Prefix + id, Suffix);
    StartsWithConcat(url, p, Prefix, id);
    if start + |id| <= |url| {
      assert url[start..][..|id|] == url[start..start + |id|];
    }
  }

  /** The computed match at one offset agrees with the reference definition, both ways. */
  lemma MatchAtSpec(url: string, p: nat, id: string)
    requires p <= |url|
    ensures MatchAt(url, p) == Some(id) <==> IsMatchAt(url, p, id)
  {
    var start := p + |Prefix|;
    IsMatchAtParts(url, p, id);
    if IsMatchAt(url, p, id) {
      // The greedy run stops exactly where the id ends: it cannot be shorter
      // (the id is all digits) and it cannot be longer ('/' begins the suffix).
      assert url[start + |id|] == url[start + |id|..][..|Suffix|][0] == '/';
      DigitRunExact(url, start, |id|);
    }
  }

  /** Nothing matches at `p` exactly when no digit string does. */
  lemma NoMatchAtSpec(url: string, p: nat)
    requires p <= |url|
    ensures MatchAt(url, p) == None <==> forall id :: !IsMatchAt(url, p, id)
  {
    if MatchAt(url, p).Some? {
      MatchAtSpec(url, p, MatchAt(url, p).value);
    }
    forall id | IsMatchAt(url, p, id) ensures MatchAt(url, p) != None {
      MatchAtSpec(url, p, id);
    }
  }

  /** The search from `p` returns the match at the least offset `q >= p` where the pattern matches. */
  lemma {:induction false} SearchFromSpec(url: string, p: nat)
    requires p <= |url|
    ensures SearchFrom(url, p).None? <==> forall q, id :: p <= q <= |url| ==> !IsMatchAt(url, q, id)
    ensures SearchFrom(url, p).Some? ==>
      exists q :: (p <= q <= |url| && IsMatchAt(url, q, SearchFrom(url, p).value) &&
                   forall q', id' :: p <= q' < q ==> !IsMatchAt(url, q', id'))
    decreases |url| - p
  {
    NoMatchAtSpec(url, p);
    match MatchAt(url, p)
    case Some(id) =>
      MatchAtSpec(url, p, id);
    case None =>
      if p < |url| {
        SearchFromSpec(url, p + 1);
        if SearchFrom(url, p).Some? {
          var q :| p + 1 <= q <= |url| && IsMatchAt(url, q, SearchFrom(url, p).value) &&
            forall q', id' :: p + 1 <= q' < q ==> !IsMatchAt(url, q', id');
          assert forall q', id' :: p <= q' < q ==> !IsMatchAt(url, q', id');
        }
      }
  }

  /** The game id is the digit string of the leftmost `contests/<digits>/individual_stats` in the url. */
  lemma ExtractIsLeftmostMatch(url: string, id: string)
    ensures Extract(url) == Ok(id) <==>
      exists p :: IsMatchAt(url, p, id) && forall q, id' :: 0 <= q < p ==> !IsMatchAt(url, q, id')
  {
    SearchFromSpec(url, 0);
    if exists p :: IsMatchAt(url, p, id) && forall q, id' :: 0 <= q < p ==> !IsMatchAt(url, q, id') {
      var p :| IsMatchAt(url, p, id) && forall q, id' :: 0 <= q < p ==> !IsMatchAt(url, q, id');
      assert SearchFrom(url, 0).Some?;
      var q :| 0 <= q <= |url| && IsMatchAt(url, q, SearchFrom(url, 0).value) &&
        forall q', id' :: 0 <= q' < q ==> !IsMatchAt(url, q', id');
      assert q == p;
      MatchAtSpec(url, p, id);
      MatchAtSpec(url, p, SearchFrom(url, 0).value);
    }
  }

  /** Extraction fails exactly when the pattern matches nowhere in the url. */
  lemma ExtractFailsIffNoMatch(url: string)
    ensures Extract(url).Err? <==> forall p, id :: !IsMatchAt(url, p, id)
  {
    SearchFromSpec(url, 0);
  }

  /** A url that begins with the pattern yields the digits it was built from, whatever follows. */
  lemma ExtractFromContestPath(id: string, rest: string)
    requires |id| > 0 && AllDigits(id)
    ensures Extract(Prefix + id + Suffix + rest) == Ok(id)
  {
    var url := Prefix + id + Suffix + rest;
    assert url[0..] == url;
    assert url[..|Prefix + id + Suffix|] == Prefix + id + Suffix;
    MatchAtSpec(url, 0, id);
  }

  /** No match can start at `p` when the url does not continue with "co", the start of `contests/`, there. */
  lemma SkipAt(url: string, p: nat)
    requires p + 1 < |url| && (url[p] != 'c' || url[p + 1] != 'o')
    ensures SearchFrom(url, p) == SearchFrom(url, p + 1)
  {
    if p + |Prefix| <= |url| {
      assert url[p..][..|Prefix|][0] == url[p] && url[p..][..|Prefix|][1] == url[p + 1];
    }
  }

  /** Whatever precedes it, the contest path matches where it starts. */
  lemma MatchAfter(host: string, id: string)
    requires |id| > 0 && AllDigits(id)
    ensures MatchAt(host + Prefix + id + Suffix, |host|) == Some(id)
  {
    var url := host + Prefix + id + Suffix;
    assert url[|host|..] == Prefix + id + Suffix;
    MatchAtSpec(url, |host|, id);
  }

  /** No "co", the start of `contests/`, occurs in `s[lo..hi]` (a pair may end at `s[hi]`). */
  ghost predicate NoCoBetween(s: string, lo: nat, hi: nat)
    requires lo <= hi < |s|
  {
    forall k :: lo <= k < hi ==> s[k] != 'c' || s[k + 1] != 'o'
  }

  /** The search skips a stretch of the url in which "co" does not occur. */
  lemma {:induction false} SkipStretch(url: string, lo: nat, hi: nat)
    requires lo <= hi < |url| && NoCoBetween(url, lo, hi)
    ensures SearchFrom(url, lo) == SearchFrom(url, hi)
    decreases hi - lo
  {
    if lo < hi {
      SkipAt(url, lo);
      SkipStretch(url, lo + 1, hi);
    }
  }

  /** A string none of whose adjacent pairs is "co". */
  ghost predicate NoCo(s: string) {
    forall k :: 0 <= k < |s| - 1 ==> s[k] != 'c' || s[k + 1] != 'o'
  }

  /** Joining two such strings creates no "co" when the first does not end in 'c'. */
  lemma NoCoAppend(a: string, b: string)
    requires NoCo(a) && NoCo(b) && (a == [] || a[|a| - 1] != 'c')
    ensures NoCo(a + b)
  {
    var s := a + b;
    forall k | 0 <= k < |s| - 1 ensures s[k] != 'c' || s[k + 1] != 'o' {
      if k + 1 < |a| {
        assert s[k] == a[k] && s[k + 1] == a[k + 1];
      } else if k >= |a| {
        assert s[k] == b[k - |a|] && s[k + 1] == b[k + 1 - |a|];
      } else {
        assert s[k] == a[|a| - 1];
      }
    }
  }

  /** The host part shared by the pipeline's three game urls. */
  const NcaaHost: string := "https://stats.ncaa.org/"

  /** "co" does not occur in the host, and the host does not end in 'c'. */
  lemma NcaaHostNoCo()
    ensures NoCo(NcaaHost) && NcaaHost[|NcaaHost| - 1] != 'c'
  {
    var a, b, c, d := "https:", "//stats", ".ncaa.", "org/";
    assert NoCo(a) && NoCo(b) && NoCo(c) && NoCo(d);
    NoCoAppend(a, b);
    NoCoAppend(a + b, c);
    NoCoAppend(a + b + c, d);
    assert a + b + c + d == NcaaHost;
  }

  /** No match starts inside a host in which "co" does not occur: the search resumes right after it. */
  lemma HostSkipped(host: string, rest: string)
    requires NoCo(host) && |rest| > 0 && (host == [] || host[|host| - 1] != 'c')
    ensures SearchFrom(host + rest, 0) == SearchFrom(host + rest, |host|)
  {
    var url := host + rest;
    forall k | 0 <= k < |host| ensures url[k] != 'c' || url[k + 1] != 'o' {
      if k + 1 < |host| {
        assert url[k] == host[k] && url[k + 1] == host[k + 1];
      } else {
        assert url[k] == host[|host| - 1];
      }
    }
    SkipStretch(url, 0, |host|);
  }

  /** After a host in which "co" does not occur, the contest path supplies the game id. */
  lemma HostThenContestPath(host: string, id: string)
    requires NoCo(host) && (host == [] || host[|host| - 1] != 'c')
    requires |id| > 0 && AllDigits(id)
    ensures Extract(host + Prefix + id + Suffix) == Ok(id)
  {
    var path := Prefix + id + Suffix;
    var url := host + path;
    assert url == host + Prefix + id + Suffix;
    HostSkipped(host, path);
    MatchAfter(host, id);
    assert SearchFrom(url, |host|) == Some(id);
  }

  /**
   * Every url of the pipeline's shape, `https://stats.ncaa.org/contests/<id>/individual_stats`,
   * yields `id`: no match can start inside the host, so the leftmost match is the contest path.
   */
  lemma NcaaUrlGameId(id: string)
    requires |id| > 0 && AllDigits(id)
    ensures Extract(NcaaHost + Prefix + id + Suffix) == Ok(id)
  {
    NcaaHostNoCo();
    HostThenContestPath(NcaaHost, id);
  }

  /** The pipeline's three game urls yield the game ids 5336663, 5336814 and 5336815. */
  lemma PipelineGameIds()
    ensures Extract(NcaaHost + Prefix + "5336663" + Suffix) == Ok("5336663")
    ensures Extract(NcaaHost + Prefix + "5336814" + Suffix) == Ok("5336814")
    ensures Extract(NcaaHost + Prefix + "5336815" + Suffix) == Ok("5336815")
  {
    NcaaUrlGameId("5336663");
    NcaaUrlGameId("5336814");
    NcaaUrlGameId("5336815");
  }
}
