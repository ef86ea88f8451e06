/**
 * `HolidayScraper.fetch_holidays`: clean the country's base URL, build one
 * URL per requested year, fetch each distinct URL once and concatenate the
 * holidays parsed from every page that could be fetched.
 *
 * The network is the parameter `fetch`: `None` stands for any failure
 * (an HTTP error, a timeout, a decoding error), which the source reports
 * and skips.
 */
module Scraper {
  import opened Wrappers
  import opened Text
  import opened Dates
  import opened HolidayParser

  /** `rstrip('/')`: drop every trailing slash. */
  function RStripSlash(s: string): (r: string)
    ensures |r| <= |s| && r == s[..|r|]
    ensures forall i :: |r| <= i < |s| ==> s[i] == '/'
    ensures r == [] || r[|r| - 1] != '/'
  {
    if s != [] && s[|s| - 1] == '/' then RStripSlash(s[..|s| - 1]) else s
  }

  /** A slash followed by four ASCII digits starts at `k`. */
  predicate YearSegmentAt(s: string, k: int) {
    0 <= k && k + 5 <= |s| && s[k] == '/'
    && IsDigit(s[k + 1]) && IsDigit(s[k + 2]) && IsDigit(s[k + 3]) && IsDigit(s[k + 4])
  }

  /**
   * `re.search(r'/\d{4}$', s)`: the segment ends the string, or ends just
   * before a final newline (where `$` also matches).
   */
  predicate EndsWithYearSegment(s: string) {
    YearSegmentAt(s, |s| - 5) || (s != [] && s[|s| - 1] == '\n' && YearSegmentAt(s, |s| - 6))
  }

  /** The position of the last slash, if any. */
  function LastSlash(s: string): (r: Option<nat>)
    ensures r.None? <==> '/' !in s
    ensures r.Some? ==> r.value < |s| && s[r.value] == '/' && forall j :: r.value < j < |s| ==> s[j] != '/'
  {
    if s == [] then None
    else if s[|s| - 1] == '/' then Some(|s| - 1)
    else
      var r := LastSlash(s[..|s| - 1]);
      assert s == s[..|s| - 1] + [s[|s| - 1]];
      r
  }

  /** `s.rsplit('/', 1)[0]`: everything before the last slash, or all of `s` when it has none. */
  function BeforeLastSlash(s: string): string {
    match LastSlash(s)
    case Some(k) => s[..k]
    case None => s
  }

  /** The cleaned base URL: trailing slashes removed, then one trailing year segment. */
  function CleanBaseUrl(baseUrl: string): (r: string)
    ensures var c := RStripSlash(baseUrl);
            if YearSegmentAt(c, |c| - 5) then r == c[..|c| - 5]
            else if EndsWithYearSegment(c) then r == c[..|c| - 6]
            else r == c
  {
    var c := RStripSlash(baseUrl);
    if EndsWithYearSegment(c) then
      assert YearSegmentAt(c, |c| - 5) ==> LastSlash(c) == Some(|c| - 5);
      assert !YearSegmentAt(c, |c| - 5) ==> LastSlash(c) == Some(|c| - 6);
      BeforeLastSlash(c)
    else c
  }

  /** `f"{clean_url}/{year}"`. */
  function YearUrl(clean: string, year: int): string {
    clean + "/" + IntToString(year)
  }

  /** The URL of each requested year, in the order requested. */
  function YearUrls(clean: string, years: seq<int>): seq<string> {
    if years == [] then [] else YearUrls(clean, years[..|years| - 1]) + [YearUrl(clean, years[|years| - 1])]
  }

  /** The k-th URL is the k-th year's. */
  lemma {:induction false} YearUrlsIndex(clean: string, years: seq<int>)
    ensures |YearUrls(clean, years)| == |years|
    ensures forall k :: 0 <= k < |years| ==> YearUrls(clean, years)[k] == YearUrl(clean, years[k])
    decreases |years|
  {
    if years != [] {
      var init := years[..|years| - 1];
      YearUrlsIndex(clean, init);
      var urls := YearUrls(clean, years);
      assert urls == YearUrls(clean, init) + [YearUrl(clean, years[|years| - 1])];
      forall k | 0 <= k < |years|
        ensures urls[k] == YearUrl(clean, years[k])
      {
        if k < |init| {
          assert years[k] == init[k];
        }
      }
    }
  }

  predicate NoDuplicates<T(==)>(s: seq<T>) {
    forall i, j :: 0 <= i < j < |s| ==> s[i] != s[j]
  }

  /** The URLs in the order first seen, each once. */
  function Dedup(s: seq<string>): seq<string> {
    if s == [] then []
    else
      var d := Dedup(s[..|s| - 1]);
      if s[|s| - 1] in d then d else d + [s[|s| - 1]]
  }

  /** `Dedup` keeps exactly the members of its input, each once, and is no longer. */
  lemma {:induction false} DedupSpec(s: seq<string>)
    ensures forall x :: x in Dedup(s) <==> x in s
    ensures NoDuplicates(Dedup(s))
    ensures |Dedup(s)| <= |s|
    decreases |s|
  {
    if s != [] {
      var init := s[..|s| - 1];
      DedupSpec(init);
      assert s == init + [s[|s| - 1]];
    }
  }

  /** Appending a URL keeps it once: dropped if already seen, appended otherwise. */
  lemma DedupSnoc(s: seq<string>, x: string)
    ensures Dedup(s + [x]) == if x in s then Dedup(s) else Dedup(s) + [x]
  {
    assert (s + [x])[..|s|] == s;
    DedupSpec(s);
  }

  /** One page's holidays, or none when it could not be fetched. */
  function PageResult(page: Option<seq<Event>>): seq<Holiday> {
    match page
    case Some(events) => PageHolidays(events)
    case None => []
  }

  /** What the loop collects for one URL: fetch it, and parse it when that succeeded. */
  function Fetched(fetch: string -> Option<seq<Event>>): string -> seq<Holiday> {
    url => PageResult(fetch(url))
  }

  /** Each URL's holidays, concatenated in URL order. */
  function Gather(urls: seq<string>, pages: string -> seq<Holiday>): seq<Holiday> {
    if urls == [] then [] else Gather(urls[..|urls| - 1], pages) + pages(urls[|urls| - 1])
  }

  lemma GatherSnoc(urls: seq<string>, u: string, pages: string -> seq<Holiday>)
    ensures Gather(urls + [u], pages) == Gather(urls, pages) + pages(u)
  {
    assert (urls + [u])[..|urls|] == urls;
  }

  /** Different years give different URLs. */
  lemma YearUrlInjective(clean: string, a: int, b: int)
    ensures YearUrl(clean, a) == YearUrl(clean, b) <==> a == b
  {
    if YearUrl(clean, a) == YearUrl(clean, b) {
      assert YearUrl(clean, a)[|clean| + 1..] == IntToString(a);
      assert YearUrl(clean, b)[|clean| + 1..] == IntToString(b);
      IntToStringInjective(a, b);
    }
  }

  /** The URLs `fetch_holidays(base_url, years)` requests, in order. */
  function RequestedUrls(baseUrl: string, years: seq<int>): seq<string> {
    Dedup(YearUrls(CleanBaseUrl(baseUrl), years))
  }

  /** What `fetch_holidays(base_url, years)` returns. */
  function FetchResult(baseUrl: string, years: seq<int>, fetch: string -> Option<seq<Event>>): seq<Holiday> {
    Gather(RequestedUrls(baseUrl, years), Fetched(fetch))
  }

  /** One more year appends its URL. */
  lemma YearUrlsSnoc(clean: string, years: seq<int>, i: nat)
    requires i < |years|
    ensures YearUrls(clean, years[..i + 1]) == YearUrls(clean, years[..i]) + [YearUrl(clean, years[i])]
  {
    assert years[..i + 1][..i] == years[..i];
  }

  /** A URL already requested adds nothing; a new one adds its page. */
  lemma GatherDedupSnoc(urls: seq<string>, u: string, pages: string -> seq<Holiday>)
    ensures Gather(Dedup(urls + [u]), pages) == Gather(Dedup(urls), pages) + (if u in urls then [] else pages(u))
  {
    DedupSnoc(urls, u);
    if u !in urls {
      GatherSnoc(Dedup(urls), u, pages);
    }
  }

  /** The body of the `try`: fetch the page and run a fresh parser over it; a failure yields nothing. */
  method FetchPage(url: string, fetch: string -> Option<seq<Event>>) returns (holidays: seq<Holiday>)
    ensures holidays == Fetched(fetch)(url)
  {
    holidays := [];
    var page := fetch(url);
    if page.Some? {
      holidays := ParsePage(page.value);
    }
  }

  method FetchHolidays(baseUrl: string, years: seq<int>, fetch: string -> Option<seq<Event>>)
    returns (allHolidays: seq<Holiday>)
    ensures allHolidays == FetchResult(baseUrl, years, fetch)
  {
    allHolidays := [];
    var cleanUrl := CleanBaseUrl(baseUrl);
    var seenUrls: set<string> := {};
    var i := 0;
    while i < |years|
      invariant 0 <= i <= |years|
      invariant forall u :: u in seenUrls <==> u in YearUrls(cleanUrl, years[..i])
      invariant allHolidays == Gather(Dedup(YearUrls(cleanUrl, years[..i])), Fetched(fetch))
    {
      var url := YearUrl(cleanUrl, years[i]);
      YearUrlsSnoc(cleanUrl, years, i);
      GatherDedupSnoc(YearUrls(cleanUrl, years[..i]), url, Fetched(fetch));
      if url !in seenUrls {
        seenUrls := seenUrls + {url};
        var holidays := FetchPage(url, fetch);
        allHolidays := allHolidays + holidays;
      }
      i := i + 1;
    }
    assert years[..|years|] == years;
  }

  /** `n` slashes. */
  function Slashes(n: nat): (r: string)
    ensures |r| == n && forall i :: 0 <= i < n ==> r[i] == '/'
  {
    seq(n, _ => '/')
  }

  /**
   * A URL ending in a four-digit year, with any number of trailing
   * slashes, is cleaned back to what precedes the year.
   */
  lemma CleanBaseUrlDropsYear(stem: string, year: int, n: nat)
    requires 1000 <= year <= 9999
    ensures CleanBaseUrl(stem + "/" + IntToString(year) + Slashes(n)) == stem
  {
    var y := IntToString(year);
    NatToStringFourDigits(year);
    var c := stem + "/" + y;
    var base := c + Slashes(n);
    assert base[..|c|] == c;
    var r := RStripSlash(base);
    assert r == c by {
      assert base[|c| - 1] == y[3] && y[3] != '/';
      assert forall i :: |c| <= i < |base| ==> base[i] == '/';
      assert |r| <= |c|;
      assert r == base[..|c|];
    }
    assert YearSegmentAt(c, |c| - 5) by {
      assert c[|c| - 5] == '/';
      assert forall k :: 0 <= k < 4 ==> c[|stem| + 1 + k] == y[k];
    }
    assert c[..|c| - 5] == stem;
  }

  /**
   * A URL without a trailing year segment loses only its trailing
   * slashes.
   */
  lemma CleanBaseUrlKeepsStem(stem: string, n: nat)
    requires stem == [] || stem[|stem| - 1] != '/'
    requires !EndsWithYearSegment(stem)
    ensures CleanBaseUrl(stem + Slashes(n)) == stem
  {
    var base := stem + Slashes(n);
    var r := RStripSlash(base);
    assert base[..|stem|] == stem;
    if stem != [] {
      assert base[|stem| - 1] == stem[|stem| - 1];
    }
    assert r == stem;
  }

  /** Each URL is requested at most once, and a year's URL is requested exactly when the year was asked for. */
  lemma RequestedUrlsOncePerYear(baseUrl: string, years: seq<int>)
    ensures NoDuplicates(RequestedUrls(baseUrl, years))
    ensures forall y :: y in years <==> YearUrl(CleanBaseUrl(baseUrl), y) in RequestedUrls(baseUrl, years)
  {
    var clean := CleanBaseUrl(baseUrl);
    var urls := YearUrls(clean, years);
    YearUrlsIndex(clean, years);
    DedupSpec(urls);
    forall y | YearUrl(clean, y) in urls
      ensures y in years
    {
      var k :| 0 <= k < |urls| && urls[k] == YearUrl(clean, y);
      YearUrlInjective(clean, years[k], y);
    }
    forall y | y in years
      ensures YearUrl(clean, y) in urls
    {
      var k :| 0 <= k < |years| && years[k] == y;
      assert urls[k] == YearUrl(clean, y);
    }
  }

  /** Distinct years give distinct URLs, so none is skipped as already seen. */
  lemma {:induction false} DistinctYearsAllFetched(clean: string, years: seq<int>)
    requires NoDuplicates(years)
    ensures Dedup(YearUrls(clean, years)) == YearUrls(clean, years)
    decreases |years|
  {
    if years != [] {
      var init := years[..|years| - 1];
      var last := years[|years| - 1];
      var u := YearUrl(clean, last);
      DistinctYearsAllFetched(clean, init);
      YearUrlsIndex(clean, init);
      forall k | 0 <= k < |init|
        ensures YearUrls(clean, init)[k] != u
      {
        assert init[k] != last;
        YearUrlInjective(clean, init[k], last);
      }
      DedupSnoc(YearUrls(clean, init), u);
    }
  }

  /** Asking for the same year twice fetches its page once. */
  lemma RepeatedYearFetchedOnce(baseUrl: string, year: int, fetch: string -> Option<seq<Event>>)
    ensures FetchResult(baseUrl, [year, year], fetch) == FetchResult(baseUrl, [year], fetch)
  {
    var clean := CleanBaseUrl(baseUrl);
    var u := YearUrl(clean, year);
    assert [year, year][..1] == [year];
    assert [year][..0] == [];
    assert YearUrls(clean, [year]) == [u];
    assert YearUrls(clean, [year, year]) == [u] + [u];
    DedupSnoc([u], u);
  }
}
