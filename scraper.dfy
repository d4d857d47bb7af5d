/** `extract_emails_from_website` (common_helpers.py): normalise the URL, scan the
    homepage, stop there if any address survives the filter, otherwise scan seven fixed
    secondary pages and filter everything gathered.

    The outside world is passed in as functions:
    - `fetch(url)` is the page body `requests.get(url).text`, or `None` when the request
      raised (any exception);
    - `findall(html)` is `re.findall` with the address pattern of the source;
    - `arrange(xs)` is `list(set(xs))`, whose order Python leaves unspecified. */
module Scraper {
  import opened Wrappers
  import opened Text
  import opened Sequences
  import opened EmailFilter

  /** A character of `[a-zA-Z0-9._%+-]`, the local-part class of the address pattern. */
  predicate IsLocalChar(c: char) {
    IsAsciiLetter(c) || IsAsciiDigit(c) || c == '.' || c == '_' || c == '%' || c == '+' || c == '-'
  }

  /** A character of `[a-zA-Z0-9.-]`, the domain class of the address pattern. */
  predicate IsDomainChar(c: char) {
    IsAsciiLetter(c) || IsAsciiDigit(c) || c == '.' || c == '-'
  }

  /** `d` matches `[a-zA-Z0-9.-]+\.[a-zA-Z]{2,}` as a whole: domain characters, with a dot
      after at least one character that is followed by two or more letters only. */
  predicate IsDomainShaped(d: string) {
    && (forall i :: 0 <= i < |d| ==> IsDomainChar(d[i]))
    && exists i :: 1 <= i < |d| - 2 && d[i] == '.' && forall j :: i < j < |d| ==> IsAsciiLetter(d[j])
  }

  /** A string the address pattern matches as a whole: a non-empty local part of local
      characters, one `@`, and a shaped domain. Every match of `re.findall` is one. */
  predicate EmailShaped(e: string) {
    var i := IndexOf(e, '@');
    && 0 < i < |e|
    && (forall k :: 0 <= k < i ==> IsLocalChar(e[k]))
    && IsDomainShaped(e[i + 1..])
  }

  /** An address-shaped string has exactly one `@`, with a non-empty local part before it. */
  lemma EmailShapedHasOneAt(e: string)
    requires EmailShaped(e)
    ensures var (local, domain) := Partition(e, '@');
      local != [] && e == local + "@" + domain && '@' !in local && '@' !in domain
  {
    var i := IndexOf(e, '@');
    assert e[i] in e;
    var domain := e[i + 1..];
    forall k | 0 <= k < |domain| ensures domain[k] != '@' {
      assert IsDomainChar(domain[k]);
    }
  }

  /** What the regular-expression scan promises: every match is address-shaped. */
  ghost predicate FindsEmailShaped(findall: string -> seq<string>) {
    forall html, k :: 0 <= k < |findall(html)| ==> EmailShaped(findall(html)[k])
  }

  /** What `list(set(xs))` promises: no duplicates and the same elements as `xs`. */
  ghost predicate ArrangesAsSet(arrange: seq<string> -> seq<string>) {
    forall xs :: IsArrangement(arrange(xs), xs)
  }

  /** The secondary paths, tried in this order when the homepage yields nothing. */
  const EXTRA_PATHS: seq<string> := [
    "/contact",
    "/contact-us",
    "/contactus",
    "/about",
    "/about-us",
    "/support",
    "/help"
  ]

  predicate EndsWithSlash(url: string) {
    |url| > 0 && url[|url| - 1] == '/'
  }

  /** Removes one trailing slash if there is one, and nothing else. */
  function NormalizeUrl(url: string): (r: string)
    ensures EndsWithSlash(url) ==> r + "/" == url
    ensures !EndsWithSlash(url) ==> r == url
  {
    if EndsWithSlash(url) then url[..|url| - 1] else url
  }

  /** The candidates of one page: the matches in its body, or none when the request
      raised (the `try`/`except` around each request). */
  function PageCandidates(page: Option<string>, findall: string -> seq<string>): seq<string> {
    match page
    case None => []
    case Some(html) => findall(html)
  }

  /** The candidates of the pages at `urls`, page after page. */
  function Harvest(urls: seq<string>, fetch: string -> Option<string>, findall: string -> seq<string>): seq<string> {
    FlatMap(urls, (u: string) => PageCandidates(fetch(u), findall))
  }

  /** Requesting one more page appends that page's candidates. */
  lemma HarvestSnoc(urls: seq<string>, u: string, fetch: string -> Option<string>, findall: string -> seq<string>)
    ensures Harvest(urls + [u], fetch, findall) == Harvest(urls, fetch, findall) + PageCandidates(fetch(u), findall)
  {
    FlatMapSnoc(urls, u, (u: string) => PageCandidates(fetch(u), findall));
  }

  /** Harvesting two lists of pages one after the other is harvesting their concatenation. */
  lemma HarvestAppend(a: seq<string>, b: seq<string>, fetch: string -> Option<string>,
                      findall: string -> seq<string>)
    ensures Harvest(a + b, fetch, findall) == Harvest(a, fetch, findall) + Harvest(b, fetch, findall)
  {
    FlatMapAppend(a, b, (u: string) => PageCandidates(fetch(u), findall));
  }

  /** `base + path` for each path, in order. */
  function Urls(base: string, paths: seq<string>): (r: seq<string>)
    ensures |r| == |paths|
  {
    if paths == [] then [] else Urls(base, paths[..|paths| - 1]) + [base + paths[|paths| - 1]]
  }

  /** The `i`-th URL is the base followed by the `i`-th path. */
  lemma {:induction false} UrlsIndex(base: string, paths: seq<string>)
    ensures forall i :: 0 <= i < |paths| ==> Urls(base, paths)[i] == base + paths[i]
  {
    if paths != [] {
      UrlsIndex(base, paths[..|paths| - 1]);
    }
  }

  lemma UrlsSnoc(base: string, paths: seq<string>, i: nat)
    requires i < |paths|
    ensures Urls(base, paths[..i + 1]) == Urls(base, paths[..i]) + [base + paths[i]]
  {
    assert paths[..i + 1][..i] == paths[..i];
  }

  /** The outcome of one scrape: the addresses returned and the URLs requested, in order. */
  datatype Scrape = Scrape(emails: seq<string>, requested: seq<string>)

  /** The addresses `extract_emails_from_website(website)` returns and the requests it makes. */
  function Extract(website: string, fetch: string -> Option<string>, findall: string -> seq<string>,
                   arrange: seq<string> -> seq<string>): Scrape
  {
    var url := NormalizeUrl(website);
    var home := Harvest([url], fetch, findall);
    var cleanedHome := Clean(arrange(home));
    if cleanedHome != [] then
      Scrape(cleanedHome, [url])
    else
      var requested := [url] + Urls(url, EXTRA_PATHS);
      Scrape(Clean(arrange(Harvest(requested, fetch, findall))), requested)
  }

  /** The secondary pages are requested, in order, only when the cleaned homepage
      candidates are empty. */
  lemma ExtractFallsBack(website: string, fetch: string -> Option<string>, findall: string -> seq<string>,
                         arrange: seq<string> -> seq<string>)
    requires Clean(arrange(Harvest([NormalizeUrl(website)], fetch, findall))) == []
    ensures var requested := [NormalizeUrl(website)] + Urls(NormalizeUrl(website), EXTRA_PATHS);
      Extract(website, fetch, findall, arrange) == Scrape(Clean(arrange(Harvest(requested, fetch, findall))), requested)
  {
  }

  /** One turn of the secondary loop keeps its two invariants. */
  lemma SecondaryStep(base: string, paths: seq<string>, i: nat, requested: seq<string>,
                      acc0: seq<string>, acc: seq<string>, fetch: string -> Option<string>,
                      findall: string -> seq<string>)
    requires i < |paths|
    requires requested == Urls(base, paths[..i])
    requires acc == acc0 + Harvest(requested, fetch, findall)
    ensures requested + [base + paths[i]] == Urls(base, paths[..i + 1])
    ensures acc + PageCandidates(fetch(base + paths[i]), findall)
         == acc0 + Harvest(requested + [base + paths[i]], fetch, findall)
  {
    UrlsSnoc(base, paths, i);
    HarvestSnoc(requested, base + paths[i], fetch, findall);
  }

  /** The loop over the secondary paths: each `base + path` is requested in order and
      its candidates are appended to `allEmails`; a failed request appends nothing and
      the loop goes on. */
  method ScrapeSecondaryPages(base: string, paths: seq<string>, allEmails0: seq<string>,
                              fetch: string -> Option<string>, findall: string -> seq<string>)
    returns (allEmails: seq<string>, requested: seq<string>)
    ensures requested == Urls(base, paths)
    ensures allEmails == allEmails0 + Harvest(requested, fetch, findall)
  {
    allEmails, requested := allEmails0, [];
    for i := 0 to |paths|
      invariant requested == Urls(base, paths[..i])
      invariant allEmails == allEmails0 + Harvest(requested, fetch, findall)
    {
      var fullUrl := base + paths[i];
      SecondaryStep(base, paths, i, requested, allEmails0, allEmails, fetch, findall);
      requested := requested + [fullUrl];
      allEmails := allEmails + PageCandidates(fetch(fullUrl), findall);
    }
    assert paths[..|paths|] == paths;
  }

  /** `extract_emails_from_website`, step by step: the URL is reassigned, the candidates
      of each page are accumulated in `allEmails`, and the method returns early on a
      homepage hit. */
  method ExtractEmailsFromWebsite(website: string, fetch: string -> Option<string>,
                                  findall: string -> seq<string>, arrange: seq<string> -> seq<string>)
    returns (emails: seq<string>, requested: seq<string>)
    ensures Scrape(emails, requested) == Extract(website, fetch, findall, arrange)
  {
    var url := website;
    if EndsWithSlash(url) {
      url := url[..|url| - 1];
    }
    var allEmails: seq<string> := [];
    allEmails := allEmails + PageCandidates(fetch(url), findall);
    var first := [url];
    HarvestOne(url, fetch, findall);
    var cleanedHome := CleanEmailList(arrange(allEmails));
    if cleanedHome != [] {
      emails, requested := cleanedHome, first;
      return;
    }
    var secondary;
    allEmails, secondary := ScrapeSecondaryPages(url, EXTRA_PATHS, allEmails, fetch, findall);
    requested := first + secondary;
    HarvestAppend(first, secondary, fetch, findall);
    ExtractFallsBack(website, fetch, findall, arrange);
    emails := CleanEmailList(arrange(allEmails));
  }

  /** The homepage alone is harvested as its own candidates. */
  lemma HarvestOne(u: string, fetch: string -> Option<string>, findall: string -> seq<string>)
    ensures Harvest([u], fetch, findall) == PageCandidates(fetch(u), findall)
  {
    HarvestSnoc([], u, fetch, findall);
    assert [] + [u] == [u];
  }

  /** A candidate is harvested exactly when some requested page that answered contains it;
      a request that raised contributes nothing. */
  lemma HarvestMembership(urls: seq<string>, fetch: string -> Option<string>,
                          findall: string -> seq<string>, x: string)
    ensures x in Harvest(urls, fetch, findall) <==>
      exists k :: 0 <= k < |urls| && x in PageCandidates(fetch(urls[k]), findall)
  {
    var page := (u: string) => PageCandidates(fetch(u), findall);
    FlatMapMembership(urls, page, x);
    assert forall k :: 0 <= k < |urls| ==> page(urls[k]) == PageCandidates(fetch(urls[k]), findall);
  }

  /** When the scan only ever matches address-shaped text, so is every harvested candidate. */
  lemma HarvestShaped(urls: seq<string>, fetch: string -> Option<string>, findall: string -> seq<string>,
                      x: string)
    requires FindsEmailShaped(findall)
    requires x in Harvest(urls, fetch, findall)
    ensures EmailShaped(x)
  {
    HarvestMembership(urls, fetch, findall, x);
    var k :| 0 <= k < |urls| && x in PageCandidates(fetch(urls[k]), findall);
    var html := fetch(urls[k]).value;
    var j :| 0 <= j < |findall(html)| && findall(html)[j] == x;
  }

  /** Pages that all fail to load yield no candidates. */
  lemma HarvestAllFailed(urls: seq<string>, fetch: string -> Option<string>, findall: string -> seq<string>)
    requires forall k :: 0 <= k < |urls| ==> fetch(urls[k]) == None
    ensures Harvest(urls, fetch, findall) == []
  {
    FlatMapOfEmpties(urls, (u: string) => PageCandidates(fetch(u), findall));
  }

  /** The homepage result is returned, with the homepage as the only request, exactly when
      some homepage candidate survives the filter. */
  lemma ExtractShortCircuit(website: string, fetch: string -> Option<string>, findall: string -> seq<string>,
                            arrange: seq<string> -> seq<string>)
    ensures var url := NormalizeUrl(website);
      var cleanedHome := Clean(arrange(PageCandidates(fetch(url), findall)));
      var scrape := Extract(website, fetch, findall, arrange);
      && (scrape.requested == [url] <==> cleanedHome != [])
      && (cleanedHome != [] ==> scrape.emails == cleanedHome)
  {
    HarvestOne(NormalizeUrl(website), fetch, findall);
  }

  /** Otherwise the homepage and then the seven secondary pages are requested, in order. */
  lemma ExtractFallbackTrace(website: string, fetch: string -> Option<string>, findall: string -> seq<string>,
                             arrange: seq<string> -> seq<string>)
    requires Clean(arrange(PageCandidates(fetch(NormalizeUrl(website)), findall))) == []
    ensures var url := NormalizeUrl(website);
      Extract(website, fetch, findall, arrange).requested == [
        url,
        url + "/contact",
        url + "/contact-us",
        url + "/contactus",
        url + "/about",
        url + "/about-us",
        url + "/support",
        url + "/help"
      ]
  {
    var url := NormalizeUrl(website);
    HarvestOne(url, fetch, findall);
    UrlsIndex(url, EXTRA_PATHS);
    var r := Urls(url, EXTRA_PATHS);
    assert r[0] == url + "/contact" && r[1] == url + "/contact-us" && r[2] == url + "/contactus";
    assert r[3] == url + "/about" && r[4] == url + "/about-us";
    assert r[5] == url + "/support" && r[6] == url + "/help";
  }

  /** The returned addresses are exactly the candidates of the requested pages that pass
      the filter. */
  lemma ExtractMembership(website: string, fetch: string -> Option<string>, findall: string -> seq<string>,
                          arrange: seq<string> -> seq<string>, e: string)
    requires ArrangesAsSet(arrange)
    ensures var scrape := Extract(website, fetch, findall, arrange);
      e in scrape.emails <==> e in Harvest(scrape.requested, fetch, findall) && Keep(e)
  {
    var scrape := Extract(website, fetch, findall, arrange);
    var harvested := Harvest(scrape.requested, fetch, findall);
    assert scrape.emails == Clean(arrange(harvested));
    CleanMembership(arrange(harvested), e);
    assert IsArrangement(arrange(harvested), harvested);
    assert e in arrange(harvested) <==> e in Elems(arrange(harvested));
    assert e in harvested <==> e in Elems(harvested);
  }

  /** On the fallback path the homepage contributes nothing kept, so the result holds
      exactly the kept candidates of the secondary pages. */
  lemma ExtractFallbackMembership(website: string, fetch: string -> Option<string>,
                                  findall: string -> seq<string>, arrange: seq<string> -> seq<string>, e: string)
    requires ArrangesAsSet(arrange)
    requires Clean(arrange(PageCandidates(fetch(NormalizeUrl(website)), findall))) == []
    ensures var url := NormalizeUrl(website);
      e in Extract(website, fetch, findall, arrange).emails <==>
        e in Harvest(Urls(url, EXTRA_PATHS), fetch, findall) && Keep(e)
  {
    var url := NormalizeUrl(website);
    var home := PageCandidates(fetch(url), findall);
    HarvestOne(url, fetch, findall);
    HarvestAppend([url], Urls(url, EXTRA_PATHS), fetch, findall);
    ExtractMembership(website, fetch, findall, arrange, e);
    CleanMembership(arrange(home), e);
    assert IsArrangement(arrange(home), home);
    assert e in arrange(home) <==> e in Elems(arrange(home));
  }

  /** The result has no duplicates. */
  lemma ExtractNoDup(website: string, fetch: string -> Option<string>, findall: string -> seq<string>,
                     arrange: seq<string> -> seq<string>)
    requires ArrangesAsSet(arrange)
    ensures NoDup(Extract(website, fetch, findall, arrange).emails)
  {
    var scrape := Extract(website, fetch, findall, arrange);
    var harvested := Harvest(scrape.requested, fetch, findall);
    assert IsArrangement(arrange(harvested), harvested);
    CleanKeepsNoDup(arrange(harvested));
  }

  /** Every returned address is address-shaped and passes all four filter tests. */
  lemma ExtractPassesFilter(website: string, fetch: string -> Option<string>, findall: string -> seq<string>,
                            arrange: seq<string> -> seq<string>, e: string)
    requires ArrangesAsSet(arrange) && FindsEmailShaped(findall)
    requires e in Extract(website, fetch, findall, arrange).emails
    ensures EmailShaped(e)
    ensures DomainPart(e) !in BANNED_DOMAINS
    ensures |LocalPart(e)| <= MAX_LOCAL_LENGTH && !IsDigits(LocalPart(e)) && !IsHexToken(LocalPart(e))
  {
    var scrape := Extract(website, fetch, findall, arrange);
    ExtractMembership(website, fetch, findall, arrange, e);
    HarvestShaped(scrape.requested, fetch, findall, e);
  }

  /** Only one trailing slash is removed. */
  lemma NormalizeStripsOneSlash()
    ensures NormalizeUrl("https://example.com//") == "https://example.com/"
    ensures NormalizeUrl("https://example.com") == "https://example.com"
  {
  }

  /** Filtering an arrangement whose only kept element is `a` gives `[a]`. */
  lemma CleanSingleSurvivor(d: seq<string>, xs: seq<string>, a: string)
    requires IsArrangement(d, xs)
    requires a in xs && Keep(a)
    requires forall e :: e in xs && e != a ==> !Keep(e)
    ensures Clean(d) == [a]
  {
    CleanKeepsNoDup(d);
    forall e ensures e in Elems(Clean(d)) <==> e == a {
      CleanMembership(d, e);
      assert e in d <==> e in Elems(d);
    }
    SingletonArrangement(Clean(d), a);
  }

  /** Filtering an arrangement with no kept element gives nothing. */
  lemma CleanNoSurvivor(d: seq<string>, xs: seq<string>)
    requires IsArrangement(d, xs)
    requires forall e :: e in xs ==> !Keep(e)
    ensures Clean(d) == []
  {
    assert forall k :: 0 <= k < |d| ==> d[k] in Elems(d);
    CleanNone(d);
  }

  lemma SalesIsKept()
    ensures Keep("sales@example.com")
  {
    assert "example.com" !in BANNED_DOMAINS;
    assert !IsAsciiDigit("sales"[0]);
    LiteralParts("sales@example.com", "sales", "example.com");
  }

  lemma SentryIsDropped()
    ensures !Keep("noreply@sentry.io")
  {
    LiteralParts("noreply@sentry.io", "noreply", "sentry.io");
  }

  lemma HelloIsKept()
    ensures Keep("hello@biz.com")
  {
    assert "biz.com" !in BANNED_DOMAINS;
    assert !IsAsciiDigit("hello"[0]);
    LiteralParts("hello@biz.com", "hello", "biz.com");
  }

  /** A homepage listing a real address and a tracking address: the real one is returned
      and no secondary page is requested. */
  lemma HomepageHitScenario(website: string, fetch: string -> Option<string>, findall: string -> seq<string>,
                            arrange: seq<string> -> seq<string>, html: string)
    requires ArrangesAsSet(arrange)
    requires fetch(NormalizeUrl(website)) == Some(html)
    requires findall(html) == ["sales@example.com", "noreply@sentry.io"]
    ensures Extract(website, fetch, findall, arrange) == Scrape(["sales@example.com"], [NormalizeUrl(website)])
  {
    var url := NormalizeUrl(website);
    var home := PageCandidates(fetch(url), findall);
    HarvestOne(url, fetch, findall);
    SalesIsKept();
    SentryIsDropped();
    assert IsArrangement(arrange(home), home);
    CleanSingleSurvivor(arrange(home), home, "sales@example.com");
  }

  /** The homepage request raises and only `/contact` answers: its address is returned. */
  lemma ContactPageScenario(website: string, fetch: string -> Option<string>, findall: string -> seq<string>,
                            arrange: seq<string> -> seq<string>, html: string)
    requires ArrangesAsSet(arrange)
    requires forall u :: u != NormalizeUrl(website) + "/contact" ==> fetch(u) == None
    requires fetch(NormalizeUrl(website) + "/contact") == Some(html)
    requires findall(html) == ["hello@biz.com"]
    ensures Extract(website, fetch, findall, arrange).emails == ["hello@biz.com"]
  {
    var url := NormalizeUrl(website);
    var contact := url + "/contact";
    assert url != contact by {
      assert |contact| > |url|;
    }
    FailedHomeFallsBack(url, fetch, findall, arrange);
    ExtractFallbackTrace(website, fetch, findall, arrange);
    var requested := Extract(website, fetch, findall, arrange).requested;
    assert requested[1] == contact;
    OnlyOnePageAnswers(requested, 1, fetch, findall, "hello@biz.com");
    HelloIsKept();
    var harvested := Harvest(requested, fetch, findall);
    assert IsArrangement(arrange(harvested), harvested);
    CleanSingleSurvivor(arrange(harvested), harvested, "hello@biz.com");
  }

  /** A homepage whose request raises leaves nothing after filtering. */
  lemma FailedHomeFallsBack(url: string, fetch: string -> Option<string>, findall: string -> seq<string>,
                            arrange: seq<string> -> seq<string>)
    requires ArrangesAsSet(arrange)
    requires fetch(url) == None
    ensures Clean(arrange(PageCandidates(fetch(url), findall))) == []
  {
    var none: seq<string> := [];
    assert IsArrangement(arrange(none), none);
    CleanNoSurvivor(arrange(none), none);
  }

  /** When only the page at position `j` answers, and it lists only `a`, the harvest holds
      `a` and nothing else. */
  lemma OnlyOnePageAnswers(urls: seq<string>, j: nat, fetch: string -> Option<string>,
                           findall: string -> seq<string>, a: string)
    requires j < |urls|
    requires forall u :: u != urls[j] ==> fetch(u) == None
    requires fetch(urls[j]).Some? && findall(fetch(urls[j]).value) == [a]
    ensures a in Harvest(urls, fetch, findall)
    ensures forall e :: e in Harvest(urls, fetch, findall) ==> e == a
  {
    HarvestMembership(urls, fetch, findall, a);
    assert a in PageCandidates(fetch(urls[j]), findall);
    forall e | e in Harvest(urls, fetch, findall) ensures e == a {
      HarvestMembership(urls, fetch, findall, e);
      var k :| 0 <= k < |urls| && e in PageCandidates(fetch(urls[k]), findall);
      assert urls[k] == urls[j];
    }
  }

  /** Every secondary path is non-empty, so no secondary URL is the homepage URL. */
  lemma SecondaryUrlsDiffer(url: string)
    ensures forall k :: 0 <= k < |EXTRA_PATHS| ==> Urls(url, EXTRA_PATHS)[k] != url
  {
    UrlsIndex(url, EXTRA_PATHS);
    forall k | 0 <= k < |EXTRA_PATHS| ensures Urls(url, EXTRA_PATHS)[k] != url {
      assert EXTRA_PATHS[k][0] == '/';
      assert |url + EXTRA_PATHS[k]| > |url|;
    }
  }

  /** An all-digit homepage address is dropped, so the secondary pages are requested; when
      they all fail, nothing is returned. */
  lemma AllDigitHomepageScenario(website: string, fetch: string -> Option<string>, findall: string -> seq<string>,
                                 arrange: seq<string> -> seq<string>, html: string)
    requires ArrangesAsSet(arrange)
    requires forall u :: u != NormalizeUrl(website) ==> fetch(u) == None
    requires fetch(NormalizeUrl(website)) == Some(html)
    requires findall(html) == ["1234567890123456789012@tracking.com"]
    ensures Extract(website, fetch, findall, arrange).emails == []
    ensures |Extract(website, fetch, findall, arrange).requested| == 1 + |EXTRA_PATHS|
  {
    var url := NormalizeUrl(website);
    var home := PageCandidates(fetch(url), findall);
    HarvestOne(url, fetch, findall);
    AllDigitLocalIsDropped();
    assert IsArrangement(arrange(home), home);
    CleanNoSurvivor(arrange(home), home);
    var secondary := Urls(url, EXTRA_PATHS);
    SecondaryUrlsDiffer(url);
    HarvestAllFailed(secondary, fetch, findall);
    HarvestAppend([url], secondary, fetch, findall);
    var harvested := Harvest([url] + secondary, fetch, findall);
    assert harvested == home;
  }

  /** When no page yields a candidate, whether its request raised or it answered with no
      match, the homepage and all seven secondary pages are requested and nothing is
      returned. */
  lemma NothingFoundScenario(website: string, fetch: string -> Option<string>, findall: string -> seq<string>,
                             arrange: seq<string> -> seq<string>)
    requires ArrangesAsSet(arrange)
    requires forall u :: PageCandidates(fetch(u), findall) == []
    ensures Extract(website, fetch, findall, arrange).emails == []
    ensures |Extract(website, fetch, findall, arrange).requested| == 1 + |EXTRA_PATHS|
  {
    var url := NormalizeUrl(website);
    var none: seq<string> := [];
    HarvestOne(url, fetch, findall);
    assert IsArrangement(arrange(none), none);
    CleanNoSurvivor(arrange(none), none);
    var requested := [url] + Urls(url, EXTRA_PATHS);
    FlatMapOfEmpties(requested, (u: string) => PageCandidates(fetch(u), findall));
  }
}
