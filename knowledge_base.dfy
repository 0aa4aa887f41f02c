/**
 * The site crawler that feeds the knowledge base: it starts from the links of
 * the base URL, visits every internal page once, and records each page's URL,
 * title and paragraph text.
 *
 * Fetching and HTML parsing are one oracle per request (`Fetcher`), `urljoin`
 * is an uninterpreted function (`Joiner`), and the module-level `visited_urls`
 * and `data` are passed in and returned.
 */
module KnowledgeBase {
  import opened Wrappers
  import opened Text

  type Url = string

  /**
   * What the crawler reads from a parsed page: the text of `<title>` if there
   * is one, the texts of the `<p>` elements and the `href`s of the `<a>`
   * elements, both in document order.
   */
  datatype Html = Html(title: Option<string>, paragraphs: seq<string>, hrefs: seq<string>)

  /** `requests.get(url)` followed by parsing: `None` when the request raises. */
  type Fetcher = Url -> Option<Html>

  /** `urljoin(base, href)`. */
  type Joiner = (Url, string) -> Url

  const NoTitle: string := "No Title"

  /** One scraped page: `{"url", "title", "content"}`. */
  datatype PageData = PageData(url: Url, title: string, content: string)

  /** `soup.title.text.strip() if soup.title else "No Title"`. */
  function PageTitle(html: Html): (t: string)
    ensures html.title.None? ==> t == NoTitle
    ensures html.title.Some? ==> StripOf(t, html.title.value)
  {
    if html.title.Some? then StripSpec(html.title.value); Strip(html.title.value) else NoTitle
  }

  /** One paragraph's contribution to the kept list. */
  function KeepOne(p: string): seq<string> {
    if Strip(p) != "" then [Strip(p)] else []
  }

  /** `[p.text.strip() for p in paragraphs if p.text.strip()]`. */
  function KeptParagraphs(ps: seq<string>): (r: seq<string>)
    ensures |r| <= |ps|
  {
    if ps == [] then [] else KeepOne(ps[0]) + KeptParagraphs(ps[1..])
  }

  /** Every kept text is non-empty and stripped. */
  lemma {:induction false} KeptParagraphsStripped(ps: seq<string>)
    ensures forall k :: 0 <= k < |KeptParagraphs(ps)| ==> KeptParagraphs(ps)[k] != "" && IsStripped(KeptParagraphs(ps)[k])
  {
    if ps != [] {
      KeptParagraphsStripped(ps[1..]);
      StripIsStripped(ps[0]);
      var head, rest := KeepOne(ps[0]), KeptParagraphs(ps[1..]);
      assert KeptParagraphs(ps) == head + rest;
      forall k | 0 <= k < |head + rest| ensures (head + rest)[k] != "" && IsStripped((head + rest)[k]) {
        if k >= |head| {
          assert (head + rest)[k] == rest[k - |head|];
        }
      }
    }
  }

  /** The filter keeps document order: it distributes over concatenation. */
  lemma {:induction false} KeptParagraphsConcat(ps: seq<string>, qs: seq<string>)
    ensures KeptParagraphs(ps + qs) == KeptParagraphs(ps) + KeptParagraphs(qs)
  {
    if ps == [] {
      assert ps + qs == qs;
    } else {
      var head, rest := KeepOne(ps[0]), KeptParagraphs(ps[1..]);
      assert (ps + qs)[0] == ps[0] && (ps + qs)[1..] == ps[1..] + qs;
      assert KeptParagraphs(ps + qs) == head + KeptParagraphs(ps[1..] + qs);
      KeptParagraphsConcat(ps[1..], qs);
      AppendAssoc(head, rest, KeptParagraphs(qs));
    }
  }

  /**
   * Associativity of concatenation, stated at the element type so that the
   * solver does not unfold the strings inside the lists while proving it.
   */
  lemma AppendAssoc<T>(a: seq<T>, b: seq<T>, c: seq<T>)
    ensures a + (b + c) == (a + b) + c
  {
  }

  /** A paragraph is kept exactly when it has a non-whitespace character, and then as its stripped text. */
  lemma KeptSingle(p: string)
    ensures KeptParagraphs([p]) == if AllSpace(p) then [] else [Strip(p)]
  {
    StripEmptyIff(p);
    assert [p][1..] == [];
  }

  /** `"\n".join(...)` of the kept paragraphs. */
  function PageContent(ps: seq<string>): string {
    Join("\n", KeptParagraphs(ps))
  }

  lemma {:induction false} JoinEmptyIff(sep: string, xs: seq<string>)
    requires forall k :: 0 <= k < |xs| ==> xs[k] != ""
    ensures Join(sep, xs) == "" <==> xs == []
  {
    if |xs| > 1 {
      assert |Join(sep, xs)| >= |xs[0]|;
    }
  }

  /** The content is empty exactly when every paragraph is whitespace only. */
  lemma {:induction false} PageContentEmptyIff(ps: seq<string>)
    ensures PageContent(ps) == "" <==> forall k :: 0 <= k < |ps| ==> AllSpace(ps[k])
  {
    KeptParagraphsStripped(ps);
    JoinEmptyIff("\n", KeptParagraphs(ps));
    KeptEmptyIff(ps);
  }

  lemma {:induction false} KeptEmptyIff(ps: seq<string>)
    ensures KeptParagraphs(ps) == [] <==> forall k :: 0 <= k < |ps| ==> AllSpace(ps[k])
  {
    if ps != [] {
      var rest := ps[1..];
      KeptEmptyIff(rest);
      StripEmptyIff(ps[0]);
      assert KeptParagraphs(ps) == KeepOne(ps[0]) + KeptParagraphs(rest);
      if forall k :: 0 <= k < |ps| ==> AllSpace(ps[k]) {
        forall k | 0 <= k < |rest| ensures AllSpace(rest[k]) {
          assert rest[k] == ps[k + 1];
        }
      } else {
        var k :| 0 <= k < |ps| && !AllSpace(ps[k]);
        if k > 0 {
          assert ps[k] == rest[k - 1];
        }
      }
    }
  }

  /** `scrape_page`: `None` when the request raises. */
  function ScrapePage(url: Url, fetch: Fetcher): (r: Option<PageData>)
    ensures r.None? <==> fetch(url).None?
    ensures r.Some? ==> r.value.url == url
    ensures fetch(url).Some? ==>
              var html := fetch(url).value;
              r == Some(PageData(url, PageTitle(html), PageContent(html.paragraphs)))
    ensures fetch(url).Some? ==>
              (r.value.content == "" <==> forall k :: 0 <= k < |fetch(url).value.paragraphs| ==> AllSpace(fetch(url).value.paragraphs[k]))
  {
    match fetch(url)
    case None => None
    case Some(html) =>
      PageContentEmptyIff(html.paragraphs);
      Some(PageData(url, PageTitle(html), PageContent(html.paragraphs)))
  }

  /**
   * The links `get_all_links` keeps from a list of `href`s: the joined URLs
   * that contain the base URL as a substring and are not yet visited.
   */
  function LinkSet(base: Url, hrefs: seq<string>, join: Joiner, visited: set<Url>): set<Url> {
    set h | h in hrefs && Contains(join(base, h), base) && join(base, h) !in visited :: join(base, h)
  }

  /** `get_all_links(url)`: `None` when the request raises. */
  method GetAllLinks(url: Url, base: Url, visited: set<Url>, fetch: Fetcher, join: Joiner)
    returns (links: Option<set<Url>>)
    ensures links.None? <==> fetch(url).None?
    ensures links.Some? ==> forall u :: u in links.value ==> Contains(u, base) && u !in visited
    ensures links.Some? ==> forall h :: h in fetch(url).value.hrefs && Contains(join(base, h), base) && join(base, h) !in visited
                              ==> join(base, h) in links.value
    ensures links.Some? ==> links.value == LinkSet(base, fetch(url).value.hrefs, join, visited)
  {
    var soup := fetch(url);
    if soup.None? {
      return None;
    }
    var hrefs := soup.value.hrefs;
    var found: set<Url> := {};
    var i := 0;
    while i < |hrefs|
      invariant 0 <= i <= |hrefs|
      invariant found == LinkSet(base, hrefs[..i], join, visited)
    {
      var fullUrl := join(base, hrefs[i]);
      if Contains(fullUrl, base) && fullUrl !in visited {
        found := found + {fullUrl};
      }
      assert hrefs[..i + 1] == hrefs[..i] + [hrefs[i]];
      i := i + 1;
    }
    assert hrefs[..i] == hrefs;
    links := Some(found);
  }

  /** Every internal link a page can yield lies in `universe`: the site is finite. */
  ghost predicate FiniteSite(universe: set<Url>, base: Url, fetch: Fetcher, join: Joiner) {
    forall u :: fetch(u).Some? ==> LinkSet(base, fetch(u).value.hrefs, join, {}) <= universe
  }

  /** The pages scraped by a sequence of attempts, failures left out. */
  function Scraped(attempts: seq<Url>, fetch: Fetcher): (ds: seq<PageData>)
    ensures |ds| <= |attempts|
  {
    if attempts == [] then []
    else
      var last := ScrapePage(attempts[|attempts| - 1], fetch);
      Scraped(attempts[..|attempts| - 1], fetch) + (if last.Some? then [last.value] else [])
  }

  /** The URLs of a list of pages. */
  function Urls(ds: seq<PageData>): set<Url> {
    set k | 0 <= k < |ds| :: ds[k].url
  }

  /** The URLs of successful attempts. */
  ghost function Succeeded(attempts: seq<Url>, pageFetch: Fetcher): (r: set<Url>)
    ensures forall u :: u in r ==> pageFetch(u).Some?
  {
    if attempts == [] then {}
    else
      var last := attempts[|attempts| - 1];
      Succeeded(attempts[..|attempts| - 1], pageFetch) + (if pageFetch(last).Some? then {last} else {})
  }

  lemma {:induction false} SucceededMembers(attempts: seq<Url>, pageFetch: Fetcher, u: Url)
    ensures u in Succeeded(attempts, pageFetch) <==> pageFetch(u).Some? && u in attempts
  {
    if attempts != [] {
      var n := |attempts| - 1;
      SucceededMembers(attempts[..n], pageFetch, u);
      assert attempts == attempts[..n] + [attempts[n]];
    }
  }

  /**
   * Crawl invariant: `data` is the old data followed by the successful scrapes
   * of `attempts`, no attempt is at a URL visited before it, each successful URL
   * is attempted once, and the newly visited URLs are exactly the successful ones.
   */
  ghost predicate CrawlState(visited0: set<Url>, data0: seq<PageData>, visited: set<Url>, data: seq<PageData>,
                             attempts: seq<Url>, pageFetch: Fetcher) {
    && data == data0 + Scraped(attempts, pageFetch)
    && visited == visited0 + Succeeded(attempts, pageFetch)
    && (forall k :: 0 <= k < |attempts| ==> attempts[k] !in visited0)
    && (forall i, j :: 0 <= i < j < |attempts| && attempts[i] == attempts[j] ==> pageFetch(attempts[i]).None?)
  }

  /** One scrape attempt at an unvisited URL keeps the crawl invariant. */
  lemma AttemptStep(visited0: set<Url>, data0: seq<PageData>, visited: set<Url>, data: seq<PageData>,
                    attempts: seq<Url>, pageFetch: Fetcher, url: Url)
    requires CrawlState(visited0, data0, visited, data, attempts, pageFetch)
    requires url !in visited
    ensures pageFetch(url).None? ==> CrawlState(visited0, data0, visited, data, attempts + [url], pageFetch)
    ensures pageFetch(url).Some? ==>
              CrawlState(visited0, data0, visited + {url}, data + [ScrapePage(url, pageFetch).value], attempts + [url], pageFetch)
  {
    var next := attempts + [url];
    assert next[..|attempts|] == attempts;
    assert Scraped(next, pageFetch) ==
           Scraped(attempts, pageFetch) + (if pageFetch(url).Some? then [ScrapePage(url, pageFetch).value] else []);
    forall i, j | 0 <= i < j < |next| && next[i] == next[j] ensures pageFetch(next[i]).None? {
      if j == |attempts| {
        assert attempts[i] == url;
        SucceededMembers(attempts, pageFetch, url);
      }
    }
  }

  /** The scraped pages are the successful attempts, one page per successful attempt. */
  lemma {:induction false} ScrapedPages(attempts: seq<Url>, pageFetch: Fetcher)
    ensures Urls(Scraped(attempts, pageFetch)) == Succeeded(attempts, pageFetch)
    ensures forall k :: 0 <= k < |Scraped(attempts, pageFetch)| ==>
              var d := Scraped(attempts, pageFetch)[k];
              pageFetch(d.url).Some? && d == ScrapePage(d.url, pageFetch).value
  {
    ScrapedUrls(attempts, pageFetch);
    ScrapedEntries(attempts, pageFetch);
  }

  lemma {:induction false} ScrapedUrls(attempts: seq<Url>, pageFetch: Fetcher)
    ensures Urls(Scraped(attempts, pageFetch)) == Succeeded(attempts, pageFetch)
  {
    if attempts != [] {
      var n := |attempts| - 1;
      ScrapedUrls(attempts[..n], pageFetch);
      var last := ScrapePage(attempts[n], pageFetch);
      var tail := if last.Some? then [last.value] else [];
      UrlsConcat(Scraped(attempts[..n], pageFetch), tail);
      if last.Some? {
        assert tail[0].url == attempts[n];
        assert Urls(tail) == {attempts[n]};
      } else {
        assert Urls(tail) == {};
      }
    }
  }

  lemma {:induction false} ScrapedEntries(attempts: seq<Url>, pageFetch: Fetcher)
    ensures forall k :: 0 <= k < |Scraped(attempts, pageFetch)| ==>
              var d := Scraped(attempts, pageFetch)[k];
              pageFetch(d.url).Some? && d == ScrapePage(d.url, pageFetch).value
  {
    if attempts != [] {
      var n := |attempts| - 1;
      ScrapedEntries(attempts[..n], pageFetch);
    }
  }

  lemma UrlsConcat(a: seq<PageData>, b: seq<PageData>)
    ensures Urls(a + b) == Urls(a) + Urls(b)
  {
    forall u | u in Urls(a + b) ensures u in Urls(a) + Urls(b) {
      var k :| 0 <= k < |a + b| && (a + b)[k].url == u;
      if k >= |a| { assert b[k - |a|].url == u; }
    }
    forall u | u in Urls(b) ensures u in Urls(a + b) {
      var k :| 0 <= k < |b| && b[k].url == u;
      assert (a + b)[k + |a|].url == u;
    }
    forall u | u in Urls(a) ensures u in Urls(a + b) {
      var k :| 0 <= k < |a| && a[k].url == u;
      assert (a + b)[k].url == u;
    }
  }

  /** When each successful URL is attempted once, the scraped pages have distinct URLs. */
  lemma {:induction false} ScrapedDistinct(attempts: seq<Url>, pageFetch: Fetcher)
    requires forall i, j :: 0 <= i < j < |attempts| && attempts[i] == attempts[j] ==> pageFetch(attempts[i]).None?
    ensures forall i, j :: 0 <= i < j < |Scraped(attempts, pageFetch)| ==>
              Scraped(attempts, pageFetch)[i].url != Scraped(attempts, pageFetch)[j].url
  {
    if attempts != [] {
      var n := |attempts| - 1;
      var init := attempts[..n];
      ScrapedDistinct(init, pageFetch);
      ScrapedPages(init, pageFetch);
      SucceededMembers(init, pageFetch, attempts[n]);
      var ds := Scraped(init, pageFetch);
      if pageFetch(attempts[n]).Some? {
        assert attempts[n] !in init by {
          assert forall i :: 0 <= i < n ==> init[i] == attempts[i];
        }
      }
    }
  }

  /**
   * Crawling from empty globals: the URLs in `data` are exactly `visited_urls`,
   * each appears once, and every entry is its page's successful scrape.
   */
  lemma CrawlFromEmpty(visited: set<Url>, data: seq<PageData>, attempts: seq<Url>, pageFetch: Fetcher)
    requires CrawlState({}, [], visited, data, attempts, pageFetch)
    ensures Urls(data) == visited
    ensures forall i, j :: 0 <= i < j < |data| ==> data[i].url != data[j].url
    ensures forall k :: 0 <= k < |data| ==> pageFetch(data[k].url).Some? && data[k] == ScrapePage(data[k].url, pageFetch).value
  {
    assert data == Scraped(attempts, pageFetch);
    ScrapedPages(attempts, pageFetch);
    ScrapedDistinct(attempts, pageFetch);
  }

  /** Every link in `links` is visited, still to visit, or fails to scrape. */
  ghost predicate Covered(links: set<Url>, visited: set<Url>, pages: set<Url>, pageFetch: Fetcher) {
    forall l :: l in links ==> l in visited || l in pages || pageFetch(l).None?
  }

  /**
   * Completeness invariant: every internal link of the base page and of every
   * newly visited page whose link request succeeded is covered.
   */
  ghost predicate Complete(base: Url, linkFetch: Fetcher, join: Joiner, pageFetch: Fetcher,
                           visited0: set<Url>, visited: set<Url>, pages: set<Url>) {
    && (linkFetch(base).Some? ==> Covered(LinkSet(base, linkFetch(base).value.hrefs, join, {}), visited, pages, pageFetch))
    && (forall u :: u in visited - visited0 && linkFetch(u).Some? ==>
          Covered(LinkSet(base, linkFetch(u).value.hrefs, join, {}), visited, pages, pageFetch))
  }

  /** Popping a URL that is visited, or whose scrape fails, keeps every link covered. */
  lemma PopKeepsComplete(base: Url, linkFetch: Fetcher, join: Joiner, pageFetch: Fetcher,
                         visited0: set<Url>, visited: set<Url>, pages: set<Url>, url: Url)
    requires Complete(base, linkFetch, join, pageFetch, visited0, visited, pages)
    requires url in visited || pageFetch(url).None?
    ensures Complete(base, linkFetch, join, pageFetch, visited0, visited, pages - {url})
  {
  }

  /**
   * Scraping `url`, marking it visited and queueing its new links keeps every
   * link covered, the links of `url` included.
   */
  lemma VisitKeepsComplete(base: Url, linkFetch: Fetcher, join: Joiner, pageFetch: Fetcher,
                           visited0: set<Url>, visited: set<Url>, pages: set<Url>, url: Url,
                           newLinks: Option<set<Url>>)
    requires Complete(base, linkFetch, join, pageFetch, visited0, visited, pages)
    requires url !in visited0
    requires newLinks.None? <==> linkFetch(url).None?
    requires newLinks.Some? ==> newLinks.value == LinkSet(base, linkFetch(url).value.hrefs, join, visited + {url})
    ensures Complete(base, linkFetch, join, pageFetch, visited0, visited + {url},
                     (pages - {url}) + (if newLinks.Some? then newLinks.value - (visited + {url}) else {}))
  {
  }

  lemma VisitShrinksUnvisited(universe: set<Url>, visited: set<Url>, url: Url)
    requires url in universe && url !in visited
    ensures |universe - (visited + {url})| < |universe - visited|
  {
    assert universe - (visited + {url}) == (universe - visited) - {url};
  }

  /** Every URL `LinkSet` yields contains the base URL and is not in the excluded set. */
  lemma LinkSetInternal(base: Url, hrefs: seq<string>, join: Joiner, excluded: set<Url>, url: Url)
    requires url in LinkSet(base, hrefs, join, excluded)
    ensures Contains(url, base) && url !in excluded
  {
    var h :| h in hrefs && Contains(join(base, h), base) && join(base, h) !in excluded && join(base, h) == url;
  }

  /**
   * `url` was discovered by the crawl: it is an internal link of the base
   * page, or of a page the crawl visited.
   */
  ghost predicate Discovered(base: Url, linkFetch: Fetcher, join: Joiner, visited0: set<Url>, visited: set<Url>, url: Url) {
    || (linkFetch(base).Some? && url in LinkSet(base, linkFetch(base).value.hrefs, join, {}))
    || (exists u :: u in visited && u !in visited0 && linkFetch(u).Some? &&
                    url in LinkSet(base, linkFetch(u).value.hrefs, join, {}))
  }

  /** A discovered URL is internal: it contains the base URL. */
  lemma DiscoveredInternal(base: Url, linkFetch: Fetcher, join: Joiner, visited0: set<Url>, visited: set<Url>, url: Url)
    requires Discovered(base, linkFetch, join, visited0, visited, url)
    ensures Contains(url, base)
  {
    if linkFetch(base).Some? && url in LinkSet(base, linkFetch(base).value.hrefs, join, {}) {
      LinkSetInternal(base, linkFetch(base).value.hrefs, join, {}, url);
    } else {
      var u :| u in visited && u !in visited0 && linkFetch(u).Some? &&
               url in LinkSet(base, linkFetch(u).value.hrefs, join, {});
      LinkSetInternal(base, linkFetch(u).value.hrefs, join, {}, url);
    }
  }

  /** Visiting more pages never undoes a discovery. */
  lemma DiscoveredGrows(base: Url, linkFetch: Fetcher, join: Joiner, visited0: set<Url>, visited: set<Url>,
                        visited': set<Url>, url: Url)
    requires visited <= visited'
    requires Discovered(base, linkFetch, join, visited0, visited, url)
    ensures Discovered(base, linkFetch, join, visited0, visited', url)
  {
    if !(linkFetch(base).Some? && url in LinkSet(base, linkFetch(base).value.hrefs, join, {})) {
      var u :| u in visited && u !in visited0 && linkFetch(u).Some? &&
               url in LinkSet(base, linkFetch(u).value.hrefs, join, {});
      assert u in visited';
    }
  }

  /** The crawl stays on the site: every pending URL and every attempted URL was discovered. */
  ghost predicate OnSite(base: Url, linkFetch: Fetcher, join: Joiner, visited0: set<Url>, visited: set<Url>,
                         pages: set<Url>, attempts: seq<Url>) {
    && (forall p :: p in pages ==> Discovered(base, linkFetch, join, visited0, visited, p))
    && (forall k :: 0 <= k < |attempts| ==> Discovered(base, linkFetch, join, visited0, visited, attempts[k]))
  }

  /** Popping a pending URL and recording it as attempted keeps the crawl on the site. */
  lemma OnSiteAttempt(base: Url, linkFetch: Fetcher, join: Joiner, visited0: set<Url>, visited: set<Url>,
                      pages: set<Url>, attempts: seq<Url>, url: Url)
    requires OnSite(base, linkFetch, join, visited0, visited, pages, attempts)
    requires url in pages
    ensures OnSite(base, linkFetch, join, visited0, visited, pages - {url}, attempts + [url])
  {
    var next := attempts + [url];
    forall k | 0 <= k < |next| ensures Discovered(base, linkFetch, join, visited0, visited, next[k]) {
      if k < |attempts| {
        assert next[k] == attempts[k];
      }
    }
  }

  /**
   * Visiting a discovered URL and queueing the links its page yields keeps
   * the crawl on the site: the new links are discovered through that page.
   */
  lemma OnSiteVisit(base: Url, linkFetch: Fetcher, join: Joiner, visited0: set<Url>, visited: set<Url>,
                    pages: set<Url>, attempts: seq<Url>, url: Url, newLinks: Option<set<Url>>)
    requires OnSite(base, linkFetch, join, visited0, visited, pages, attempts)
    requires url in pages && url !in visited0
    requires newLinks.None? <==> linkFetch(url).None?
    requires newLinks.Some? ==> newLinks.value == LinkSet(base, linkFetch(url).value.hrefs, join, visited + {url})
    ensures OnSite(base, linkFetch, join, visited0, visited + {url},
                   (pages - {url}) + (if newLinks.Some? then newLinks.value - (visited + {url}) else {}),
                   attempts + [url])
  {
    var visited' := visited + {url};
    OnSiteAttempt(base, linkFetch, join, visited0, visited, pages, attempts, url);
    var next := attempts + [url];
    forall k | 0 <= k < |next| ensures Discovered(base, linkFetch, join, visited0, visited', next[k]) {
      DiscoveredGrows(base, linkFetch, join, visited0, visited, visited', next[k]);
    }
    forall p | p in pages - {url} ensures Discovered(base, linkFetch, join, visited0, visited', p) {
      DiscoveredGrows(base, linkFetch, join, visited0, visited, visited', p);
    }
    if newLinks.Some? {
      forall p | p in newLinks.value - visited' ensures Discovered(base, linkFetch, join, visited0, visited', p) {
        var hrefs := linkFetch(url).value.hrefs;
        var h :| h in hrefs && Contains(join(base, h), base) && join(base, h) !in visited' && join(base, h) == p;
        assert p in LinkSet(base, hrefs, join, {});
        assert url in visited' && url !in visited0;
      }
    }
  }

  /** The loop invariant of `scrape_website`: the pending URLs lie in the site, and the crawl, completeness and on-site invariants hold. */
  ghost predicate LoopInv(base: Url, linkFetch: Fetcher, join: Joiner, pageFetch: Fetcher, universe: set<Url>,
                          visited0: set<Url>, data0: seq<PageData>, visited: set<Url>, data: seq<PageData>,
                          pages: set<Url>, attempts: seq<Url>) {
    && pages <= universe
    && CrawlState(visited0, data0, visited, data, attempts, pageFetch)
    && Complete(base, linkFetch, join, pageFetch, visited0, visited, pages)
    && OnSite(base, linkFetch, join, visited0, visited, pages, attempts)
  }

  /** Popping an already visited URL keeps the loop invariant. */
  lemma SkipStep(base: Url, linkFetch: Fetcher, join: Joiner, pageFetch: Fetcher, universe: set<Url>,
                 visited0: set<Url>, data0: seq<PageData>, visited: set<Url>, data: seq<PageData>,
                 pages: set<Url>, attempts: seq<Url>, url: Url)
    requires LoopInv(base, linkFetch, join, pageFetch, universe, visited0, data0, visited, data, pages, attempts)
    requires url in visited
    ensures LoopInv(base, linkFetch, join, pageFetch, universe, visited0, data0, visited, data, pages - {url}, attempts)
  {
    PopKeepsComplete(base, linkFetch, join, pageFetch, visited0, visited, pages, url);
  }

  /** A failed scrape of an unvisited URL keeps the loop invariant, with the URL recorded as attempted. */
  lemma FailedStep(base: Url, linkFetch: Fetcher, join: Joiner, pageFetch: Fetcher, universe: set<Url>,
                   visited0: set<Url>, data0: seq<PageData>, visited: set<Url>, data: seq<PageData>,
                   pages: set<Url>, attempts: seq<Url>, url: Url)
    requires LoopInv(base, linkFetch, join, pageFetch, universe, visited0, data0, visited, data, pages, attempts)
    requires url in pages && url !in visited && pageFetch(url).None?
    ensures LoopInv(base, linkFetch, join, pageFetch, universe, visited0, data0, visited, data, pages - {url}, attempts + [url])
  {
    OnSiteAttempt(base, linkFetch, join, visited0, visited, pages, attempts, url);
    AttemptStep(visited0, data0, visited, data, attempts, pageFetch, url);
    PopKeepsComplete(base, linkFetch, join, pageFetch, visited0, visited, pages, url);
  }

  /**
   * A successful scrape of an unvisited URL of the site, followed by queueing
   * its unvisited links, keeps the loop invariant and shrinks the unvisited
   * part of the site.
   */
  lemma VisitStep(base: Url, linkFetch: Fetcher, join: Joiner, pageFetch: Fetcher, universe: set<Url>,
                  visited0: set<Url>, data0: seq<PageData>, visited: set<Url>, data: seq<PageData>,
                  pages: set<Url>, attempts: seq<Url>, url: Url, newLinks: Option<set<Url>>)
    requires FiniteSite(universe, base, linkFetch, join)
    requires LoopInv(base, linkFetch, join, pageFetch, universe, visited0, data0, visited, data, pages, attempts)
    requires url in pages && url !in visited && pageFetch(url).Some?
    requires newLinks.None? <==> linkFetch(url).None?
    requires newLinks.Some? ==> newLinks.value == LinkSet(base, linkFetch(url).value.hrefs, join, visited + {url})
    ensures LoopInv(base, linkFetch, join, pageFetch, universe, visited0, data0, visited + {url},
                    data + [ScrapePage(url, pageFetch).value],
                    (pages - {url}) + (if newLinks.Some? then newLinks.value - (visited + {url}) else {}),
                    attempts + [url])
    ensures |universe - (visited + {url})| < |universe - visited|
  {
    AttemptStep(visited0, data0, visited, data, attempts, pageFetch, url);
    assert url !in visited0;
    VisitKeepsComplete(base, linkFetch, join, pageFetch, visited0, visited, pages, url, newLinks);
    OnSiteVisit(base, linkFetch, join, visited0, visited, pages, attempts, url, newLinks);
    if newLinks.Some? {
      assert newLinks.value <= LinkSet(base, linkFetch(url).value.hrefs, join, {});
    }
    VisitShrinksUnvisited(universe, visited, url);
  }

  /** `scrape_website` returns nothing; `ok` is false when the first link request raises. */
  method ScrapeWebsite(base: Url, visited0: set<Url>, data0: seq<PageData>,
                       pageFetch: Fetcher, linkFetch: Fetcher, join: Joiner, ghost universe: set<Url>)
    returns (ok: bool, visited: set<Url>, data: seq<PageData>, ghost attempts: seq<Url>)
    requires FiniteSite(universe, base, linkFetch, join)
    ensures ok <==> linkFetch(base).Some?
    ensures !ok ==> visited == visited0 && data == data0
    ensures CrawlState(visited0, data0, visited, data, attempts, pageFetch)
    ensures ok ==> Complete(base, linkFetch, join, pageFetch, visited0, visited, {})
    ensures !ok ==> attempts == []
    ensures forall k :: 0 <= k < |attempts| ==>
              Discovered(base, linkFetch, join, visited0, visited, attempts[k]) && Contains(attempts[k], base)
  {
    visited, data, attempts := visited0, data0, [];
    var first := GetAllLinks(base, base, visited, linkFetch, join);
    if first.None? {
      return false, visited, data, attempts;
    }
    ok := true;
    var pagesToVisit := first.value;
    assert pagesToVisit <= LinkSet(base, linkFetch(base).value.hrefs, join, {});
    assert OnSite(base, linkFetch, join, visited0, visited, pagesToVisit, attempts);
    while pagesToVisit != {}
      invariant LoopInv(base, linkFetch, join, pageFetch, universe, visited0, data0, visited, data, pagesToVisit, attempts)
      decreases |universe - visited|, |pagesToVisit|
    {
      var url :| url in pagesToVisit;
      if url in visited {
        SkipStep(base, linkFetch, join, pageFetch, universe, visited0, data0, visited, data, pagesToVisit, attempts, url);
        pagesToVisit := pagesToVisit - {url};
        continue;
      }
      var pageData := ScrapePage(url, pageFetch);
      if pageData.Some? {
        ghost var visitedBefore, dataBefore, pagesBefore := visited, data, pagesToVisit;
        data := data + [pageData.value];
        visited := visited + {url};
        var newLinks := GetAllLinks(url, base, visited, linkFetch, join);
        pagesToVisit := pagesToVisit - {url};
        if newLinks.Some? {
          pagesToVisit := pagesToVisit + (newLinks.value - visited);
        }
        VisitStep(base, linkFetch, join, pageFetch, universe, visited0, data0, visitedBefore, dataBefore,
                  pagesBefore, attempts, url, newLinks);
      } else {
        FailedStep(base, linkFetch, join, pageFetch, universe, visited0, data0, visited, data, pagesToVisit, attempts, url);
        pagesToVisit := pagesToVisit - {url};
      }
      attempts := attempts + [url];
    }
    forall k | 0 <= k < |attempts| ensures Contains(attempts[k], base) {
      DiscoveredInternal(base, linkFetch, join, visited0, visited, attempts[k]);
    }
  }
}
