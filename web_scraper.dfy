/** The crawler of web_scraper.py (`EnhancedWebScraper`). Network access, Selenium, HTML and
    XML parsing and `urljoin`/`urlparse` come in as functions: `fetch` gives a page's content or
    a failure, `anchors` the `href` values of a page's links, `join` resolves a link against the
    page URL, `host` gives a URL's network location (or nothing when `urlparse` raises), and
    `sitemaps` gives a sitemap's `<loc>` texts (or nothing when fetching or parsing it fails). */
module WebScraper {
  import opened Wrappers
  import opened Strings

  /** The `<loc>` elements of a sitemap document, in document order (`None` for an element with
      no text), or `None` when the request, its status or the XML parse fails. */
  type Sitemaps = string -> Option<seq<Option<string>>>

  /** What `get_page_content` gives for a URL: the page text (possibly empty) or a raised error. */
  datatype Fetched = Content(text: string) | Failed

  // ---------------------------------------------------------------- process_sitemap

  /** Some `<loc>` has no text, so `sitemap.text.endswith` raises at line 84. */
  predicate MissingText(locs: seq<Option<string>>) {
    exists i :: 0 <= i < |locs| && locs[i].None?
  }

  /** The text of every `<loc>` (line 91). */
  function LocTexts(locs: seq<Option<string>>): (texts: set<string>)
    ensures forall i :: 0 <= i < |locs| && locs[i].Some? ==> locs[i].value in texts
    decreases |locs|
  {
    if locs == [] then {}
    else
      var last := locs[|locs| - 1];
      LocTexts(locs[..|locs| - 1]) + (if last.Some? then {last.value} else {})
  }

  /** The texts that do not end in ".xml", added directly at line 87. */
  function PageLocs(locs: seq<Option<string>>): (texts: set<string>)
    ensures texts <= LocTexts(locs)
    decreases |locs|
  {
    if locs == [] then {}
    else
      var last := locs[|locs| - 1];
      PageLocs(locs[..|locs| - 1]) + (if last.Some? && !EndsWith(last.value, ".xml") then {last.value} else {})
  }

  /** What `process_sitemap` returns for `url` when at most `fuel` nested calls are allowed:
      nothing when the fetch or parse fails or a `<loc>` has no text, and otherwise every `<loc>`
      text together with what each nested ".xml" sitemap yields. */
  function SitemapUrls(sitemaps: Sitemaps, url: string, fuel: nat): set<string>
    decreases fuel, 0, 0
  {
    if fuel == 0 then {}
    else
      match sitemaps(url)
      case None => {}
      case Some(locs) => if MissingText(locs) then {} else NestedUrls(sitemaps, locs, fuel - 1) + LocTexts(locs)
  }

  /** What the nested sitemaps among `locs` yield (line 85). */
  function NestedUrls(sitemaps: Sitemaps, locs: seq<Option<string>>, fuel: nat): set<string>
    decreases fuel, 1, |locs|
  {
    if locs == [] then {}
    else
      var last := locs[|locs| - 1];
      NestedUrls(sitemaps, locs[..|locs| - 1], fuel)
      + (if last.Some? && EndsWith(last.value, ".xml") then SitemapUrls(sitemaps, last.value, fuel) else {})
  }

  /** A nested sitemap's URLs are all collected. */
  lemma {:induction false} NestedUrlsInclude(sitemaps: Sitemaps, locs: seq<Option<string>>, fuel: nat, i: nat)
    requires i < |locs| && locs[i].Some? && EndsWith(locs[i].value, ".xml")
    ensures SitemapUrls(sitemaps, locs[i].value, fuel) <= NestedUrls(sitemaps, locs, fuel)
    decreases |locs|
  {
    if i < |locs| - 1 {
      NestedUrlsInclude(sitemaps, locs[..|locs| - 1], fuel, i);
    }
  }

  /** Lines 83-93 and 94-96: any failure gives the empty set; otherwise the result holds every
      `<loc>` text, the ".xml" ones included, and everything each nested ".xml" sitemap yields. */
  lemma SitemapContents(sitemaps: Sitemaps, url: string, fuel: nat)
    requires fuel > 0
    ensures sitemaps(url).None? ==> SitemapUrls(sitemaps, url, fuel) == {}
    ensures sitemaps(url).Some? && MissingText(sitemaps(url).value) ==> SitemapUrls(sitemaps, url, fuel) == {}
    ensures sitemaps(url).Some? && !MissingText(sitemaps(url).value) ==>
      var locs := sitemaps(url).value;
      (forall i :: 0 <= i < |locs| ==> locs[i].value in SitemapUrls(sitemaps, url, fuel))
      && forall i :: 0 <= i < |locs| && EndsWith(locs[i].value, ".xml") ==>
           SitemapUrls(sitemaps, locs[i].value, fuel - 1) <= SitemapUrls(sitemaps, url, fuel)
  {
    if sitemaps(url).Some? && !MissingText(sitemaps(url).value) {
      var locs := sitemaps(url).value;
      forall i | 0 <= i < |locs| && EndsWith(locs[i].value, ".xml")
        ensures SitemapUrls(sitemaps, locs[i].value, fuel - 1) <= SitemapUrls(sitemaps, url, fuel)
      {
        NestedUrlsInclude(sitemaps, locs, fuel - 1, i);
      }
    }
  }

  /** Every URL in the result is the text of some `<loc>` of this sitemap or of a nested one. */
  lemma {:induction false} SitemapUrlsAreLocs(sitemaps: Sitemaps, url: string, fuel: nat, u: string)
    requires u in SitemapUrls(sitemaps, url, fuel)
    ensures exists s :: sitemaps(s).Some? && u in LocTexts(sitemaps(s).value)
    decreases fuel, 0, 0
  {
    var locs := sitemaps(url).value;
    if u !in LocTexts(locs) {
      NestedUrlsAreLocs(sitemaps, locs, fuel - 1, u);
    }
  }

  lemma {:induction false} NestedUrlsAreLocs(sitemaps: Sitemaps, locs: seq<Option<string>>, fuel: nat, u: string)
    requires u in NestedUrls(sitemaps, locs, fuel)
    ensures exists s :: sitemaps(s).Some? && u in LocTexts(sitemaps(s).value)
    decreases fuel, 1, |locs|
  {
    var last := locs[|locs| - 1];
    if u in NestedUrls(sitemaps, locs[..|locs| - 1], fuel) {
      NestedUrlsAreLocs(sitemaps, locs[..|locs| - 1], fuel, u);
    } else {
      SitemapUrlsAreLocs(sitemaps, last.value, fuel, u);
    }
  }

  /** More fuel never loses a URL: the bound only cuts the recursion short. */
  lemma {:induction false} SitemapUrlsMonotone(sitemaps: Sitemaps, url: string, fuel: nat)
    ensures SitemapUrls(sitemaps, url, fuel) <= SitemapUrls(sitemaps, url, fuel + 1)
    decreases fuel, 0, 0
  {
    if fuel > 0 && sitemaps(url).Some? && !MissingText(sitemaps(url).value) {
      NestedUrlsMonotone(sitemaps, sitemaps(url).value, fuel - 1);
    }
  }

  lemma {:induction false} NestedUrlsMonotone(sitemaps: Sitemaps, locs: seq<Option<string>>, fuel: nat)
    ensures NestedUrls(sitemaps, locs, fuel) <= NestedUrls(sitemaps, locs, fuel + 1)
    decreases fuel, 1, |locs|
  {
    if locs != [] {
      var last := locs[|locs| - 1];
      NestedUrlsMonotone(sitemaps, locs[..|locs| - 1], fuel);
      if last.Some? && EndsWith(last.value, ".xml") {
        SitemapUrlsMonotone(sitemaps, last.value, fuel);
      }
    }
  }
  /** A sitemap that lists itself and one page: the self-reference is cut off by the bound, and
      the result is that page and the sitemap's own URL. */
  lemma CyclicSitemap(sitemaps: Sitemaps, fuel: nat)
    requires fuel > 0
    requires sitemaps("s.xml") == Some([Some("s.xml"), Some("p")])
    ensures SitemapUrls(sitemaps, "s.xml", fuel) == {"s.xml", "p"}
    decreases fuel
  {
    var locs := [Some("s.xml"), Some("p")];
    assert !MissingText(locs);
    assert LocTexts(locs) == {"s.xml", "p"} by {
      assert locs[..1] == [Some("s.xml")] && locs[..1][..0] == [];
    }
    assert !EndsWith("p", ".xml");
    assert NestedUrls(sitemaps, locs, fuel - 1) == NestedUrls(sitemaps, locs[..1], fuel - 1);
    assert locs[..1][..0] == [];
    assert NestedUrls(sitemaps, locs[..1], fuel - 1) == SitemapUrls(sitemaps, "s.xml", fuel - 1);
    if fuel > 1 {
      CyclicSitemap(sitemaps, fuel - 1);
    }
  }

  // ---------------------------------------------------------------- the scraper

  /** Whether the link `href` on page `url` makes `extract_links` raise: `urljoin` (line 70) or
      `urlparse` (line 71) fails on it. */
  predicate LinkRaises(join: (string, string) -> Option<string>, host: string -> Option<string>, url: string, href: string) {
    join(url, href).None? || host(join(url, href).value).None?
  }

  /** The URLs of yielded pages. */
  function PageUrls(pages: seq<(string, string)>): (urls: set<string>)
    ensures forall i :: 0 <= i < |pages| ==> pages[i].0 in urls
    decreases |pages|
  {
    if pages == [] then {} else PageUrls(pages[..|pages| - 1]) + {pages[|pages| - 1].0}
  }

  /** Where a URL in the frontier may come from: the base URL, and otherwise a sitemap entry in
      sitemap mode or a link on this domain when following links. */
  predicate Reachable(u: string, baseUrl: string, domain: string, host: string -> Option<string>,
                      useSitemap: bool, sitemapLinks: set<string>) {
    u == baseUrl || if useSitemap then u in sitemapLinks else host(u) == Some(domain)
  }

  /** What the crawl has yielded since it started with `start` visited: `visited` is `start` plus
      the yielded URLs, each yielded once and none visited before, each with non-empty content
      that the `steps[i]`-th fetch returned. */
  ghost predicate Yielded(start: set<string>, visited: set<string>, pages: seq<(string, string)>,
                          steps: seq<nat>, fetch: (string, nat) -> Fetched) {
    visited == start + PageUrls(pages)
    && |visited| == |start| + |pages|
    && (forall i :: 0 <= i < |pages| ==> pages[i].0 in visited && pages[i].0 !in start)
    && (forall i, j :: 0 <= i < j < |pages| ==> pages[i].0 != pages[j].0)
    && |steps| == |pages|
    && forall i :: 0 <= i < |pages| ==> pages[i].1 != "" && fetch(pages[i].0, steps[i]) == Content(pages[i].1)
  }

  lemma YieldedStep(start: set<string>, visited: set<string>, pages: seq<(string, string)>,
                    steps: seq<nat>, fetch: (string, nat) -> Fetched, url: string, n: nat)
    requires Yielded(start, visited, pages, steps, fetch) && url !in visited
    requires fetch(url, n).Content? && fetch(url, n).text != ""
    ensures Yielded(start, visited + {url}, pages + [(url, fetch(url, n).text)], steps + [n], fetch)
  {
    var pages' := pages + [(url, fetch(url, n).text)];
    assert pages'[..|pages|] == pages;
    assert PageUrls(pages') == PageUrls(pages) + {url};
  }

  /** The frontier never holds a URL visited during this crawl (line 117), and the frontier and
      the yielded pages hold only reachable URLs. */
  ghost predicate Frontier(toVisit: set<string>, start: set<string>, visited: set<string>, pages: seq<(string, string)>,
                           baseUrl: string, domain: string, host: string -> Option<string>,
                           useSitemap: bool, sitemapLinks: set<string>) {
    (forall u :: u in toVisit ==> u !in visited - start && Reachable(u, baseUrl, domain, host, useSitemap, sitemapLinks))
    && forall i :: 0 <= i < |pages| ==> Reachable(pages[i].0, baseUrl, domain, host, useSitemap, sitemapLinks)
  }

  lemma FrontierStep(toVisit: set<string>, start: set<string>, visited: set<string>, pages: seq<(string, string)>,
                     baseUrl: string, domain: string, host: string -> Option<string>,
                     useSitemap: bool, sitemapLinks: set<string>, url: string, text: string, links: set<string>)
    requires Frontier(toVisit, start, visited, pages, baseUrl, domain, host, useSitemap, sitemapLinks)
    requires url in toVisit && url !in visited
    requires forall u :: u in links ==> u !in visited + {url} && host(u) == Some(domain)
    requires useSitemap ==> links == {}
    ensures Frontier(toVisit - {url} + links, start, visited + {url}, pages + [(url, text)],
                     baseUrl, domain, host, useSitemap, sitemapLinks)
  {
    var pages' := pages + [(url, text)];
    assert forall i :: 0 <= i < |pages| ==> pages'[i] == pages[i];
  }

  lemma FrontierDrop(toVisit: set<string>, start: set<string>, visited: set<string>, pages: seq<(string, string)>,
                     baseUrl: string, domain: string, host: string -> Option<string>,
                     useSitemap: bool, sitemapLinks: set<string>, url: string)
    requires Frontier(toVisit, start, visited, pages, baseUrl, domain, host, useSitemap, sitemapLinks)
    ensures Frontier(toVisit - {url}, start, visited, pages, baseUrl, domain, host, useSitemap, sitemapLinks)
  {
  }

  /** One more `<loc>` extends each of the specification's sets by its own contribution. */
  lemma LocsStep(sitemaps: Sitemaps, locs: seq<Option<string>>, fuel: nat, i: nat)
    requires i < |locs|
    ensures NestedUrls(sitemaps, locs[..i + 1], fuel) == NestedUrls(sitemaps, locs[..i], fuel)
      + (if locs[i].Some? && EndsWith(locs[i].value, ".xml") then SitemapUrls(sitemaps, locs[i].value, fuel) else {})
    ensures PageLocs(locs[..i + 1]) == PageLocs(locs[..i]) + (if locs[i].Some? && !EndsWith(locs[i].value, ".xml") then {locs[i].value} else {})
    ensures LocTexts(locs[..i + 1]) == LocTexts(locs[..i]) + (if locs[i].Some? then {locs[i].value} else {})
    ensures MissingText(locs[..i + 1]) <==> MissingText(locs[..i]) || locs[i].None?
  {
    var pre := locs[..i + 1];
    assert pre[..i] == locs[..i] && pre[i] == locs[i];
    if locs[i].None? {
      assert pre[i].None?;
    }
    if MissingText(locs[..i]) {
      var j :| 0 <= j < i && locs[..i][j].None?;
      assert pre[j].None?;
    }
    if MissingText(pre) && locs[i].Some? {
      var j :| 0 <= j < i + 1 && pre[j].None?;
      assert locs[..i][j].None?;
    }
  }

  class Scraper {
    const baseUrl: string
    /** The network location of `baseUrl`. */
    const domain: string
    const useSelenium: bool
    const maxPages: int
    /** The URLs whose content has been yielded. */
    var visited: set<string>
    /** Whether a browser driver was set up. */
    var hasDriver: bool
    /** How many times the driver has been told to quit. */
    var quits: nat

    /** `__init__`: nothing visited yet; a driver exactly when Selenium is asked for. */
    constructor(baseUrl: string, domain: string, useSelenium: bool, maxPages: int)
      ensures this.baseUrl == baseUrl && this.domain == domain
      ensures this.useSelenium == useSelenium && this.maxPages == maxPages
      ensures visited == {} && hasDriver == useSelenium && quits == 0
    {
      this.baseUrl := baseUrl;
      this.domain := domain;
      this.useSelenium := useSelenium;
      this.maxPages := maxPages;
      visited := {};
      hasDriver := useSelenium;
      quits := 0;
    }

    /** `process_sitemap`, with at most `fuel` levels of nesting. */
    method ProcessSitemap(sitemapUrl: string, sitemaps: Sitemaps, fuel: nat) returns (urls: set<string>)
      ensures urls == SitemapUrls(sitemaps, sitemapUrl, fuel)
      decreases fuel, 1
    {
      if fuel == 0 {
        return {};
      }
      match sitemaps(sitemapUrl)
      case None =>
        return {};
      case Some(locs) =>
        var scanned := ScanLocs(locs, sitemaps, fuel - 1);
        if scanned.None? {
          return {};
        }
        urls := scanned.value;
        ghost var first := urls;
        for i := 0 to |locs|
          invariant urls == first + LocTexts(locs[..i])
        {
          LocsStep(sitemaps, locs, fuel - 1, i);
          urls := urls + {locs[i].value};
        }
        assert locs[..|locs|] == locs;
    }

    /** Lines 83-87, the first pass over the `<loc>` elements: nested sitemaps are processed, other
        texts collected; `None` when some `<loc>` has no text, as `None.endswith` raises. */
    method ScanLocs(locs: seq<Option<string>>, sitemaps: Sitemaps, fuel: nat) returns (urls: Option<set<string>>)
      ensures urls.None? <==> MissingText(locs)
      ensures urls.Some? ==> urls.value == NestedUrls(sitemaps, locs, fuel) + PageLocs(locs)
      decreases fuel, 2
    {
      var found: set<string> := {};
      for i := 0 to |locs|
        invariant !MissingText(locs[..i])
        invariant found == NestedUrls(sitemaps, locs[..i], fuel) + PageLocs(locs[..i])
      {
        LocsStep(sitemaps, locs, fuel, i);
        match locs[i]
        case None =>
          return None;
        case Some(text) =>
          if EndsWith(text, ".xml") {
            var nested := ProcessSitemap(text, sitemaps, fuel);
            found := found + nested;
          } else {
            found := found + {text};
          }
      }
      assert locs[..|locs|] == locs;
      return Some(found);
    }

    /** `extract_links`: the links of the page whose resolved URL lies on this scraper's domain,
        or `None` when resolving some link raises. */
    method ExtractLinks(url: string, hrefs: seq<string>, join: (string, string) -> Option<string>, host: string -> Option<string>)
      returns (links: Option<set<string>>)
      ensures links.None? <==> exists i :: 0 <= i < |hrefs| && LinkRaises(join, host, url, hrefs[i])
      ensures links.Some? ==> forall l :: l in links.value <==>
        exists i :: 0 <= i < |hrefs| && join(url, hrefs[i]) == Some(l) && host(l) == Some(domain)
    {
      var found: set<string> := {};
      for i := 0 to |hrefs|
        invariant forall j :: 0 <= j < i ==> !LinkRaises(join, host, url, hrefs[j])
        invariant forall l :: l in found <==>
          exists j :: 0 <= j < i && join(url, hrefs[j]) == Some(l) && host(l) == Some(domain)
      {
        if LinkRaises(join, host, url, hrefs[i]) {
          return None;
        }
        var full := join(url, hrefs[i]).value;
        if host(full) == Some(domain) {
          found := found + {full};
        }
      }
      links := Some(found);
    }

    /** `crawl`, run to the end: the pages yielded, in order. A page is fetched once per pop from
        the frontier (`fetch(url, n)` is the `n`-th fetch); the frontier is a set and `pop` may
        take any of its members. Following links adds only same-domain URLs not yet visited; in
        sitemap mode no links are followed. Empty content and fetch errors are skipped. */
    method Crawl(useSitemap: bool, fetch: (string, nat) -> Fetched, anchors: string -> seq<string>,
                 join: (string, string) -> Option<string>, host: string -> Option<string>,
                 sitemaps: Sitemaps, fuel: nat)
      returns (pages: seq<(string, string)>, ghost steps: seq<nat>)
      modifies this
      // line 101 raises before anything is yielded
      ensures useSitemap && join(baseUrl, "sitemap.xml").None? ==> pages == [] && visited == old(visited)
      // visited grows by exactly the yielded URLs, each yielded once and never one visited before
      ensures visited == old(visited) + PageUrls(pages)
      ensures |visited| == |old(visited)| + |pages|
      ensures forall i, j :: 0 <= i < j < |pages| ==> pages[i].0 != pages[j].0
      ensures forall i :: 0 <= i < |pages| ==> pages[i].0 !in old(visited)
      // the max_pages budget
      ensures |old(visited)| <= maxPages ==> |visited| <= maxPages
      ensures |old(visited)| >= maxPages ==> pages == []
      // every yielded content is non-empty and is what a fetch of that URL returned (the steps[i]-th)
      ensures |steps| == |pages|
      ensures forall i :: 0 <= i < |pages| ==> pages[i].1 != "" && fetch(pages[i].0, steps[i]) == Content(pages[i].1)
      // where the yielded URLs come from
      ensures !useSitemap ==> forall i :: 0 <= i < |pages| ==> pages[i].0 == baseUrl || host(pages[i].0) == Some(domain)
      ensures useSitemap ==> forall i :: 0 <= i < |pages| ==>
        pages[i].0 == baseUrl || pages[i].0 in SitemapUrls(sitemaps, join(baseUrl, "sitemap.xml").value, fuel)
      ensures hasDriver == old(hasDriver) && quits == old(quits)
    {
      pages, steps := [], [];
      var toVisit: set<string> := {baseUrl};
      var sitemapLinks: set<string> := {};
      if useSitemap {
        if join(baseUrl, "sitemap.xml").None? {
          return;
        }
        sitemapLinks := ProcessSitemap(join(baseUrl, "sitemap.xml").value, sitemaps, fuel);
        toVisit := toVisit + sitemapLinks;
      }
      assert Frontier(toVisit, visited, visited, pages, baseUrl, domain, host, useSitemap, sitemapLinks);
      ghost var start := visited;
      pages, steps := Explore(toVisit, useSitemap, fetch, anchors, join, host, sitemapLinks);
      assert Yielded(start, visited, pages, steps, fetch);
      forall i | 0 <= i < |pages|
        ensures useSitemap ==> pages[i].0 == baseUrl || pages[i].0 in SitemapUrls(sitemaps, join(baseUrl, "sitemap.xml").value, fuel)
        ensures !useSitemap ==> pages[i].0 == baseUrl || host(pages[i].0) == Some(domain)
      {
        assert Reachable(pages[i].0, baseUrl, domain, host, useSitemap, sitemapLinks);
      }
    }

    /** The loop of lines 104-121 from the frontier `toVisit`. */
    method Explore(toVisit: set<string>, useSitemap: bool, fetch: (string, nat) -> Fetched, anchors: string -> seq<string>,
                   join: (string, string) -> Option<string>, host: string -> Option<string>, ghost sitemapLinks: set<string>)
      returns (pages: seq<(string, string)>, ghost steps: seq<nat>)
      requires Frontier(toVisit, visited, visited, [], baseUrl, domain, host, useSitemap, sitemapLinks)
      modifies this
      ensures Yielded(old(visited), visited, pages, steps, fetch)
      ensures forall i :: 0 <= i < |pages| ==> Reachable(pages[i].0, baseUrl, domain, host, useSitemap, sitemapLinks)
      ensures |old(visited)| <= maxPages ==> |visited| <= maxPages
      ensures |old(visited)| >= maxPages ==> pages == []
      ensures hasDriver == old(hasDriver) && quits == old(quits)
    {
      pages, steps := [], [];
      var frontier := toVisit;
      var n: nat := 0;
      ghost var start := visited;
      while frontier != {} && |visited| < maxPages
        invariant start == old(visited)
        invariant Yielded(start, visited, pages, steps, fetch)
        invariant Frontier(frontier, start, visited, pages, baseUrl, domain, host, useSitemap, sitemapLinks)
        invariant |start| <= maxPages ==> |visited| <= maxPages
        invariant |start| >= maxPages ==> pages == []
        invariant hasDriver == old(hasDriver) && quits == old(quits)
        decreases maxPages - |visited|, |frontier|
      {
        var url :| url in frontier;
        if url in visited {
          FrontierDrop(frontier, start, visited, pages, baseUrl, domain, host, useSitemap, sitemapLinks, url);
          frontier := frontier - {url};
          continue;
        }
        ghost var seen := visited;
        var page, links := Visit(url, fetch(url, n), useSitemap, anchors, join, host);
        if page.Some? {
          YieldedStep(start, seen, pages, steps, fetch, url, n);
          FrontierStep(frontier, start, seen, pages, baseUrl, domain, host, useSitemap, sitemapLinks, url, page.value.1, links);
          pages, steps := pages + [page.value], steps + [n];
          frontier := frontier - {url} + links;
        } else {
          FrontierDrop(frontier, start, visited, pages, baseUrl, domain, host, useSitemap, sitemapLinks, url);
          frontier := frontier - {url};
        }
        n := n + 1;
      }
    }

    /** One turn of the loop for a popped URL not yet visited (lines 109-121): a page with
        content is marked visited and yielded, and outside sitemap mode its same-domain links
        not yet visited join the frontier; a fetch error or empty content changes nothing. */
    method Visit(url: string, fetched: Fetched, useSitemap: bool, anchors: string -> seq<string>,
                 join: (string, string) -> Option<string>, host: string -> Option<string>)
      returns (page: Option<(string, string)>, links: set<string>)
      requires url !in visited
      modifies this
      ensures page.Some? <==> fetched.Content? && fetched.text != ""
      ensures page.Some? ==> page.value == (url, fetched.text) && visited == old(visited) + {url}
      ensures page.None? ==> visited == old(visited) && links == {}
      ensures useSitemap ==> links == {}
      ensures forall u :: u in links ==> u !in visited && host(u) == Some(domain)
      ensures hasDriver == old(hasDriver) && quits == old(quits)
    {
      page, links := None, {};
      if fetched.Content? && fetched.text != "" {
        visited := visited + {url};
        page := Some((url, fetched.text));
        if !useSitemap {
          var found := ExtractLinks(url, anchors(fetched.text), join, host);
          if found.Some? {
            links := found.value - visited;
          }
        }
      }
    }

    /** `close`: quits the driver when there is one. */
    method Close()
      modifies this
      ensures visited == old(visited) && hasDriver == old(hasDriver)
      ensures quits == old(quits) + (if hasDriver then 1 else 0)
    {
      if hasDriver {
        quits := quits + 1;
      }
    }
  }
}
