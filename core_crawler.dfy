/**
 * `WebCrawler` of the crawler package: the crawl loop, the processing of one
 * page, and the filters that decide which links are queued and which
 * content is kept.
 *
 * The network is not modelled: a fetch may return any page text or nothing.
 * Parsing with BeautifulSoup and `_clean_html` is a function from the page
 * text to a `Document`. Saving to the database and updating the feed are
 * recorded as the sequence of records the crawler hands over.
 */
module Crawler {
  import opened Wrappers
  import opened Seqs
  import opened Strings
  import opened UrlHelpers
  import opened Config
  import opened Frontier
  import opened ContentProcessing

  // ------------------------------------------------------------------ filters

  /** The loop of `_is_valid_crawl_url` over the excluded extensions: does `path` end with one of them? */
  function EndsWithAny(path: string, extensions: seq<string>): bool
  {
    if extensions == [] then false
    else if EndsWith(path, extensions[0]) then true
    else EndsWithAny(path, extensions[1..])
  }

  lemma {:induction false} EndsWithAnySpec(path: string, extensions: seq<string>)
    ensures EndsWithAny(path, extensions) <==> exists i :: 0 <= i < |extensions| && EndsWith(path, extensions[i])
  {
    if extensions != [] && !EndsWith(path, extensions[0]) {
      EndsWithAnySpec(path, extensions[1..]);
      assert forall i :: 0 < i < |extensions| ==> extensions[i] == extensions[1..][i - 1];
    }
  }

  /**
   * The loop of `_is_valid_crawl_url` over the useful patterns, searched in
   * the case-folded URL (see `IgnoreCase`). The patterns hold no
   * regular-expression operators, only ASCII small letters and `/`.
   */
  function ContainsAny(url: string, patterns: seq<string>): bool
  {
    if patterns == [] then false
    else if Contains(url, patterns[0]) then true
    else ContainsAny(url, patterns[1..])
  }

  lemma {:induction false} ContainsAnySpec(url: string, patterns: seq<string>)
    ensures ContainsAny(url, patterns) <==> exists i :: 0 <= i < |patterns| && Contains(url, patterns[i])
  {
    if patterns != [] && !Contains(url, patterns[0]) {
      ContainsAnySpec(url, patterns[1..]);
      assert forall i :: 0 < i < |patterns| ==> patterns[i] == patterns[1..][i - 1];
    }
  }

  /** `_is_valid_crawl_url`. */
  predicate IsValidCrawlUrl(lib: UrlLib, url: string)
  {
    if !IsValidUrl(lib, url) then false
    else if EndsWithAny(Lower(lib.parse(url).value.path), ExcludedExtensions) then false
    else ContainsAny(IgnoreCase(url), UsefulUrlPatterns)
  }

  /**
   * A link is followed exactly when it is a valid URL, its lower-cased path
   * ends with no excluded extension, and some useful pattern occurs in it,
   * ignoring case.
   */
  lemma IsValidCrawlUrlSpec(lib: UrlLib, url: string)
    ensures !IsValidUrl(lib, url) ==> !IsValidCrawlUrl(lib, url)
    ensures IsValidUrl(lib, url) ==>
              (IsValidCrawlUrl(lib, url) <==>
                 && (forall i :: 0 <= i < |ExcludedExtensions| ==> !EndsWith(Lower(lib.parse(url).value.path), ExcludedExtensions[i]))
                 && (exists i :: 0 <= i < |UsefulUrlPatterns| && Contains(IgnoreCase(url), UsefulUrlPatterns[i])))
  {
    if IsValidUrl(lib, url) {
      EndsWithAnySpec(Lower(lib.parse(url).value.path), ExcludedExtensions);
      ContainsAnySpec(IgnoreCase(url), UsefulUrlPatterns);
    }
  }

  /** The long s `ſ` matches `s` when case is ignored, so `/poſt/` is the useful pattern `/post/`. */
  lemma LongSMatchesPost()
    ensures Contains(IgnoreCase("/po\U{17F}t/"), UsefulUrlPatterns[3])
  {
    assert IgnoreCase("/po\U{17F}t/") == "/post/";
  }

  /** A PDF is never followed, whatever its path says otherwise and however its extension is capitalised. */
  lemma PdfIsNotFollowed(lib: UrlLib, url: string)
    requires lib.parse(url).Some? && EndsWith(lib.parse(url).value.path, ".PDF")
    ensures !IsValidCrawlUrl(lib, url)
  {
    var low := Lower(lib.parse(url).value.path);
    LowerPdf(lib.parse(url).value.path);
    assert EndsWith(low, ExcludedExtensions[0]);
    EndsWithAnySpec(low, ExcludedExtensions);
  }

  lemma LowerPdf(path: string)
    requires EndsWith(path, ".PDF")
    ensures EndsWith(Lower(path), ".pdf")
  {
    var low := Lower(path);
    var n := |path|;
    assert path[n - 4..] == ".PDF";
    assert path[n - 4] == '.' && path[n - 3] == 'P' && path[n - 2] == 'D' && path[n - 1] == 'F';
    assert low[n - 4] == '.' && low[n - 3] == 'p' && low[n - 2] == 'd' && low[n - 1] == 'f';
    assert low[n - 4..] == ".pdf";
  }

  /** `_is_useful_content`: there is text, and at least `MIN_CONTENT_LENGTH` characters of it. */
  predicate IsUsefulContent(data: ExtractedContent)
  {
    data.content != "" && |data.content| >= MinContentLength
  }

  /** Useful content is content of at least 100 characters; the emptiness test is subsumed. */
  lemma IsUsefulContentSpec(data: ExtractedContent)
    ensures IsUsefulContent(data) <==> |data.content| >= 100
  {
  }

  // ------------------------------------------------------------ link extraction

  /** What one anchor `href` of the page at `baseUrl` contributes to `_extract_urls`: none or one link. */
  function LinkOf(lib: UrlLib, baseUrl: string, href: string): seq<string>
  {
    var full := lib.join(baseUrl, href);
    if IsValidCrawlUrl(lib, full) then [Normalized(lib, full)] else []
  }

  /** `LinkOf` for the page at `baseUrl`. */
  function Links(lib: UrlLib, baseUrl: string): string -> seq<string>
  {
    href => LinkOf(lib, baseUrl, href)
  }

  /** What `_extract_urls` returns for the anchors `hrefs` of the page at `baseUrl`. */
  function ExtractedUrls(lib: UrlLib, baseUrl: string, hrefs: seq<string>): seq<string>
  {
    FlatMap(hrefs, Links(lib, baseUrl))
  }

  /** No de-duplication: the links of two runs of anchors are the links of each, one after the other. */
  lemma ExtractedUrlsConcat(lib: UrlLib, baseUrl: string, a: seq<string>, b: seq<string>)
    ensures ExtractedUrls(lib, baseUrl, a + b) == ExtractedUrls(lib, baseUrl, a) + ExtractedUrls(lib, baseUrl, b)
  {
    FlatMapConcat(a, b, Links(lib, baseUrl));
  }

  /**
   * Every extracted link is the normalised form of an anchor whose joined
   * URL passes the crawl filter, and every such anchor contributes its
   * normalised form; there is at most one link per anchor.
   */
  lemma ExtractedUrlsSpec(lib: UrlLib, baseUrl: string, hrefs: seq<string>)
    ensures |ExtractedUrls(lib, baseUrl, hrefs)| <= |hrefs|
    ensures forall x :: x in ExtractedUrls(lib, baseUrl, hrefs) <==>
              exists h :: h in hrefs && IsValidCrawlUrl(lib, lib.join(baseUrl, h)) && x == Normalized(lib, lib.join(baseUrl, h))
  {
    var f := Links(lib, baseUrl);
    assert forall h :: |f(h)| <= 1 && forall x :: x in f(h) <==> IsValidCrawlUrl(lib, lib.join(baseUrl, h)) && x == Normalized(lib, lib.join(baseUrl, h));
    FlatMapLength(hrefs, f);
    forall x ensures x in ExtractedUrls(lib, baseUrl, hrefs) <==>
             exists h :: h in hrefs && IsValidCrawlUrl(lib, lib.join(baseUrl, h)) && x == Normalized(lib, lib.join(baseUrl, h))
    {
      FlatMapMembership(hrefs, f, x);
    }
  }

  // ------------------------------------------------------------------ crawler

  /** Why `crawl` stopped: the page limit, an empty queue, or a popped URL that is the empty string. */
  datatype StopReason = PageLimit | QueueEmpty | EmptyUrl

  /** What `_crawl_page` did with a URL: skipped it as crawled, fetched nothing, or processed the page `html`. */
  datatype PageOutcome = AlreadyCrawled | NoContent | Processed(html: string)

  class WebCrawler {
    const seedUrls: seq<string>
    const urlManager: UrlManager
    /** `urlparse`, the validation pattern and `urljoin`. */
    const lib: UrlLib
    /** BeautifulSoup's parse of a page, after `_clean_html`. */
    const parseHtml: string -> Document
    /** `self.content_processor.extract_content`; the constructor installs `ContentOf`, which `ExtractContent` computes. */
    const extractContent: (string, Document) -> Option<ExtractedContent>
    /** `self.crawled_count`. */
    var crawledCount: nat
    /** The content records handed to the database and the feed, in order. */
    var saved: seq<ExtractedContent>
    /** Every URL `crawl` has taken from the queue, in order. */
    ghost var popped: seq<string>

    ghost predicate Valid()
      reads this, urlManager
    {
      urlManager.Valid() && crawledCount <= MaxPages
    }

    /**
     * `WebCrawler(seed_urls)`. The URL manager it creates is connected to a
     * Redis whose queue and crawled set hold `queue` and `crawled`.
     */
    constructor (seedUrls: seq<string>, lib: UrlLib, parseHtml: string -> Document,
                 hash: string -> string, queue: map<string, int>, crawled: set<string>)
      ensures Valid() && fresh(urlManager)
      ensures this.seedUrls == seedUrls && this.lib == lib && this.parseHtml == parseHtml
      ensures forall u, d :: extractContent(u, d) == ContentOf(u, d)
      ensures urlManager.hash == hash && urlManager.queue == queue && urlManager.remoteCrawled == crawled
      ensures urlManager.crawledUrls == {}
      ensures crawledCount == 0 && saved == [] && popped == []
    {
      this.seedUrls := seedUrls;
      this.lib := lib;
      this.parseHtml := parseHtml;
      extractContent := ContentOf;
      urlManager := new UrlManager(hash, queue, crawled);
      crawledCount := 0;
      saved := [];
      popped := [];
    }

    /**
     * The loops of `__aenter__` and `_crawl_page`: `add_url(u, priority)` for
     * each URL `u` of `urls` in turn.
     */
    method OfferUrls(urls: seq<string>, priority: int)
      requires Valid()
      modifies urlManager
      ensures Valid()
      ensures urlManager.queue == Offered(old(urlManager.queue), old(urlManager.remoteCrawled), urlManager.hash, urls, priority)
      ensures urlManager.remoteCrawled == old(urlManager.remoteCrawled)
      ensures old(urlManager.crawledUrls) <= urlManager.crawledUrls
    {
      for i := 0 to |urls|
        invariant Valid()
        invariant urlManager.queue == Offered(old(urlManager.queue), old(urlManager.remoteCrawled), urlManager.hash, urls[..i], priority)
        invariant urlManager.remoteCrawled == old(urlManager.remoteCrawled)
        invariant old(urlManager.crawledUrls) <= urlManager.crawledUrls
      {
        assert urls[..i + 1][..i] == urls[..i];
        urlManager.AddUrl(urls[i], priority);
      }
      assert urls[..|urls|] == urls;
    }

    /** `__aenter__` without the HTTP session: every seed URL is offered with priority 10. */
    method Enter()
      requires Valid()
      modifies urlManager
      ensures Valid()
      ensures urlManager.queue == Offered(old(urlManager.queue), old(urlManager.remoteCrawled), urlManager.hash, seedUrls, 10)
      ensures urlManager.remoteCrawled == old(urlManager.remoteCrawled)
    {
      OfferUrls(seedUrls, 10);
    }

    /** `_extract_urls`: joins every anchor to the page URL and keeps the normalised form of those worth crawling. */
    method ExtractUrls(baseUrl: string, doc: Document) returns (urls: seq<string>)
      ensures urls == ExtractedUrls(lib, baseUrl, doc.hrefs)
    {
      urls := [];
      var hrefs := doc.hrefs;
      for i := 0 to |hrefs|
        invariant urls == ExtractedUrls(lib, baseUrl, hrefs[..i])
      {
        var fullUrl := lib.join(baseUrl, hrefs[i]);
        if IsValidCrawlUrl(lib, fullUrl) {
          var normalizedUrl := NormalizeUrl(lib, fullUrl);
          urls := urls + [normalizedUrl];
        }
        FlatMapStep(hrefs, i, Links(lib, baseUrl));
      }
      assert hrefs[..|hrefs|] == hrefs;
    }

    /**
     * `_crawl_page`: skips a crawled URL; otherwise fetches it, keeps its
     * content when useful, offers every extracted link to the queue and only
     * then marks the page crawled. A fetch that yields nothing leaves the
     * page uncrawled. The ghost result says which of these happened.
     */
    method CrawlPage(url: string) returns (ghost outcome: PageOutcome)
      requires Valid()
      modifies this, urlManager
      ensures Valid()
      ensures crawledCount == old(crawledCount) && popped == old(popped)
      ensures outcome == AlreadyCrawled <==> urlManager.hash(url) in old(urlManager.remoteCrawled)
      ensures !outcome.Processed? ==>
                && urlManager.queue == old(urlManager.queue)
                && urlManager.remoteCrawled == old(urlManager.remoteCrawled)
                && saved == old(saved)
      ensures outcome.Processed? ==>
                var doc := parseHtml(outcome.html);
                var data := extractContent(url, doc);
                && outcome.html != ""
                && urlManager.queue == Offered(old(urlManager.queue), old(urlManager.remoteCrawled), urlManager.hash,
                                               ExtractedUrls(lib, url, doc.hrefs), 1)
                && urlManager.remoteCrawled == old(urlManager.remoteCrawled) + {urlManager.hash(url)}
                && saved == old(saved) + (if data.Some? && IsUsefulContent(data.value) then [data.value] else [])
      ensures old(urlManager.crawledUrls) <= urlManager.crawledUrls
    {
      var crawled := urlManager.IsCrawled(url);
      if crawled {
        return AlreadyCrawled;
      }
      // `_fetch_page`: any page text, or nothing after an HTTP error, a timeout or a non-HTML response.
      var htmlContent: Option<string> :| true;
      if htmlContent.None? || htmlContent.value == "" {
        return NoContent;
      }
      var soup := parseHtml(htmlContent.value);
      var contentData := extractContent(url, soup);
      if contentData.Some? && IsUsefulContent(contentData.value) {
        saved := saved + [contentData.value];
      }
      var newUrls := ExtractUrls(url, soup);
      OfferUrls(newUrls, 1);
      urlManager.MarkCrawled(url);
      return Processed(htmlContent.value);
    }

    /**
     * `crawl`: takes URLs from the queue until `MAX_PAGES` pages are counted
     * or the queue yields nothing. Every iteration takes exactly one URL, and
     * every page processed, skipped or not, counts once.
     */
    method Crawl() returns (ghost stop: StopReason)
      requires Valid()
      modifies this, urlManager
      ensures Valid()
      ensures old(crawledCount) <= crawledCount <= MaxPages
      ensures stop == PageLimit <==> crawledCount == MaxPages
      ensures stop == QueueEmpty ==> urlManager.queue == map[]
      ensures stop == EmptyUrl ==> |popped| > 0 && popped[|popped| - 1] == ""
      ensures |popped| == |old(popped)| + (crawledCount - old(crawledCount)) + (if stop == EmptyUrl then 1 else 0)
      ensures popped[..|old(popped)|] == old(popped)
      ensures old(urlManager.remoteCrawled) <= urlManager.remoteCrawled
      ensures old(urlManager.crawledUrls) <= urlManager.crawledUrls
    {
      while crawledCount < MaxPages
        invariant Valid()
        invariant old(crawledCount) <= crawledCount
        invariant |popped| == |old(popped)| + (crawledCount - old(crawledCount))
        invariant popped[..|old(popped)|] == old(popped)
        invariant old(urlManager.remoteCrawled) <= urlManager.remoteCrawled
        invariant old(urlManager.crawledUrls) <= urlManager.crawledUrls
        decreases MaxPages - crawledCount
      {
        var url := urlManager.GetNextUrl();
        if url.None? {
          return QueueEmpty;
        }
        popped := popped + [url.value];
        if url.value == "" {
          return EmptyUrl;
        }
        ghost var outcome := CrawlPage(url.value);
        crawledCount := crawledCount + 1;
      }
      return PageLimit;
    }
  }
}
