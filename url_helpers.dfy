/**
 * The URL helpers of the utility module: validation, normalisation, domain
 * extraction and comparison, the crawl rules, and the robots.txt location.
 *
 * A URL is handled as the six-part record that `urllib.parse.urlparse`
 * returns. Parsing, the validation regular expression and `urljoin` are not
 * re-implemented: a `UrlLib` value supplies them, so every property below
 * holds whatever those routines return.
 */
module UrlHelpers {
  import opened Wrappers
  import opened Seqs
  import opened Strings

  /** `urlparse`'s components: scheme, netloc, path, params, query, fragment. */
  datatype Url = Url(scheme: string, netloc: string, path: string, params: string,
                     query: string, fragment: string)

  /**
   * The library routines the helpers call.
   * `parse` is `urlparse` (`None` where it raises ValueError);
   * `matchesUrlPattern` is the case-insensitive pattern of `is_valid_url`
   * (an http or https prefix, a host name, `localhost` or a dotted IPv4
   * address, an optional port and a path without whitespace);
   * `join` is `urljoin(base, href)`.
   */
  datatype UrlLib = UrlLib(parse: string -> Option<Url>,
                           matchesUrlPattern: string -> bool,
                           join: (string, string) -> string)

  /** `is_valid_url`: non-empty, matches the pattern, http(s) scheme, a network location. */
  predicate IsValidUrl(lib: UrlLib, url: string)
  {
    && url != ""
    && lib.matchesUrlPattern(url)
    && match lib.parse(url)
       case None => false
       case Some(u) => (u.scheme == "http" || u.scheme == "https") && u.netloc != ""
  }

  lemma IsValidUrlRejects(lib: UrlLib, url: string)
    ensures url == "" ==> !IsValidUrl(lib, url)
    ensures !lib.matchesUrlPattern(url) ==> !IsValidUrl(lib, url)
    ensures lib.parse(url).Some? && lib.parse(url).value.scheme !in ["http", "https"] ==> !IsValidUrl(lib, url)
    ensures lib.parse(url).Some? && lib.parse(url).value.netloc == "" ==> !IsValidUrl(lib, url)
    ensures IsValidUrl(lib, url) ==> lib.parse(url).Some?
  {
  }

  /** Query keys that `normalize_url` treats as tracking parameters. */
  const TrackingParams: seq<string> :=
    ["utm_source", "utm_medium", "utm_campaign", "utm_term", "utm_content", "ref", "source"]

  /** `key`, lower-cased, is one of the tracking keys. */
  predicate IsTrackingKey(key: string)
  {
    Among(Lower(key), TrackingParams)
  }

  /** A query item survives normalisation when it has a `=` and its key is not a tracking key. */
  predicate KeepParam(param: string)
  {
    '=' in param && !IsTrackingKey(Before(param, '='))
  }

  /** The query items `normalize_url` keeps, in their original order. */
  function KeptParams(u: Url): seq<string>
  {
    if u.query != "" then Filter(Split(u.query, '&'), KeepParam) else []
  }

  /** The components `normalize_url` hands to `urlunparse`: no fragment, the kept query items. */
  function NormalizeParts(u: Url): Url
  {
    var kept := KeptParams(u);
    u.(fragment := "", query := if kept != [] then Join(kept, '&') else "")
  }

  /** Schemes for which `urlunsplit` writes `//` even without a network location. */
  const UsesNetloc: seq<string> :=
    ["", "ftp", "http", "gopher", "nntp", "telnet", "imap", "wais", "file", "mms", "https",
     "shttp", "snews", "prospero", "rtsp", "rtspu", "rsync", "svn", "svn+ssh", "sftp", "nfs",
     "git", "git+ssh", "ws", "wss"]

  /** `urlunparse`: params after `;`, `//netloc`, `scheme:`, `?query`, `#fragment`. */
  function Unparse(u: Url): string
  {
    var path := if u.params != "" then u.path + ";" + u.params else u.path;
    var hier := if u.netloc != "" || (u.scheme != "" && Among(u.scheme, UsesNetloc) && Prefix(path, 2) != "//")
                then "//" + u.netloc + (if path != "" && path[0] != '/' then "/" + path else path)
                else path;
    var withScheme := if u.scheme != "" then u.scheme + ":" + hier else hier;
    var withQuery := if u.query != "" then withScheme + "?" + u.query else withScheme;
    if u.fragment != "" then withQuery + "#" + u.fragment else withQuery
  }

  /** What `normalize_url` returns; a URL that `urlparse` rejects comes back unchanged. */
  function Normalized(lib: UrlLib, url: string): string
  {
    match lib.parse(url)
    case None => url
    case Some(u) => RStripChar(Unparse(NormalizeParts(u)), '/')
  }

  /** `normalize_url`; the loop over the `&`-separated query items is `KeepQueryItems`. */
  method NormalizeUrl(lib: UrlLib, url: string) returns (normalized: string)
    ensures normalized == Normalized(lib, url)
  {
    var parsed := lib.parse(url);
    if parsed.None? {
      return url;
    }
    var u := parsed.value;
    var queryParams: seq<string> := [];
    if u.query != "" {
      queryParams := KeepQueryItems(Split(u.query, '&'));
    }
    var parts := u.(fragment := "", query := if queryParams != [] then Join(queryParams, '&') else "");
    assert parts == NormalizeParts(u);
    normalized := RStripChar(Unparse(parts), '/');
  }

  /** The loop of `normalize_url`: the items with a `=` and a non-tracking key, in order. */
  method KeepQueryItems(params: seq<string>) returns (queryParams: seq<string>)
    ensures queryParams == Filter(params, KeepParam)
  {
    queryParams := [];
    var i := 0;
    while i < |params|
      invariant 0 <= i <= |params|
      invariant queryParams == Filter(params[..i], KeepParam)
    {
      var param := params[i];
      var keep := false;
      if '=' in param {
        var key := Before(param, '=');
        keep := !IsTrackingKey(key);
      }
      if keep {
        queryParams := queryParams + [param];
      }
      FilterStep(params, i, KeepParam);
      i := i + 1;
    }
    assert params[..i] == params;
  }

  /**
   * Normalisation empties the fragment, leaves scheme, netloc, path and params
   * alone, and keeps exactly the query items that have a `=` and a
   * non-tracking key, verbatim and in their original order.
   */
  lemma {:induction false} NormalizePartsQuery(u: Url)
    ensures NormalizeParts(u).fragment == ""
    ensures NormalizeParts(u) == u.(fragment := "", query := NormalizeParts(u).query)
    ensures NormalizeParts(u).query == "" <==> KeptParams(u) == []
    ensures NormalizeParts(u).query != "" ==> Split(NormalizeParts(u).query, '&') == KeptParams(u)
    ensures forall p :: p in KeptParams(u) <==> u.query != "" && p in Split(u.query, '&') && KeepParam(p)
    ensures u.query != "" ==> IsSubsequence(KeptParams(u), Split(u.query, '&'))
  {
    var kept := KeptParams(u);
    if u.query != "" {
      var items := Split(u.query, '&');
      forall p ensures p in kept <==> p in items && KeepParam(p) {
        FilterMembership(items, KeepParam, p);
      }
      FilterIsSubsequence(items, KeepParam);
      if kept != [] {
        SplitPiecesLackSeparator(u.query, '&');
        SplitJoin(kept, '&');
        assert kept[0] in kept;
        assert '=' in kept[0];
        assert Join(kept, '&') != "" by { JoinNonEmpty(kept, '&'); }
      }
    }
  }

  lemma {:induction false} JoinNonEmpty(parts: seq<string>, sep: char)
    requires |parts| >= 1 && parts[0] != ""
    ensures Join(parts, sep) != ""
  {
  }

  /** A query made only of kept items comes through normalisation unchanged. */
  lemma {:induction false} NormalizeKeepsCleanQuery(u: Url)
    requires forall p :: p in Split(u.query, '&') ==> KeepParam(p)
    ensures NormalizeParts(u).query == u.query
  {
    if u.query != "" {
      var items := Split(u.query, '&');
      FilterAll(items, KeepParam);
      JoinSplit(u.query, '&');
    }
  }

  /** Normalising the components a second time changes nothing. */
  lemma {:induction false} NormalizePartsIdempotent(u: Url)
    ensures NormalizeParts(NormalizeParts(u)) == NormalizeParts(u)
  {
    var n := NormalizeParts(u);
    NormalizePartsQuery(u);
    if n.query != "" {
      forall p | p in Split(n.query, '&') ensures KeepParam(p) {
        assert p in KeptParams(u);
      }
      NormalizeKeepsCleanQuery(n);
    }
  }

  /**
   * `normalize_url` returns its input when `urlparse` fails, and otherwise the
   * re-assembled URL with every trailing `/` removed, so it never ends in `/`.
   */
  lemma NormalizedShape(lib: UrlLib, url: string)
    ensures lib.parse(url).None? ==> Normalized(lib, url) == url
    ensures lib.parse(url).Some? ==>
              var full := Unparse(NormalizeParts(lib.parse(url).value));
              var r := Normalized(lib, url);
              && (r == [] || r[|r| - 1] != '/')
              && r == full[..|r|]
              && forall i :: |r| <= i < |full| ==> full[i] == '/'
  {
    match lib.parse(url)
    case None =>
    case Some(u) =>
      var full := Unparse(NormalizeParts(u));
      var r := RStripChar(full, '/');
      assert Normalized(lib, url) == r;
  }

  /** The trailing-slash strip runs on the whole URL, so it also shortens a query that ends in `/`. */
  lemma StripReachesQuery(lib: UrlLib, url: string)
    requires url == "http" + "://" + "example.com" + "/login" + "?" + "next=/"
    requires lib.parse(url) == Some(Url("http", "example.com", "/login", "", "next=/", ""))
    ensures Normalized(lib, url) == url[..|url| - 1]
    ensures Normalized(lib, url)[|url| - 2] == '='
  {
    var u := lib.parse(url).value;
    ExampleQueryKept();
    assert Join(["next=/"], '&') == "next=/";
    assert NormalizeParts(u) == u;
    UnparseWithHost(u);
    EndsWithEqualsSlash(url, "http" + "://" + "example.com" + "/login" + "?", "next=/");
    StripOneSlash(url);
  }

  lemma EndsWithEqualsSlash(url: string, front: string, query: string)
    requires query == "next=/" && url == front + query
    ensures |url| >= 2 && url[|url| - 1] == '/' && url[|url| - 2] == '='
  {
    assert url[|url| - 1] == query[5];
    assert url[|url| - 2] == query[4];
  }

  /** A single trailing `/` after some other character is all that `rstrip('/')` removes. */
  lemma StripOneSlash(s: string)
    requires |s| >= 2 && s[|s| - 1] == '/' && s[|s| - 2] != '/'
    ensures RStripChar(s, '/') == s[..|s| - 1]
  {
    var t := s[..|s| - 1];
    assert t[|t| - 1] == s[|s| - 2];
  }

  lemma ExampleQueryKept()
    ensures KeptParams(Url("http", "example.com", "/login", "", "next=/", "")) == ["next=/"]
  {
    var item := "next=/";
    assert Split(item, '&') == [item] by { SplitWithoutSeparator(item, '&'); }
    NextIsKept(item);
    assert Filter([item], KeepParam) == [item];
  }

  lemma NextIsKept(item: string)
    requires item == "next=/"
    ensures KeepParam(item)
  {
    assert '=' !in item[..4];
    SplitOnceAt(item, '=', 4);
    NextIsNotTracking(item[..4]);
  }

  lemma NextIsNotTracking(key: string)
    requires key == "next"
    ensures !IsTrackingKey(key)
  {
    assert Lower(key) == key;
    AmongIsIn(key, TrackingParams);
    forall t | t in TrackingParams ensures t != key {
      assert t[0] != 'n';
    }
  }

  /** A URL with a scheme, a host, an absolute path and a query, and neither params nor fragment. */
  lemma UnparseWithHost(u: Url)
    requires u.scheme != "" && u.netloc != "" && u.params == "" && u.query != "" && u.fragment == ""
    requires u.path == "" || u.path[0] == '/'
    ensures Unparse(u) == u.scheme + "://" + u.netloc + u.path + "?" + u.query
  {
  }

  /** `extract_domain`: the lower-cased network location, or `None` when parsing fails. */
  function ExtractDomain(lib: UrlLib, url: string): (d: Option<string>)
    ensures d.Some? <==> lib.parse(url).Some?
    ensures d.Some? ==> |d.value| == |lib.parse(url).value.netloc|
  {
    match lib.parse(url)
    case None => None
    case Some(u) => Some(Lower(u.netloc))
  }

  /** `is_same_domain`: both domains present and non-empty, and equal. */
  predicate IsSameDomain(lib: UrlLib, url1: string, url2: string)
  {
    var d1 := ExtractDomain(lib, url1);
    var d2 := ExtractDomain(lib, url2);
    if d1.Some? && d1.value != "" && d2.Some? && d2.value != "" then d1 == d2 else false
  }

  /** Same-domain is symmetric; it fails on an empty network location and otherwise compares lower-cased hosts. */
  lemma IsSameDomainSpec(lib: UrlLib, url1: string, url2: string)
    ensures IsSameDomain(lib, url1, url2) == IsSameDomain(lib, url2, url1)
    ensures IsSameDomain(lib, url1, url2) <==>
              && lib.parse(url1).Some? && lib.parse(url2).Some?
              && lib.parse(url1).value.netloc != "" && lib.parse(url2).value.netloc != ""
              && Lower(lib.parse(url1).value.netloc) == Lower(lib.parse(url2).value.netloc)
  {
  }

  /** A valid URL is in its own domain. */
  lemma ValidUrlHasDomain(lib: UrlLib, url: string)
    requires IsValidUrl(lib, url)
    ensures ExtractDomain(lib, url).Some? && ExtractDomain(lib, url).value != ""
    ensures IsSameDomain(lib, url, url)
  {
  }

  /** Some pattern of `patterns` is found by `search` in `url` (the loops of `should_crawl_url`). */
  predicate AnyMatch(patterns: seq<string>, url: string, search: (string, string) -> bool)
  {
    exists i :: 0 <= i < |patterns| && search(patterns[i], url)
  }

  /**
   * `should_crawl_url`; an absent seed set or pattern list is the empty one,
   * and `search(pattern, url)` is `re.search(pattern, url, re.IGNORECASE)`.
   */
  predicate ShouldCrawlUrl(lib: UrlLib, url: string, seedDomains: set<string>,
                           allowedPatterns: seq<string>, blockedPatterns: seq<string>,
                           search: (string, string) -> bool)
  {
    if !IsValidUrl(lib, url) then false
    else if seedDomains != {} && (ExtractDomain(lib, url).None? || ExtractDomain(lib, url).value !in seedDomains) then false
    else if AnyMatch(blockedPatterns, url, search) then false
    else if allowedPatterns != [] then AnyMatch(allowedPatterns, url, search)
    else true
  }

  lemma ShouldCrawlUrlRules(lib: UrlLib, url: string, seedDomains: set<string>,
                            allowedPatterns: seq<string>, blockedPatterns: seq<string>,
                            search: (string, string) -> bool)
    ensures !IsValidUrl(lib, url) ==> !ShouldCrawlUrl(lib, url, seedDomains, allowedPatterns, blockedPatterns, search)
    ensures seedDomains != {} && IsValidUrl(lib, url) && Lower(lib.parse(url).value.netloc) !in seedDomains
            ==> !ShouldCrawlUrl(lib, url, seedDomains, allowedPatterns, blockedPatterns, search)
    ensures (exists i :: 0 <= i < |blockedPatterns| && search(blockedPatterns[i], url))
            ==> !ShouldCrawlUrl(lib, url, seedDomains, allowedPatterns, blockedPatterns, search)
    ensures allowedPatterns != [] && (forall i :: 0 <= i < |allowedPatterns| ==> !search(allowedPatterns[i], url))
            ==> !ShouldCrawlUrl(lib, url, seedDomains, allowedPatterns, blockedPatterns, search)
    ensures && IsValidUrl(lib, url)
            && (seedDomains == {} || Lower(lib.parse(url).value.netloc) in seedDomains)
            && (forall i :: 0 <= i < |blockedPatterns| ==> !search(blockedPatterns[i], url))
            && (allowedPatterns == [] || exists i :: 0 <= i < |allowedPatterns| && search(allowedPatterns[i], url))
            ==> ShouldCrawlUrl(lib, url, seedDomains, allowedPatterns, blockedPatterns, search)
  {
  }

  /** `create_robots_txt_url`: `scheme://netloc/robots.txt`; `None` stands for the ValueError of `urlparse`. */
  function CreateRobotsTxtUrl(lib: UrlLib, baseUrl: string): (r: Option<string>)
    ensures r.Some? <==> lib.parse(baseUrl).Some?
    ensures r.Some? ==> var u := lib.parse(baseUrl).value;
                        StartsWith(r.value, u.scheme + "://" + u.netloc) && EndsWith(r.value, "/robots.txt")
                        && |r.value| == |u.scheme| + |u.netloc| + 14
  {
    match lib.parse(baseUrl)
    case None => None
    case Some(u) => Some(u.scheme + "://" + u.netloc + "/robots.txt")
  }
}
