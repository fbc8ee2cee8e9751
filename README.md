# Web crawler core, modelled in Dafny

The system is an asynchronous focused web crawler. It takes seed URLs, queues
them in a Redis priority queue, fetches HTML pages, extracts the main
article text and its metadata, saves pages that have enough content, and
queues the article-like links it finds. This project models the crawler's
core and proves properties of it:

- **URL helpers** (`UrlHelpers`, `url_helpers.dfy`): URL validation,
  normalisation (drop the fragment and tracking query items, strip trailing
  slashes), the domain helpers, the rule-based crawl filter and the
  robots.txt URL.
- **Text helpers** (`TextHelpers`, `text_helpers.dfy`): whitespace and
  character cleaning, truncation at a word boundary, and frequency-ranked
  keyword extraction.
- **robots.txt parsing** (`Robots`, `robots.dfy`): the line-by-line parser of
  allow, disallow, crawl-delay and sitemap rules.
- **URL frontier** (`Frontier`, `url_manager.dfy`): the class `UrlManager`
  over the Redis sorted set `crawl_queue`, the Redis set `crawled_urls` and
  the process-local cache of crawled hashes.
- **Content processor** (`ContentProcessing`, `content_processor.dfy`): how
  the main content, title, description, author and tags are picked from a
  parsed page, plus word count and reading time.
- **Crawler** (`Crawler`, `core_crawler.dfy`): the class `WebCrawler`, with
  the seed step, the page step (`_crawl_page`), link extraction, the crawl
  filter and the main loop bounded by `MAX_PAGES`.
- **Configuration and building blocks**: the configuration constants are in
  `config.dfy`. Python's string and list built-ins that the core relies on
  (`lower`, `strip`, `split`, `join`, `rstrip`, slicing, de-duplication by
  appending after a `not in` test) are in `strings.dfy` and `seqs.dfy`.

Library code the core calls is passed in as function-valued parameters and
fields, with nothing assumed about it beyond its type:

- `urlparse` (`None` where it raises), the `is_valid_url` regular expression
  and `urljoin` form `UrlLib`;
- `re.search` with user patterns; the `\w` character class; `re.findall`
  for words; `float()`;
- md5 (`_hash_url`);
- BeautifulSoup's parse of a page (`Document`: the texts of each selector's
  matches, the two meta descriptions, the anchors' `href`s).

The network is nondeterministic: a fetch may return any page or nothing.
`urlunparse` is written out as CPython defines it. `lower()` is modelled on
ASCII letters (`Strings.Lower`). Where the result is compared with the
robots.txt field names, the tracking keys or the excluded extensions this is
exact: those literals are ASCII and hold no `k`, and the only non-ASCII
characters whose `lower()` is a single ASCII letter are the KELVIN SIGN
(to `k`) and, in part, LATIN CAPITAL LETTER I WITH DOT ABOVE (to `i`
followed by a combining dot). `extract_keywords` searches the lower-cased
text for ASCII words, so there `lower()` is `Strings.LowerText`, which maps
those two characters as Python does. For the words that
`\b[a-zA-Z]{3,}\b` finds this is exact: every other character keeps
whether it is a word character when lower-cased, and none becomes an ASCII
letter. The `re.IGNORECASE` search for the
USEFUL_URL_PATTERNS is modelled by `Strings.IgnoreCase`, which also folds
the characters that `re` equates with ASCII letters (`ſ` with `s`, `ı` and
`İ` with `i`, the KELVIN SIGN with `k`).

The model follows the code, including these behaviours:

- `normalize_url` strips every trailing `/` of the whole rebuilt URL, a
  query value included. So `http://example.com/login?next=/` becomes
  `...?next=`, which `UrlHelpers.StripReachesQuery` proves.
- `crawl` counts a URL as crawled even when `_crawl_page` skipped it as
  already crawled.
- `_extract_title` returns the `<title>` text even when it is empty.
- `clean_text` collapses whitespace before it deletes the disallowed
  characters, so deleting a character between two spaces leaves two spaces
  side by side (`a ~ b` becomes `a  b`). `TextHelpers.CleanTextSpec`
  therefore states the words of the result, not single spacing.

## Model

| member | source | states |
|---|---|---|
| UrlHelpers.IsValidUrlRejects | utils/helpers.py:12-40 | an empty URL, one the pattern rejects, a non-http(s) scheme or an empty network location is invalid; a valid URL parses |
| UrlHelpers.NormalizeUrl | utils/helpers.py:43-70 | returns `Normalized`: the rebuilt URL without fragment and tracking items, trailing `/` stripped; an unparsable URL comes back unchanged |
| UrlHelpers.KeepQueryItems | utils/helpers.py:49-58 | the loop keeps exactly the query items that contain `=` and whose lower-cased key is not a tracking key, in order |
| UrlHelpers.NormalizePartsQuery | utils/helpers.py:49-64 | only fragment and query change; the fragment is empty; the new query is empty iff no item is kept, otherwise it splits back into the kept items; an item is kept iff it is in the old query and passes the filter; the kept items are a subsequence of the old ones |
| UrlHelpers.NormalizeKeepsCleanQuery | utils/helpers.py:49-64 | a query whose every item passes the filter is left unchanged |
| UrlHelpers.NormalizePartsIdempotent | utils/helpers.py:43-66 | normalising the components twice gives the same as once |
| UrlHelpers.NormalizedShape | utils/helpers.py:61-70 | on a parsed URL the result is the rebuilt URL minus only its trailing `/` characters, and does not end in `/`; an unparsable URL is returned as is |
| UrlHelpers.StripReachesQuery | utils/helpers.py:61-66 | for `http://example.com/login?next=/` the strip removes the `/` of the query value, leaving `...next=` |
| UrlHelpers.ExtractDomain | utils/helpers.py:73-79 | a domain exactly when parsing succeeds, as long as the network location (its lower-cased form) |
| UrlHelpers.IsSameDomainSpec | utils/helpers.py:102-106 | symmetric; true iff both URLs parse to non-empty network locations that are equal ignoring case |
| UrlHelpers.ValidUrlHasDomain | utils/helpers.py:12-40 | a valid URL has a non-empty domain and is on the same domain as itself |
| UrlHelpers.ShouldCrawlUrlRules | utils/helpers.py:109-136 | rejected if invalid, outside non-empty seed domains, matching a blocked pattern, or matching no pattern of a non-empty allow list; accepted in every other case |
| UrlHelpers.CreateRobotsTxtUrl | utils/helpers.py:257-261 | a URL exactly when parsing succeeds; it is `scheme://netloc` followed by `/robots.txt` |
| TextHelpers.CollapseSpacesSpec | utils/helpers.py:145 | every whitespace character left is a plain space; no two whitespace characters are adjacent; the visible characters are kept in order; the words under `split()` are unchanged |
| TextHelpers.CleanTextSpec | utils/helpers.py:139-150 | empty text gives empty; only word characters, whitespace and the kept punctuation survive; whitespace is plain spaces; no leading or trailing whitespace; the visible characters are exactly those of the input that are allowed, in order; the words under `split()` are those of the input with the disallowed characters deleted |
| TextHelpers.CleanTextWords | utils/helpers.py:144-150 | on non-empty text the words of the result are those of the input with the disallowed characters deleted |
| TextHelpers.FilterCollapseWords | utils/helpers.py:144-147 | deleting characters other than whitespace after collapsing the whitespace runs gives the same words as deleting them from the original text |
| TextHelpers.CleanTextChars | utils/helpers.py:145-150 | on non-empty text: allowed characters only, plain spaces only, stripped ends |
| TextHelpers.CleanTextVisible | utils/helpers.py:145-150 | on non-empty text the non-space characters are the allowed non-space characters of the input, in order |
| TextHelpers.CollapseKeepsVisible | utils/helpers.py:145 | collapsing whitespace runs keeps every non-space character in order |
| TextHelpers.StripKeepsVisible | utils/helpers.py:150 | stripping keeps every non-space character in order |
| TextHelpers.TruncateTextSpec | utils/helpers.py:207-219 | short or empty text is returned as is; otherwise the text is cut to `text[:max_length]`, which is `max_length` characters, or for a negative `max_length` all but the last `-max_length`; the result is a prefix of the text plus the suffix; the prefix lies within that cut, ends at its last space after position 0, or is the whole cut when there is no such space |
| TextHelpers.ExtractKeywords | utils/helpers.py:153-184 | the frequency loop and the ranking compute `Keywords` |
| TextHelpers.KeywordsOrder | utils/helpers.py:159-184 | keywords are distinct eligible words of the text lower-cased by `LowerText`, ordered by count descending, ties by first occurrence (the stable sort of first-insertion order) |
| TextHelpers.KeywordsSpec | utils/helpers.py:153-184 | at most `max_keywords`; on non-empty text exactly `min(max_keywords, number of distinct eligible words)`; no eligible word left out occurs more often than one kept |
| TextHelpers.RankByCountOrdered | utils/helpers.py:183 | the insertion sort of distinct words is ordered by count descending and stable |
| TextHelpers.InsertByCount | utils/helpers.py:183 | inserting keeps the multiset of words plus the new one |
| TextHelpers.RankByCount | utils/helpers.py:183 | the sort is a permutation of its input |
| TextHelpers.CountsOfStep | utils/helpers.py:177-180 | one more word adds one to that word's count when it is eligible and leaves the map alone otherwise |
| TextHelpers.TallyStep | utils/helpers.py:177-180 | the loop body, `word_freq.get(word, 0) + 1` plus first insertion order, keeps the counts and the insertion order of the words seen so far |
| TextHelpers.RankingFacts | utils/helpers.py:177-184 | the ranked words are the distinct eligible words, each mapped to its number of occurrences, ranked |
| TextHelpers.RankingPair | utils/helpers.py:183-184 | of two ranked positions the earlier has at least the later's count, and the earlier occurs first on ties |
| TextHelpers.PrefixIsTop | utils/helpers.py:184 | any prefix of the ranking holds the most frequent words: no word outside it is more frequent than one inside |
| Robots.Classify | utils/helpers.py:280-304 | a blank or comment line is ignored; otherwise the value is the stripped text after the first colon |
| Robots.Directives | utils/helpers.py:277-280 | one directive per line of non-empty content |
| Robots.ParseRobotsTxt | utils/helpers.py:264-306 | the loop computes `Rules`: the allowed, disallowed, crawl-delay and sitemap values of the group structure |
| Robots.EmptyContentHasNoRules | utils/helpers.py:273-274 | empty content gives the empty rules |
| Robots.StepFacts | utils/helpers.py:279-304 | one more line sets the group on a user-agent line; appends allow/disallow values only inside a matching group; appends sitemaps only outside one; replaces the delay only with a parsable value in a matching group |
| Robots.CollectMembership | utils/helpers.py:286-304 | a value is collected iff some line of that kind carries it and the lines before it put it in the right group |
| Robots.CollectShape | utils/helpers.py:289-304 | collected values are non-empty and at most one per line |
| Robots.LastDelayNone | utils/helpers.py:295-300 | no crawl delay iff no matching group has a parsable crawl-delay line |
| Robots.LastDelayIsLast | utils/helpers.py:295-300 | the crawl delay is the value of the last parsable crawl-delay line of a matching group |
| Robots.NoAgentOnlySitemaps | utils/helpers.py:276-304 | before any user-agent line nothing but sitemaps is recorded, and every non-empty sitemap is |
| Robots.IgnoredLineChangesNothing | utils/helpers.py:280-282 | inserting a blank or comment line anywhere changes neither the rules nor the current group |
| Robots.CommentIsIgnored | utils/helpers.py:281-282 | a line starting with `#` is ignored |
| Robots.SitemapInMatchingGroupIsDropped | utils/helpers.py:286-304 | a sitemap line inside a group for this agent or `*` is not recorded |
| Robots.StarGroupDropsSecondLine | utils/helpers.py:284-304 | after a `User-agent: *` line the next line never yields a sitemap |
| Robots.SitemapAfterStarGroupIsDropped | utils/helpers.py:284-304 | `User-agent: *` then `Sitemap: /s.xml` gives no sitemaps |
| Robots.AllSitemapsMembership | utils/helpers.py:301-304 | the intended sitemap list holds exactly the non-empty sitemap values of all lines |
| Robots.IntendedRulesKeepEverySitemap | utils/helpers.py:264-306 | the corrected parser records every non-empty sitemap, whatever the group, and keeps the same allow and disallow rules |
| Frontier.TopExists | crawler/url_manager.py:50-61 | a non-empty queue has an entry of highest score |
| Frontier.OfferedSpec | crawler/core_crawler.py:50-51 | after offering URLs, the queue holds the old entries plus every offered URL not crawled; those get the given priority; the rest keep their scores |
| Frontier.UrlManager.constructor | crawler/url_manager.py:14-16 | the Redis state is the given one and the local cache is empty |
| Frontier.UrlManager.IsCrawled | crawler/url_manager.py:71-84 | true iff the hash is in Redis's crawled set; a positive answer is cached locally; Redis is untouched |
| Frontier.UrlManager.AddUrl | crawler/url_manager.py:24-36 | a crawled URL changes nothing but the cache; any other URL gets its score set to the priority |
| Frontier.UrlManager.GetNextUrl | crawler/url_manager.py:50-61 | nothing iff the queue is empty; otherwise an entry of highest score, removed from the queue |
| Frontier.UrlManager.MarkCrawled | crawler/url_manager.py:63-69 | the hash is added to Redis's set and to the cache; the queue is unchanged |
| ContentProcessing.BySelectorsSpec | crawler/content_processor.py:88-94 | nothing iff no selector's first match is longer than 200; otherwise the first selector whose first match is |
| ContentProcessing.ExtractMainContent | crawler/content_processor.py:85-115 | the three strategies' loops compute `MainContent` |
| ContentProcessing.MainContentStrategies | crawler/content_processor.py:85-115 | the first long selector match wins; failing that, the paragraphs longer than 50 joined by spaces; failing those, the body text when longer than 200; any result is longer than 50 |
| ContentProcessing.ParagraphBlocks | crawler/content_processor.py:97-103 | the content blocks are exactly the paragraphs longer than 50, in document order |
| ContentProcessing.JoinLength | crawler/content_processor.py:106 | the joined blocks are at least as long as each block |
| ContentProcessing.FirstTextSpec | crawler/content_processor.py:121-126 | nothing iff no selector's first match has text; otherwise the first non-empty one |
| ContentProcessing.TitleSpec | crawler/content_processor.py:117-133 | the first title selector with text wins; otherwise the `<title>` text, even empty; nothing iff neither exists |
| ContentProcessing.AuthorSpec | crawler/content_processor.py:150-166 | nothing iff no author selector has text; otherwise the first non-empty one |
| ContentProcessing.DescriptionSpec | crawler/content_processor.py:135-148 | nothing iff neither meta tag has content; a meta description with content gives its stripped value; otherwise an `og:description` with content gives its stripped value; the result has no whitespace at either end; an all-space meta description gives the empty string |
| ContentProcessing.ExtractTags | crawler/content_processor.py:191-208 | the tag loops compute `Tags` |
| ContentProcessing.TagsSpec | crawler/content_processor.py:191-208 | the tags are the first `min(10, n)` of the `n` distinct non-empty tag texts in first-occurrence order: distinct, non-empty, from the tag selectors, in first-occurrence order, and none left out when there are at most 10 |
| ContentProcessing.ReadingTimeSpec | crawler/content_processor.py:50 | at least one minute; whole minutes at 200 words a minute, rounded down, for 200 words or more |
| ContentProcessing.ExtractContent | crawler/content_processor.py:29-66 | computes `ContentOf` |
| ContentProcessing.ContentOfSpec | crawler/content_processor.py:29-66 | a record iff main content exists; it carries the URL, that content, its word count, the reading time of that count (at least 1), the title, the description, the author and the tags of the page (at most 10) |
| Crawler.EndsWithAnySpec | crawler/core_crawler.py:164-166 | true iff the path ends with one of the extensions |
| Crawler.ContainsAnySpec | crawler/core_crawler.py:169-171 | true iff the URL contains one of the patterns |
| Crawler.IsValidCrawlUrlSpec | crawler/core_crawler.py:156-173 | an invalid URL is refused; a valid one is accepted iff its lower-cased path has no excluded extension and a useful pattern occurs in the URL ignoring case |
| Crawler.LongSMatchesPost | crawler/core_crawler.py:169-171 | `/poſt/` contains the pattern `/post/` when case is ignored |
| Crawler.PdfIsNotFollowed | crawler/core_crawler.py:164-166 | a URL whose path ends in `.PDF` is refused, whatever the case |
| Crawler.IsUsefulContentSpec | crawler/core_crawler.py:175-181 | useful iff the content is at least `MIN_CONTENT_LENGTH` (100) long |
| Crawler.ExtractedUrlsConcat | crawler/core_crawler.py:146-152 | extraction of two runs of anchors is the concatenation of their extractions |
| Crawler.ExtractedUrlsSpec | crawler/core_crawler.py:142-154 | at most one URL per anchor; a URL is extracted iff it is the normalised join of some anchor whose join passes the crawl filter |
| Crawler.WebCrawler.constructor | crawler/core_crawler.py:24-34 | the seeds, the libraries and the Redis state are stored; the content processor is `ContentOf`; counters and the saved list start empty |
| Crawler.WebCrawler.OfferUrls | crawler/core_crawler.py:115-116 | `add_url` over a list: the queue becomes `Offered` of the old queue |
| Crawler.WebCrawler.Enter | crawler/core_crawler.py:49-51 | every seed URL not crawled is queued with priority 10 |
| Crawler.WebCrawler.ExtractUrls | crawler/core_crawler.py:142-154 | the loop over the anchors computes `ExtractedUrls` |
| Crawler.WebCrawler.CrawlPage | crawler/core_crawler.py:83-122 | skipped iff already crawled; without a page nothing changes; with a page, the useful record is saved, the extracted links are queued with priority 1 and the URL is marked crawled |
| Crawler.WebCrawler.Crawl | crawler/core_crawler.py:60-81 | stops at `MAX_PAGES` pages, on an empty queue or on an empty URL; the count never passes `MAX_PAGES`; every URL popped, except a final empty one, is counted; the crawled set only grows |
| Strings.LowerSpec | utils/helpers.py:56 | same length; no ASCII capital is left; each capital becomes its small letter; every other character is kept; lower-casing twice is lower-casing once |
| Strings.LowerTextSpec | utils/helpers.py:159 | the lower-casing of `extract_keywords` is `Lower` on text without KELVIN SIGN or `İ`; it leaves no ASCII capital, KELVIN SIGN or `İ`; lower-casing twice is lower-casing once |
| Strings.KelvinLowersToK | utils/helpers.py:159 | `"\u212Aettle".lower()` is `"kettle"`, so the keyword `kettle` is found |
| Strings.DottedCapitalILowersToTwo | utils/helpers.py:159 | `"Xİab".lower()` is `x`, `i`, U+0307, `ab`: the combining mark ends the word before `ab` |
| Strings.IgnoreCaseSpec | crawler/core_crawler.py:170 | the folding agrees with `lower()` on ASCII, sends `ſ` to `s`, `ı` and `İ` to `i` and the KELVIN SIGN to `k`, changes no other non-ASCII character, and is idempotent |
| Strings.LStrip | utils/helpers.py:150 | drops exactly the leading whitespace |
| Strings.RStrip | utils/helpers.py:150 | drops exactly the trailing whitespace |
| Strings.RStripChar | utils/helpers.py:66 | drops exactly the trailing run of the character |
| Strings.Before | utils/helpers.py:54 | the text up to the first separator, which it does not contain |
| Strings.SplitOnceAt | utils/helpers.py:54 | splitting at the first separator gives the text before and after it |
| Strings.LastIndexOf | utils/helpers.py:214 | the last index of the character, or -1 |
| Strings.Split | utils/helpers.py:51 | at least one piece |
| Strings.SplitPiecesLackSeparator | utils/helpers.py:51 | no piece contains the separator |
| Strings.SplitJoin | utils/helpers.py:51-63 | joining pieces that lack the separator and splitting again gives the pieces back |
| Strings.JoinSplit | utils/helpers.py:51-63 | splitting and joining again gives the text back |
| Strings.WordsAreNonEmptyRuns | crawler/content_processor.py:49 | `str.split()` gives non-empty runs of non-space characters |
| Strings.WordsSplitAtSpaces | crawler/content_processor.py:49 | whitespace separates words: the words of `a`, whitespace, `b` are the words of `a` followed by those of `b` |
| Strings.WordsOfRun | crawler/content_processor.py:49 | a non-empty run without whitespace is a single word |
| Strings.WordsOfSpaces | crawler/content_processor.py:49 | a string of whitespace has no words |
| Strings.WordsSpaceCons | crawler/content_processor.py:49 | a leading whitespace character adds no word |
| Strings.WordsCharCons | crawler/content_processor.py:49 | a leading visible character joins the first word when that starts right after it, and is a word of its own otherwise |
| Strings.WordsStrip | utils/helpers.py:150 | `strip()` does not change the words |
| TextHelpers.WordsCoverVisible | crawler/content_processor.py:49 | the words, run together, are exactly the visible characters of the string, in order |
| Seqs.Prefix | utils/helpers.py:184 | Python's `[:n]`, negative `n` included: the prefix of the right length |
| Seqs.DedupFirstOccurrenceOrder | crawler/content_processor.py:201-206 | the de-duplicated list keeps the order of first occurrence |
| Seqs.DedupMembership | crawler/content_processor.py:201-206 | an element is kept iff it occurs and passes the test |
| Seqs.DedupDistinct | crawler/content_processor.py:205 | no element is kept twice |
| Seqs.FilterMembership | utils/helpers.py:52-58 | an element is kept iff it occurs and passes the test |
| Seqs.FilterIsSubsequence | utils/helpers.py:52-58 | the filtered list keeps the original order |

## Left out

- I/O is not modelled: HTTP sessions, timeouts and status and content-type checks (`_fetch_page` becomes "any page or none"). The same goes for logging and the `asyncio.sleep` of `DELAY_BETWEEN_REQUESTS`.
- Redis is modelled as the queue map and the crawled set. The `url_data` hash that `add_url` writes is left out: nothing reads it, and it holds an event-loop timestamp.
- Saving to the database and adding to the feed are one step, appending the record to `saved`. The database and the feed are not part of this model.
- Exceptions are not modelled: the model's `join`, page parse and content extraction are total, and Redis and the database do not fail. In the source `urljoin` raises `ValueError` on an `href` such as `http://[oops` (crawler/core_crawler.py:148). The handler at crawler/core_crawler.py:121-122 then catches it after the page was saved (104-111). So no link of that page is queued (115-116), the URL is not marked crawled (119), and `crawl` still counts it (72). That path is lost, and so is the handler at 77-78 for errors of `is_crawled`.
- `_clean_html`: the page is given after cleaning, as texts per selector and anchors. The structure of the HTML tree is not modelled.
- `_extract_publish_date` and `_parse_date` (dateutil), `flesch_reading_ease`, the `extracted_at` clock and `_hash_content` (md5) are left out of the record.
- `generate_content_hash`, `estimate_reading_time`, `is_content_duplicate` (floating-point similarity), `rate_limit_delay` (a constant table of floats) and `get_domain_info` (tldextract) are left out. They are outside the crawler core.
- Crawl delays are real numbers read by a given `float()`. Python's float formatting and rounding are not modelled.
- Frontier.UrlManager.GetNextUrl: returns some entry of highest score. ZPOPMAX's tie-break among equal scores is not modelled.
- UrlHelpers.IsValidUrl: the regular expression is a given predicate, so the model does not prove which host names it accepts.
- Strings.Lower: ASCII case mapping only; Python's full Unicode `lower()` is not modelled. For the robots.txt field names, the tracking keys and the excluded extensions this is exact (see above). It is not exact for the lower-cased network locations that `UrlHelpers.ExtractDomain` returns and `IsSameDomainSpec` compares: `lower()` maps every Unicode capital there, including KELVIN SIGN to `k`. `TextHelpers.Keywords` and `ExtractKeywords` use `Strings.LowerText` instead, which is exact for the ASCII words they search.
- Crawler.IsValidCrawlUrl: the case-insensitive pattern search folds the ASCII capitals and the four characters `ſ`, `ı`, `İ` and KELVIN SIGN. That is exact for patterns made of ASCII small letters and `/`, which all USEFUL_URL_PATTERNS are. Other patterns are not modelled.
- UrlHelpers.ExtractDomain: states the presence and length of the domain. Its value is `Lower` of the network location, and `IsSameDomainSpec` states that comparison.
- Crawler.WebCrawler.Crawl: states counts, stop reasons and the monotone crawled set. The queue contents after many pages are left to `CrawlPage`'s contract.
- The `main.py` entry point, the search engine, the indexer, the feed generator and the database layer are not part of this model.

## Findings

| source | as written | input that shows it | evidently intended | confidence | as-written member | corrected member |
|---|---|---|---|---|---|---|
| utils/helpers.py:286-304 | a `Sitemap:` line is recorded only in the `elif` that runs when the current group does not match the user agent, so sitemaps inside a matching or `*` group are dropped | `User-agent: *` followed by `Sitemap: /s.xml` yields no sitemap | `Sitemap` is a file-wide record, outside the groups, so every non-empty sitemap value is collected | not executed | Robots.SitemapAfterStarGroupIsDropped | Robots.IntendedRulesKeepEverySitemap |
