/**
 * `ContentProcessor` of the crawler package: picks the main text, the title,
 * the description, the author and the tags of a parsed page.
 *
 * The parsed page is abstract. For every CSS selector the processor uses,
 * `texts` gives `get_text(strip=True)` of each element the selector matches,
 * in document order, after `_clean_html` has removed scripts, navigation,
 * comments and advertisements; `select_one` is the first of these and
 * `find_all` all of them.
 */
module ContentProcessing {
  import opened Wrappers
  import opened Seqs
  import opened Strings

  /**
   * A parsed, cleaned page. `metaDescription` and `ogDescription` are the
   * `content` attribute of the first `<meta name="description">` and of the
   * first `<meta property="og:description">` (`None` when the tag or the
   * attribute is missing); `hrefs` are the `href` values of the anchors.
   */
  datatype Document = Document(
    texts: string -> seq<string>,
    metaDescription: Option<string>,
    ogDescription: Option<string>,
    hrefs: seq<string>)

  /** The record `extract_content` returns, without its float, clock and hash fields. */
  datatype ExtractedContent = ExtractedContent(
    url: string,
    title: Option<string>,
    description: Option<string>,
    content: string,
    author: Option<string>,
    tags: seq<string>,
    wordCount: nat,
    readingTime: nat)

  const ContentSelectors: seq<string> :=
    ["article", "[role=\"main\"]", ".content", "#content", ".post-content", ".entry-content", ".article-body"]

  const TitleSelectors: seq<string> :=
    ["h1", ".title", ".post-title", ".article-title", ".entry-title", "[property=\"og:title\"]"]

  const AuthorSelectors: seq<string> :=
    ["[rel=\"author\"]", ".author", ".byline", "[property=\"article:author\"]", ".post-author"]

  const TagSelectors: seq<string> :=
    [".tags a", ".categories a", ".tag", "[property=\"article:tag\"]"]

  /** Selector and body text must be longer than this to count as main content. */
  const MinMainLength: nat := 200

  /** Paragraphs of at most this length are not content blocks. */
  const MinParagraphLength: nat := 50

  /** At most this many tags are kept. */
  const MaxTags: nat := 10

  /** Words per minute of the reading-time estimate. */
  const WordsPerMinute: nat := 200

  /** `soup.select_one(selector).get_text(strip=True)`, `None` when nothing matches. */
  function SelectOne(doc: Document, selector: string): (r: Option<string>)
    ensures r.Some? <==> doc.texts(selector) != []
    ensures r.Some? ==> r.value == doc.texts(selector)[0]
  {
    if doc.texts(selector) == [] then None else Some(doc.texts(selector)[0])
  }

  // -------------------------------------------------------------- main content

  /** The first match of `selectors[i]` exists and is longer than 200 characters. */
  predicate LongAt(doc: Document, selectors: seq<string>, i: int)
  {
    0 <= i < |selectors| && SelectOne(doc, selectors[i]).Some? && |SelectOne(doc, selectors[i]).value| > MinMainLength
  }

  lemma LongAtShift(doc: Document, selectors: seq<string>)
    requires selectors != []
    ensures forall k :: LongAt(doc, selectors[1..], k) ==> LongAt(doc, selectors, k + 1)
    ensures forall i :: 0 < i < |selectors| ==> LongAt(doc, selectors, i) == LongAt(doc, selectors[1..], i - 1)
  {
  }

  /** Strategy 1: the text of the first selector whose first match is long enough. */
  function BySelectors(doc: Document, selectors: seq<string>): Option<string>
  {
    if selectors == [] then None
    else if LongAt(doc, selectors, 0) then SelectOne(doc, selectors[0])
    else BySelectors(doc, selectors[1..])
  }

  /** Strategy 1 finds nothing exactly when no selector is long enough, and otherwise the first long one. */
  lemma {:induction false} BySelectorsSpec(doc: Document, selectors: seq<string>)
    ensures var r := BySelectors(doc, selectors);
            && (r.None? <==> forall i :: 0 <= i < |selectors| ==> !LongAt(doc, selectors, i))
            && (r.Some? ==> exists i :: && LongAt(doc, selectors, i)
                                        && r == SelectOne(doc, selectors[i])
                                        && forall j :: 0 <= j < i ==> !LongAt(doc, selectors, j))
  {
    if selectors != [] && !LongAt(doc, selectors, 0) {
      BySelectorsSpec(doc, selectors[1..]);
      LongAtShift(doc, selectors);
      var r := BySelectors(doc, selectors);
      if r.Some? {
        var k :| && LongAt(doc, selectors[1..], k)
                 && r == SelectOne(doc, selectors[1..][k])
                 && forall j :: 0 <= j < k ==> !LongAt(doc, selectors[1..], j);
        assert LongAt(doc, selectors, k + 1);
      }
    }
  }

  predicate IsBlock(text: string)
  {
    |text| > MinParagraphLength
  }

  /** The first `<body>`'s text when it is long enough. */
  function ByBody(doc: Document): Option<string>
  {
    var body := SelectOne(doc, "body");
    if body.Some? && |body.value| > MinMainLength then body else None
  }

  /** What `_extract_main_content` returns: selectors first, then the paragraphs, then the body. */
  function MainContent(doc: Document): Option<string>
  {
    var bySelectors := BySelectors(doc, ContentSelectors);
    var blocks := Filter(doc.texts("p"), IsBlock);
    if bySelectors.Some? then bySelectors
    else if doc.texts("p") != [] && blocks != [] then Some(Join(blocks, ' '))
    else ByBody(doc)
  }

  lemma {:induction false} BySelectorsFrom(doc: Document, selectors: seq<string>, i: nat)
    requires i < |selectors|
    ensures BySelectors(doc, selectors[i..]) ==
            if LongAt(doc, selectors, i) then SelectOne(doc, selectors[i]) else BySelectors(doc, selectors[i + 1..])
  {
    assert selectors[i..][1..] == selectors[i + 1..];
    assert LongAt(doc, selectors, i) == LongAt(doc, selectors[i..], 0);
  }

  /** `_extract_main_content`, with its loops over the selectors and over the paragraphs. */
  method ExtractMainContent(doc: Document) returns (content: Option<string>)
    ensures content == MainContent(doc)
  {
    for i := 0 to |ContentSelectors|
      invariant BySelectors(doc, ContentSelectors) == BySelectors(doc, ContentSelectors[i..])
    {
      BySelectorsFrom(doc, ContentSelectors, i);
      var contentElem := SelectOne(doc, ContentSelectors[i]);
      if contentElem.Some? {
        var text := contentElem.value;
        if |text| > MinMainLength {
          return Some(text);
        }
      }
    }
    assert ContentSelectors[|ContentSelectors|..] == [];
    var allParagraphs := doc.texts("p");
    if allParagraphs != [] {
      var contentBlocks: seq<string> := [];
      for i := 0 to |allParagraphs|
        invariant contentBlocks == Filter(allParagraphs[..i], IsBlock)
      {
        var text := allParagraphs[i];
        if |text| > MinParagraphLength {
          contentBlocks := contentBlocks + [text];
        }
        FilterConcat(allParagraphs[..i], [text], IsBlock);
        TakeNext(allParagraphs, i);
      }
      assert allParagraphs[..|allParagraphs|] == allParagraphs;
      if contentBlocks != [] {
        return Some(Join(contentBlocks, ' '));
      }
    }
    var body := SelectOne(doc, "body");
    if body.Some? {
      var text := body.value;
      if |text| > MinMainLength {
        return Some(text);
      }
    }
    return None;
  }

  lemma {:induction false} JoinLength(parts: seq<string>, sep: char)
    requires parts != []
    ensures |Join(parts, sep)| >= |parts[0]|
    ensures forall p :: p in parts ==> |Join(parts, sep)| >= |p|
  {
    if |parts| > 1 {
      JoinLength(parts[1..], sep);
      forall p | p in parts ensures |Join(parts, sep)| >= |p| {
        if p != parts[0] {
          assert p in parts[1..];
        }
      }
    }
  }

  /**
   * The strategies in order. The first selector whose first match is longer
   * than 200 characters wins; failing that, the paragraphs longer than 50
   * characters, joined by single spaces, when there is at least one; failing
   * that, the body text when it is longer than 200 characters; else nothing.
   * Whatever is returned is longer than 50 characters, so it is never empty.
   */
  lemma MainContentStrategies(doc: Document)
    ensures var r := MainContent(doc);
            var blocks := Filter(doc.texts("p"), IsBlock);
            && (forall i :: 0 <= i < |ContentSelectors| && LongAt(doc, ContentSelectors, i) &&
                  (forall j :: 0 <= j < i ==> !LongAt(doc, ContentSelectors, j))
                  ==> r == SelectOne(doc, ContentSelectors[i]))
            && ((forall i :: 0 <= i < |ContentSelectors| ==> !LongAt(doc, ContentSelectors, i)) ==>
                  if blocks != [] then r == Some(Join(blocks, ' '))
                  else r == ByBody(doc))
            && (r.Some? ==> |r.value| > MinParagraphLength)
  {
    var r := MainContent(doc);
    var blocks := Filter(doc.texts("p"), IsBlock);
    var bySelectors := BySelectors(doc, ContentSelectors);
    BySelectorsSpec(doc, ContentSelectors);
    if bySelectors.None? && blocks != [] {
      assert doc.texts("p") != [];
      JoinLength(blocks, ' ');
      assert blocks[0] in blocks;
    }
    forall i | 0 <= i < |ContentSelectors| && LongAt(doc, ContentSelectors, i) &&
               (forall j :: 0 <= j < i ==> !LongAt(doc, ContentSelectors, j))
      ensures r == SelectOne(doc, ContentSelectors[i])
    {
      var k :| && LongAt(doc, ContentSelectors, k)
               && bySelectors == SelectOne(doc, ContentSelectors[k])
               && forall j :: 0 <= j < k ==> !LongAt(doc, ContentSelectors, j);
      assert k == i;
    }
  }

  /** The paragraph strategy keeps exactly the long paragraphs, in document order. */
  lemma ParagraphBlocks(doc: Document)
    ensures var blocks := Filter(doc.texts("p"), IsBlock);
            && (forall b :: b in blocks <==> b in doc.texts("p") && |b| > MinParagraphLength)
            && IsSubsequence(blocks, doc.texts("p"))
  {
    var ps := doc.texts("p");
    forall b ensures b in Filter(ps, IsBlock) <==> b in ps && IsBlock(b) {
      FilterMembership(ps, IsBlock, b);
    }
    FilterIsSubsequence(ps, IsBlock);
  }

  // --------------------------------------------------------- title and author

  /** The first match of `selectors[i]` exists and has text. */
  predicate TextAt(doc: Document, selectors: seq<string>, i: int)
  {
    0 <= i < |selectors| && SelectOne(doc, selectors[i]).Some? && SelectOne(doc, selectors[i]).value != ""
  }

  lemma TextAtShift(doc: Document, selectors: seq<string>)
    requires selectors != []
    ensures forall k :: TextAt(doc, selectors[1..], k) ==> TextAt(doc, selectors, k + 1)
    ensures forall i :: 0 < i < |selectors| ==> TextAt(doc, selectors, i) == TextAt(doc, selectors[1..], i - 1)
  {
  }

  /** The loops of `_extract_title` and `_extract_author`: the first selector whose first match has text. */
  function FirstText(doc: Document, selectors: seq<string>): Option<string>
  {
    if selectors == [] then None
    else if TextAt(doc, selectors, 0) then SelectOne(doc, selectors[0])
    else FirstText(doc, selectors[1..])
  }

  /** Nothing exactly when no selector's first match has text; otherwise the text of the first that has. */
  lemma {:induction false} FirstTextSpec(doc: Document, selectors: seq<string>)
    ensures var r := FirstText(doc, selectors);
            && (r.None? <==> forall i :: 0 <= i < |selectors| ==> !TextAt(doc, selectors, i))
            && (r.Some? ==> r.value != "" &&
                            exists i :: && TextAt(doc, selectors, i)
                                        && r == SelectOne(doc, selectors[i])
                                        && forall j :: 0 <= j < i ==> !TextAt(doc, selectors, j))
  {
    if selectors != [] && !TextAt(doc, selectors, 0) {
      FirstTextSpec(doc, selectors[1..]);
      TextAtShift(doc, selectors);
      var r := FirstText(doc, selectors);
      if r.Some? {
        var k :| && TextAt(doc, selectors[1..], k)
                 && r == SelectOne(doc, selectors[1..][k])
                 && forall j :: 0 <= j < k ==> !TextAt(doc, selectors[1..], j);
        assert TextAt(doc, selectors, k + 1);
      }
    }
  }

  /** `_extract_title`: the first title selector with text, else the `<title>` text (even an empty one), else nothing. */
  function Title(doc: Document): Option<string>
  {
    var bySelector := FirstText(doc, TitleSelectors);
    if bySelector.Some? then bySelector else SelectOne(doc, "title")
  }

  /**
   * No title exactly when no title selector has text and there is no
   * `<title>`; the first title selector with text wins; otherwise the first
   * `<title>` text, even an empty one.
   */
  lemma TitleSpec(doc: Document)
    ensures var r := Title(doc);
            && (r.None? <==> (forall i :: 0 <= i < |TitleSelectors| ==> !TextAt(doc, TitleSelectors, i))
                             && doc.texts("title") == [])
            && ((exists i :: 0 <= i < |TitleSelectors| && TextAt(doc, TitleSelectors, i)) ==>
                  r.Some? && r.value != "" &&
                  exists i :: && TextAt(doc, TitleSelectors, i)
                              && r == SelectOne(doc, TitleSelectors[i])
                              && forall j :: 0 <= j < i ==> !TextAt(doc, TitleSelectors, j))
            && ((forall i :: 0 <= i < |TitleSelectors| ==> !TextAt(doc, TitleSelectors, i)) && doc.texts("title") != [] ==>
                  r == Some(doc.texts("title")[0]))
  {
    FirstTextSpec(doc, TitleSelectors);
  }

  /** `_extract_author`: the first author selector with text. */
  function Author(doc: Document): Option<string>
  {
    FirstText(doc, AuthorSelectors)
  }

  /** No author exactly when no author selector has text; otherwise the text of the first that has. */
  lemma AuthorSpec(doc: Document)
    ensures var r := Author(doc);
            && (r.None? <==> forall i :: 0 <= i < |AuthorSelectors| ==> !TextAt(doc, AuthorSelectors, i))
            && (r.Some? ==> r.value != "" &&
                            exists i :: && TextAt(doc, AuthorSelectors, i)
                                        && r == SelectOne(doc, AuthorSelectors[i])
                                        && forall j :: 0 <= j < i ==> !TextAt(doc, AuthorSelectors, j))
  {
    FirstTextSpec(doc, AuthorSelectors);
  }

  // --------------------------------------------------------------- description

  /** An attribute that is present and non-empty (Python's truthiness of `get('content')`). */
  predicate HasContent(attr: Option<string>)
  {
    attr.Some? && attr.value != ""
  }

  /** `_extract_description`: the stripped meta description, else the stripped Open Graph description. */
  function Description(doc: Document): Option<string>
  {
    if HasContent(doc.metaDescription) then Some(Strip(doc.metaDescription.value))
    else if HasContent(doc.ogDescription) then Some(Strip(doc.ogDescription.value))
    else None
  }

  /**
   * The description is absent exactly when neither meta tag has content; the
   * meta description wins over the Open Graph one; the result is stripped,
   * and a description of blanks only comes back as the empty string.
   */
  lemma DescriptionSpec(doc: Document)
    ensures var r := Description(doc);
            && (r.None? <==> !HasContent(doc.metaDescription) && !HasContent(doc.ogDescription))
            && (HasContent(doc.metaDescription) ==> r == Some(Strip(doc.metaDescription.value)))
            && (!HasContent(doc.metaDescription) && HasContent(doc.ogDescription) ==> r == Some(Strip(doc.ogDescription.value)))
            && (r.Some? ==> r.value == [] || (!IsSpace(r.value[0]) && !IsSpace(r.value[|r.value| - 1])))
            && ((HasContent(doc.metaDescription) &&
                 forall i :: 0 <= i < |doc.metaDescription.value| ==> IsSpace(doc.metaDescription.value[i]))
                ==> r == Some(""))
  {
    var r := Description(doc);
    if r.Some? && r.value != [] {
      var v := if HasContent(doc.metaDescription) then doc.metaDescription.value else doc.ogDescription.value;
      var t := LStrip(v);
      assert r.value == RStrip(t);
      assert r.value[0] == t[0];
    }
    if HasContent(doc.metaDescription) && (forall i :: 0 <= i < |doc.metaDescription.value| ==>
         IsSpace(doc.metaDescription.value[i])) {
      LStripAllSpace(doc.metaDescription.value);
    }
  }

  // ---------------------------------------------------------------------- tags

  predicate IsTagText(text: string)
  {
    text != ""
  }

  /** The texts of all elements matched by `selectors`, selector by selector. */
  function TagTexts(doc: Document, selectors: seq<string>): seq<string>
  {
    if selectors == [] then []
    else TagTexts(doc, selectors[..|selectors| - 1]) + doc.texts(selectors[|selectors| - 1])
  }

  /** What `_extract_tags` returns. */
  function Tags(doc: Document): seq<string>
  {
    Prefix(Dedup(TagTexts(doc, TagSelectors), IsTagText), MaxTags)
  }

  lemma DedupAppend(s: seq<string>, x: string)
    ensures Dedup(s + [x], IsTagText) ==
            if IsTagText(x) && x !in Dedup(s, IsTagText) then Dedup(s, IsTagText) + [x] else Dedup(s, IsTagText)
  {
    assert (s + [x])[..|s|] == s;
  }

  /** `_extract_tags`, with its loops over the selectors and their elements. */
  method ExtractTags(doc: Document) returns (tags: seq<string>)
    ensures tags == Tags(doc)
  {
    tags := [];
    for s := 0 to |TagSelectors|
      invariant tags == Dedup(TagTexts(doc, TagSelectors[..s]), IsTagText)
    {
      var selector := TagSelectors[s];
      var tagElems := doc.texts(selector);
      ghost var before := TagTexts(doc, TagSelectors[..s]);
      assert before + tagElems[..0] == before;
      for e := 0 to |tagElems|
        invariant tags == Dedup(before + tagElems[..e], IsTagText)
      {
        var tagText := tagElems[e];
        assert before + tagElems[..e + 1] == (before + tagElems[..e]) + [tagText];
        DedupAppend(before + tagElems[..e], tagText);
        if tagText != "" && tagText !in tags {
          tags := tags + [tagText];
        }
      }
      assert TagSelectors[..s + 1][..s] == TagSelectors[..s];
      assert tagElems[..|tagElems|] == tagElems;
    }
    assert TagSelectors[..|TagSelectors|] == TagSelectors;
    tags := Prefix(tags, MaxTags);
  }

  /**
   * The tags: the first ten distinct non-empty tag texts in the order in
   * which they first appear (all of them when there are fewer), none empty,
   * none repeated, each the text of a tag element.
   */
  lemma TagsSpec(doc: Document)
    ensures var r := Tags(doc);
            var all := TagTexts(doc, TagSelectors);
            var d := Dedup(all, IsTagText);
            && r == d[..|r|]
            && |r| == (if |d| < MaxTags then |d| else MaxTags)
            && Distinct(r)
            && (forall t :: t in r ==> t != "" && t in all)
            && (forall i, j :: 0 <= i < j < |r| ==> FirstIndex(all, r[i]) < FirstIndex(all, r[j]))
            && (|Dedup(all, IsTagText)| <= MaxTags ==> forall t :: t in all && t != "" ==> t in r)
  {
    var all := TagTexts(doc, TagSelectors);
    var d := Dedup(all, IsTagText);
    var r := Tags(doc);
    DedupMembership(all, IsTagText);
    DedupDistinct(all, IsTagText);
    DedupFirstOccurrenceOrder(all, IsTagText);
    assert r == d[..|r|];
    forall t | t in r ensures t in d {
      var k :| 0 <= k < |r| && r[k] == t;
      assert d[k] == t;
    }
    forall i, j | 0 <= i < j < |r| ensures r[i] != r[j] && FirstIndex(all, r[i]) < FirstIndex(all, r[j]) {
      assert r[i] == d[i] && r[j] == d[j];
    }
  }

  // -------------------------------------------------------------- reading time

  /** `max(1, word_count // 200)`. */
  function ReadingTime(wordCount: nat): nat
  {
    if wordCount / WordsPerMinute > 1 then wordCount / WordsPerMinute else 1
  }

  /** At least one minute; otherwise whole minutes at 200 words a minute, rounded down. */
  lemma ReadingTimeSpec(wordCount: nat)
    ensures ReadingTime(wordCount) >= 1
    ensures wordCount < 2 * WordsPerMinute ==> ReadingTime(wordCount) == 1
    ensures wordCount >= WordsPerMinute ==>
              ReadingTime(wordCount) * WordsPerMinute <= wordCount < (ReadingTime(wordCount) + 1) * WordsPerMinute
  {
  }

  // ------------------------------------------------------------ extract_content

  /** What `extract_content` returns for the page at `url`. */
  function ContentOf(url: string, doc: Document): Option<ExtractedContent>
  {
    match MainContent(doc)
    case None => None
    case Some(content) =>
      var wordCount := |Words(content)|;
      Some(ExtractedContent(url, Title(doc), Description(doc), content, Author(doc), Tags(doc),
                            wordCount, ReadingTime(wordCount)))
  }

  /** `extract_content`: nothing without main content, otherwise the record of the page. */
  method ExtractContent(url: string, doc: Document) returns (data: Option<ExtractedContent>)
    ensures data == ContentOf(url, doc)
  {
    var content := ExtractMainContent(doc);
    if content.None? || content.value == "" {
      MainContentStrategies(doc);
      return None;
    }
    var title := Title(doc);
    var description := Description(doc);
    var author := Author(doc);
    var tags := ExtractTags(doc);
    var wordCount := |Words(content.value)|;
    var readingTime := if wordCount / WordsPerMinute > 1 then wordCount / WordsPerMinute else 1;
    data := Some(ExtractedContent(url, title, description, content.value, author, tags, wordCount, readingTime));
  }

  /**
   * A record exists exactly when main content is found; its text is that
   * content, it reads in at least a minute, and every other field is the
   * value of the function that states its extraction.
   */
  lemma ContentOfSpec(url: string, doc: Document)
    ensures ContentOf(url, doc).None? <==> MainContent(doc).None?
    ensures ContentOf(url, doc).Some? ==>
              var c := ContentOf(url, doc).value;
              && c.url == url && c.content == MainContent(doc).value && c.content != ""
              && c.wordCount == |Words(c.content)| && c.readingTime >= 1
              && c.readingTime == ReadingTime(c.wordCount)
              && c.title == Title(doc) && c.description == Description(doc) && c.author == Author(doc)
              && c.tags == Tags(doc) && |c.tags| <= MaxTags
  {
    MainContentStrategies(doc);
    if MainContent(doc).Some? {
      ReadingTimeSpec(|Words(MainContent(doc).value)|);
      TagsSpec(doc);
    }
  }
}
