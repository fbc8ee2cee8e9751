/**
 * The text helpers of the utility module: `clean_text`, `truncate_text` and
 * `extract_keywords`.
 */
module TextHelpers {
  import opened Seqs
  import opened Strings

  // ---------------------------------------------------------------- clean_text

  /** `re.sub(r'\s+', ' ', s)`: every maximal run of whitespace becomes one space. */
  function CollapseSpaces(s: string): (r: string)
    ensures forall i :: 0 <= i < |r| && IsSpace(r[i]) ==> r[i] == ' '
    decreases |s|
  {
    if s == [] then []
    else if IsSpace(s[0]) then " " + CollapseSpaces(LStrip(s))
    else [s[0]] + CollapseSpaces(s[1..])
  }

  /** The punctuation `clean_text` keeps besides word characters and whitespace. */
  const Punctuation: string := ".,!?;:()-\""

  predicate IsPunctuation(c: char)
  {
    Among(c, Punctuation)
  }

  /** The characters `[\w\s.,!?;:()\-"]` matches, where `isWord` is the regular-expression class `\w`. */
  function KeepChar(isWord: char -> bool): char -> bool
  {
    c => isWord(c) || IsSpace(c) || IsPunctuation(c)
  }

  /** A kept character that is not whitespace. */
  function KeepVisible(isWord: char -> bool): char -> bool
  {
    c => !IsSpace(c) && (isWord(c) || IsPunctuation(c))
  }

  predicate NotSpace(c: char)
  {
    !IsSpace(c)
  }

  /** `clean_text`: collapse whitespace, drop other special characters, strip. */
  function CleanText(text: string, isWord: char -> bool): string
  {
    if text == "" then "" else Strip(Filter(CollapseSpaces(text), KeepChar(isWord)))
  }

  lemma {:induction false} FilterNone<T>(s: seq<T>, p: T -> bool)
    requires forall i :: 0 <= i < |s| ==> !p(s[i])
    ensures Filter(s, p) == []
  {
    if s != [] {
      FilterNone(s[1..], p);
    }
  }

  lemma {:induction false} FilterSkipsSpaces(s: string, k: nat, g: char -> bool)
    requires k <= |s|
    requires forall i :: 0 <= i < k ==> IsSpace(s[i])
    requires forall c :: IsSpace(c) ==> !g(c)
    ensures Filter(s, g) == Filter(s[k..], g)
  {
    assert s == s[..k] + s[k..];
    FilterConcat(s[..k], s[k..], g);
    FilterNone(s[..k], g);
  }

  lemma {:induction false} FilterSkipsTrailingSpaces(s: string, k: nat, g: char -> bool)
    requires k <= |s|
    requires forall i :: k <= i < |s| ==> IsSpace(s[i])
    requires forall c :: IsSpace(c) ==> !g(c)
    ensures Filter(s, g) == Filter(s[..k], g)
  {
    assert s == s[..k] + s[k..];
    FilterConcat(s[..k], s[k..], g);
    FilterNone(s[k..], g);
  }

  /** Collapsing whitespace leaves every non-whitespace character in place. */
  lemma {:induction false} CollapseKeepsVisible(s: string, g: char -> bool)
    requires forall c :: IsSpace(c) ==> !g(c)
    ensures Filter(CollapseSpaces(s), g) == Filter(s, g)
    decreases |s|
  {
    if s != [] {
      if IsSpace(s[0]) {
        var t := LStrip(s);
        CollapseKeepsVisible(t, g);
        FilterSkipsSpaces(s, |s| - |t|, g);
        assert " " + CollapseSpaces(t) == [' '] + CollapseSpaces(t);
        assert Filter([' '] + CollapseSpaces(t), g) == Filter(CollapseSpaces(t), g);
      } else {
        CollapseKeepsVisible(s[1..], g);
        assert ([s[0]] + CollapseSpaces(s[1..]))[1..] == CollapseSpaces(s[1..]);
      }
    }
  }

  /** The front of a collapsed string: empty exactly when the input is, whitespace exactly when the input's is. */
  lemma CollapseHead(s: string)
    ensures var r := CollapseSpaces(s);
            && (r == [] <==> s == [])
            && (r != [] ==> (IsSpace(r[0]) <==> IsSpace(s[0])))
  {
  }

  lemma {:induction false} CollapseNoAdjacentSpaces(s: string)
    ensures var r := CollapseSpaces(s);
            forall i :: 0 <= i < |r| - 1 && IsSpace(r[i]) ==> !IsSpace(r[i + 1])
    decreases |s|
  {
    if s != [] {
      if IsSpace(s[0]) {
        var t := LStrip(s);
        CollapseNoAdjacentSpaces(t);
        CollapseHead(t);
        var r := CollapseSpaces(s);
        assert r == [' '] + CollapseSpaces(t);
        assert r[1..] == CollapseSpaces(t);
      } else {
        CollapseNoAdjacentSpaces(s[1..]);
        var r := CollapseSpaces(s);
        assert r[1..] == CollapseSpaces(s[1..]);
      }
    }
  }

  lemma {:induction false} CollapseKeepsWords(s: string)
    ensures Words(CollapseSpaces(s)) == Words(s)
    decreases |s|
  {
    if s != [] {
      if IsSpace(s[0]) {
        var t := LStrip(s);
        CollapseKeepsWords(t);
        assert CollapseSpaces(s) == [' '] + CollapseSpaces(t);
        WordsSpaceCons(' ', CollapseSpaces(t));
        WordsLStrip(s);
      } else {
        var c, s' := s[0], s[1..];
        CollapseKeepsWords(s');
        CollapseHead(s');
        assert s == [c] + s';
        assert CollapseSpaces(s) == [c] + CollapseSpaces(s');
        WordsCharCons(c, CollapseSpaces(s'));
        WordsCharCons(c, s');
      }
    }
  }

  /**
   * `re.sub(r'\s+', ' ', s)` leaves no two whitespace characters side by side,
   * keeps every other character in order, and so splits into the same words.
   */
  lemma CollapseSpacesSpec(s: string)
    ensures var r := CollapseSpaces(s);
            && (forall i :: 0 <= i < |r| && IsSpace(r[i]) ==> r[i] == ' ')
            && (forall i :: 0 <= i < |r| - 1 && IsSpace(r[i]) ==> !IsSpace(r[i + 1]))
            && Filter(r, NotSpace) == Filter(s, NotSpace)
            && Words(r) == Words(s)
  {
    CollapseNoAdjacentSpaces(s);
    CollapseKeepsVisible(s, NotSpace);
    CollapseKeepsWords(s);
  }

  lemma {:induction false} FilterCollapseHead(t: string, k: char -> bool)
    requires forall c :: IsSpace(c) ==> k(c)
    ensures StartsVisible(Filter(CollapseSpaces(t), k)) <==> StartsVisible(Filter(t, k))
    decreases |t|
  {
    if t != [] {
      var x := CollapseSpaces(t);
      CollapseHead(t);
      assert x[0] == t[0] || (IsSpace(x[0]) && IsSpace(t[0]));
      assert k(x[0]) <==> k(t[0]);
      FilterOneStep(x, k);
      FilterOneStep(t, k);
      if !IsSpace(t[0]) && !k(t[0]) {
        assert x[1..] == CollapseSpaces(t[1..]);
        FilterCollapseHead(t[1..], k);
      }
    }
  }

  lemma FilterOneStep(s: string, k: char -> bool)
    requires s != []
    ensures k(s[0]) ==> Filter(s, k) == [s[0]] + Filter(s[1..], k)
    ensures !k(s[0]) ==> Filter(s, k) == Filter(s[1..], k)
  {
  }

  /** Collapsing whitespace before a filter that keeps whitespace does not change the words. */
  lemma {:induction false} FilterCollapseWords(t: string, k: char -> bool)
    requires forall c :: IsSpace(c) ==> k(c)
    ensures Words(Filter(CollapseSpaces(t), k)) == Words(Filter(t, k))
    decreases |t|
  {
    if t != [] {
      if IsSpace(t[0]) {
        FilterCollapseWords(LStrip(t), k);
        FilterCollapseSpaceStep(t, k);
      } else {
        FilterCollapseWords(t[1..], k);
        FilterCollapseCharStep(t, k);
      }
    }
  }

  lemma FilterCollapseSpaceStep(t: string, k: char -> bool)
    requires forall c :: IsSpace(c) ==> k(c)
    requires t != [] && IsSpace(t[0])
    requires Words(Filter(CollapseSpaces(LStrip(t)), k)) == Words(Filter(LStrip(t), k))
    ensures Words(Filter(CollapseSpaces(t), k)) == Words(Filter(t, k))
  {
    FilterCollapseSpaceFront(t, k);
    WordsSpaceCons(' ', Filter(CollapseSpaces(LStrip(t)), k));
    FilterLeadingSpacesWords(t, k);
  }

  lemma FilterCollapseSpaceFront(t: string, k: char -> bool)
    requires k(' ')
    requires t != [] && IsSpace(t[0])
    ensures Filter(CollapseSpaces(t), k) == [' '] + Filter(CollapseSpaces(LStrip(t)), k)
  {
    var x := [' '] + CollapseSpaces(LStrip(t));
    assert CollapseSpaces(t) == x;
    assert x[1..] == CollapseSpaces(LStrip(t));
    FilterOneStep(x, k);
  }

  lemma FilterLeadingSpacesWords(t: string, k: char -> bool)
    requires forall c :: IsSpace(c) ==> k(c)
    ensures Words(Filter(t, k)) == Words(Filter(LStrip(t), k))
  {
    var u := LStrip(t);
    var pre := t[..|t| - |u|];
    assert t == pre + u;
    FilterConcat(pre, u, k);
    FilterAll(pre, k);
    WordsSkipSpaces(pre, Filter(u, k));
  }

  lemma FilterCollapseCharStep(t: string, k: char -> bool)
    requires forall c :: IsSpace(c) ==> k(c)
    requires t != [] && !IsSpace(t[0])
    requires Words(Filter(CollapseSpaces(t[1..]), k)) == Words(Filter(t[1..], k))
    ensures Words(Filter(CollapseSpaces(t), k)) == Words(Filter(t, k))
  {
    FilterCollapseCharFront(t, k);
    FilterOneStep(t, k);
    if k(t[0]) {
      FilterCollapseHead(t[1..], k);
      WordsConsCongruence(t[0], Filter(CollapseSpaces(t[1..]), k), Filter(t[1..], k));
    }
  }

  lemma FilterCollapseCharFront(t: string, k: char -> bool)
    requires t != [] && !IsSpace(t[0])
    ensures k(t[0]) ==> Filter(CollapseSpaces(t), k) == [t[0]] + Filter(CollapseSpaces(t[1..]), k)
    ensures !k(t[0]) ==> Filter(CollapseSpaces(t), k) == Filter(CollapseSpaces(t[1..]), k)
  {
    var x := [t[0]] + CollapseSpaces(t[1..]);
    assert CollapseSpaces(t) == x;
    assert x[1..] == CollapseSpaces(t[1..]);
    FilterOneStep(x, k);
  }

  /** Stripping removes whitespace only. */
  lemma StripKeepsVisible(s: string, g: char -> bool)
    requires forall c :: IsSpace(c) ==> !g(c)
    ensures Filter(Strip(s), g) == Filter(s, g)
  {
    var t := LStrip(s);
    FilterSkipsSpaces(s, |s| - |t|, g);
    var r := RStrip(t);
    FilterSkipsTrailingSpaces(t, |r|, g);
  }

  lemma {:induction false} FilterThenVisible(s: string, isWord: char -> bool)
    ensures Filter(Filter(s, KeepChar(isWord)), NotSpace) == Filter(s, KeepVisible(isWord))
  {
    if s != [] {
      FilterThenVisible(s[1..], isWord);
      var k := KeepChar(isWord);
      assert KeepVisible(isWord)(s[0]) == (k(s[0]) && NotSpace(s[0]));
      if k(s[0]) {
        var x := Filter(s, k);
        assert x == [s[0]] + Filter(s[1..], k);
        assert x[0] == s[0] && x[1..] == Filter(s[1..], k);
        assert Filter(x, NotSpace) == (if NotSpace(s[0]) then [s[0]] else []) + Filter(x[1..], NotSpace);
      } else {
        assert Filter(s, k) == Filter(s[1..], k);
      }
    }
  }

  /** `strip()` keeps characters of its input only and leaves no whitespace at either end. */
  lemma StripFacts(f: string)
    ensures var r := Strip(f);
            && (forall i :: 0 <= i < |r| ==> r[i] in f)
            && (r == [] || (!IsSpace(r[0]) && !IsSpace(r[|r| - 1])))
  {
    StripShape(f, LStrip(f), Strip(f));
  }

  /** A prefix of a suffix of `f`, each trimmed of whitespace where they were cut. */
  lemma StripShape(f: string, t: string, r: string)
    requires |t| <= |f| && t == f[|f| - |t|..] && (t == [] || !IsSpace(t[0]))
    requires |r| <= |t| && r == t[..|r|] && (r == [] || !IsSpace(r[|r| - 1]))
    ensures forall i :: 0 <= i < |r| ==> r[i] in f
    ensures r == [] || (!IsSpace(r[0]) && !IsSpace(r[|r| - 1]))
  {
    forall i | 0 <= i < |r| ensures r[i] in f {
      assert r[i] == t[i] == f[i + |f| - |t|];
    }
    if r != [] {
      assert r[0] == t[0];
    }
  }

  /**
   * `clean_text` returns only allowed characters, has no whitespace at either
   * end, writes all inner whitespace as plain spaces, and keeps exactly the
   * allowed non-whitespace characters of its input, in order.
   */
  lemma CleanTextSpec(text: string, isWord: char -> bool)
    ensures var r := CleanText(text, isWord);
            && (text == "" ==> r == "")
            && (forall i :: 0 <= i < |r| ==> KeepChar(isWord)(r[i]))
            && (forall i :: 0 <= i < |r| && IsSpace(r[i]) ==> r[i] == ' ')
            && (r == [] || (!IsSpace(r[0]) && !IsSpace(r[|r| - 1])))
            && Filter(r, NotSpace) == Filter(text, KeepVisible(isWord))
            && Words(r) == Words(Filter(text, KeepChar(isWord)))
  {
    if text != "" {
      CleanTextChars(text, isWord);
      CleanTextVisible(text, isWord);
      CleanTextWords(text, isWord);
    } else {
      assert Filter(text, KeepVisible(isWord)) == [];
      assert Filter(text, KeepChar(isWord)) == [];
    }
  }

  /** `clean_text` splits into the words of its input with the disallowed characters removed. */
  lemma CleanTextWords(text: string, isWord: char -> bool)
    requires text != ""
    ensures Words(CleanText(text, isWord)) == Words(Filter(text, KeepChar(isWord)))
  {
    var k := KeepChar(isWord);
    WordsStrip(Filter(CollapseSpaces(text), k));
    FilterCollapseWords(text, k);
  }

  /** The words of a string, written one after the other. */
  function Concat(ws: seq<string>): string
  {
    if ws == [] then [] else ws[0] + Concat(ws[1..])
  }

  /** `split()` loses only whitespace: its words, run together, are the visible characters in order. */
  lemma {:induction false} WordsCoverVisible(s: string)
    ensures Concat(Words(s)) == Filter(s, NotSpace)
    decreases |s|
  {
    if s != [] {
      WordsCoverVisible(s[1..]);
      if !IsSpace(s[0]) {
        ConcatWordsStep(s);
        assert Filter(s, NotSpace) == [s[0]] + Filter(s[1..], NotSpace);
      }
    }
  }

  lemma ConcatWordsStep(s: string)
    requires s != [] && !IsSpace(s[0])
    ensures Concat(Words(s)) == [s[0]] + Concat(Words(s[1..]))
  {
    var ws := Words(s[1..]);
    if |s| > 1 && !IsSpace(s[1]) && ws != [] {
      assert Words(s) == [[s[0]] + ws[0]] + ws[1..];
      assert Concat(ws) == ws[0] + Concat(ws[1..]);
      assert ([[s[0]] + ws[0]] + ws[1..])[1..] == ws[1..];
    } else {
      assert Words(s) == [[s[0]]] + ws;
      assert ([[s[0]]] + ws)[1..] == ws;
    }
  }


  lemma CleanTextChars(text: string, isWord: char -> bool)
    requires text != ""
    ensures var r := CleanText(text, isWord);
            && (forall i :: 0 <= i < |r| ==> KeepChar(isWord)(r[i]))
            && (forall i :: 0 <= i < |r| && IsSpace(r[i]) ==> r[i] == ' ')
            && (r == [] || (!IsSpace(r[0]) && !IsSpace(r[|r| - 1])))
  {
    var c := CollapseSpaces(text);
    StripFilterFacts(c, KeepChar(isWord));
    CollapsedSpacesArePlain(text);
  }

  /** Stripping a filtered string keeps characters of the original that pass the filter, and trims both ends. */
  lemma StripFilterFacts(c: string, p: char -> bool)
    ensures var r := Strip(Filter(c, p));
            && (forall i :: 0 <= i < |r| ==> r[i] in c && p(r[i]))
            && (r == [] || (!IsSpace(r[0]) && !IsSpace(r[|r| - 1])))
  {
    var f := Filter(c, p);
    StripFacts(f);
  }

  lemma CollapsedSpacesArePlain(s: string)
    ensures forall x :: x in CollapseSpaces(s) && IsSpace(x) ==> x == ' '
  {
    var c := CollapseSpaces(s);
    forall x | x in c && IsSpace(x) ensures x == ' ' {
      var i :| 0 <= i < |c| && c[i] == x;
    }
  }

  lemma CleanTextVisible(text: string, isWord: char -> bool)
    requires text != ""
    ensures Filter(CleanText(text, isWord), NotSpace) == Filter(text, KeepVisible(isWord))
  {
    var c := CollapseSpaces(text);
    var f := Filter(c, KeepChar(isWord));
    StripKeepsVisible(f, NotSpace);
    FilterThenVisible(c, isWord);
    CollapseKeepsVisible(text, KeepVisible(isWord));
  }

  // ------------------------------------------------------------- truncate_text

  /** `truncate_text`: short texts unchanged; otherwise `text[:max_length]`, cut back to its last space beyond index 0, plus `suffix`. */
  function TruncateText(text: string, maxLength: int, suffix: string): string
  {
    if text == "" || |text| <= maxLength then text
    else
      var truncated := Prefix(text, maxLength);
      var lastSpace := LastIndexOf(truncated, ' ');
      (if lastSpace > 0 then truncated[..lastSpace] else truncated) + suffix
  }

  /**
   * Short or empty texts come back unchanged. Otherwise the text is cut to
   * `Prefix(text, maxLength)` (for a negative `maxLength`, all but the last
   * `-maxLength` characters), cut back to its last space beyond index 0
   * when there is one, and followed by `suffix`.
   */
  lemma TruncateTextSpec(text: string, maxLength: int, suffix: string)
    ensures |text| <= maxLength ==> TruncateText(text, maxLength, suffix) == text
    ensures text == "" ==> TruncateText(text, maxLength, suffix) == ""
    ensures 0 <= maxLength < |text| ==> TruncatedAt(text, maxLength, suffix, TruncateText(text, maxLength, suffix))
    ensures maxLength < 0 < |text| ==>
              TruncatedAt(text, if |text| + maxLength > 0 then |text| + maxLength else 0, suffix,
                          TruncateText(text, maxLength, suffix))
  {
    if text != "" && maxLength < |text| {
      var truncated := Prefix(text, maxLength);
      var n := |truncated|;
      assert truncated == text[..n];
      var lastSpace := LastIndexOf(truncated, ' ');
      var kept := if lastSpace > 0 then truncated[..lastSpace] else truncated;
      var r := kept + suffix;
      assert r[..|r| - |suffix|] == kept;
      forall j | lastSpace < j < n ensures text[j] != ' ' {
        assert text[j] == truncated[j];
      }
    }
  }

  /**
   * `r` is a prefix of `text` cut at `n` characters, or back to the last space
   * beyond index 0 within them, followed by `suffix`.
   */
  predicate TruncatedAt(text: string, n: nat, suffix: string, r: string)
  {
    && |suffix| <= |r| && n <= |text|
    && var kept := r[..|r| - |suffix|];
       && r == kept + suffix
       && |kept| <= n && kept == text[..|kept|]
       && (|kept| < n ==> 0 < |kept| && text[|kept|] == ' ' && forall j :: |kept| < j < n ==> text[j] != ' ')
       && (|kept| == n ==> forall j :: 0 < j < n ==> text[j] != ' ')
  }

  // ---------------------------------------------------------- extract_keywords

  /** The stop words of `extract_keywords`. */
  const StopWords: set<string> := {
    "the", "and", "or", "but", "in", "on", "at", "to", "for", "of", "with",
    "by", "from", "up", "about", "into", "through", "during", "before",
    "after", "above", "below", "between", "among", "this", "that", "these",
    "those", "i", "me", "my", "myself", "we", "our", "ours", "ourselves",
    "you", "your", "yours", "yourself", "yourselves", "he", "him", "his",
    "himself", "she", "her", "hers", "herself", "it", "its", "itself",
    "they", "them", "their", "theirs", "themselves", "what", "which",
    "who", "whom", "am", "is", "are",
    "was", "were", "be", "been", "being", "have", "has", "had", "having",
    "do", "does", "did", "doing", "a", "an", "will", "would", "should",
    "could", "can", "may", "might", "must", "shall"
  }

  /** A word that is counted: not a stop word and longer than three characters. */
  predicate Eligible(word: string)
  {
    word !in StopWords && |word| > 3
  }

  /** Each word of `words` that `keep` accepts, with its number of occurrences. */
  function CountsOf(words: seq<string>, keep: string -> bool): map<string, nat>
  {
    map w | w in Dedup(words, keep) :: Count(words, w)
  }

  /** `word_freq` after the counting loop: each eligible word with its number of occurrences. */
  function Frequencies(words: seq<string>): map<string, nat>
  {
    CountsOf(words, Eligible)
  }

  function Freq(freq: map<string, nat>, w: string): nat
  {
    if w in freq then freq[w] else 0
  }

  /** `a` comes before `b` in the ranking of `ws`: a higher count, or the same count and earlier in `ws`. */
  ghost predicate Precedes(a: string, b: string, freq: map<string, nat>, ws: seq<string>)
  {
    a in ws && b in ws &&
    (Freq(freq, a) > Freq(freq, b) || (Freq(freq, a) == Freq(freq, b) && FirstIndex(ws, a) < FirstIndex(ws, b)))
  }

  /**
   * `s` is in the order of `sorted(..., key=count, reverse=True)` applied to
   * `ws`: higher counts first, equal counts in their order in `ws`.
   */
  ghost predicate RankOrdered(s: seq<string>, freq: map<string, nat>, ws: seq<string>)
  {
    forall i, j :: 0 <= i < j < |s| ==> Precedes(s[i], s[j], freq, ws)
  }

  /** Inserts `w` after every element whose count is at least `w`'s. */
  function InsertByCount(sorted: seq<string>, w: string, freq: map<string, nat>): (r: seq<string>)
    ensures multiset(r) == multiset(sorted) + multiset{w}
  {
    if sorted == [] then [w]
    else if Freq(freq, sorted[0]) < Freq(freq, w) then [w] + sorted
    else
      assert sorted == [sorted[0]] + sorted[1..];
      [sorted[0]] + InsertByCount(sorted[1..], w, freq)
  }

  /** The stable descending sort by count that `sorted(word_freq.items(), key=..., reverse=True)` performs. */
  function RankByCount(ws: seq<string>, freq: map<string, nat>): (r: seq<string>)
    ensures multiset(r) == multiset(ws)
  {
    if ws == [] then []
    else
      assert ws == ws[..|ws| - 1] + [ws[|ws| - 1]];
      InsertByCount(RankByCount(ws[..|ws| - 1], freq), ws[|ws| - 1], freq)
  }

  /** Dropping the first element keeps a list in rank order. */
  lemma RankOrderedTail(sorted: seq<string>, freq: map<string, nat>, ws: seq<string>)
    requires sorted != [] && RankOrdered(sorted, freq, ws)
    ensures RankOrdered(sorted[1..], freq, ws)
  {
    var tail := sorted[1..];
    forall i, j | 0 <= i < j < |tail| ensures Precedes(tail[i], tail[j], freq, ws) {
      assert Precedes(sorted[i + 1], sorted[j + 1], freq, ws);
    }
  }

  /** A word of larger count than the head of a ranked list may stand in front of it. */
  lemma RankOrderedCons(w: string, sorted: seq<string>, freq: map<string, nat>, ws: seq<string>)
    requires RankOrdered(sorted, freq, ws) && w in ws
    requires forall x :: x in sorted ==> Precedes(w, x, freq, ws)
    ensures RankOrdered([w] + sorted, freq, ws)
  {
    var r := [w] + sorted;
    forall i, j | 0 <= i < j < |r| ensures Precedes(r[i], r[j], freq, ws) {
      if i == 0 {
        assert r[j] == sorted[j - 1] && sorted[j - 1] in sorted;
      } else {
        assert Precedes(sorted[i - 1], sorted[j - 1], freq, ws);
      }
    }
  }

  lemma {:induction false} InsertKeepsRankOrder(sorted: seq<string>, w: string, freq: map<string, nat>, ws: seq<string>)
    requires RankOrdered(sorted, freq, ws)
    requires w in ws
    requires forall x :: x in sorted ==> x in ws && FirstIndex(ws, x) < FirstIndex(ws, w)
    ensures RankOrdered(InsertByCount(sorted, w, freq), freq, ws)
  {
    if sorted == [] {
    } else if Freq(freq, sorted[0]) < Freq(freq, w) {
      forall x | x in sorted ensures Precedes(w, x, freq, ws) {
        var k :| 0 <= k < |sorted| && sorted[k] == x;
        if k > 0 {
          assert Precedes(sorted[0], sorted[k], freq, ws);
        }
      }
      RankOrderedCons(w, sorted, freq, ws);
    } else {
      var head, tail := sorted[0], sorted[1..];
      assert head in sorted;
      RankOrderedTail(sorted, freq, ws);
      forall x | x in tail ensures x in ws && FirstIndex(ws, x) < FirstIndex(ws, w) {
        assert x in sorted;
      }
      InsertKeepsRankOrder(tail, w, freq, ws);
      var rest := InsertByCount(tail, w, freq);
      forall x | x in rest ensures Precedes(head, x, freq, ws) {
        assert x in multiset(rest);
        if x != w {
          assert x in multiset(tail);
          var k :| 0 <= k < |tail| && tail[k] == x;
          assert Precedes(sorted[0], sorted[k + 1], freq, ws);
        }
      }
      RankOrderedCons(head, rest, freq, ws);
    }
  }

  /** A ranking of words of `p` stays one when a word is appended to `p`. */
  lemma RankOrderedExtension(sorted: seq<string>, freq: map<string, nat>, p: seq<string>, w: string)
    requires RankOrdered(sorted, freq, p)
    requires forall x :: x in p ==> FirstIndex(p + [w], x) == FirstIndex(p, x)
    ensures RankOrdered(sorted, freq, p + [w])
  {
    var ws := p + [w];
    forall i, j | 0 <= i < j < |sorted| ensures Precedes(sorted[i], sorted[j], freq, ws) {
      assert Precedes(sorted[i], sorted[j], freq, p);
      assert sorted[i] in ws && sorted[j] in ws;
    }
  }

  /** Ranking a list of distinct words orders it by count, ties in list order. */
  lemma {:induction false} RankByCountOrdered(ws: seq<string>, freq: map<string, nat>)
    requires Distinct(ws)
    ensures RankOrdered(RankByCount(ws, freq), freq, ws)
  {
    if ws != [] {
      var p, w := ws[..|ws| - 1], ws[|ws| - 1];
      assert ws == p + [w];
      RankByCountOrdered(p, freq);
      var sorted := RankByCount(p, freq);
      forall x | x in p ensures FirstIndex(ws, x) == FirstIndex(p, x) {
        FirstIndexOfExtension(p, w, x);
      }
      assert FirstIndex(ws, w) == |p| by {
        assert w !in p;
      }
      forall x | x in sorted ensures x in ws && FirstIndex(ws, x) < FirstIndex(ws, w) {
        assert x in multiset(p);
      }
      RankOrderedExtension(sorted, freq, p, w);
      InsertKeepsRankOrder(sorted, w, freq, ws);
    }
  }

  /**
   * What `extract_keywords` returns; `findWords` is `re.findall(r'\b[a-zA-Z]{3,}\b', ...)`,
   * applied to the text lower-cased as `LowerText` does.
   */
  function Keywords(text: string, maxKeywords: int, findWords: string -> seq<string>): seq<string>
  {
    if text == "" then []
    else
      var words := findWords(LowerText(text));
      Prefix(RankByCount(Dedup(words, Eligible), Frequencies(words)), maxKeywords)
  }

  /** The counted words after one more word: the old ones, and the new one when it is kept. */
  lemma CountsOfStepKeys(words: seq<string>, x: string, keep: string -> bool)
    ensures forall w :: w in CountsOf(words + [x], keep) <==> w in CountsOf(words, keep) || (w == x && keep(x))
    ensures forall w :: w in CountsOf(words, keep) ==> keep(w)
    ensures forall w :: w in CountsOf(words, keep) ==> CountsOf(words, keep)[w] == Count(words, w)
  {
    var ws := words + [x];
    assert ws[..|ws| - 1] == words;
    DedupMembership(words, keep);
    DedupMembership(ws, keep);
  }

  /** Each count after one more word: one more for that word, unchanged for the others. */
  lemma CountsOfStepValues(words: seq<string>, x: string, keep: string -> bool)
    ensures forall w :: w in CountsOf(words + [x], keep) ==>
              CountsOf(words + [x], keep)[w] == Count(words, w) + (if w == x then 1 else 0)
  {
    var ws := words + [x];
    assert ws[..|ws| - 1] == words;
  }

  /** A count table that differs from `before` only by one more occurrence of `x`. */
  lemma CountsBump(now: map<string, nat>, before: map<string, nat>, words: seq<string>, x: string)
    requires forall w :: w in now <==> w in before || w == x
    requires forall w :: w in now ==> now[w] == Count(words, w) + (if w == x then 1 else 0)
    requires forall w :: w in before ==> before[w] == Count(words, w)
    ensures now == before[x := Count(words, x) + 1]
  {
    var after := before[x := Count(words, x) + 1];
    assert forall w :: w in now <==> w in after;
    assert forall w :: w in now ==> now[w] == after[w];
  }

  /** A count table with the same keys as `before` and, for each, the same count. */
  lemma CountsKept(now: map<string, nat>, before: map<string, nat>, words: seq<string>, x: string)
    requires forall w :: w in now <==> w in before
    requires x !in now
    requires forall w :: w in now ==> now[w] == Count(words, w) + (if w == x then 1 else 0)
    requires forall w :: w in before ==> before[w] == Count(words, w)
    ensures now == before
  {
  }

  /** One more word: its count goes up by one when it is kept. */
  lemma CountsOfStep(words: seq<string>, x: string, keep: string -> bool)
    ensures CountsOf(words + [x], keep) ==
            if keep(x) then CountsOf(words, keep)[x := Count(words, x) + 1] else CountsOf(words, keep)
  {
    CountsOfStepKeys(words, x, keep);
    CountsOfStepValues(words, x, keep);
    if keep(x) {
      CountsBump(CountsOf(words + [x], keep), CountsOf(words, keep), words, x);
    } else {
      CountsKept(CountsOf(words + [x], keep), CountsOf(words, keep), words, x);
    }
  }

  lemma DedupStep(words: seq<string>, x: string, keep: string -> bool)
    ensures Dedup(words + [x], keep) ==
            if keep(x) && x !in Dedup(words, keep) then Dedup(words, keep) + [x] else Dedup(words, keep)
  {
    var ws := words + [x];
    assert ws[..|ws| - 1] == words;
  }

  /** One pass of the counting loop keeps `order` and `wordFreq` those of the words seen. */
  lemma TallyStep(seen: seq<string>, word: string, order: seq<string>, wordFreq: map<string, nat>,
                  keep: string -> bool)
    requires order == Dedup(seen, keep) && wordFreq == CountsOf(seen, keep)
    ensures !keep(word) ==> order == Dedup(seen + [word], keep) && wordFreq == CountsOf(seen + [word], keep)
    ensures keep(word) && word in wordFreq ==>
              order == Dedup(seen + [word], keep) && wordFreq[word := wordFreq[word] + 1] == CountsOf(seen + [word], keep)
    ensures keep(word) && word !in wordFreq ==>
              order + [word] == Dedup(seen + [word], keep) && wordFreq[word := 1] == CountsOf(seen + [word], keep)
  {
    CountsOfStep(seen, word, keep);
    DedupStep(seen, word, keep);
    DedupMembership(seen, keep);
    if keep(word) && word !in wordFreq {
      CountPositive(seen, word);
    }
  }

  /** `extract_keywords`, with its counting loop over the found words. */
  method ExtractKeywords(text: string, maxKeywords: int, findWords: string -> seq<string>)
    returns (keywords: seq<string>)
    ensures keywords == Keywords(text, maxKeywords, findWords)
  {
    if text == "" {
      return [];
    }
    var words := findWords(LowerText(text));
    // an insertion-ordered dict: `order` lists its keys, `wordFreq` maps them
    var order: seq<string> := [];
    var wordFreq: map<string, nat> := map[];
    var i := 0;
    while i < |words|
      invariant 0 <= i <= |words|
      invariant order == Dedup(words[..i], Eligible)
      invariant wordFreq == CountsOf(words[..i], Eligible)
    {
      var word := words[i];
      assert words[..i + 1] == words[..i] + [word];
      TallyStep(words[..i], word, order, wordFreq, Eligible);
      if Eligible(word) {
        if word in wordFreq {
          wordFreq := wordFreq[word := wordFreq[word] + 1];
        } else {
          wordFreq := wordFreq[word := 1];
          order := order + [word];
        }
      }
      i := i + 1;
    }
    assert words[..i] == words;
    var ranked := RankByCount(order, wordFreq);
    keywords := Prefix(ranked, maxKeywords);
  }

  /** The ranking of the words that `keep` accepts: a permutation of them, in rank order, each with its count. */
  lemma RankingFacts(words: seq<string>, keep: string -> bool)
    ensures var order := Dedup(words, keep);
            var ranked := RankByCount(order, CountsOf(words, keep));
            && |ranked| == |order|
            && (forall x :: x in ranked <==> x in order)
            && (forall x :: x in order <==> x in words && keep(x))
            && (forall x :: x in ranked ==> Freq(CountsOf(words, keep), x) == Count(words, x))
            && RankOrdered(ranked, CountsOf(words, keep), order)
  {
    var order := Dedup(words, keep);
    var freq := CountsOf(words, keep);
    var ranked := RankByCount(order, freq);
    DedupMembership(words, keep);
    DedupDistinct(words, keep);
    RankByCountOrdered(order, freq);
    assert |ranked| == |order| by {
      assert |multiset(ranked)| == |multiset(order)|;
    }
    forall x ensures x in ranked <==> x in order {
      assert x in ranked <==> x in multiset(ranked);
    }
  }

  /** Two positions of the full ranking, stated in terms of the words of the text. */
  lemma RankingPair(words: seq<string>, keep: string -> bool, i: int, j: int)
    requires 0 <= i < j < |RankByCount(Dedup(words, keep), CountsOf(words, keep))|
    ensures var ranked := RankByCount(Dedup(words, keep), CountsOf(words, keep));
            && ranked[i] in words && ranked[j] in words
            && ranked[i] != ranked[j]
            && Count(words, ranked[i]) >= Count(words, ranked[j])
            && (Count(words, ranked[i]) == Count(words, ranked[j]) ==>
                  FirstIndex(words, ranked[i]) < FirstIndex(words, ranked[j]))
  {
    var order := Dedup(words, keep);
    var freq := CountsOf(words, keep);
    var ranked := RankByCount(order, freq);
    RankingFacts(words, keep);
    assert ranked[i] in ranked && ranked[j] in ranked;
    assert Precedes(ranked[i], ranked[j], freq, order);
    var a, b := FirstIndex(order, ranked[i]), FirstIndex(order, ranked[j]);
    if Count(words, ranked[i]) == Count(words, ranked[j]) {
      DedupFirstOccurrenceOrder(words, keep);
      assert a < b;
      assert order[a] == ranked[i] && order[b] == ranked[j];
    }
  }

  /** Every ranked word outside a prefix of the ranking is counted no more often than those inside. */
  lemma PrefixIsTop(words: seq<string>, keep: string -> bool, r: seq<string>)
    requires var ranked := RankByCount(Dedup(words, keep), CountsOf(words, keep));
             |r| <= |ranked| && r == ranked[..|r|]
    ensures forall w, v :: w in words && keep(w) && w !in r && v in r ==> Count(words, v) >= Count(words, w)
  {
    forall w, v | w in words && keep(w) && w !in r && v in r
      ensures Count(words, v) >= Count(words, w)
    {
      OutsidePrefixIsLower(words, keep, r, w, v);
    }
  }

  lemma OutsidePrefixIsLower(words: seq<string>, keep: string -> bool, r: seq<string>, w: string, v: string)
    requires var ranked := RankByCount(Dedup(words, keep), CountsOf(words, keep));
             |r| <= |ranked| && r == ranked[..|r|]
    requires w in words && keep(w) && w !in r && v in r
    ensures Count(words, v) >= Count(words, w)
  {
    var ranked := RankByCount(Dedup(words, keep), CountsOf(words, keep));
    RankingFacts(words, keep);
    assert w in ranked;
    var k :| 0 <= k < |ranked| && ranked[k] == w;
    var m :| 0 <= m < |r| && r[m] == v;
    assert ranked[m] == v;
    RankingPair(words, keep, m, k);
  }

  /** Keywords are distinct, eligible words of the text, in rank order. */
  lemma KeywordsOrder(text: string, maxKeywords: int, findWords: string -> seq<string>)
    ensures var r := Keywords(text, maxKeywords, findWords);
            var words := findWords(LowerText(text));
            && Distinct(r)
            && (forall w :: w in r ==> Eligible(w) && w in words)
            && (forall i, j :: 0 <= i < j < |r| ==> Count(words, r[i]) >= Count(words, r[j]))
            && (forall i, j :: 0 <= i < j < |r| && Count(words, r[i]) == Count(words, r[j]) ==>
                  FirstIndex(words, r[i]) < FirstIndex(words, r[j]))
  {
    if text != "" {
      var words := findWords(LowerText(text));
      var ranked := RankByCount(Dedup(words, Eligible), Frequencies(words));
      var r := Keywords(text, maxKeywords, findWords);
      RankingFacts(words, Eligible);
      assert r == ranked[..|r|];
      forall i, j | 0 <= i < j < |r|
        ensures r[i] != r[j] && Count(words, r[i]) >= Count(words, r[j])
        ensures Count(words, r[i]) == Count(words, r[j]) ==> FirstIndex(words, r[i]) < FirstIndex(words, r[j])
      {
        assert r[i] == ranked[i] && r[j] == ranked[j];
        RankingPair(words, Eligible, i, j);
      }
      forall w | w in r ensures Eligible(w) && w in words {
        assert w in ranked;
      }
    }
  }

  /**
   * The keywords: at most `maxKeywords` of them (all the eligible words when
   * fewer), and no omitted eligible word more frequent than a chosen one.
   */
  lemma KeywordsSpec(text: string, maxKeywords: int, findWords: string -> seq<string>)
    ensures var r := Keywords(text, maxKeywords, findWords);
            var words := findWords(LowerText(text));
            && (maxKeywords >= 0 ==> |r| <= maxKeywords)
            && (text != "" && maxKeywords >= 0 ==>
                  |r| == if maxKeywords < |Dedup(words, Eligible)| then maxKeywords else |Dedup(words, Eligible)|)
            && (text != "" ==> forall w, v :: w in words && Eligible(w) && w !in r && v in r ==>
                  Count(words, v) >= Count(words, w))
  {
    if text != "" {
      var words := findWords(LowerText(text));
      RankingFacts(words, Eligible);
      PrefixIsTop(words, Eligible, Keywords(text, maxKeywords, findWords));
    }
  }
}
