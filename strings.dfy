/**
 * The Python `str` operations the crawler relies on, written out on
 * `seq<char>`: whitespace, ASCII lower-casing, stripping, prefix and suffix
 * tests, `split(sep)` / `sep.join`, `rfind`, and the argument-less `split()`.
 */
module Strings {

  /** Python's `str.isspace()` for one character (also what `\s` matches). */
  predicate IsSpace(c: char)
  {
    c == ' ' || '\t' <= c <= '\r' || '\U{1C}' <= c <= '\U{1F}' || c == '\U{85}' || c == '\U{A0}'
    || c == '\U{1680}' || '\U{2000}' <= c <= '\U{200A}' || c == '\U{2028}' || c == '\U{2029}'
    || c == '\U{202F}' || c == '\U{205F}' || c == '\U{3000}'
  }

  function LowerChar(c: char): char
  {
    if 'A' <= c <= 'Z' then (c as int + 32) as char else c
  }

  /** `str.lower()` on ASCII letters; every other character is kept. */
  function Lower(s: string): (r: string)
    ensures |r| == |s|
    ensures forall i :: 0 <= i < |s| ==> r[i] == LowerChar(s[i])
  {
    seq(|s|, i requires 0 <= i < |s| => LowerChar(s[i]))
  }

  /**
   * `Lower` leaves no ASCII capital, moves each capital to its small letter,
   * keeps every other character, and is idempotent.
   */
  lemma LowerSpec(s: string)
    ensures var r := Lower(s);
            && |r| == |s|
            && (forall i :: 0 <= i < |r| ==> !('A' <= r[i] <= 'Z'))
            && (forall i :: 0 <= i < |s| && 'A' <= s[i] <= 'Z' ==> r[i] as int == s[i] as int + ('a' as int - 'A' as int))
            && (forall i :: 0 <= i < |s| && !('A' <= s[i] <= 'Z') ==> r[i] == s[i])
            && Lower(r) == r
  {
  }

  /**
   * The ASCII small letter that `re.IGNORECASE` matching on `str` equates
   * with `c`, or `c` itself. Besides the ASCII capitals these are LATIN SMALL
   * LETTER LONG S (with `s`), LATIN SMALL LETTER DOTLESS I and LATIN CAPITAL
   * LETTER I WITH DOT ABOVE (with `i`) and KELVIN SIGN (with `k`).
   */
  function FoldChar(c: char): char
  {
    if 'A' <= c <= 'Z' then (c as int + 32) as char
    else if c == '\U{17F}' then 's'
    else if c == '\U{131}' || c == '\U{130}' then 'i'
    else if c == '\U{212A}' then 'k'
    else c
  }

  /** `s` with every character folded: a pattern of ASCII small letters and `/` matches `s` ignoring case where it occurs in `IgnoreCase(s)`. */
  function IgnoreCase(s: string): (r: string)
    ensures |r| == |s|
    ensures forall i :: 0 <= i < |s| ==> r[i] == FoldChar(s[i])
  {
    seq(|s|, i requires 0 <= i < |s| => FoldChar(s[i]))
  }

  /** Folding agrees with `Lower` on ASCII and sends the four other characters to their ASCII letters. */
  lemma IgnoreCaseSpec(s: string)
    ensures var r := IgnoreCase(s);
            && (forall i :: 0 <= i < |s| && s[i] < 128 as char ==> r[i] == Lower(s)[i])
            && (forall i :: 0 <= i < |s| && s[i] == '\U{17F}' ==> r[i] == 's')
            && (forall i :: 0 <= i < |s| && (s[i] == '\U{131}' || s[i] == '\U{130}') ==> r[i] == 'i')
            && (forall i :: 0 <= i < |s| && s[i] == '\U{212A}' ==> r[i] == 'k')
            && (forall i :: 0 <= i < |s| && s[i] >= 128 as char && r[i] != s[i] ==>
                  s[i] in {'\U{17F}', '\U{131}', '\U{130}', '\U{212A}'})
            && IgnoreCase(r) == r
  {
  }

  /**
   * `str.lower()` as far as ASCII words can tell: the ASCII capitals, KELVIN
   * SIGN to `k`, and LATIN CAPITAL LETTER I WITH DOT ABOVE to `i` followed by
   * COMBINING DOT ABOVE. These two are the only characters outside ASCII whose
   * lower case holds an ASCII letter; every other character is kept.
   */
  function LowerText(s: string): string
    decreases |s|
  {
    if s == [] then [] else LowerTextChar(s[0]) + LowerText(s[1..])
  }

  function LowerTextChar(c: char): string
  {
    if c == '\U{212A}' then "k" else if c == '\U{130}' then "i\U{307}" else [LowerChar(c)]
  }

  /** What `LowerText` leaves: no ASCII capital, no KELVIN SIGN and no dotted capital I. */
  predicate LoweredText(s: string)
  {
    forall i :: 0 <= i < |s| ==> !('A' <= s[i] <= 'Z') && s[i] != '\U{212A}' && s[i] != '\U{130}'
  }

  /**
   * `LowerText` is `Lower` on text without the two special characters,
   * leaves no capital that it maps, and is idempotent.
   */
  lemma {:induction false} LowerTextSpec(s: string)
    ensures (forall i :: 0 <= i < |s| ==> s[i] != '\U{212A}' && s[i] != '\U{130}') ==> LowerText(s) == Lower(s)
    ensures LoweredText(LowerText(s))
    ensures LowerText(LowerText(s)) == LowerText(s)
  {
    LowerTextPlain(s);
    LowerTextLowered(s);
    LowerTextPlain(LowerText(s));
    LowerSpec(LowerText(s));
  }

  lemma {:induction false} LowerTextPlain(s: string)
    ensures (forall i :: 0 <= i < |s| ==> s[i] != '\U{212A}' && s[i] != '\U{130}') ==> LowerText(s) == Lower(s)
    decreases |s|
  {
    if s != [] && (forall i :: 0 <= i < |s| ==> s[i] != '\U{212A}' && s[i] != '\U{130}') {
      LowerTextPlain(s[1..]);
      assert Lower(s) == [LowerChar(s[0])] + Lower(s[1..]);
    }
  }

  lemma {:induction false} LowerTextLowered(s: string)
    ensures LoweredText(LowerText(s))
    decreases |s|
  {
    if s != [] {
      LowerTextLowered(s[1..]);
      var h, t := LowerTextChar(s[0]), LowerText(s[1..]);
      assert LoweredText(h);
      forall i | 0 <= i < |h + t| ensures !('A' <= (h + t)[i] <= 'Z') && (h + t)[i] != '\U{212A}' && (h + t)[i] != '\U{130}' {
        if i >= |h| {
          assert (h + t)[i] == t[i - |h|];
        }
      }
    }
  }

  /** KELVIN SIGN lowers to `k`, so a word can start with it. */
  lemma KelvinLowersToK()
    ensures LowerText("\U{212A}ettle") == "kettle"
  {
    assert LowerText("e") == "e";
    assert LowerText("le") == "le";
    assert LowerText("tle") == "tle";
    assert LowerText("ttle") == "ttle";
    assert LowerText("ettle") == "ettle";
  }

  /** A dotted capital I lowers to `i` and a combining mark, which ends the word before it. */
  lemma DottedCapitalILowersToTwo()
    ensures LowerText("X\U{130}ab") == "xi\U{307}ab"
  {
  }

  predicate StartsWith(s: string, prefix: string)
  {
    |prefix| <= |s| && s[..|prefix|] == prefix
  }

  predicate EndsWith(s: string, suffix: string)
  {
    |suffix| <= |s| && s[|s| - |suffix|..] == suffix
  }

  /** `needle in s` for strings. */
  predicate Contains(s: string, needle: string)
    decreases |s|
  {
    StartsWith(s, needle) || (s != [] && Contains(s[1..], needle))
  }

  /** `s.lstrip()`: drops the leading whitespace. */
  function LStrip(s: string): (r: string)
    ensures |r| <= |s| && r == s[|s| - |r|..]
    ensures r == [] || !IsSpace(r[0])
    ensures forall i :: 0 <= i < |s| - |r| ==> IsSpace(s[i])
  {
    if s != [] && IsSpace(s[0]) then LStrip(s[1..]) else s
  }

  /** A string of whitespace strips to nothing. */
  lemma {:induction false} LStripAllSpace(s: string)
    requires forall i :: 0 <= i < |s| ==> IsSpace(s[i])
    ensures LStrip(s) == []
  {
    if s != [] {
      LStripAllSpace(s[1..]);
    }
  }

  /** `s.rstrip()`: drops the trailing whitespace. */
  function RStrip(s: string): (r: string)
    ensures |r| <= |s| && r == s[..|r|]
    ensures r == [] || !IsSpace(r[|r| - 1])
    ensures forall i :: |r| <= i < |s| ==> IsSpace(s[i])
  {
    if s != [] && IsSpace(s[|s| - 1]) then RStrip(s[..|s| - 1]) else s
  }

  /** `s.strip()`. */
  function Strip(s: string): string
  {
    RStrip(LStrip(s))
  }

  /** `s.rstrip(c)` for a single character `c`. */
  function RStripChar(s: string, c: char): (r: string)
    ensures |r| <= |s| && r == s[..|r|]
    ensures r == [] || r[|r| - 1] != c
    ensures forall i :: |r| <= i < |s| ==> s[i] == c
  {
    if s != [] && s[|s| - 1] == c then RStripChar(s[..|s| - 1], c) else s
  }

  /** `s.split(c, 1)[0]`: the part of `s` before the first `c` (all of `s` if none). */
  function Before(s: string, c: char): (r: string)
    ensures |r| <= |s| && r == s[..|r|] && c !in r
    ensures |r| < |s| ==> s[|r|] == c
  {
    if s == [] || s[0] == c then [] else [s[0]] + Before(s[1..], c)
  }

  /** `s.split(c, 1)[1]`: the part of `s` after the first `c` (empty if none). */
  function After(s: string, c: char): string
  {
    var k := |Before(s, c)|;
    if k < |s| then s[k + 1..] else []
  }

  /** Where `c` first occurs at `k`, `split(c, 1)` cuts there. */
  lemma {:induction false} SplitOnceAt(s: string, c: char, k: nat)
    requires k < |s| && s[k] == c && c !in s[..k]
    ensures Before(s, c) == s[..k] && After(s, c) == s[k + 1..]
  {
    if k > 0 {
      assert s[1..][..k - 1] == s[..k][1..];
      SplitOnceAt(s[1..], c, k - 1);
      assert s == [s[0]] + s[1..];
    }
  }

  /** A string without whitespace at either end is its own `strip()`. */
  lemma StripTrimmed(s: string)
    requires s != [] && !IsSpace(s[0]) && !IsSpace(s[|s| - 1])
    ensures Strip(s) == s
  {
    assert LStrip(s) == s;
  }

  /** `s.rfind(c)`: the last index holding `c`, or -1. */
  function LastIndexOf(s: string, c: char): (r: int)
    ensures -1 <= r < |s|
    ensures r >= 0 ==> s[r] == c
    ensures forall j :: r < j < |s| ==> s[j] != c
  {
    if s == [] then -1 else if s[|s| - 1] == c then |s| - 1 else LastIndexOf(s[..|s| - 1], c)
  }

  /** `s.split(sep)` for a one-character separator: never empty, `""` gives `[""]`. */
  function Split(s: string, sep: char): (parts: seq<string>)
    ensures |parts| >= 1
    decreases |s|
  {
    if s == [] then [""]
    else
      var rest := Split(s[1..], sep);
      if s[0] == sep then [""] + rest else [[s[0]] + rest[0]] + rest[1..]
  }

  /** `sep.join(parts)`. */
  function Join(parts: seq<string>, sep: char): string
  {
    if |parts| == 0 then "" else if |parts| == 1 then parts[0] else parts[0] + [sep] + Join(parts[1..], sep)
  }

  /** No piece that `split` returns holds the separator. */
  lemma {:induction false} SplitPiecesLackSeparator(s: string, sep: char)
    ensures forall p :: p in Split(s, sep) ==> sep !in p
  {
    if s != [] {
      SplitPiecesLackSeparator(s[1..], sep);
      var rest := Split(s[1..], sep);
      if s[0] != sep {
        assert rest == [rest[0]] + rest[1..];
        assert rest[0] in rest;
      }
    }
  }

  lemma {:induction false} SplitWithoutSeparator(s: string, sep: char)
    requires sep !in s
    ensures Split(s, sep) == [s]
  {
    if s != [] {
      SplitWithoutSeparator(s[1..], sep);
      assert [s[0]] + s[1..] == s;
    }
  }

  lemma {:induction false} SplitAtSeparator(a: string, sep: char, b: string)
    requires sep !in a
    ensures Split(a + [sep] + b, sep) == [a] + Split(b, sep)
  {
    if a == [] {
      assert a + [sep] + b == [sep] + b;
      assert ([sep] + b)[1..] == b;
    } else {
      assert (a + [sep] + b)[1..] == a[1..] + [sep] + b;
      SplitAtSeparator(a[1..], sep, b);
      assert [a[0]] + a[1..] == a;
    }
  }

  /** `split` undoes `join` when no piece holds the separator. */
  lemma {:induction false} SplitJoin(parts: seq<string>, sep: char)
    requires |parts| >= 1
    requires forall p :: p in parts ==> sep !in p
    ensures Split(Join(parts, sep), sep) == parts
  {
    if |parts| == 1 {
      SplitWithoutSeparator(parts[0], sep);
    } else {
      assert parts[0] in parts;
      forall p | p in parts[1..] ensures sep !in p {
        assert p in parts;
      }
      SplitJoin(parts[1..], sep);
      SplitAtSeparator(parts[0], sep, Join(parts[1..], sep));
      assert parts == [parts[0]] + parts[1..];
    }
  }

  /**
   * Python's argument-less `s.split()`: the maximal runs of non-whitespace, read
   * from the front: whitespace is skipped, and a visible character either joins
   * the word that starts right after it or is a word on its own.
   */
  function Words(s: string): seq<string>
    decreases |s|
  {
    if s == [] then []
    else if IsSpace(s[0]) then Words(s[1..])
    else
      var ws := Words(s[1..]);
      if |s| > 1 && !IsSpace(s[1]) && ws != [] then [[s[0]] + ws[0]] + ws[1..] else [[s[0]]] + ws
  }

  /** A string that starts with a visible character has a first word. */
  lemma WordsHead(s: string)
    requires s != [] && !IsSpace(s[0])
    ensures Words(s) != []
  {
  }

  lemma {:induction false} WordsAreNonEmptyRuns(s: string)
    ensures forall w :: w in Words(s) ==> w != [] && forall i :: 0 <= i < |w| ==> !IsSpace(w[i])
    decreases |s|
  {
    if s != [] {
      WordsAreNonEmptyRuns(s[1..]);
      if !IsSpace(s[0]) {
        WordsConsMembers(s);
      }
    }
  }

  /** Each word of a string with a visible first character is a word of the rest, that character, or the two joined. */
  lemma WordsConsMembers(s: string)
    requires s != [] && !IsSpace(s[0])
    ensures var ws := Words(s[1..]);
            forall w :: w in Words(s) ==> w in ws || w == [s[0]] || (ws != [] && w == [s[0]] + ws[0])
  {
    var ws := Words(s[1..]);
    forall w | w in Words(s) ensures w in ws || w == [s[0]] || (ws != [] && w == [s[0]] + ws[0]) {
      if |s| > 1 && !IsSpace(s[1]) && ws != [] {
        assert w in [[s[0]] + ws[0]] + ws[1..];
      } else {
        assert w in [[s[0]]] + ws;
      }
    }
  }

  /** A whitespace character at the front contributes nothing to `split()`. */
  lemma WordsSpaceCons(c: char, s: string)
    requires IsSpace(c)
    ensures Words([c] + s) == Words(s)
  {
    assert ([c] + s)[1..] == s;
  }

  /** A visible character at the front starts the first word, or joins the word that follows it directly. */
  lemma WordsCharCons(c: char, s: string)
    requires !IsSpace(c)
    ensures Words([c] + s) ==
            if s != [] && !IsSpace(s[0]) then [[c] + Words(s)[0]] + Words(s)[1..] else [[c]] + Words(s)
  {
    assert ([c] + s)[1..] == s;
    if s != [] && !IsSpace(s[0]) {
      WordsHead(s);
    }
  }

  /** A string whose first character is visible. */
  predicate StartsVisible(s: string)
  {
    s != [] && !IsSpace(s[0])
  }

  /** What a character in front adds to `split()` depends only on the words after it and on whether they start right away. */
  lemma WordsConsCongruence(c: char, a: string, b: string)
    requires Words(a) == Words(b) && (StartsVisible(a) <==> StartsVisible(b))
    ensures Words([c] + a) == Words([c] + b)
  {
    if IsSpace(c) {
      WordsSpaceCons(c, a);
      WordsSpaceCons(c, b);
    } else {
      WordsCharCons(c, a);
      WordsCharCons(c, b);
    }
  }

  /** Only whitespace: no words. */
  lemma {:induction false} WordsOfSpaces(s: string)
    requires forall i :: 0 <= i < |s| ==> IsSpace(s[i])
    ensures Words(s) == []
    decreases |s|
  {
    if s != [] {
      WordsOfSpaces(s[1..]);
    }
  }

  /** Whitespace in front contributes nothing to `split()`. */
  lemma {:induction false} WordsSkipSpaces(sp: string, b: string)
    requires forall i :: 0 <= i < |sp| ==> IsSpace(sp[i])
    ensures Words(sp + b) == Words(b)
  {
    if sp != [] {
      assert sp + b == [sp[0]] + (sp[1..] + b);
      WordsSpaceCons(sp[0], sp[1..] + b);
      WordsSkipSpaces(sp[1..], b);
    } else {
      assert sp + b == b;
    }
  }

  /** A non-empty run without whitespace is one word. */
  lemma {:induction false} WordsOfRun(w: string)
    requires w != [] && forall i :: 0 <= i < |w| ==> !IsSpace(w[i])
    ensures Words(w) == [w]
  {
    var c, w' := w[0], w[1..];
    assert w == [c] + w';
    WordsCharCons(c, w');
    if w' != [] {
      assert !IsSpace(w'[0]);
      WordsOfRun(w');
    } else {
      assert w == [c];
    }
  }

  lemma WordsJoinFirst(c: char, r: seq<string>, a: seq<string>, b: seq<string>)
    requires a != [] && r == a + b
    ensures [[c] + r[0]] + r[1..] == ([[c] + a[0]] + a[1..]) + b
  {
    assert r[1..] == a[1..] + b;
  }

  /** Whitespace separates words: the words of `a`, then those of `b`. */
  lemma {:induction false} WordsSplitAtSpaces(a: string, sp: string, b: string)
    requires sp != [] && forall i :: 0 <= i < |sp| ==> IsSpace(sp[i])
    ensures Words(a + sp + b) == Words(a) + Words(b)
  {
    ConcatFront(a, sp, b);
    if a == [] {
      WordsSkipSpaces(sp, b);
    } else {
      WordsSplitAtSpaces(a[1..], sp, b);
      WordsSplitCons(a[0], a[1..], sp, b);
    }
  }

  lemma ConcatFront(a: string, sp: string, b: string)
    ensures a + sp + b == a + (sp + b)
    ensures a == [] ==> a + sp + b == sp + b
    ensures a != [] ==> a == [a[0]] + a[1..] && a + sp + b == [a[0]] + (a[1..] + (sp + b))
    ensures a != [] ==> a[1..] + sp + b == a[1..] + (sp + b)
  {
  }

  lemma WordsSplitCons(c: char, a: string, sp: string, b: string)
    requires sp != [] && IsSpace(sp[0])
    requires Words(a + (sp + b)) == Words(a) + Words(b)
    ensures Words([c] + (a + (sp + b))) == Words([c] + a) + Words(b)
  {
    if IsSpace(c) {
      WordsSpaceCons(c, a + (sp + b));
      WordsSpaceCons(c, a);
    } else {
      WordsSplitCharCons(c, a, sp, b);
    }
  }

  lemma WordsSplitCharCons(c: char, a: string, sp: string, b: string)
    requires !IsSpace(c) && sp != [] && IsSpace(sp[0])
    requires Words(a + (sp + b)) == Words(a) + Words(b)
    ensures Words([c] + (a + (sp + b))) == Words([c] + a) + Words(b)
  {
    var rest := a + (sp + b);
    if StartsVisible(a) {
      assert rest[0] == a[0];
      WordsCharConsVisible(c, rest);
      WordsCharConsVisible(c, a);
      WordsHead(a);
      WordsJoinFirst(c, Words(rest), Words(a), Words(b));
    } else {
      assert rest[0] == if a != [] then a[0] else sp[0];
      WordsCharConsAlone(c, rest);
      WordsCharConsAlone(c, a);
      AppendAssoc([[c]], Words(a), Words(b));
    }
  }

  lemma WordsCharConsVisible(c: char, s: string)
    requires !IsSpace(c) && StartsVisible(s)
    ensures Words([c] + s) == [[c] + Words(s)[0]] + Words(s)[1..]
  {
    WordsCharCons(c, s);
  }

  lemma WordsCharConsAlone(c: char, s: string)
    requires !IsSpace(c) && !StartsVisible(s)
    ensures Words([c] + s) == [[c]] + Words(s)
  {
    WordsCharCons(c, s);
  }

  lemma AppendAssoc(x: seq<string>, y: seq<string>, z: seq<string>)
    ensures x + (y + z) == (x + y) + z
  {
  }

  /** Whitespace at the end contributes nothing to `split()`. */
  lemma {:induction false} WordsTrailingSpaces(r: string, sp: string)
    requires forall i :: 0 <= i < |sp| ==> IsSpace(sp[i])
    ensures Words(r + sp) == Words(r)
  {
    if sp != [] {
      WordsSplitAtSpaces(r, sp, []);
      assert r + sp + [] == r + sp;
    } else {
      assert r + sp == r;
    }
  }

  /** `lstrip()` does not change the words. */
  lemma {:induction false} WordsLStrip(s: string)
    ensures Words(LStrip(s)) == Words(s)
  {
    var t := LStrip(s);
    assert s == s[..|s| - |t|] + t;
    WordsSkipSpaces(s[..|s| - |t|], t);
  }

  /** `rstrip()` does not change the words. */
  lemma {:induction false} WordsRStrip(s: string)
    ensures Words(RStrip(s)) == Words(s)
  {
    var r := RStrip(s);
    assert s == r + s[|r|..];
    WordsTrailingSpaces(r, s[|r|..]);
  }

  /** `strip()` does not change the words. */
  lemma {:induction false} WordsStrip(s: string)
    ensures Words(Strip(s)) == Words(s)
  {
    WordsLStrip(s);
    WordsRStrip(LStrip(s));
  }

  /** `join` undoes `split`. */
  lemma {:induction false} JoinSplit(s: string, sep: char)
    ensures Join(Split(s, sep), sep) == s
    decreases |s|
  {
    if s != [] {
      JoinSplit(s[1..], sep);
      var rest := Split(s[1..], sep);
      if s[0] == sep {
        assert Split(s, sep) == [""] + rest;
      } else {
        var parts := Split(s, sep);
        assert parts == [[s[0]] + rest[0]] + rest[1..];
        if |rest| > 1 {
          assert rest == [rest[0]] + rest[1..];
          assert Join(rest, sep) == rest[0] + [sep] + Join(rest[1..], sep);
          assert parts[1..] == rest[1..];
        }
        assert [s[0]] + s[1..] == s;
      }
    }
  }
}
