/**
 * `parse_robots_txt` of the utility module: the rules of a robots.txt file
 * that apply to one user agent.
 *
 * The file is read line by line. A `User-agent:` line opens a group; the
 * `Disallow:`, `Allow:` and `Crawl-delay:` lines of a group whose agent is
 * the requested one or `*` are recorded, and a `Sitemap:` line is recorded
 * only while no such group is open (the source tests it in the branch taken
 * when the current group does not match).
 */
module Robots {
  import opened Wrappers
  import opened Strings
  import opened Seqs

  datatype RobotsRules = RobotsRules(
    allowed: seq<string>,
    disallowed: seq<string>,
    crawlDelay: Option<real>,
    sitemaps: seq<string>)

  const NoRules := RobotsRules([], [], None, [])

  /** The kind of a line, by the case-insensitive field name it starts with. */
  datatype Kind = UserAgent | Disallow | Allow | CrawlDelay | Sitemap | Ignored

  /** A classified line: its kind and the stripped text after its first colon. */
  datatype Directive = Directive(kind: Kind, value: string)

  /** Classifies one line of the file (already stripped); blank lines and comments are ignored. */
  function Classify(line: string): (d: Directive)
    ensures d.kind == Ignored || d.value == Strip(After(line, ':'))
    ensures line == "" || line[0] == '#' ==> d.kind == Ignored
  {
    if line == "" || line[0] == '#' then Directive(Ignored, "")
    else
      var low := Lower(line);
      var kind :=
        if StartsWith(low, "user-agent:") then UserAgent
        else if StartsWith(low, "disallow:") then Disallow
        else if StartsWith(low, "allow:") then Allow
        else if StartsWith(low, "crawl-delay:") then CrawlDelay
        else if StartsWith(low, "sitemap:") then Sitemap
        else Ignored;
      Directive(kind, if kind == Ignored then "" else Strip(After(line, ':')))
  }

  /** The classified lines of `content`; empty content has none. */
  function Directives(content: string): (ds: seq<Directive>)
    ensures content != "" ==> |ds| == |Split(content, '\n')|
  {
    if content == "" then []
    else
      var lines := Split(content, '\n');
      seq(|lines|, i requires 0 <= i < |lines| => Classify(Strip(lines[i])))
  }

  /** The agent named by the last `User-agent:` line of `ds`, if any. */
  function AgentOf(ds: seq<Directive>): Option<string>
  {
    if ds == [] then None
    else if ds[|ds| - 1].kind == UserAgent then Some(ds[|ds| - 1].value)
    else AgentOf(ds[..|ds| - 1])
  }

  /** A group applies when its agent is the requested one or `*`. */
  predicate Matches(agent: Option<string>, userAgent: string)
  {
    agent == Some(userAgent) || agent == Some("*")
  }

  /** A line `d` following the lines `before` is recorded as a `want` value. */
  predicate Recorded(before: seq<Directive>, d: Directive, userAgent: string, want: Kind)
  {
    && d.kind == want
    && d.value != ""
    && Matches(AgentOf(before), userAgent) == (want != Sitemap)
  }

  /** The values of the recorded `want` lines of `ds`, in file order. */
  function Collect(ds: seq<Directive>, userAgent: string, want: Kind): (r: seq<string>)
  {
    if ds == [] then []
    else
      var before, d := ds[..|ds| - 1], ds[|ds| - 1];
      Collect(before, userAgent, want) + (if Recorded(before, d, userAgent, want) then [d.value] else [])
  }

  /** The last crawl delay of a matching group that parses as a number. */
  function LastDelay(ds: seq<Directive>, userAgent: string, parseFloat: string -> Option<real>): Option<real>
  {
    if ds == [] then None
    else
      var before, d := ds[..|ds| - 1], ds[|ds| - 1];
      if d.kind == CrawlDelay && Matches(AgentOf(before), userAgent) && parseFloat(d.value).Some?
      then parseFloat(d.value)
      else LastDelay(before, userAgent, parseFloat)
  }

  /** The rules of a list of directives. */
  function RulesOf(ds: seq<Directive>, userAgent: string, parseFloat: string -> Option<real>): RobotsRules
  {
    RobotsRules(
      Collect(ds, userAgent, Allow),
      Collect(ds, userAgent, Disallow),
      LastDelay(ds, userAgent, parseFloat),
      Collect(ds, userAgent, Sitemap))
  }

  /** The rules `parse_robots_txt` returns; `parseFloat` is Python's `float`, `None` where it raises. */
  function Rules(content: string, userAgent: string, parseFloat: string -> Option<real>): RobotsRules
  {
    RulesOf(Directives(content), userAgent, parseFloat)
  }

  /** One more line extends each list by at most its own value. */
  lemma CollectStep(ds: seq<Directive>, d: Directive, userAgent: string, want: Kind)
    ensures Collect(ds + [d], userAgent, want) ==
            Collect(ds, userAgent, want) + (if Recorded(ds, d, userAgent, want) then [d.value] else [])
  {
    assert (ds + [d])[..|ds|] == ds;
  }

  lemma LastDelayStep(ds: seq<Directive>, d: Directive, userAgent: string, parseFloat: string -> Option<real>)
    ensures LastDelay(ds + [d], userAgent, parseFloat) ==
            if d.kind == CrawlDelay && Matches(AgentOf(ds), userAgent) && parseFloat(d.value).Some?
            then parseFloat(d.value) else LastDelay(ds, userAgent, parseFloat)
  {
    assert (ds + [d])[..|ds|] == ds;
  }

  lemma AgentOfStep(ds: seq<Directive>, d: Directive)
    ensures AgentOf(ds + [d]) == if d.kind == UserAgent then Some(d.value) else AgentOf(ds)
  {
    assert (ds + [d])[..|ds|] == ds;
  }

  /** What one more line does to the agent, each list and the crawl delay. */
  lemma StepFacts(prev: seq<Directive>, d: Directive, userAgent: string, parseFloat: string -> Option<real>)
    ensures AgentOf(prev + [d]) == if d.kind == UserAgent then Some(d.value) else AgentOf(prev)
    ensures Collect(prev + [d], userAgent, Allow) == Collect(prev, userAgent, Allow) +
              (if d.kind == Allow && d.value != "" && Matches(AgentOf(prev), userAgent) then [d.value] else [])
    ensures Collect(prev + [d], userAgent, Disallow) == Collect(prev, userAgent, Disallow) +
              (if d.kind == Disallow && d.value != "" && Matches(AgentOf(prev), userAgent) then [d.value] else [])
    ensures Collect(prev + [d], userAgent, Sitemap) == Collect(prev, userAgent, Sitemap) +
              (if d.kind == Sitemap && d.value != "" && !Matches(AgentOf(prev), userAgent) then [d.value] else [])
    ensures LastDelay(prev + [d], userAgent, parseFloat) ==
              if d.kind == CrawlDelay && Matches(AgentOf(prev), userAgent) && parseFloat(d.value).Some?
              then parseFloat(d.value) else LastDelay(prev, userAgent, parseFloat)
  {
    CollectStep(prev, d, userAgent, Allow);
    CollectStep(prev, d, userAgent, Disallow);
    CollectStep(prev, d, userAgent, Sitemap);
    LastDelayStep(prev, d, userAgent, parseFloat);
    AgentOfStep(prev, d);
  }

  /** `parse_robots_txt`: walks the lines once, tracking the current group's agent. */
  method ParseRobotsTxt(content: string, userAgent: string, parseFloat: string -> Option<real>)
    returns (rules: RobotsRules)
    ensures rules == Rules(content, userAgent, parseFloat)
  {
    rules := NoRules;
    if content == "" {
      return;
    }
    var currentAgent: Option<string> := None;
    var lines := Split(content, '\n');
    ghost var ds := Directives(content);
    var allowed, disallowed, sitemaps: seq<string> := [], [], [];
    var crawlDelay: Option<real> := None;
    assert ds[..0] == [];
    for i := 0 to |lines|
      invariant currentAgent == AgentOf(ds[..i])
      invariant allowed == Collect(ds[..i], userAgent, Allow)
      invariant disallowed == Collect(ds[..i], userAgent, Disallow)
      invariant sitemaps == Collect(ds[..i], userAgent, Sitemap)
      invariant crawlDelay == LastDelay(ds[..i], userAgent, parseFloat)
    {
      var d := Classify(Strip(lines[i]));
      ghost var prev := ds[..i];
      assert ds[i] == d;
      TakeNext(ds, i);
      StepFacts(prev, d, userAgent, parseFloat);
      if d.kind == Ignored {
        continue;
      }
      if d.kind == UserAgent {
        currentAgent := Some(d.value);
      } else if currentAgent == Some(userAgent) || currentAgent == Some("*") {
        if d.kind == Disallow {
          if d.value != "" {
            disallowed := disallowed + [d.value];
          }
        } else if d.kind == Allow {
          if d.value != "" {
            allowed := allowed + [d.value];
          }
        } else if d.kind == CrawlDelay {
          var delay := parseFloat(d.value);
          if delay.Some? {
            crawlDelay := delay;
          }
        }
      } else if d.kind == Sitemap {
        if d.value != "" {
          sitemaps := sitemaps + [d.value];
        }
      }
    }
    assert ds[..|lines|] == ds;
    rules := RobotsRules(allowed, disallowed, crawlDelay, sitemaps);
  }

  // ---------------------------------------------------------------- properties

  /** Empty content has no rules. */
  lemma EmptyContentHasNoRules(userAgent: string, parseFloat: string -> Option<real>)
    ensures Rules("", userAgent, parseFloat) == NoRules
  {
  }

  /**
   * A value is recorded exactly when some line of the wanted kind carries it
   * and sits in a group that matches (for a sitemap: that does not match).
   */
  lemma {:induction false} CollectMembership(ds: seq<Directive>, userAgent: string, want: Kind, v: string)
    ensures v in Collect(ds, userAgent, want) <==>
            exists i :: 0 <= i < |ds| && ds[i] == Directive(want, v) && Recorded(ds[..i], ds[i], userAgent, want)
  {
    if ds != [] {
      var before, d := ds[..|ds| - 1], ds[|ds| - 1];
      CollectMembership(before, userAgent, want, v);
      if v in Collect(ds, userAgent, want) {
        if v in Collect(before, userAgent, want) {
          var i :| 0 <= i < |before| && before[i] == Directive(want, v) && Recorded(before[..i], before[i], userAgent, want);
          assert before[..i] == ds[..i];
          assert ds[i] == before[i];
        } else {
          assert ds[..|ds| - 1] == before;
        }
      } else {
        forall i | 0 <= i < |ds| && ds[i] == Directive(want, v)
          ensures !Recorded(ds[..i], ds[i], userAgent, want)
        {
          if i < |before| {
            assert before[..i] == ds[..i];
            assert before[i] == ds[i];
          }
        }
      }
    }
  }

  /** Only non-empty values are recorded, at most one per line. */
  lemma {:induction false} CollectShape(ds: seq<Directive>, userAgent: string, want: Kind)
    ensures forall v :: v in Collect(ds, userAgent, want) ==> v != ""
    ensures |Collect(ds, userAgent, want)| <= |ds|
  {
    if ds != [] {
      CollectShape(ds[..|ds| - 1], userAgent, want);
    }
  }

  /** No `User-agent:` line, no agent. */
  lemma {:induction false} AgentOfWithoutAgentLines(ds: seq<Directive>)
    requires forall i :: 0 <= i < |ds| ==> ds[i].kind != UserAgent
    ensures AgentOf(ds) == None
  {
    if ds != [] {
      AgentOfWithoutAgentLines(ds[..|ds| - 1]);
    }
  }

  /** Before any `User-agent:` line no group applies: only sitemaps are recorded. */
  lemma {:induction false} NoAgentOnlySitemaps(ds: seq<Directive>, userAgent: string, parseFloat: string -> Option<real>)
    requires forall i :: 0 <= i < |ds| ==> ds[i].kind != UserAgent
    ensures var r := RulesOf(ds, userAgent, parseFloat);
            r.allowed == [] && r.disallowed == [] && r.crawlDelay == None
    ensures forall i :: 0 <= i < |ds| && ds[i].kind == Sitemap && ds[i].value != "" ==>
              ds[i].value in RulesOf(ds, userAgent, parseFloat).sitemaps
  {
    if ds != [] {
      var before := ds[..|ds| - 1];
      NoAgentOnlySitemaps(before, userAgent, parseFloat);
      AgentOfWithoutAgentLines(before);
      forall i | 0 <= i < |ds| && ds[i].kind == Sitemap && ds[i].value != ""
        ensures ds[i].value in Collect(ds, userAgent, Sitemap)
      {
        CollectMembership(ds, userAgent, Sitemap, ds[i].value);
        AgentOfWithoutAgentLines(ds[..i]);
      }
    }
  }

  /** An ignored line (blank, comment, unknown field) changes no rule, wherever it is inserted. */
  lemma IgnoredLineChangesNothing(ds: seq<Directive>, k: nat, userAgent: string,
                                  parseFloat: string -> Option<real>)
    requires k <= |ds|
    ensures RulesOf(ds[..k] + [Directive(Ignored, "")] + ds[k..], userAgent, parseFloat) == RulesOf(ds, userAgent, parseFloat)
    ensures AgentOf(ds[..k] + [Directive(Ignored, "")] + ds[k..]) == AgentOf(ds)
  {
    IgnoredLineKeepsAgent(ds, k);
    IgnoredLineKeepsCollect(ds, k, userAgent, Allow);
    IgnoredLineKeepsCollect(ds, k, userAgent, Disallow);
    IgnoredLineKeepsCollect(ds, k, userAgent, Sitemap);
    IgnoredLineKeepsDelay(ds, k, userAgent, parseFloat);
  }

  /** `ds` with an ignored line inserted before line `k`. */
  function InsertIgnored(ds: seq<Directive>, k: nat): (r: seq<Directive>)
    requires k <= |ds|
    ensures |r| == |ds| + 1
  {
    ds[..k] + [Directive(Ignored, "")] + ds[k..]
  }

  /** Inserting before a line that is not the last one commutes with dropping the last line. */
  lemma InsertIgnoredInit(ds: seq<Directive>, k: nat)
    requires k < |ds|
    ensures InsertIgnored(ds, k) == InsertIgnored(ds[..|ds| - 1], k) + [ds[|ds| - 1]]
  {
    var before, d := ds[..|ds| - 1], ds[|ds| - 1];
    assert ds[..k] == before[..k];
    assert ds[k..] == before[k..] + [d];
  }

  lemma InsertIgnoredLast(ds: seq<Directive>)
    ensures InsertIgnored(ds, |ds|) == ds + [Directive(Ignored, "")]
  {
    assert ds[..|ds|] == ds;
  }

  lemma {:induction false} IgnoredLineKeepsAgent(ds: seq<Directive>, k: nat)
    requires k <= |ds|
    ensures AgentOf(InsertIgnored(ds, k)) == AgentOf(ds)
    decreases |ds|
  {
    if k == |ds| {
      InsertIgnoredLast(ds);
      AgentOfStep(ds, Directive(Ignored, ""));
    } else {
      var before, d := ds[..|ds| - 1], ds[|ds| - 1];
      IgnoredLineKeepsAgent(before, k);
      InsertIgnoredInit(ds, k);
      AgentOfStep(InsertIgnored(before, k), d);
      assert ds == before + [d];
      AgentOfStep(before, d);
    }
  }

  lemma {:induction false} IgnoredLineKeepsCollect(ds: seq<Directive>, k: nat, userAgent: string, want: Kind)
    requires k <= |ds|
    ensures Collect(InsertIgnored(ds, k), userAgent, want) == Collect(ds, userAgent, want)
    decreases |ds|
  {
    if k == |ds| {
      InsertIgnoredLast(ds);
      CollectStep(ds, Directive(Ignored, ""), userAgent, want);
    } else {
      var before, d := ds[..|ds| - 1], ds[|ds| - 1];
      IgnoredLineKeepsCollect(before, k, userAgent, want);
      IgnoredLineKeepsAgent(before, k);
      InsertIgnoredInit(ds, k);
      CollectStep(InsertIgnored(before, k), d, userAgent, want);
      assert ds == before + [d];
      CollectStep(before, d, userAgent, want);
    }
  }

  lemma {:induction false} IgnoredLineKeepsDelay(ds: seq<Directive>, k: nat, userAgent: string,
                                                 parseFloat: string -> Option<real>)
    requires k <= |ds|
    ensures LastDelay(InsertIgnored(ds, k), userAgent, parseFloat) == LastDelay(ds, userAgent, parseFloat)
    decreases |ds|
  {
    if k == |ds| {
      InsertIgnoredLast(ds);
      LastDelayStep(ds, Directive(Ignored, ""), userAgent, parseFloat);
    } else {
      var before, d := ds[..|ds| - 1], ds[|ds| - 1];
      IgnoredLineKeepsDelay(before, k, userAgent, parseFloat);
      IgnoredLineKeepsAgent(before, k);
      InsertIgnoredInit(ds, k);
      LastDelayStep(InsertIgnored(before, k), d, userAgent, parseFloat);
      assert ds == before + [d];
      LastDelayStep(before, d, userAgent, parseFloat);
    }
  }

  /** Every line of a comment classifies as ignored, whatever follows the `#`. */
  lemma CommentIsIgnored(comment: string)
    requires comment != "" && comment[0] == '#'
    ensures Classify(Strip(comment)) == Directive(Ignored, "")
  {
    var t := LStrip(comment);
    assert t == comment;
    var s := RStrip(t);
    if s != [] {
      assert s[0] == t[0];
    }
  }

  /** Line `i` of `ds` is a parsable `Crawl-delay:` line of a matching group. */
  predicate DelayLine(ds: seq<Directive>, i: int, userAgent: string, parseFloat: string -> Option<real>)
  {
    0 <= i < |ds| && ds[i].kind == CrawlDelay && Matches(AgentOf(ds[..i]), userAgent) && parseFloat(ds[i].value).Some?
  }

  lemma DelayLineOfPrefix(ds: seq<Directive>, i: int, userAgent: string, parseFloat: string -> Option<real>)
    requires ds != [] && 0 <= i < |ds| - 1
    ensures DelayLine(ds, i, userAgent, parseFloat) == DelayLine(ds[..|ds| - 1], i, userAgent, parseFloat)
  {
    assert ds[..|ds| - 1][..i] == ds[..i];
  }

  /** Lines before the last one are delay lines of `ds` exactly when they are of the shorter file. */
  lemma DelayLinesOfPrefix(ds: seq<Directive>, userAgent: string, parseFloat: string -> Option<real>)
    requires ds != []
    ensures forall i :: 0 <= i < |ds| - 1 ==>
              DelayLine(ds, i, userAgent, parseFloat) == DelayLine(ds[..|ds| - 1], i, userAgent, parseFloat)
  {
    forall i | 0 <= i < |ds| - 1
      ensures DelayLine(ds, i, userAgent, parseFloat) == DelayLine(ds[..|ds| - 1], i, userAgent, parseFloat)
    {
      DelayLineOfPrefix(ds, i, userAgent, parseFloat);
    }
  }

  /** `LastDelay` in terms of `DelayLine`: the last line decides when it is a delay line. */
  lemma LastDelayUnfold(ds: seq<Directive>, userAgent: string, parseFloat: string -> Option<real>)
    requires ds != []
    ensures LastDelay(ds, userAgent, parseFloat) ==
            if DelayLine(ds, |ds| - 1, userAgent, parseFloat) then parseFloat(ds[|ds| - 1].value)
            else LastDelay(ds[..|ds| - 1], userAgent, parseFloat)
  {
  }

  /** There is no crawl delay exactly when no parsable `Crawl-delay:` line stands in a matching group. */
  lemma {:induction false} LastDelayNone(ds: seq<Directive>, userAgent: string, parseFloat: string -> Option<real>)
    ensures LastDelay(ds, userAgent, parseFloat).None? <==>
              forall i :: 0 <= i < |ds| ==> !DelayLine(ds, i, userAgent, parseFloat)
  {
    if ds != [] {
      var before, n := ds[..|ds| - 1], |ds| - 1;
      LastDelayNone(before, userAgent, parseFloat);
      DelayLinesOfPrefix(ds, userAgent, parseFloat);
      LastDelayUnfold(ds, userAgent, parseFloat);
      if !DelayLine(ds, n, userAgent, parseFloat) && LastDelay(before, userAgent, parseFloat).None? {
        forall i | 0 <= i < |ds| ensures !DelayLine(ds, i, userAgent, parseFloat) {
          if i < n {
            assert !DelayLine(before, i, userAgent, parseFloat);
          }
        }
      } else if !DelayLine(ds, n, userAgent, parseFloat) {
        var i :| 0 <= i < n && DelayLine(before, i, userAgent, parseFloat);
        assert DelayLine(ds, i, userAgent, parseFloat);
      }
    }
  }

  /** The crawl delay is the value of the last parsable `Crawl-delay:` line of a matching group. */
  lemma {:induction false} LastDelayIsLast(ds: seq<Directive>, userAgent: string, parseFloat: string -> Option<real>)
    ensures LastDelay(ds, userAgent, parseFloat).Some? ==>
              exists i :: && DelayLine(ds, i, userAgent, parseFloat)
                          && parseFloat(ds[i].value) == LastDelay(ds, userAgent, parseFloat)
                          && forall j :: i < j < |ds| ==> !DelayLine(ds, j, userAgent, parseFloat)
  {
    if ds != [] {
      var before := ds[..|ds| - 1];
      var n := |ds| - 1;
      LastDelayUnfold(ds, userAgent, parseFloat);
      if DelayLine(ds, n, userAgent, parseFloat) {
        assert parseFloat(ds[n].value) == LastDelay(ds, userAgent, parseFloat);
      } else if LastDelay(before, userAgent, parseFloat).Some? {
        LastDelayIsLast(before, userAgent, parseFloat);
        var i :| && DelayLine(before, i, userAgent, parseFloat)
                 && parseFloat(before[i].value) == LastDelay(before, userAgent, parseFloat)
                 && forall j :: i < j < n ==> !DelayLine(before, j, userAgent, parseFloat);
        DelayLineOfPrefix(ds, i, userAgent, parseFloat);
        forall j | i < j < |ds| ensures !DelayLine(ds, j, userAgent, parseFloat) {
          if j < n {
            DelayLineOfPrefix(ds, j, userAgent, parseFloat);
          }
        }
        assert ds[i] == before[i];
      }
    }
  }

  // -------------------------------------------------------- sitemap lines

  /**
   * A `Sitemap:` line inside a matching group is lost: the branch that
   * records sitemaps is only reached when the current group does not match.
   */
  lemma SitemapInMatchingGroupIsDropped(before: seq<Directive>, url: string, userAgent: string,
                                        parseFloat: string -> Option<real>)
    requires Matches(AgentOf(before), userAgent)
    ensures RulesOf(before + [Directive(Sitemap, url)], userAgent, parseFloat).sitemaps ==
            RulesOf(before, userAgent, parseFloat).sitemaps
  {
    CollectStep(before, Directive(Sitemap, url), userAgent, Sitemap);
  }

  /** A file of two lines has the directives of those two lines. */
  lemma TwoLineDirectives(first: string, second: string)
    requires '\n' !in first && '\n' !in second
    ensures Directives(first + ['\n'] + second) == [Classify(Strip(first)), Classify(Strip(second))]
  {
    var content := first + ['\n'] + second;
    SplitAtSeparator(first, '\n', second);
    SplitWithoutSeparator(second, '\n');
    var lines := Split(content, '\n');
    assert lines == [first, second];
    assert content != "" by {
      assert content[|first|] == '\n';
    }
    var ds := Directives(content);
    assert |ds| == 2;
    assert ds[0] == Classify(Strip(first));
    assert ds[1] == Classify(Strip(second));
  }

  /** The line `User-agent: *` opens the group of every agent. */
  lemma StarAgentLine(line: string)
    requires line == "User-agent: *"
    ensures Classify(Strip(line)) == Directive(UserAgent, "*")
  {
    StripTrimmed(line);
    StarAgentValue(line);
    StarAgentKind(line);
  }

  lemma StarAgentValue(line: string)
    requires line == "User-agent: *"
    ensures Strip(After(line, ':')) == "*"
  {
    assert ':' !in line[..10];
    SplitOnceAt(line, ':', 10);
    StripSpaceStar(line[11..]);
  }

  lemma StripSpaceStar(t: string)
    requires t == " *"
    ensures Strip(t) == "*"
  {
    assert t[1..] == "*";
    assert LStrip(t) == "*";
    StripTrimmed("*");
  }

  lemma StarAgentKind(line: string)
    requires line == "User-agent: *"
    ensures StartsWith(Lower(line), "user-agent:")
  {
    assert Lower(line)[..11] == "user-agent:";
  }

  /** The two lines of the example file hold no line break. */
  lemma ExampleLinesAreSingle(first: string, second: string)
    requires first == "User-agent: *" && second == "Sitemap: /s.xml"
    ensures '\n' !in first && '\n' !in second
  {
  }

  /** A file whose first line opens the group of every agent keeps no sitemap from its second line. */
  lemma StarGroupDropsSecondLine(first: string, second: string, userAgent: string,
                                 parseFloat: string -> Option<real>)
    requires '\n' !in first && '\n' !in second
    requires Classify(Strip(first)) == Directive(UserAgent, "*")
    ensures Rules(first + ['\n'] + second, userAgent, parseFloat).sitemaps == []
  {
    TwoLineDirectives(first, second);
    StarGroupDropsSitemap(Directives(first + ['\n'] + second), userAgent);
  }

  /** Two directives of which the first opens the group of every agent collect no sitemap. */
  lemma StarGroupDropsSitemap(ds: seq<Directive>, userAgent: string)
    requires |ds| == 2 && ds[0] == Directive(UserAgent, "*")
    ensures Collect(ds, userAgent, Sitemap) == []
  {
    assert ds[..1] == [ds[0]];
    assert AgentOf(ds[..1]) == Some("*");
    assert Collect(ds[..1], userAgent, Sitemap) == [];
  }

  /** The file `User-agent: *` / `Sitemap: /s.xml` yields no sitemap. */
  lemma SitemapAfterStarGroupIsDropped(userAgent: string, parseFloat: string -> Option<real>)
    ensures Rules("User-agent: *" + "\n" + "Sitemap: /s.xml", userAgent, parseFloat).sitemaps == []
  {
    var first, second := "User-agent: *", "Sitemap: /s.xml";
    StarAgentLine(first);
    ExampleLinesAreSingle(first, second);
    StarGroupDropsSecondLine(first, second, userAgent, parseFloat);
  }

  /** Every non-empty `Sitemap:` value of the file, wherever it stands, in file order. */
  function AllSitemaps(ds: seq<Directive>): seq<string>
  {
    if ds == [] then []
    else
      var d := ds[|ds| - 1];
      AllSitemaps(ds[..|ds| - 1]) + (if d.kind == Sitemap && d.value != "" then [d.value] else [])
  }

  /** The rules as evidently intended: sitemaps are recorded whatever group they stand in. */
  function IntendedRules(content: string, userAgent: string, parseFloat: string -> Option<real>): RobotsRules
  {
    Rules(content, userAgent, parseFloat).(sitemaps := AllSitemaps(Directives(content)))
  }

  lemma {:induction false} AllSitemapsMembership(ds: seq<Directive>, v: string)
    ensures v in AllSitemaps(ds) <==> v != "" && exists i :: 0 <= i < |ds| && ds[i] == Directive(Sitemap, v)
  {
    if ds != [] {
      var before := ds[..|ds| - 1];
      AllSitemapsMembership(before, v);
      if v != "" && exists i :: 0 <= i < |ds| && ds[i] == Directive(Sitemap, v) {
        var i :| 0 <= i < |ds| && ds[i] == Directive(Sitemap, v);
        if i < |before| {
          assert before[i] == ds[i];
        }
      }
      if v in AllSitemaps(before) {
        var i :| 0 <= i < |before| && before[i] == Directive(Sitemap, v);
        assert ds[i] == before[i];
      }
    }
  }

  /**
   * Under the intended rules every non-empty `Sitemap:` line is recorded,
   * also inside a matching group, while the other rules are those of the
   * code as written.
   */
  lemma IntendedRulesKeepEverySitemap(content: string, userAgent: string, parseFloat: string -> Option<real>)
    ensures var ds := Directives(content);
            var r := IntendedRules(content, userAgent, parseFloat);
            && (forall v :: v in r.sitemaps <==> v != "" && exists i :: 0 <= i < |ds| && ds[i] == Directive(Sitemap, v))
            && r.allowed == Rules(content, userAgent, parseFloat).allowed
            && r.disallowed == Rules(content, userAgent, parseFloat).disallowed
  {
    forall v ensures v in AllSitemaps(Directives(content)) <==>
                     v != "" && exists i :: 0 <= i < |Directives(content)| && Directives(content)[i] == Directive(Sitemap, v) {
      AllSitemapsMembership(Directives(content), v);
    }
  }
}
