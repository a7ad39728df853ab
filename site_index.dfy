/**
 * SiteIndexMojo's rewriting of a Markdown README into a site index: links
 * into the project's own site are made relative, and badges are removed.
 * Every pass is a regex splice loop over one of the patterns of SiteMatch:
 * a StringBuilder, a forward-only cursor `index`, `Matcher.find()` from the
 * cursor, one cut per match, and the tail appended last.
 */
module SiteIndex {
  import opened Strings
  import opened Splice
  import opened SiteMatch

  // ------------------------------------------------------------------
  // StringUtils.isBlank
  // ------------------------------------------------------------------

  /** Character.isWhitespace: the Unicode separators other than the no-break ones, and the ASCII controls TAB..CR and FS..US. */
  predicate IsWhitespace(c: char)
  {
    || c == ' ' || '\t' <= c <= '\r' || '\U{1C}' <= c <= '\U{1F}'
    || c == '\U{1680}' || '\U{2000}' <= c <= '\U{2006}' || '\U{2008}' <= c <= '\U{200A}'
    || c == '\U{2028}' || c == '\U{2029}' || c == '\U{205F}' || c == '\U{3000}'
  }

  /** A missing (null), empty or whitespace-only string. */
  predicate IsBlank(s: Option<string>)
  {
    s.None? || forall i :: 0 <= i < |s.value| ==> IsWhitespace(s.value[i])
  }

  /**
   * Blankness is about the characters alone: a text is blank exactly when both
   * of its halves are, the empty text is blank, and a text with one character
   * that is not whitespace (the no-break spaces included) is not.
   */
  lemma {:induction false} BlankHalves(a: string, b: string)
    ensures IsBlank(Some(a + b)) <==> IsBlank(Some(a)) && IsBlank(Some(b))
    ensures IsBlank(Some("")) && IsBlank(Some(" \t\n\r"))
    ensures !IsBlank(Some("\U{A0}")) && !IsBlank(Some("\U{2007}")) && !IsBlank(Some("\U{202F}"))
  {
    assert !IsWhitespace("\U{A0}"[0]) && !IsWhitespace("\U{2007}"[0]) && !IsWhitespace("\U{202F}"[0]);
    if IsBlank(Some(a)) && IsBlank(Some(b)) {
      forall i | 0 <= i < |a + b| ensures IsWhitespace((a + b)[i]) {
        if i >= |a| {
          assert (a + b)[i] == b[i - |a|];
        }
      }
    }
    if IsBlank(Some(a + b)) {
      forall i | 0 <= i < |b| ensures IsWhitespace(b[i]) {
        assert (a + b)[|a| + i] == b[i];
      }
      forall i | 0 <= i < |a| ensures IsWhitespace(a[i]) {
        assert (a + b)[i] == a[i];
      }
    }
  }

  // ------------------------------------------------------------------
  // Matcher.find() and the matches one loop visits
  // ------------------------------------------------------------------

  /**
   * `find()` with the cursor at `from`: the match at the first offset from
   * `from` on where the pass's pattern matches.
   */
  function FindHit(content: string, rule: Rule, from: nat): (r: Option<Hit>)
    requires from <= |content|
    decreases |content| - from
    ensures r.Some? ==> from <= r.value.start <= |content| && HitAt(content, rule, r.value.start) == r
    ensures forall q :: from <= q <= |content| && (r.None? || q < r.value.start) ==> HitAt(content, rule, q).None?
  {
    var here := HitAt(content, rule, from);
    if here.Some? then here
    else if from == |content| then None
    else FindHit(content, rule, from + 1)
  }

  /** The matches the loop visits with its cursor starting at `from`, in order. */
  function Hits(content: string, rule: Rule, from: nat): (r: seq<Hit>)
    requires from <= |content|
    decreases |content| - from
  {
    match FindHit(content, rule, from)
    case None => []
    case Some(h) => [h] + Hits(content, rule, h.end)
  }

  /** What each match drops, as a splice edit that puts nothing in. */
  function Cuts(hits: seq<Hit>): (r: seq<Edit>)
    ensures |r| == |hits|
  {
    if hits == [] then [] else [Edit(hits[0].cutFrom, hits[0].cutTo, [])] + Cuts(hits[1..])
  }

  /** The debug lines of the matches, in order. */
  function Events(hits: seq<Hit>): (r: seq<Event>)
    ensures |r| == |hits|
  {
    if hits == [] then [] else [hits[0].event] + Events(hits[1..])
  }

  /** Every match the loop visits is the pattern's match at its own start, and they follow one another. */
  lemma {:induction false} HitsMatch(content: string, rule: Rule, from: nat)
    requires from <= |content|
    ensures forall k :: 0 <= k < |Hits(content, rule, from)| ==>
      var h := Hits(content, rule, from)[k];
      from <= h.start && Placed(h, h.start, |content|) && HitAt(content, rule, h.start) == Some(h)
    ensures forall k :: 0 < k < |Hits(content, rule, from)| ==>
      Hits(content, rule, from)[k - 1].end <= Hits(content, rule, from)[k].start
    decreases |content| - from
  {
    match FindHit(content, rule, from)
    case None =>
    case Some(h) =>
      var rest := Hits(content, rule, h.end);
      assert Hits(content, rule, from) == [h] + rest;
      HitsMatch(content, rule, h.end);
      ChainCons(content, rule, from, h, rest);
  }

  /** Matches that each sit at their own start, in order from `from`. */
  ghost predicate Chained(content: string, rule: Rule, from: nat, hs: seq<Hit>)
  {
    && (forall k :: 0 <= k < |hs| ==>
          from <= hs[k].start && Placed(hs[k], hs[k].start, |content|) && HitAt(content, rule, hs[k].start) == Some(hs[k]))
    && (forall k :: 0 < k < |hs| ==> hs[k - 1].end <= hs[k].start)
  }

  lemma {:induction false} ChainCons(content: string, rule: Rule, from: nat, h: Hit, rest: seq<Hit>)
    requires from <= h.start && Placed(h, h.start, |content|) && HitAt(content, rule, h.start) == Some(h)
    requires Chained(content, rule, h.end, rest)
    ensures Chained(content, rule, from, [h] + rest)
  {
    var hs := [h] + rest;
    forall k | 0 <= k < |hs|
      ensures from <= hs[k].start && Placed(hs[k], hs[k].start, |content|) && HitAt(content, rule, hs[k].start) == Some(hs[k])
    {
      if k > 0 {
        assert hs[k] == rest[k - 1];
      }
    }
    forall k | 0 < k < |hs| ensures hs[k - 1].end <= hs[k].start {
      assert hs[k] == rest[k - 1];
      if k > 1 {
        assert hs[k - 1] == rest[k - 2];
      }
    }
  }

  /** No offset between two visited matches, or after the last, holds a match: find() skips nothing. */
  lemma {:induction false} HitsSkipNothing(content: string, rule: Rule, from: nat, q: nat)
    requires from <= q <= |content|
    requires Avoids(Hits(content, rule, from), q)
    ensures HitAt(content, rule, q).None?
    decreases |content| - from
  {
    match FindHit(content, rule, from)
    case None =>
    case Some(h) =>
      var rest := Hits(content, rule, h.end);
      assert Hits(content, rule, from) == [h] + rest;
      AvoidsCons(h, rest, q);
      if h.start < q {
        HitsSkipNothing(content, rule, h.end, q);
      }
  }

  /** No match in `hs` starts at `q` or spans it. */
  ghost predicate Avoids(hs: seq<Hit>, q: nat)
  {
    forall k :: 0 <= k < |hs| ==> hs[k].start != q && !(hs[k].start < q < hs[k].end)
  }

  lemma {:induction false} AvoidsCons(h: Hit, rest: seq<Hit>, q: nat)
    requires Avoids([h] + rest, q)
    ensures h.start != q && !(h.start < q < h.end) && Avoids(rest, q)
  {
    var hs := [h] + rest;
    assert hs[0] == h;
    forall k | 0 <= k < |rest| ensures rest[k].start != q && !(rest[k].start < q < rest[k].end) {
      assert rest[k] == hs[k + 1];
    }
  }

  /** The cuts of the visited matches lie in order after the cursor, inside the input. */
  lemma {:induction false} HitsFit(content: string, rule: Rule, from: nat)
    requires from <= |content|
    ensures Fits(Cuts(Hits(content, rule, from)), from, |content|)
    ensures Deletions(Cuts(Hits(content, rule, from)))
    decreases |content| - from
  {
    var hs := Hits(content, rule, from);
    match FindHit(content, rule, from)
    case None =>
    case Some(h) =>
      var rest := Hits(content, rule, h.end);
      assert hs == [h] + rest && hs[1..] == rest;
      HitsFit(content, rule, h.end);
      FitsEarlier(Cuts(rest), h.cutTo, h.end, |content|);
      var cs := Cuts(hs);
      assert cs == [Edit(h.cutFrom, h.cutTo, [])] + Cuts(rest);
      assert cs[1..] == Cuts(rest);
      forall k | 0 <= k < |cs| ensures cs[k].insert == [] {
        if k > 0 {
          assert cs[k] == Cuts(rest)[k - 1];
        }
      }
  }

  /** The output of one pass: the input with the cut of every visited match left out. */
  function Rewritten(content: string, rule: Rule): (r: string)
  {
    HitsFit(content, rule, 0);
    Apply(content, Cuts(Hits(content, rule, 0)), 0)
  }

  /** The debug lines one pass logs. */
  function Logged(content: string, rule: Rule): (r: seq<Event>)
  {
    Events(Hits(content, rule, 0))
  }

  // ------------------------------------------------------------------
  // The splice loop
  // ------------------------------------------------------------------

  /** What the loop still has to append and log with its cursor at `index`. */
  ghost function Pending(content: string, rule: Rule, index: nat): (string, seq<Event>)
    requires index <= |content|
  {
    var hs := Hits(content, rule, index);
    HitsFit(content, rule, index);
    (Apply(content, Cuts(hs), index), Events(hs))
  }

  /** The loop copies the gap before a cut and the rest of its match, then carries on from the match end. */
  lemma {:induction false} CutsStep(content: string, h: Hit, rest: seq<Hit>, index: nat)
    requires index <= h.cutFrom <= h.cutTo <= h.end <= |content|
    requires Fits(Cuts(rest), h.end, |content|)
    ensures Fits(Cuts([h] + rest), index, |content|)
    ensures Apply(content, Cuts([h] + rest), index)
         == content[index..h.cutFrom] + content[h.cutTo..h.end] + Apply(content, Cuts(rest), h.end)
    ensures Events([h] + rest) == [h.event] + Events(rest)
  {
    var hs := [h] + rest;
    assert hs[0] == h && hs[1..] == rest;
    var es := Cuts(rest);
    assert Cuts(hs) == [Edit(h.cutFrom, h.cutTo, [])] + es;
    FitsEarlier(es, h.cutTo, h.end, |content|);
    ApplyEarlier(content, es, h.cutTo, h.end);
    Associative(content[index..h.cutFrom], [], content[h.cutTo..h.end], Apply(content, es, h.end));
  }

  /** The matches visited from a cursor: the one find() returns, then those from its end. */
  lemma {:induction false} HitsStep(content: string, rule: Rule, index: nat)
    requires index <= |content|
    ensures FindHit(content, rule, index).None? ==> Hits(content, rule, index) == []
    ensures FindHit(content, rule, index).Some? ==>
      var h := FindHit(content, rule, index).value;
      && index <= h.cutFrom <= h.cutTo <= h.end <= |content| && index < h.end
      && Hits(content, rule, index) == [h] + Hits(content, rule, h.end)
  {
  }

  /** One turn of the loop, or its exit when find() fails. */
  lemma {:induction false} PendingStep(content: string, rule: Rule, index: nat)
    requires index <= |content|
    ensures FindHit(content, rule, index).None? ==> Pending(content, rule, index) == (content[index..], [])
    ensures FindHit(content, rule, index).Some? ==>
      var h := FindHit(content, rule, index).value;
      && index <= h.cutFrom <= h.cutTo <= h.end <= |content| && index < h.end
      && Pending(content, rule, index).0
         == content[index..h.cutFrom] + content[h.cutTo..h.end] + Pending(content, rule, h.end).0
      && Pending(content, rule, index).1 == [h.event] + Pending(content, rule, h.end).1
  {
    HitsStep(content, rule, index);
    var f := FindHit(content, rule, index);
    if f.Some? {
      var h := f.value;
      HitsFit(content, rule, h.end);
      CutsStep(content, h, Hits(content, rule, h.end), index);
    }
  }

  /**
   * The loop of removeProjectUrl, removeBadgesWithLink and
   * removeBadgesWithoutLink: copy up to the cut, copy from the cut's end to
   * the match end, log the match, move the cursor to the match end.
   */
  method Rewrite(content: string, rule: Rule) returns (result: string, events: seq<Event>)
    ensures result == Rewritten(content, rule) && events == Logged(content, rule)
  {
    result, events := "", [];
    var index: nat := 0;
    var found := FindHit(content, rule, 0);
    while found.Some?
      invariant index <= |content| && found == FindHit(content, rule, index)
      invariant Progress(content, rule, index, result, events)
      decreases |content| - index
    {
      var h := found.value;
      LoopStep(content, rule, index, result, events, h);
      result := result + content[index..h.cutFrom];
      result := result + content[h.cutTo..h.end];
      events := events + [h.event];
      index := h.end;
      found := FindHit(content, rule, index);
    }
    LoopExit(content, rule, index, result, events);
    result := result + content[index..];
  }

  /** What the loop has appended and logged, followed by what is pending, is the whole output and log. */
  ghost predicate Progress(content: string, rule: Rule, index: nat, result: string, events: seq<Event>)
    requires index <= |content|
  {
    && result + Pending(content, rule, index).0 == Pending(content, rule, 0).0
    && events + Pending(content, rule, index).1 == Pending(content, rule, 0).1
  }

  /** One turn of the loop keeps what is done and what is pending adding up to the whole. */
  lemma {:induction false} LoopStep(content: string, rule: Rule, index: nat, result: string, events: seq<Event>, h: Hit)
    requires index <= |content| && FindHit(content, rule, index) == Some(h)
    requires Progress(content, rule, index, result, events)
    ensures index <= h.cutFrom <= h.cutTo <= h.end <= |content| && index < h.end
    ensures Progress(content, rule, h.end, result + content[index..h.cutFrom] + content[h.cutTo..h.end], events + [h.event])
  {
    PendingStep(content, rule, index);
    var whole := Pending(content, rule, 0);
    var here := Pending(content, rule, index);
    var rest := Pending(content, rule, h.end);
    Regroup(result, content[index..h.cutFrom], content[h.cutTo..h.end], rest.0, here.0, whole.0);
    RegroupLog(events, [h.event], rest.1, here.1, whole.1);
  }

  /** When find() fails, the tail completes the output, and the log is complete. */
  lemma {:induction false} LoopExit(content: string, rule: Rule, index: nat, result: string, events: seq<Event>)
    requires index <= |content| && FindHit(content, rule, index).None?
    requires Progress(content, rule, index, result, events)
    ensures result + content[index..] == Rewritten(content, rule) && events == Logged(content, rule)
  {
    PendingStep(content, rule, index);
    assert Pending(content, rule, 0) == (Rewritten(content, rule), Logged(content, rule));
  }

  /** Appending the pieces of what was pending leaves the same whole. */
  lemma {:induction false} Regroup(done: string, gap: string, kept: string, rest: string, pending: string, whole: string)
    requires pending == gap + kept + rest && done + pending == whole
    ensures done + gap + kept + rest == whole
  {
  }

  lemma {:induction false} RegroupLog(done: seq<Event>, line: seq<Event>, rest: seq<Event>, pending: seq<Event>, whole: seq<Event>)
    requires pending == line + rest && done + pending == whole
    ensures done + line + rest == whole
  {
  }

  // ------------------------------------------------------------------
  // What one pass does
  // ------------------------------------------------------------------

  /** A pass only cuts: the output is the input less the cut characters. */
  lemma {:induction false} RewrittenLength(content: string, rule: Rule)
    ensures Fits(Cuts(Hits(content, rule, 0)), 0, |content|)
    ensures |Rewritten(content, rule)| == |content| - Removed(Cuts(Hits(content, rule, 0)))
    ensures |Rewritten(content, rule)| <= |content|
  {
    HitsFit(content, rule, 0);
    DeletionsShorten(content, Cuts(Hits(content, rule, 0)), 0);
  }

  /** Putting back what every cut dropped gives the input: the copied gaps and the cuts partition it. */
  lemma {:induction false} RewrittenRestores(content: string, rule: Rule)
    ensures Fits(Cuts(Hits(content, rule, 0)), 0, |content|)
    ensures var cs := Cuts(Hits(content, rule, 0));
      Apply(content, Restore(content, cs, 0), 0) == content
  {
    HitsFit(content, rule, 0);
    ApplyRestore(content, Cuts(Hits(content, rule, 0)), 0);
  }

  /** Where the pattern matches nowhere, the pass returns its input and logs nothing. */
  lemma {:induction false} RewrittenUnchanged(content: string, rule: Rule)
    requires forall q :: 0 <= q <= |content| ==> HitAt(content, rule, q).None?
    ensures Rewritten(content, rule) == content && Logged(content, rule) == []
  {
    assert FindHit(content, rule, 0).None?;
    assert Hits(content, rule, 0) == [];
    assert content[0..] == content;
  }

  /** ... and wherever it matches, the pass logs the first match and drops its cut. */
  lemma {:induction false} RewrittenFirst(content: string, rule: Rule, p: nat)
    requires p <= |content| && HitAt(content, rule, p).Some?
    requires forall q :: 0 <= q < p ==> HitAt(content, rule, q).None?
    ensures var h := HitAt(content, rule, p).value;
      && |Logged(content, rule)| > 0 && Logged(content, rule)[0] == h.event
      && Rewritten(content, rule)[..h.cutFrom] == content[..h.cutFrom]
  {
    var h := HitAt(content, rule, p).value;
    var f := FindHit(content, rule, 0);
    assert f.Some? && f.value.start == p;
    assert f.value == h;
    var hs := Hits(content, rule, 0);
    assert hs == [h] + Hits(content, rule, h.end) && hs[0] == h;
    PendingStep(content, rule, 0);
    assert Pending(content, rule, 0).0 == Rewritten(content, rule);
    assert Rewritten(content, rule)[..h.cutFrom] == content[0..h.cutFrom];
  }

  // ------------------------------------------------------------------
  // removeProjectUrl
  // ------------------------------------------------------------------

  /** removeProjectUrl as a function of its inputs: a blank project URL leaves the content as it is. */
  function RelativizedLinks(content: string, projectUrl: Option<string>): (r: string)
  {
    if IsBlank(projectUrl) then content else Rewritten(content, ProjectUrl(projectUrl.value))
  }

  function RelativizedLog(content: string, projectUrl: Option<string>): (r: seq<Event>)
  {
    if IsBlank(projectUrl) then [] else Logged(content, ProjectUrl(projectUrl.value))
  }

  method RemoveProjectUrl(content: string, projectUrl: Option<string>) returns (result: string, events: seq<Event>)
    ensures result == RelativizedLinks(content, projectUrl) && events == RelativizedLog(content, projectUrl)
  {
    if IsBlank(projectUrl) {
      return content, [];
    }
    result, events := Rewrite(content, ProjectUrl(projectUrl.value));
  }

  /**
   * Every match of the project-URL pass is a link `[text](u + relative)`
   * whose `u` is the part cut; the debug line names the whole URL and the
   * relative part.
   */
  lemma {:induction false} ProjectUrlPassCuts(content: string, u: string, k: nat)
    requires k < |Hits(content, ProjectUrl(u), 0)|
    ensures ProjectUrlCutBy(content, u, Hits(content, ProjectUrl(u), 0)[k])
  {
    var h := Hits(content, ProjectUrl(u), 0)[k];
    HitsMatch(content, ProjectUrl(u), 0);
    ProjectUrlMatchCuts(content, u, h);
  }

  /** The match `h` drops `u` right after the `[text](` of a project-URL link it is the whole of. */
  ghost predicate ProjectUrlCutBy(content: string, u: string, h: Hit)
  {
    && h.event.RemovedProjectUrl? && h.start + 3 <= h.cutFrom <= h.cutTo <= |content|
    && var text := content[h.start + 1..h.cutFrom - 2];
    && ProjectUrlLinkAt(content, u, h.start, text, h.event.relative)
    && h == ProjectUrlHit(h.start, text, u, h.event.relative)
    && content[h.cutFrom..h.cutTo] == u
  }

  lemma {:induction false} ProjectUrlMatchCuts(content: string, u: string, h: Hit)
    requires h.start <= |content| && ProjectUrlHitAt(content, u, h.start) == Some(h)
    ensures ProjectUrlCutBy(content, u, h)
  {
    ProjectUrlHitSound(content, u, h.start);
    var text := content[h.start + 1..h.cutFrom - 2];
    ProjectUrlCut(content, u, h.start, text, h.event.relative);
  }

  /** The project URL sits right after `[text](`. */
  lemma {:induction false} ProjectUrlCut(content: string, u: string, p: nat, text: string, relative: string)
    requires ProjectUrlLinkAt(content, u, p, text, relative)
    ensures var h := ProjectUrlHit(p, text, u, relative);
      h.cutTo <= |content| && content[h.cutFrom..h.cutTo] == u
  {
    var cut := p + |text| + 2;
    ProjectUrlSpelling(u, text, relative);
    StartsAtSplit(content, p, cut, "[" + text + "]", "(" + (u + relative) + ")");
    assert "(" + (u + relative) + ")" == "(" + (u + (relative + ")"));
    StartsAtSplit(content, cut, cut + 1, "(", u + (relative + ")"));
    StartsAtSplit(content, cut + 1, cut + 1 + |u|, u, relative + ")");
    StartsAtSlice(content, cut + 1, u);
  }

  // ------------------------------------------------------------------
  // removeBadges
  // ------------------------------------------------------------------

  /** The four passes of removeBadges(content, badgePattern), in the order the source runs them. */
  function BadgePasses(pattern: iset<string>): (r: seq<Rule>)
    ensures |r| == 4 && forall k :: 0 <= k < 4 ==> r[k].Badge? && r[k].pattern == pattern
  {
    [ Badge(pattern, true, InLine), Badge(pattern, false, InLine),
      Badge(pattern, true, OwnLine), Badge(pattern, false, OwnLine) ]
  }

  /** Passes run one after another, each on the output of the one before. */
  function RunPasses(content: string, rules: seq<Rule>): (r: string)
    decreases |rules|
  {
    if rules == [] then content else RunPasses(Rewritten(content, rules[0]), rules[1..])
  }

  function RunPassesLog(content: string, rules: seq<Rule>): (r: seq<Event>)
    decreases |rules|
  {
    if rules == [] then [] else Logged(content, rules[0]) + RunPassesLog(Rewritten(content, rules[0]), rules[1..])
  }

  /** removeBadges over every configured pattern, in order. */
  function BadgesRemoved(content: string, patterns: seq<iset<string>>): (r: string)
    decreases |patterns|
  {
    if patterns == [] then content else BadgesRemoved(RunPasses(content, BadgePasses(patterns[0])), patterns[1..])
  }

  function BadgesRemovedLog(content: string, patterns: seq<iset<string>>): (r: seq<Event>)
    decreases |patterns|
  {
    if patterns == [] then []
    else RunPassesLog(content, BadgePasses(patterns[0])) + BadgesRemovedLog(RunPasses(content, BadgePasses(patterns[0])), patterns[1..])
  }

  /** removeBadges(content, badgePattern): linked badges after a space, then unlinked ones, then whole lines of each. */
  method RemoveBadgesWithPattern(content: string, pattern: iset<string>) returns (result: string, events: seq<Event>)
    ensures result == RunPasses(content, BadgePasses(pattern))
    ensures events == RunPassesLog(content, BadgePasses(pattern))
  {
    var passes := BadgePasses(pattern);
    var r0, e0 := Rewrite(content, passes[0]);
    var r1, e1 := Rewrite(r0, passes[1]);
    var r2, e2 := Rewrite(r1, passes[2]);
    var r3, e3 := Rewrite(r2, passes[3]);
    result, events := r3, e0 + (e1 + (e2 + e3));
    RunFourPasses(content, passes);
  }

  /** Four passes, spelled out one after the other. */
  lemma {:induction false} RunFourPasses(content: string, rules: seq<Rule>)
    requires |rules| == 4
    ensures var r0 := Rewritten(content, rules[0]);
      var r1 := Rewritten(r0, rules[1]);
      var r2 := Rewritten(r1, rules[2]);
      && RunPasses(content, rules) == Rewritten(r2, rules[3])
      && RunPassesLog(content, rules)
         == Logged(content, rules[0]) + (Logged(r0, rules[1]) + (Logged(r1, rules[2]) + Logged(r2, rules[3])))
  {
    var r0 := Rewritten(content, rules[0]);
    var r1 := Rewritten(r0, rules[1]);
    var r2 := Rewritten(r1, rules[2]);
    var t1, t2, t3 := rules[1..], rules[2..], rules[3..];
    assert t1[0] == rules[1] && t1[1..] == t2;
    assert t2[0] == rules[2] && t2[1..] == t3;
    assert t3[0] == rules[3] && t3[1..] == [];
    RunPassesStep(content, rules);
    RunPassesStep(r0, t1);
    RunPassesStep(r1, t2);
    RunPassesStep(r2, t3);
    var r3 := Rewritten(r2, rules[3]);
    assert RunPasses(r3, []) == r3 && RunPassesLog(r3, []) == [];
    var l3 := Logged(r2, rules[3]);
    assert l3 + [] == l3;
  }

  lemma {:induction false} RunPassesStep(content: string, rules: seq<Rule>)
    requires rules != []
    ensures RunPasses(content, rules) == RunPasses(Rewritten(content, rules[0]), rules[1..])
    ensures RunPassesLog(content, rules) == Logged(content, rules[0]) + RunPassesLog(Rewritten(content, rules[0]), rules[1..])
  {
  }

  /**
   * removeBadges(content): every configured pattern in turn. Maven leaves the
   * array null when no pattern is configured, and the for-each loop then
   * throws a NullPointerException (None).
   */
  method RemoveBadges(content: string, patterns: Option<seq<iset<string>>>) returns (result: Option<string>, events: seq<Event>)
    ensures patterns.None? ==> result.None? && events == []
    ensures patterns.Some? ==> result == Some(BadgesRemoved(content, patterns.value))
    ensures patterns.Some? ==> events == BadgesRemovedLog(content, patterns.value)
  {
    if patterns.None? {
      return None, [];
    }
    var all := patterns.value;
    var text := content;
    events := [];
    var i := 0;
    while i < |all|
      invariant i <= |all|
      invariant BadgesRemoved(text, all[i..]) == BadgesRemoved(content, all)
      invariant events + BadgesRemovedLog(text, all[i..]) == BadgesRemovedLog(content, all)
    {
      assert all[i..][0] == all[i] && all[i..][1..] == all[i + 1..];
      var r, e := RemoveBadgesWithPattern(text, all[i]);
      text, events := r, events + e;
      i := i + 1;
    }
    result := Some(text);
  }

  lemma {:induction false} RunPassesShorten(content: string, rules: seq<Rule>)
    ensures |RunPasses(content, rules)| <= |content|
    decreases |rules|
  {
    if rules != [] {
      RewrittenLength(content, rules[0]);
      RunPassesShorten(Rewritten(content, rules[0]), rules[1..]);
    }
  }

  lemma {:induction false} BadgesRemovedShorten(content: string, patterns: seq<iset<string>>)
    ensures |BadgesRemoved(content, patterns)| <= |content|
    decreases |patterns|
  {
    if patterns != [] {
      RunPassesShorten(content, BadgePasses(patterns[0]));
      BadgesRemovedShorten(RunPasses(content, BadgePasses(patterns[0])), patterns[1..]);
    }
  }

  /** A badge pass that finds a match makes the text strictly shorter: the whole match is cut. */
  lemma {:induction false} BadgePassShortens(content: string, pattern: iset<string>, linked: bool, placement: Placement)
    requires Hits(content, Badge(pattern, linked, placement), 0) != []
    ensures |Rewritten(content, Badge(pattern, linked, placement))| < |content|
  {
    var rule := Badge(pattern, linked, placement);
    var hs := Hits(content, rule, 0);
    HitsMatch(content, rule, 0);
    HitsFit(content, rule, 0);
    var h := hs[0];
    BadgeHitSound(content, pattern, linked, placement, h.start);
    var text, url, link :| BadgeAt(content, pattern, linked, placement, h.start, text, url, link)
      && BadgeHitAt(content, pattern, linked, placement, h.start) == Some(BadgeHit(content, placement, linked, h.start, text, url, link));
    var rest := Hits(content, rule, h.end);
    assert hs == [h] + rest && hs[1..] == rest;
    var cs := Cuts(hs);
    assert cs == [Edit(h.cutFrom, h.cutTo, [])] + Cuts(rest) && cs[1..] == Cuts(rest);
    HitsFit(content, rule, h.end);
    FitsEarlier(Cuts(rest), h.cutTo, h.end, |content|);
    DeletionsShorten(content, Cuts(rest), h.cutTo);
    RewrittenLength(content, rule);
  }

  /** Every match of a badge pass is a badge the pattern accepts, cut whole with its lead-in and line break. */
  lemma {:induction false} BadgePassCuts(content: string, pattern: iset<string>, linked: bool, placement: Placement, k: nat)
    requires k < |Hits(content, Badge(pattern, linked, placement), 0)|
    ensures var h := Hits(content, Badge(pattern, linked, placement), 0)[k];
      exists text, url, link ::
        && BadgeAt(content, pattern, linked, placement, h.start, text, url, link)
        && h == BadgeHit(content, placement, linked, h.start, text, url, link)
        && content[h.cutFrom..h.cutTo] == BadgeText(content, placement, linked, h.start, text, url, link)
  {
    var h := Hits(content, Badge(pattern, linked, placement), 0)[k];
    HitsMatch(content, Badge(pattern, linked, placement), 0);
    assert BadgeHitAt(content, pattern, linked, placement, h.start) == Some(h);
    BadgeHitSound(content, pattern, linked, placement, h.start);
    var text, url, link :| BadgeAt(content, pattern, linked, placement, h.start, text, url, link)
      && BadgeHitAt(content, pattern, linked, placement, h.start) == Some(BadgeHit(content, placement, linked, h.start, text, url, link));
    BadgeTextCut(content, pattern, linked, placement, h.start, text, url, link);
  }

  /** An in-line badge match starts with a space, then `[!` when linked and `!` when not. */
  lemma {:induction false} InLineBadgeStart(content: string, pattern: iset<string>, linked: bool, p: nat)
    requires p <= |content| && BadgeHitAt(content, pattern, linked, InLine, p).Some?
    ensures p + 3 <= |content| && content[p] == ' '
    ensures if linked then content[p + 1] == '[' && content[p + 2] == '!' else content[p + 1] == '!'
  {
    BadgeHitSound(content, pattern, linked, InLine, p);
    var text, url, link :| BadgeAt(content, pattern, linked, InLine, p, text, url, link);
    var m := BadgeMarkup(linked, text, url, link);
    StartsAtSlice(content, p, " ");
    assert content[p..p + 1][0] == content[p];
    StartsAtSlice(content, p + 1, m);
    assert content[p + 1..p + 1 + |m|][0] == content[p + 1] && content[p + 1..p + 1 + |m|][1] == content[p + 2];
  }

  /** An own-line badge match needs a line feed after the badge. */
  lemma {:induction false} OwnLineBadgeEnd(content: string, pattern: iset<string>, linked: bool, p: nat)
    requires p <= |content| && BadgeHitAt(content, pattern, linked, OwnLine, p).Some?
    ensures '\n' in content
  {
    BadgeHitParts(content, pattern, linked, OwnLine, p);
    var e := BadgeBody(content, pattern, linked, p).value.end;
    assert LineEndAt(content, OwnLine, e);
    var eol := Eol(content, OwnLine, e);
    StartsAtSlice(content, e, eol);
    if e < |content| && content[e] == '\r' {
      assert content[e..e + 2][1] == content[e + 1] == '\n';
    } else {
      assert content[e..e + 1][0] == content[e] == '\n';
    }
  }

  /** A pass that matches nowhere from the cursor on visits nothing more. */
  lemma {:induction false} NoHitsFrom(content: string, rule: Rule, from: nat)
    requires from <= |content|
    requires forall q :: from <= q <= |content| ==> HitAt(content, rule, q).None?
    ensures Hits(content, rule, from) == []
  {
    if FindHit(content, rule, from).Some? {
      assert false;
    }
  }

  /** No character from `from` on is `c`. */
  lemma {:induction false} LacksFrom(s: string, c: char, from: nat)
    requires from <= |s| && c !in s[from..]
    ensures forall q :: from <= q < |s| ==> s[q] != c
  {
    forall q | from <= q < |s| ensures s[q] != c {
      assert s[from..][q - from] == s[q];
    }
  }

  /** Without a space no in-line badge matches, and without a line feed no own-line badge does: the pass changes nothing. */
  lemma {:induction false} BadgePassIdle(content: string, pattern: iset<string>, linked: bool, placement: Placement)
    requires placement.InLine? ==> ' ' !in content
    requires placement.OwnLine? ==> '\n' !in content
    ensures Rewritten(content, Badge(pattern, linked, placement)) == content
  {
    var rule := Badge(pattern, linked, placement);
    forall q | 0 <= q <= |content| ensures HitAt(content, rule, q).None? {
      if HitAt(content, rule, q).Some? {
        if placement.InLine? {
          InLineBadgeStart(content, pattern, linked, q);
        } else {
          OwnLineBadgeEnd(content, pattern, linked, q);
        }
        assert false;
      }
    }
    RewrittenUnchanged(content, rule);
  }

  /** An offset without a space and the badge's first characters after it holds no in-line badge. */
  lemma {:induction false} NoInLineBadge(content: string, pattern: iset<string>, linked: bool, p: nat)
    requires p <= |content|
    requires || p + 3 > |content| || content[p] != ' '
             || (linked && (content[p + 1] != '[' || content[p + 2] != '!'))
             || (!linked && content[p + 1] != '!')
    ensures BadgeHitAt(content, pattern, linked, InLine, p).None?
  {
    if BadgeHitAt(content, pattern, linked, InLine, p).Some? {
      InLineBadgeStart(content, pattern, linked, p);
      assert false;
    }
  }

  /** The first run of the counterexample below: the linked in-line pass finds nothing in ` [ ![a](u)![a](u)](l)`. */
  lemma {:induction false} NestedLinkedIdle(x: string, pattern: iset<string>)
    requires x == " [ ![a](u)![a](u)](l)"
    ensures Rewritten(x, Badge(pattern, true, InLine)) == x
  {
    var rule := Badge(pattern, true, InLine);
    LacksFrom(x, ' ', 3);
    forall q | 0 <= q <= |x| ensures HitAt(x, rule, q).None? {
      if q == 0 {
        NoInLineBadge(x, pattern, true, 0);
      } else if q == 1 {
        NoInLineBadge(x, pattern, true, 1);
      } else if q == 2 {
        NoInLineBadge(x, pattern, true, 2);
      } else {
        NoInLineBadge(x, pattern, true, q);
      }
    }
    RewrittenUnchanged(x, rule);
  }

  /** The plain in-line pass matches ` ![a](u)` at offset 2 of ` [ ![a](u)![a](u)](l)`, and cuts all eight characters. */
  lemma {:induction false} NestedPlainHit(x: string, pattern: iset<string>)
    requires x == " [ ![a](u)![a](u)](l)" && pattern == iset{"u"}
    ensures HitAt(x, Badge(pattern, false, InLine), 2) == Some(Hit(2, 2, 10, 10, RemovedBadgeWithoutLink("u", "a")))
  {
    var m := BadgeMarkup(false, "a", "u", "");
    StartsAtSlice(x, 3, m);
    assert x[3..10] == m;
    StartsAtSlice(x, 2, " ");
    assert x[2..3] == " ";
    BadgeHitComplete(x, pattern, false, InLine, 2, "a", "u", "");
  }

  /** ... which is the only match of that pass. */
  lemma {:induction false} NestedPlainHits(x: string, pattern: iset<string>)
    requires x == " [ ![a](u)![a](u)](l)" && pattern == iset{"u"}
    ensures Hits(x, Badge(pattern, false, InLine), 0) == [Hit(2, 2, 10, 10, RemovedBadgeWithoutLink("u", "a"))]
  {
    var rule := Badge(pattern, false, InLine);
    var h := Hit(2, 2, 10, 10, RemovedBadgeWithoutLink("u", "a"));
    NoInLineBadge(x, pattern, false, 0);
    NoInLineBadge(x, pattern, false, 1);
    NestedPlainHit(x, pattern);
    LacksFrom(x, ' ', 3);
    forall q | 10 <= q <= |x| ensures HitAt(x, rule, q).None? {
      NoInLineBadge(x, pattern, false, q);
    }
    NoHitsFrom(x, rule, 10);
    assert FindHit(x, rule, 2) == Some(h);
    assert FindHit(x, rule, 0) == Some(h);
  }

  /** Cutting offsets 2 to 10 out of the nested example gives the linked badge. */
  lemma {:induction false} SpliceOut(x: string, y: string, i: nat, j: nat)
    requires x == " [ ![a](u)![a](u)](l)" && y == " [![a](u)](l)" && i == 2 && j == 10
    ensures x[0..i] + ([] + x[j..]) == y
  {
  }

  /** ... so it leaves the linked badge ` [![a](u)](l)` behind. */
  lemma {:induction false} NestedPlainCut(x: string, y: string, pattern: iset<string>)
    requires x == " [ ![a](u)![a](u)](l)" && y == " [![a](u)](l)" && pattern == iset{"u"}
    ensures Rewritten(x, Badge(pattern, false, InLine)) == y
  {
    var h := Hit(2, 2, 10, 10, RemovedBadgeWithoutLink("u", "a"));
    NestedPlainHits(x, pattern);
    var cuts := [Edit(2, 10, [])];
    assert Cuts([h]) == cuts && cuts[1..] == [];
    assert Apply(x, cuts, 0) == x[0..2] + ([] + x[10..]);
    SpliceOut(x, y, 2, 10);
  }

  /** The second run: the linked in-line pass removes all of ` [![a](u)](l)`. */
  lemma {:induction false} LinkedBadgeCut(y: string, pattern: iset<string>)
    requires y == " [![a](u)](l)" && pattern == iset{"u"}
    ensures Rewritten(y, Badge(pattern, true, InLine)) == []
  {
    var rule := Badge(pattern, true, InLine);
    var m := BadgeMarkup(true, "a", "u", "l");
    StartsAtSlice(y, 1, m);
    assert y[1..13] == m;
    StartsAtSlice(y, 0, " ");
    assert y[0..1] == " ";
    BadgeHitComplete(y, pattern, true, InLine, 0, "a", "u", "l");
    var g := BadgeHit(y, InLine, true, 0, "a", "u", "l");
    assert g.start == 0 && g.cutFrom == 0 && g.cutTo == 13 && g.end == 13;
    NoInLineBadge(y, pattern, true, 13);
    NoHitsFrom(y, rule, 13);
    assert FindHit(y, rule, 0) == Some(g);
    assert Hits(y, rule, 0) == [g];
    var cuts := [Edit(0, 13, [])];
    assert Cuts([g]) == cuts && cuts[1..] == [];
    assert Apply(y, cuts, 0) == y[0..0] + ([] + y[13..]);
  }

  /**
   * removeBadges is not idempotent. With one pattern accepting the URL `u`,
   * the plain in-line pass cuts ` ![a](u)` out of ` [ ![a](u)![a](u)](l)`
   * after the linked in-line pass has already run, and so leaves the linked
   * badge ` [![a](u)](l)` behind; running removeBadges on that output
   * removes it too.
   */
  lemma {:induction false} BadgesRemovedNotIdempotent(x: string, y: string, pattern: iset<string>)
    requires x == " [ ![a](u)![a](u)](l)" && y == " [![a](u)](l)" && pattern == iset{"u"}
    ensures BadgesRemoved(x, [pattern]) == y
    ensures BadgesRemoved(y, [pattern]) == []
  {
    assert [pattern][1..] == [];
    NestedFirstRun(x, y, pattern);
    LinkedSecondRun(y, pattern);
  }

  /** The four passes of the first run turn the nested example into the linked badge. */
  lemma {:induction false} NestedFirstRun(x: string, y: string, pattern: iset<string>)
    requires x == " [ ![a](u)![a](u)](l)" && y == " [![a](u)](l)" && pattern == iset{"u"}
    ensures RunPasses(x, BadgePasses(pattern)) == y
  {
    NestedLinkedIdle(x, pattern);
    NestedPlainCut(x, y, pattern);
    BadgePassIdle(y, pattern, true, OwnLine);
    BadgePassIdle(y, pattern, false, OwnLine);
    RunFourPasses(x, BadgePasses(pattern));
  }

  /** The four passes of the second run remove the linked badge and leave nothing. */
  lemma {:induction false} LinkedSecondRun(y: string, pattern: iset<string>)
    requires y == " [![a](u)](l)" && pattern == iset{"u"}
    ensures RunPasses(y, BadgePasses(pattern)) == []
  {
    LinkedBadgeCut(y, pattern);
    BadgePassIdle([], pattern, false, InLine);
    BadgePassIdle([], pattern, true, OwnLine);
    BadgePassIdle([], pattern, false, OwnLine);
    RunFourPasses(y, BadgePasses(pattern));
  }

  // ------------------------------------------------------------------
  // generateSiteIndex
  // ------------------------------------------------------------------

  /** writeHeader: an HTML head holding the title, then an empty line. */
  function Header(title: string): (r: string)
  {
    "<head>\n" + "  <title>" + title + "</title>\n" + "</head>\n" + "\n"
  }

  /** The header is the four lines `<head>`, `  <title>…</title>`, `</head>` and an empty one, and the title reads back from between the tags. */
  lemma {:induction false} HeaderTitle(title: string)
    ensures var h := Header(title);
      && |h| == |title| + 34
      && h[..16] == "<head>\n  <title>"
      && h[16..16 + |title|] == title
      && h[16 + |title|..] == "</title>\n</head>\n\n"
  {
    var h := Header(title);
    assert h == "<head>\n  <title>" + title + "</title>\n</head>\n\n";
  }

  /** The site index for a README: the header, then the README with project links made relative and badges removed. */
  function SiteIndexText(title: string, readme: string, projectUrl: Option<string>, patterns: seq<iset<string>>): (r: string)
  {
    Header(title) + BadgesRemoved(RelativizedLinks(readme, projectUrl), patterns)
  }

  /**
   * How generateSiteIndex ends: skipped without touching the target, the
   * target written in full, or a NullPointerException from a null badge
   * pattern array after the header went into the target.
   */
  datatype SiteIndexOutcome = IndexSkipped | IndexWritten(page: string) | BadgePatternsNull(partialPage: string)

  /**
   * generateSiteIndex, with the files as strings: nothing is written when
   * skipping, and otherwise the target receives the header and the rewritten
   * README, or only the header when the badge patterns are null.
   */
  method GenerateSiteIndex(skip: bool, title: string, readme: string, projectUrl: Option<string>,
                           patterns: Option<seq<iset<string>>>)
    returns (outcome: SiteIndexOutcome, events: seq<Event>)
    ensures skip ==> outcome == IndexSkipped && events == []
    ensures !skip && patterns.None? ==> outcome == BadgePatternsNull(Header(title)) && events == RelativizedLog(readme, projectUrl)
    ensures !skip && patterns.Some? ==> outcome == IndexWritten(SiteIndexText(title, readme, projectUrl, patterns.value))
    ensures !skip && patterns.Some? ==>
      events == RelativizedLog(readme, projectUrl) + BadgesRemovedLog(RelativizedLinks(readme, projectUrl), patterns.value)
  {
    if skip {
      return IndexSkipped, [];
    }
    var header := Header(title);
    var content, e1 := RemoveProjectUrl(readme, projectUrl);
    var removed, e2 := RemoveBadges(content, patterns);
    if removed.None? {
      return BadgePatternsNull(header), e1;
    }
    outcome, events := IndexWritten(header + removed.value), e1 + e2;
  }

  /** The site index opens with the header and is never longer than the header and the README together. */
  lemma {:induction false} SiteIndexShape(title: string, readme: string, projectUrl: Option<string>, patterns: seq<iset<string>>)
    ensures var r := SiteIndexText(title, readme, projectUrl, patterns);
      && |Header(title)| <= |r| && r[..|Header(title)|] == Header(title)
      && |r| <= |Header(title)| + |readme|
  {
    var r := SiteIndexText(title, readme, projectUrl, patterns);
    assert r[..|Header(title)|] == Header(title);
    if !IsBlank(projectUrl) {
      RewrittenLength(readme, ProjectUrl(projectUrl.value));
    }
    BadgesRemovedShorten(RelativizedLinks(readme, projectUrl), patterns);
  }
}
