/**
 * FixSiteAnchorsMojo: the site plugin escapes `(`, `)` and `%` in anchors as
 * `.28`, `.29` and `.25`; this rewriter finds every `src="…"` and
 * `href="…"` attribute and puts the characters back in the attribute value
 * by a row of literal replace-alls, leaving everything else as it is.
 */
module SiteAnchors {
  import opened Strings
  import opened Splice
  import opened Regex

  // ------------------------------------------------------------------
  // The replacements
  // ------------------------------------------------------------------

  /** One replace-all: every occurrence of `search` becomes `replace`. */
  datatype Substitution = Substitution(search: string, replace: string)

  /** The replacements in effect when none are configured: `.28`, `.29` and `.25`, in that order. */
  function Defaults(): (r: seq<Substitution>)
    ensures |r| == 3 && forall k :: 0 <= k < 3 ==> |r[k].search| == 3 && |r[k].replace| == 1
  {
    [Substitution(".28", "("), Substitution(".29", ")"), Substitution(".25", "%")]
  }

  /** How Java concatenates a string that may be null. */
  function Text(s: Option<string>): string
  {
    if s.None? then "null" else s.value
  }

  /** The configuration bean: both fields stay null until set. */
  class Replacement {
    var search: Option<string>
    var replace: Option<string>

    /** The no-argument constructor Maven uses before it calls the setters. */
    constructor Empty()
      ensures search.None? && replace.None?
    {
      search, replace := None, None;
    }

    constructor (search: string, replace: string)
      ensures this.search == Some(search) && this.replace == Some(replace)
    {
      this.search, this.replace := Some(search), Some(replace);
    }

    function GetSearch(): (r: Option<string>)
      reads this
      ensures r == search
    {
      search
    }

    method SetSearch(search: Option<string>)
      modifies this
      ensures this.search == search && replace == old(replace)
    {
      this.search := search;
    }

    function GetReplace(): (r: Option<string>)
      reads this
      ensures r == replace
    {
      replace
    }

    method SetReplace(replace: Option<string>)
      modifies this
      ensures this.replace == replace && search == old(search)
    {
      this.replace := replace;
    }

    /** `search => replace`, a null field printing as `null`. */
    function ToString(): (r: string)
      reads this
      ensures |r| == |Text(search)| + 4 + |Text(replace)|
      ensures r[..|Text(search)|] == Text(search)
      ensures r[|Text(search)|..|Text(search)| + 4] == " => "
      ensures r[|Text(search)| + 4..] == Text(replace)
    {
      Text(search) + " => " + Text(replace)
    }

    /** The replace-all this bean stands for, or None when String.replace would be handed a null. */
    function Value(): (r: Option<Substitution>)
      reads this
      ensures r.Some? <==> search.Some? && replace.Some?
      ensures r.Some? ==> r.value.search == search.value && r.value.replace == replace.value
    {
      if search.Some? && replace.Some? then Some(Substitution(search.value, replace.value)) else None
    }
  }

  /** The replace-alls of the configured beans in order, or None when one of them has a null field. */
  function SubstitutionsOf(rs: seq<Replacement>): (r: Option<seq<Substitution>>)
    reads rs
    ensures r.Some? ==> |r.value| == |rs|
    ensures r.Some? ==> forall k :: 0 <= k < |rs| ==> rs[k].Value() == Some(r.value[k])
    ensures r.None? ==> exists k :: 0 <= k < |rs| && rs[k].Value().None?
  {
    if rs == [] then Some([])
    else match SubstitutionsOf(rs[..|rs| - 1])
      case None => None
      case Some(prefix) =>
        match rs[|rs| - 1].Value()
        case None => None
        case Some(last) => Some(prefix + [last])
  }

  /** The replace-alls exist exactly when no bean has a null field, and they are the beans' values in order. */
  lemma {:induction false} SubstitutionsOfBeans(rs: seq<Replacement>)
    ensures SubstitutionsOf(rs).Some? <==> forall k :: 0 <= k < |rs| ==> rs[k].Value().Some?
    ensures SubstitutionsOf(rs).Some? ==> forall k :: 0 <= k < |rs| ==> SubstitutionsOf(rs).value[k] == rs[k].Value().value
    decreases |rs|
  {
    if rs != [] {
      var init := rs[..|rs| - 1];
      SubstitutionsOfBeans(init);
      forall k | 0 <= k < |init| ensures init[k] == rs[k] { }
    }
  }

  /** A null field met after a prefix still makes the whole row fail. */
  lemma {:induction false} SubstitutionsOfNull(rs: seq<Replacement>, i: nat)
    requires i < |rs| && rs[i].Value().None?
    ensures SubstitutionsOf(rs).None?
  {
    SubstitutionsOfBeans(rs);
  }

  /** The value after the replace-alls are applied one after another, in order. */
  function FixedUrl(url: string, subs: seq<Substitution>): (r: string)
    decreases |subs|
  {
    if subs == [] then url
    else
      var last := subs[|subs| - 1];
      ReplaceAll(FixedUrl(url, subs[..|subs| - 1]), last.search, last.replace)
  }

  /** Running two rows of replacements is running the first, then the second on its output. */
  lemma {:induction false} FixedUrlThen(url: string, a: seq<Substitution>, b: seq<Substitution>)
    ensures FixedUrl(url, a + b) == FixedUrl(FixedUrl(url, a), b)
    decreases |b|
  {
    if b == [] {
      assert a + b == a;
    } else {
      var init := b[..|b| - 1];
      assert (a + b)[..|a + b| - 1] == a + init;
      assert (a + b)[|a + b| - 1] == b[|b| - 1];
      FixedUrlThen(url, a, init);
    }
  }

  /** A value holding none of the (non-empty) search strings is left as it is. */
  lemma {:induction false} FixedUrlUnchanged(url: string, subs: seq<Substitution>)
    requires forall k :: 0 <= k < |subs| ==> subs[k].search != []
    requires forall k, p :: 0 <= k < |subs| && 0 <= p <= |url| ==> !StartsAt(url, p, subs[k].search)
    ensures FixedUrl(url, subs) == url
    decreases |subs|
  {
    if subs != [] {
      var init := subs[..|subs| - 1];
      forall k | 0 <= k < |init| ensures init[k] == subs[k] { }
      FixedUrlUnchanged(url, init);
      var last := subs[|subs| - 1];
      ReplaceAbsent(url, last.search, last.replace);
    }
  }

  /**
   * With the default replacements, an escaped method anchor gets its
   * parentheses back: `#anchor.28int.29` becomes `#anchor(int)`.
   */
  lemma {:induction false} MethodAnchorFixed(pre: string, params: string)
    requires Unescaped(pre) && Unescaped(params)
    ensures FixedUrl(pre + ".28" + params + ".29", Defaults()) == pre + "(" + params + ")"
  {
    DefaultsInOrder(pre + ".28" + params + ".29");
    OpenParenFixed(pre, params);
    CloseParenFixed(pre, params);
    ParensKept(pre, params);
  }

  /** None of the default search strings occurs in `s`. */
  predicate Unescaped(s: string)
  {
    Absent(s, ".28") && Absent(s, ".29") && Absent(s, ".25")
  }

  lemma {:induction false} OpenParenFixed(pre: string, params: string)
    requires Unescaped(pre) && Unescaped(params)
    ensures ReplaceAll(pre + ".28" + params + ".29", ".28", "(") == pre + "(" + params + ".29"
  {
    assert pre + ".28" + params + ".29" == pre + (".28" + (params + ".29"));
    ReplaceAfterAbsent(pre, ".28" + (params + ".29"), ".28", "(");
    ReplaceFront(".28", params + ".29", "(");
    ReplaceAfterAbsent(params, ".29", ".28", "(");
    assert ".29" == ".29" + [];
    ReplaceMiss(".29", [], ".28", "(");
    assert ".29"[1..] + [] == "29";
    ReplaceFree("29", ".28", "(");
  }

  lemma {:induction false} CloseParenFixed(pre: string, params: string)
    requires Unescaped(pre) && Unescaped(params)
    ensures ReplaceAll(pre + "(" + params + ".29", ".29", ")") == pre + "(" + params + ")"
  {
    assert pre + "(" + params + ".29" == pre + ("(" + (params + ".29"));
    ReplaceAfterAbsent(pre, "(" + (params + ".29"), ".29", ")");
    ReplaceSkip('(', params + ".29", ".29", ")");
    ReplaceAfterAbsent(params, ".29", ".29", ")");
    assert ".29" == ".29" + [];
    ReplaceFront(".29", [], ")");
    assert pre + ("(" + (params + ")")) == pre + "(" + params + ")";
  }

  lemma {:induction false} ParensKept(pre: string, params: string)
    requires Unescaped(pre) && Unescaped(params)
    ensures ReplaceAll(pre + "(" + params + ")", ".25", "%") == pre + "(" + params + ")"
  {
    assert pre + "(" + params + ")" == pre + ("(" + (params + ")"));
    ReplaceAfterAbsent(pre, "(" + (params + ")"), ".25", "%");
    ReplaceSkip('(', params + ")", ".25", "%");
    ReplaceAfterAbsent(params, ")", ".25", "%");
    ReplaceFree(")", ".25", "%");
  }

  /**
   * A replacement's output is not scanned by the replacements before it:
   * `.2528` ends as `%28`, not `(`.
   */
  lemma {:induction false} EscapedPercentFixed(pre: string)
    requires Unescaped(pre)
    ensures FixedUrl(pre + ".2528", Defaults()) == pre + "%28"
  {
    DefaultsInOrder(pre + ".2528");
    NearMiss(pre, ".28", "(");
    NearMiss(pre, ".29", ")");
    PercentFixed(pre);
  }

  lemma {:induction false} NearMiss(pre: string, target: string, replacement: string)
    requires Absent(pre, target) && (target == ".28" || target == ".29")
    ensures ReplaceAll(pre + ".2528", target, replacement) == pre + ".2528"
  {
    assert pre + ".2528" == pre + (".25" + "28");
    assert ".25"[1..] + "28" == "2528";
    MissedWord(pre, ".25", "28", target, replacement);
  }

  /** A word of the target's length that is not the target, after text free of the target, is left alone. */
  lemma {:induction false} MissedWord(pre: string, w: string, tail: string, target: string, replacement: string)
    requires target != [] && |w| == |target| && w != target
    requires Absent(pre, target) && w[0] !in target[1..] && target[0] !in w[1..] + tail
    ensures ReplaceAll(pre + (w + tail), target, replacement) == pre + (w + tail)
  {
    var word := w + tail;
    var after := w[1..] + tail;
    assert word[0] == w[0];
    ReplaceAfterAbsent(pre, word, target, replacement);
    ReplaceMiss(w, tail, target, replacement);
    ReplaceFree(after, target, replacement);
    assert ReplaceAll(word, target, replacement) == [w[0]] + after;
    HeadTail(w, tail);
  }

  lemma {:induction false} PercentFixed(pre: string)
    requires Absent(pre, ".25")
    ensures ReplaceAll(pre + ".2528", ".25", "%") == pre + "%28"
  {
    assert pre + ".2528" == pre + (".25" + "28");
    ReplaceAfterAbsent(pre, ".25" + "28", ".25", "%");
    ReplaceFront(".25", "28", "%");
    ReplaceFree("28", ".25", "%");
  }

  /** The three defaults, applied in order. */
  lemma {:induction false} DefaultsInOrder(url: string)
    ensures FixedUrl(url, Defaults()) == ReplaceAll(ReplaceAll(ReplaceAll(url, ".28", "("), ".29", ")"), ".25", "%")
  {
    var d := Defaults();
    assert d[..2] == [d[0], d[1]] && [d[0], d[1]][..1] == [d[0]] && [d[0]][..0] == [];
    assert FixedUrl(url, [d[0]]) == ReplaceAll(url, ".28", "(");
  }

  // ------------------------------------------------------------------
  // The attribute pattern `(?:src|href)="([^"]*)"`
  // ------------------------------------------------------------------

  /** `name="([^"]*)"` for one branch of the alternation. */
  function AttributePattern(name: string): Pattern
  {
    Then(Literal(name + "=\""), Then(Except('"'), Then(Char('"'), End)))
  }

  /** The attribute `name="value"` is written at `p`; the value holds no quote. */
  predicate AttributeSpelledAt(content: string, p: nat, name: string, value: string)
  {
    '"' !in value && StartsAt(content, p, name + "=\"" + value + "\"")
  }

  /** A match of the tag pattern: where it starts, the span of group 1 (the value), and where it ends. */
  datatype Tag = Tag(start: nat, valueFrom: nat, valueTo: nat, end: nat)

  lemma {:induction false} AttributeSpelling(name: string, value: string)
    requires '"' !in value
    ensures WellFormed(AttributePattern(name)) && Fills(AttributePattern(name), [value])
    ensures Spell(AttributePattern(name), [value]) == name + "=\"" + value + "\""
  {
    var pat := AttributePattern(name);
    EndSpell([]);
    CharThen('"', End, []);
    GroupThen('"', Then(Char('"'), End), [value]);
    assert [value][1..] == [];
  }

  /** One branch of the alternation matched at `p`. */
  function AttributeAt(content: string, p: nat, name: string): (r: Option<Tag>)
    requires p <= |content|
    ensures r.Some? ==> r.value.start == p && p + |name| + 2 == r.value.valueFrom <= r.value.valueTo < r.value.end <= |content|
    ensures r.Some? ==> r.value.end == r.value.valueTo + 1
  {
    match Match(content, p, AttributePattern(name))
    case None => None
    case Some(m) => Some(Tag(p, p + |name| + 2, m.0 - 1, m.0))
  }

  /** A branch matches only where its attribute is written, and group 1 is the quoted value. */
  lemma {:induction false} AttributeSound(content: string, p: nat, name: string)
    requires p <= |content| && AttributeAt(content, p, name).Some?
    ensures var t := AttributeAt(content, p, name).value;
      AttributeSpelledAt(content, p, name, content[t.valueFrom..t.valueTo])
  {
    var pat := AttributePattern(name);
    MatchSound(content, p, pat);
    var m := Match(content, p, pat).value;
    AttributeCaps(name, m.1);
    var value := m.1[0];
    assert m.0 == p + |name| + 3 + |value|;
    AttributeValue(content, p, name, value);
  }

  /** The one group of a branch holds no quote, and the branch spells `name="value"`. */
  lemma {:induction false} AttributeCaps(name: string, caps: seq<string>)
    requires Fills(AttributePattern(name), caps)
    ensures |caps| == 1 && '"' !in caps[0]
    ensures Spell(AttributePattern(name), caps) == name + "=\"" + caps[0] + "\""
  {
    var group := Then(Except('"'), Then(Char('"'), End));
    GroupThen('"', Then(Char('"'), End), caps);
    CharThen('"', End, caps[1..]);
    EndSpell(caps[1..]);
  }

  /** The value of an attribute written at `p` starts right after its opening quote. */
  lemma {:induction false} AttributeValue(content: string, p: nat, name: string, value: string)
    requires AttributeSpelledAt(content, p, name, value)
    ensures p + |name| + 3 + |value| <= |content|
    ensures content[p + |name| + 2..p + |name| + 2 + |value|] == value
  {
    var head := name + "=\"";
    assert name + "=\"" + value + "\"" == head + (value + "\"");
    StartsAtSplit(content, p, p + |head|, head, value + "\"");
    StartsAtSplit(content, p + |head|, p + |head| + |value|, value, "\"");
    StartsAtSlice(content, p + |head|, value);
    StartsAtSlice(content, p + |head| + |value|, "\"");
  }

  /** Wherever an attribute of that name is written, the branch matches it, with its value as group 1. */
  lemma {:induction false} AttributeComplete(content: string, p: nat, name: string, value: string)
    requires AttributeSpelledAt(content, p, name, value)
    ensures p <= |content|
    ensures AttributeAt(content, p, name)
         == Some(Tag(p, p + |name| + 2, p + |name| + 2 + |value|, p + |name| + 3 + |value|))
  {
    var pat := AttributePattern(name);
    AttributeSpelling(name, value);
    StartsAtSlice(content, p, name + "=\"" + value + "\"");
    MatchComplete(content, p, pat, [value]);
  }

  /** `find()` at one offset: `src` is tried before `href`. */
  function TagAt(content: string, p: nat): (r: Option<Tag>)
    requires p <= |content|
    ensures r.Some? ==> r.value.start == p && p + 5 <= r.value.valueFrom <= r.value.valueTo < r.value.end <= |content|
    ensures r.Some? ==> r.value.end == r.value.valueTo + 1
  {
    match AttributeAt(content, p, "src")
    case Some(t) => Some(t)
    case None => AttributeAt(content, p, "href")
  }

  /** An attribute the pattern accepts. */
  predicate IsAttribute(name: string)
  {
    name == "src" || name == "href"
  }

  /** The tag pattern matches only a `src` or `href` attribute, and group 1 is its value. */
  lemma {:induction false} TagSound(content: string, p: nat)
    requires p <= |content| && TagAt(content, p).Some?
    ensures var t := TagAt(content, p).value;
      exists name :: IsAttribute(name) && p + |name| + 2 == t.valueFrom
        && AttributeSpelledAt(content, p, name, content[t.valueFrom..t.valueTo])
  {
    if AttributeAt(content, p, "src").Some? {
      AttributeSound(content, p, "src");
      assert IsAttribute("src");
    } else {
      AttributeSound(content, p, "href");
      assert IsAttribute("href");
    }
  }

  /** Every `src` or `href` attribute is matched where it starts. */
  lemma {:induction false} TagComplete(content: string, p: nat, name: string, value: string)
    requires IsAttribute(name) && AttributeSpelledAt(content, p, name, value)
    ensures p <= |content|
    ensures TagAt(content, p) == Some(Tag(p, p + |name| + 2, p + |name| + 2 + |value|, p + |name| + 3 + |value|))
  {
    AttributeComplete(content, p, name, value);
    if name == "href" && AttributeAt(content, p, "src").Some? {
      AttributeSound(content, p, "src");
      assert false;
    }
  }

  // ------------------------------------------------------------------
  // The loop of fixSiteAnchors(String, String)
  // ------------------------------------------------------------------

  /** The next match from the matcher's position `from`. */
  function FindTag(content: string, from: nat): (r: Option<Tag>)
    requires from <= |content|
    decreases |content| - from
    ensures r.Some? ==> from <= r.value.start <= |content| && TagAt(content, r.value.start) == r
    ensures forall q :: from <= q <= |content| && (r.None? || q < r.value.start) ==> TagAt(content, q).None?
  {
    var here := TagAt(content, from);
    if here.Some? then here
    else if from == |content| then None
    else FindTag(content, from + 1)
  }

  /** Each visited attribute value replaced by its fixed form, the matcher resuming after the closing quote. */
  function AnchorEdits(content: string, subs: seq<Substitution>, from: nat): (r: seq<Edit>)
    requires from <= |content|
    decreases |content| - from
  {
    match FindTag(content, from)
    case None => []
    case Some(t) =>
      [Edit(t.valueFrom, t.valueTo, FixedUrl(content[t.valueFrom..t.valueTo], subs))] + AnchorEdits(content, subs, t.end)
  }

  /** The debug line for a value the replacements changed. */
  datatype Event = FixingAnchors(file: string) | FixedAnchor(file: string, url: string, fixedUrl: string)

  function AnchorLog(file: string, content: string, subs: seq<Substitution>, from: nat): (r: seq<Event>)
    requires from <= |content|
    decreases |content| - from
  {
    match FindTag(content, from)
    case None => []
    case Some(t) =>
      var url := content[t.valueFrom..t.valueTo];
      var fixedUrl := FixedUrl(url, subs);
      LogLine(file, url, fixedUrl) + AnchorLog(file, content, subs, t.end)
  }

  /** `fixedAnchor` is logged only for a value the replacements changed. */
  function LogLine(file: string, url: string, fixedUrl: string): (r: seq<Event>)
    ensures r == [] <==> url == fixedUrl
  {
    if url != fixedUrl then [FixedAnchor(file, url, fixedUrl)] else []
  }

  /** The edits lie in order, each after the matcher's position. */
  lemma {:induction false} AnchorEditsFit(content: string, subs: seq<Substitution>, from: nat)
    requires from <= |content|
    ensures Fits(AnchorEdits(content, subs, from), from, |content|)
    decreases |content| - from
  {
    match FindTag(content, from)
    case None =>
    case Some(t) =>
      var rest := AnchorEdits(content, subs, t.end);
      AnchorEditsFit(content, subs, t.end);
      FitsEarlier(rest, t.valueTo, t.end, |content|);
      var es := AnchorEdits(content, subs, from);
      assert es[1..] == rest;
  }

  /** The text fixSiteAnchors returns: every attribute value replaced by its fixed form. */
  function Anchored(content: string, subs: seq<Substitution>): (r: string)
  {
    AnchorEditsFit(content, subs, 0);
    Apply(content, AnchorEdits(content, subs, 0), 0)
  }

  /**
   * The outcome of the loop: with no attribute the replacements are never
   * consulted; otherwise a bean with a null field makes String.replace throw.
   */
  function AnchoredOutcome(content: string, subs: Option<seq<Substitution>>): (r: Option<string>)
  {
    if FindTag(content, 0).None? then Some(content)
    else if subs.None? then None
    else Some(Anchored(content, subs.value))
  }

  /** What the loop still has to append and log, its cursor at `index` and the matcher at `from`. */
  ghost function Pending(file: string, content: string, subs: seq<Substitution>, index: nat, from: nat): (string, seq<Event>)
    requires index <= from <= |content|
  {
    AnchorEditsFit(content, subs, from);
    FitsEarlier(AnchorEdits(content, subs, from), index, from, |content|);
    (Apply(content, AnchorEdits(content, subs, from), index), AnchorLog(file, content, subs, from))
  }

  lemma {:induction false} PendingStep(file: string, content: string, subs: seq<Substitution>, index: nat, from: nat)
    requires index <= from <= |content|
    ensures FindTag(content, from).None? ==> Pending(file, content, subs, index, from) == (content[index..], [])
    ensures FindTag(content, from).Some? ==>
      var t := FindTag(content, from).value;
      var url := content[t.valueFrom..t.valueTo];
      && Pending(file, content, subs, index, from).0
         == content[index..t.valueFrom] + (FixedUrl(url, subs) + Pending(file, content, subs, t.valueTo, t.end).0)
      && Pending(file, content, subs, index, from).1
         == LogLine(file, url, FixedUrl(url, subs)) + Pending(file, content, subs, t.valueTo, t.end).1
  {
    var f := FindTag(content, from);
    if f.Some? {
      var t := f.value;
      var es := AnchorEdits(content, subs, from);
      AnchorEditsFit(content, subs, t.end);
      assert es == [Edit(t.valueFrom, t.valueTo, FixedUrl(content[t.valueFrom..t.valueTo], subs))] + AnchorEdits(content, subs, t.end);
      assert es[1..] == AnchorEdits(content, subs, t.end);
    }
  }

  /**
   * The mojo's configuration: the replacement beans, an array Maven fills
   * from the POM or the three defaults.
   */
  class FixSiteAnchors {
    var replacements: array<Replacement>

    /** The replace-alls of the configured beans, or None when one has a null field. */
    function Substitutions(): (r: Option<seq<Substitution>>)
      reads this, replacements, replacements[..]
      ensures r.Some? ==> |r.value| == replacements.Length
    {
      SubstitutionsOf(replacements[..])
    }

    /** A fresh mojo holds the three default replacements. */
    constructor ()
      ensures fresh(replacements) && replacements.Length == 3
      ensures Substitutions() == Some(Defaults())
    {
      var r0 := new Replacement(".28", "(");
      var r1 := new Replacement(".29", ")");
      var r2 := new Replacement(".25", "%");
      replacements := new Replacement[3] [r0, r1, r2];
      new;
      var rs := replacements[..];
      assert rs == [r0, r1, r2];
      forall k | 0 <= k < 3 ensures rs[k].Value() == Some(Defaults()[k]) {
        if k == 0 {} else if k == 1 {} else {}
      }
      SubstitutionsOfBeans(rs);
      var subs := Substitutions().value;
      assert subs[0] == Defaults()[0] && subs[1] == Defaults()[1] && subs[2] == Defaults()[2];
      assert subs == Defaults();
    }

    /** fixSiteAnchorsInUrl: the replacements applied in array order; a null field throws. */
    method FixSiteAnchorsInUrl(url: string) returns (r: Option<string>)
      ensures r.None? <==> Substitutions().None?
      ensures r.Some? ==> r.value == FixedUrl(url, Substitutions().value)
    {
      var result := url;
      var i := 0;
      while i < replacements.Length
        invariant i <= replacements.Length
        invariant SubstitutionsOf(replacements[..i]).Some?
        invariant result == FixedUrl(url, SubstitutionsOf(replacements[..i]).value)
      {
        var replacement := replacements[i];
        if replacement.search.None? || replacement.replace.None? {
          SubstitutionsOfNull(replacements[..], i);
          return None;
        }
        assert replacements[..i + 1][..i] == replacements[..i];
        result := ReplaceAll(result, replacement.search.value, replacement.replace.value);
        i := i + 1;
      }
      assert replacements[..i] == replacements[..];
      return Some(result);
    }

    /**
     * fixSiteAnchors(String, String): copy up to each value, append the
     * fixed value, log it when it changed, carry on from the closing quote.
     * None stands for the NullPointerException of a bean with a null field.
     */
    method FixAnchors(file: string, content: string) returns (result: Option<string>, events: seq<Event>)
      ensures result == AnchoredOutcome(content, Substitutions())
      ensures result.Some? && Substitutions().Some? ==> events == AnchorLog(file, content, Substitutions().value, 0)
      ensures Substitutions().None? ==> events == []
    {
      ghost var subs := Substitutions();
      // the replace-alls the loop applies; any row will do when a null field stops it at the first match
      ghost var fixes := if subs.Some? then subs.value else [];
      var text := "";
      var index: nat, from: nat := 0, 0;
      events := [];
      var next := FindTag(content, 0);
      while next.Some?
        invariant index <= from <= |content| && next == FindTag(content, from)
        invariant Substitutions() == subs
        invariant subs.None? ==> index == 0 && from == 0
        invariant Progress(file, content, fixes, index, from, text, events)
        decreases |content| - from
      {
        var t := next.value;
        var url := content[t.valueFrom..t.valueTo];
        var fixedUrl := FixSiteAnchorsInUrl(url);
        if fixedUrl.None? {
          assert subs.None? && from == 0;
          return None, [];
        }
        assert fixedUrl.value == FixedUrl(url, fixes);
        LoopStep(file, content, fixes, index, from, text, events, t);
        text := text + content[index..t.valueFrom];
        text := text + fixedUrl.value;
        if url != fixedUrl.value {
          events := events + [FixedAnchor(file, url, fixedUrl.value)];
        } else {
          assert events + LogLine(file, url, fixedUrl.value) == events;
        }
        index, from := t.valueTo, t.end;
        next := FindTag(content, from);
      }
      LoopExit(file, content, fixes, index, from, text, events);
      text := text + content[index..];
      result := Some(text);
    }

    /** fixSiteAnchors(Path, Charset) with the file as a string: announce the file, then fix it. */
    method FixFile(file: string, content: string) returns (written: Option<string>, events: seq<Event>)
      ensures written == AnchoredOutcome(content, Substitutions())
      ensures |events| > 0 && events[0] == FixingAnchors(file)
      ensures written.Some? && Substitutions().Some? ==> events[1..] == AnchorLog(file, content, Substitutions().value, 0)
      ensures Substitutions().None? ==> events == [FixingAnchors(file)]
    {
      var log;
      written, log := FixAnchors(file, content);
      events := [FixingAnchors(file)] + log;
    }
  }

  /** What the loop has appended and logged, followed by what is pending, is the whole output and log. */
  ghost predicate Progress(file: string, content: string, fixes: seq<Substitution>, index: nat, from: nat,
                           text: string, events: seq<Event>)
    requires index <= from <= |content|
  {
    && text + Pending(file, content, fixes, index, from).0 == Pending(file, content, fixes, 0, 0).0
    && events + Pending(file, content, fixes, index, from).1 == Pending(file, content, fixes, 0, 0).1
  }

  /** One turn of the loop keeps what is done and what is pending adding up to the whole. */
  lemma {:induction false} LoopStep(file: string, content: string, fixes: seq<Substitution>, index: nat, from: nat,
                                    text: string, events: seq<Event>, t: Tag)
    requires index <= from <= |content| && FindTag(content, from) == Some(t)
    requires Progress(file, content, fixes, index, from, text, events)
    ensures index <= t.valueFrom <= t.valueTo <= t.end <= |content|
    ensures var url := content[t.valueFrom..t.valueTo];
      Progress(file, content, fixes, t.valueTo, t.end, text + content[index..t.valueFrom] + FixedUrl(url, fixes),
               events + LogLine(file, url, FixedUrl(url, fixes)))
  {
    PendingStep(file, content, fixes, index, from);
    var url := content[t.valueFrom..t.valueTo];
    var whole := Pending(file, content, fixes, 0, 0);
    var here := Pending(file, content, fixes, index, from);
    var rest := Pending(file, content, fixes, t.valueTo, t.end);
    Regroup(text, content[index..t.valueFrom], FixedUrl(url, fixes), rest.0, here.0, whole.0);
    RegroupLog(events, LogLine(file, url, FixedUrl(url, fixes)), rest.1, here.1, whole.1);
  }

  /** When find() fails, the tail completes the output, and the log is complete. */
  lemma {:induction false} LoopExit(file: string, content: string, fixes: seq<Substitution>, index: nat, from: nat,
                                    text: string, events: seq<Event>)
    requires index <= from <= |content| && FindTag(content, from).None?
    requires Progress(file, content, fixes, index, from, text, events)
    ensures text + content[index..] == Anchored(content, fixes) && events == AnchorLog(file, content, fixes, 0)
    ensures FindTag(content, 0).None? ==> Anchored(content, fixes) == content
  {
    PendingStep(file, content, fixes, index, from);
    if FindTag(content, 0).None? {
      assert AnchorEdits(content, fixes, 0) == [];
      assert content[0..] == content;
    }
  }

  /** Appending the pieces of what was pending leaves the same whole. */
  lemma {:induction false} Regroup(done: string, gap: string, value: string, rest: string, pending: string, whole: string)
    requires pending == gap + (value + rest) && done + pending == whole
    ensures done + gap + value + rest == whole
  {
  }

  lemma {:induction false} RegroupLog(done: seq<Event>, line: seq<Event>, rest: seq<Event>, pending: seq<Event>, whole: seq<Event>)
    requires pending == line + rest && done + pending == whole
    ensures done + line + rest == whole
  {
  }

  // ------------------------------------------------------------------
  // What the rewriting does
  // ------------------------------------------------------------------

  /** Every edit replaces the value of a `src` or `href` attribute by its fixed form. */
  lemma {:induction false} AnchorEditsAreValues(content: string, subs: seq<Substitution>, from: nat, k: nat)
    requires from <= |content| && k < |AnchorEdits(content, subs, from)|
    ensures var e := AnchorEdits(content, subs, from)[k];
      && from <= e.from <= e.to <= |content|
      && e.insert == FixedUrl(content[e.from..e.to], subs)
      && exists p: nat, name :: IsAttribute(name) && p + |name| + 2 == e.from
           && AttributeSpelledAt(content, p, name, content[e.from..e.to])
    decreases |content| - from
  {
    var t := FindTag(content, from).value;
    var rest := AnchorEdits(content, subs, t.end);
    if k == 0 {
      TagSound(content, t.start);
    } else {
      assert AnchorEdits(content, subs, from)[k] == rest[k - 1];
      AnchorEditsAreValues(content, subs, t.end, k - 1);
    }
  }

  /** Putting every original value back gives the input: all text outside the values is copied verbatim and in order. */
  lemma {:induction false} AnchoredRestores(content: string, subs: seq<Substitution>)
    ensures Fits(AnchorEdits(content, subs, 0), 0, |content|)
    ensures Apply(content, Restore(content, AnchorEdits(content, subs, 0), 0), 0) == content
  {
    AnchorEditsFit(content, subs, 0);
    ApplyRestore(content, AnchorEdits(content, subs, 0), 0);
  }

  /** Nothing is logged exactly when every value comes out as it went in. */
  lemma {:induction false} AnchorLogEmpty(file: string, content: string, subs: seq<Substitution>, from: nat)
    requires from <= |content|
    ensures AnchorLog(file, content, subs, from) == [] <==> Verbatim(content, AnchorEdits(content, subs, from))
    decreases |content| - from
  {
    var es := AnchorEdits(content, subs, from);
    match FindTag(content, from)
    case None =>
      assert es == [];
    case Some(t) =>
      var url := content[t.valueFrom..t.valueTo];
      var rest := AnchorEdits(content, subs, t.end);
      assert es == [Edit(t.valueFrom, t.valueTo, FixedUrl(url, subs))] + rest;
      assert es[0] == Edit(t.valueFrom, t.valueTo, FixedUrl(url, subs)) && es[1..] == rest;
      AnchorLogEmpty(file, content, subs, t.end);
      VerbatimCons(content, es);
  }

  /** ... and then the text is returned as it is. */
  lemma {:induction false} VerbatimAnchored(file: string, content: string, subs: seq<Substitution>)
    requires AnchorLog(file, content, subs, 0) == []
    ensures Anchored(content, subs) == content
  {
    AnchorLogEmpty(file, content, subs, 0);
    AnchorEditsFit(content, subs, 0);
    ApplyVerbatim(content, AnchorEdits(content, subs, 0), 0);
    assert content[0..] == content;
  }

  /** Text without any `src` or `href` attribute comes back as it is, whatever the replacements. */
  lemma {:induction false} NoAttributeUnchanged(content: string, subs: Option<seq<Substitution>>)
    requires forall p, name, value :: IsAttribute(name) ==> !AttributeSpelledAt(content, p, name, value)
    ensures AnchoredOutcome(content, subs) == Some(content)
  {
    var f := FindTag(content, 0);
    if f.Some? {
      TagSound(content, f.value.start);
      assert false;
    }
  }

  /** When no value holds a search string, the text comes back as it is and nothing is logged. */
  lemma {:induction false} NoSearchUnchanged(file: string, content: string, subs: seq<Substitution>)
    requires forall k :: 0 <= k < |subs| ==> subs[k].search != []
    requires forall p, name, value, k, q :: IsAttribute(name) && AttributeSpelledAt(content, p, name, value) && 0 <= k < |subs| && 0 <= q <= |value|
                 ==> !StartsAt(value, q, subs[k].search)
    ensures Anchored(content, subs) == content && AnchorLog(file, content, subs, 0) == []
  {
    var es := AnchorEdits(content, subs, 0);
    forall k | 0 <= k < |es| ensures es[k].from <= es[k].to <= |content| && es[k].insert == content[es[k].from..es[k].to]
    {
      AnchorEditsAreValues(content, subs, 0, k);
      var value := content[es[k].from..es[k].to];
      var p: nat, name :| IsAttribute(name) && p + |name| + 2 == es[k].from && AttributeSpelledAt(content, p, name, value);
      assert forall j, q :: 0 <= j < |subs| && 0 <= q <= |value| ==> !StartsAt(value, q, subs[j].search);
      FixedUrlUnchanged(value, subs);
    }
    AnchorLogEmpty(file, content, subs, 0);
    VerbatimAnchored(file, content, subs);
  }
}
