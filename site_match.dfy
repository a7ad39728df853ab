/**
 * The patterns SiteIndexMojo compiles, and what one match of each is: the
 * project-URL link `\[(?<text>[^\]]*)\]\((?<url>U(?<relative>[^)]*))\)` and the
 * badge images, with or without a surrounding link, either after a space or on
 * a line of their own.
 */
module SiteMatch {
  import opened Strings
  import opened Regex
  import opened Markdown

  /** The debug lines the passes log, one per match. */
  datatype Event =
    | RemovedProjectUrl(url: string, relative: string)
    | RemovedBadgeWithLink(url: string, text: string, link: string)
    | RemovedBadgeWithoutLink(url: string, text: string)

  /** The two wrappers of each badge pass: prefix " " and no postfix, or the line-start lookbehind and `\r?\n`. */
  datatype Placement = InLine | OwnLine

  /**
   * The pattern of one pass: the link into the project's site `u`, or a badge
   * whose URL, less an optional `?query`, fully matches the configured pattern
   * (a predicate here), with or without a surrounding link.
   */
  datatype Rule =
    | ProjectUrl(u: string)
    | Badge(pattern: iset<string>, linked: bool, placement: Placement)

  /**
   * One match starting at `start` and ending at `end`; the loop drops
   * `[cutFrom, cutTo)`, copies the rest, and logs `event`.
   */
  datatype Hit = Hit(start: nat, cutFrom: nat, cutTo: nat, end: nat, event: Event)

  /** A non-empty match at `p` inside a string of length `n`, with its cut inside it. */
  predicate Placed(h: Hit, p: nat, n: nat)
  {
    h.start == p <= h.cutFrom <= h.cutTo <= h.end <= n && p < h.end
  }

  // TEXT_REGEX
  function TextTokens(): Pattern
  {
    Then(Char('['), Then(Except(']'), Then(Char(']'), End)))
  }

  // URL_REGEX_PREFIX + Pattern.quote(u) + (?<relative>[^)]*) + URL_REGEX_POSTFIX
  function ProjectUrlTokens(u: string): Pattern
  {
    Then(Char('('), Then(Literal(u), ParenTail()))
  }

  // `([^)]*)\)`: a group up to the closing parenthesis
  function ParenTail(): Pattern
  {
    Then(Except(')'), Then(Char(')'), End))
  }

  /** The destination pattern has one group, which must be free of `)`, and spells `(u + relative)`. */
  lemma {:induction false} ProjectUrlTokensSpell(u: string, caps: seq<string>)
    ensures Groups(ProjectUrlTokens(u)) == 1 && Width(ProjectUrlTokens(u)) == |u| + 2 && WellFormed(ProjectUrlTokens(u))
    ensures Fills(ProjectUrlTokens(u), caps) <==> |caps| == 1 && ')' !in caps[0]
    ensures Fills(ProjectUrlTokens(u), caps) ==> Spell(ProjectUrlTokens(u), caps) == "(" + (u + caps[0]) + ")"
  {
    var lit := Then(Literal(u), ParenTail());
    ParenTailSpell(caps);
    CharThen('(', lit, caps);
    assert Fills(lit, caps) == Fills(ParenTail(), caps);
    if Fills(ParenTail(), caps) {
      assert Spell(lit, caps) == u + Spell(ParenTail(), caps);
    }
  }

  /** The group up to `)` and the `)` itself. */
  lemma {:induction false} ParenTailSpell(caps: seq<string>)
    ensures Groups(ParenTail()) == 1 && Width(ParenTail()) == 1 && WellFormed(ParenTail())
    ensures Fills(ParenTail(), caps) <==> |caps| == 1 && ')' !in caps[0]
    ensures Fills(ParenTail(), caps) ==> Spell(ParenTail(), caps) == caps[0] + ")"
  {
    var close := Then(Char(')'), End);
    if |caps| > 0 {
      EndSpell(caps[1..]);
      CharThen(')', End, caps[1..]);
    }
    CharThen(')', End, []);
    EndSpell([]);
    GroupThen(')', close, caps);
  }

  /** The text pattern has one group, which must be free of `]`, and spells `[text]`. */
  lemma {:induction false} TextTokensSpell(caps: seq<string>)
    ensures Groups(TextTokens()) == 1 && Width(TextTokens()) == 2 && WellFormed(TextTokens())
    ensures Fills(TextTokens(), caps) <==> |caps| == 1 && ']' !in caps[0]
    ensures Fills(TextTokens(), caps) ==> Spell(TextTokens(), caps) == "[" + caps[0] + "]"
  {
    var close := Then(Char(']'), End);
    var group := Then(Except(']'), close);
    if |caps| > 0 {
      EndSpell(caps[1..]);
      CharThen(']', End, caps[1..]);
    }
    CharThen(']', End, []);
    EndSpell([]);
    GroupThen(']', close, caps);
    CharThen('[', group, caps);
  }

  // `!` + TEXT_REGEX + URL_REGEX_PREFIX + (?<url>[^)]*) + URL_REGEX_POSTFIX
  function ImageTokens(): Pattern
  {
    Then(Char('!'), Then(Char('['), Then(Except(']'), Then(Char(']'), Then(Char('('), ParenTail())))))
  }

  // `\]` + LINK_REGEX
  function LinkTailTokens(): Pattern
  {
    Then(Char(']'), Then(Char('('), ParenTail()))
  }

  /** The pass's regex tried at offset `p`. */
  function HitAt(content: string, rule: Rule, p: nat): (r: Option<Hit>)
    requires p <= |content|
    ensures r.Some? ==> Placed(r.value, p, |content|)
  {
    match rule
    case ProjectUrl(u) => ProjectUrlHitAt(content, u, p)
    case Badge(pattern, linked, placement) => BadgeHitAt(content, pattern, linked, placement, p)
  }

  // ------------------------------------------------------------------
  // The project-URL link
  // ------------------------------------------------------------------

  /** The cut is the project URL; the relative part and the closing parenthesis are kept. */
  function ProjectUrlHitAt(content: string, u: string, p: nat): (r: Option<Hit>)
    requires p <= |content|
    ensures r.Some? ==> Placed(r.value, p, |content|)
  {
    match Match(content, p, TextTokens())
    case None => None
    case Some(t) => ProjectUrlDestAt(content, u, p, t.0)
  }

  /** The rest of the pattern once the text part has ended at `q`. */
  function ProjectUrlDestAt(content: string, u: string, p: nat, q: nat): (r: Option<Hit>)
    requires p + 2 <= q <= |content|
    ensures r.Some? ==> Placed(r.value, p, |content|)
  {
    ProjectUrlTokensSpell(u, []);
    match Match(content, q, ProjectUrlTokens(u))
    case None => None
    case Some(d) => Some(Hit(p, q + 1, q + 1 + |u|, d.0, RemovedProjectUrl(u + d.1[0], d.1[0])))
  }

  /** A link `[text](u + relative)` at `p` that the pattern's groups can hold. */
  predicate ProjectUrlLinkAt(content: string, u: string, p: nat, text: string, relative: string)
  {
    ']' !in text && ')' !in relative && StartsAt(content, p, LinkMarkup(text, u + relative))
  }

  /** The markup of the project-URL link is the text part followed by the destination part. */
  lemma {:induction false} ProjectUrlSpelling(u: string, text: string, relative: string)
    requires ']' !in text && ')' !in relative
    ensures Fills(TextTokens(), [text]) && Fills(ProjectUrlTokens(u), [relative])
    ensures WellFormed(TextTokens()) && WellFormed(ProjectUrlTokens(u))
    ensures Spell(TextTokens(), [text]) == "[" + text + "]"
    ensures Spell(ProjectUrlTokens(u), [relative]) == "(" + (u + relative) + ")"
    ensures LinkMarkup(text, u + relative) == Spell(TextTokens(), [text]) + Spell(ProjectUrlTokens(u), [relative])
  {
    TextTokensSpell([text]);
    ProjectUrlTokensSpell(u, [relative]);
  }

  /** A match of TEXT_REGEX is `[text]` with no `]` in the text. */
  lemma {:induction false} TextSound(content: string, p: nat)
    requires p <= |content| && Match(content, p, TextTokens()).Some?
    ensures var t := Match(content, p, TextTokens()).value;
      && |t.1| == 1 && ']' !in t.1[0] && t.0 == p + |t.1[0]| + 2
      && StartsAt(content, p, "[" + t.1[0] + "]") && content[p + 1..t.0 - 1] == t.1[0]
  {
    var t := Match(content, p, TextTokens()).value;
    MatchSound(content, p, TextTokens());
    TextTokensSpell(t.1);
    StartsAtSlice(content, p, "[" + t.1[0] + "]");
    assert content[p..t.0] == "[" + t.1[0] + "]";
  }

  /** A match of the destination part is `(u + relative)` with no `)` in the relative part. */
  lemma {:induction false} ProjectUrlDestSound(content: string, u: string, q: nat)
    requires q <= |content| && Match(content, q, ProjectUrlTokens(u)).Some?
    ensures var d := Match(content, q, ProjectUrlTokens(u)).value;
      && |d.1| == 1 && ')' !in d.1[0] && d.0 == q + |u| + |d.1[0]| + 2
      && StartsAt(content, q, "(" + (u + d.1[0]) + ")")
  {
    var d := Match(content, q, ProjectUrlTokens(u)).value;
    MatchSound(content, q, ProjectUrlTokens(u));
    ProjectUrlTokensSpell(u, d.1);
  }

  /** The text part and the destination part next to each other make the link. */
  lemma {:induction false} ProjectUrlLinkJoin(content: string, u: string, p: nat, q: nat, text: string, relative: string)
    requires q == p + |text| + 2
    requires StartsAt(content, p, "[" + text + "]") && StartsAt(content, q, "(" + (u + relative) + ")")
    ensures StartsAt(content, p, LinkMarkup(text, u + relative))
  {
    StartsAtJoin(content, p, "[" + text + "]", "(" + (u + relative) + ")");
    LinkMarkupHalves(text, u + relative);
  }

  /** What the matcher builds from the two parts' matches. */
  lemma {:induction false} ProjectUrlHitParts(content: string, u: string, p: nat)
    requires p <= |content| && ProjectUrlHitAt(content, u, p).Some?
    ensures var t := Match(content, p, TextTokens());
      && t.Some? && p + 2 <= t.value.0 <= |content|
      && var d := Match(content, t.value.0, ProjectUrlTokens(u));
      && d.Some? && |d.value.1| == 1
      && ProjectUrlHitAt(content, u, p)
         == Some(Hit(p, t.value.0 + 1, t.value.0 + 1 + |u|, d.value.0, RemovedProjectUrl(u + d.value.1[0], d.value.1[0])))
  {
    var t := Match(content, p, TextTokens()).value;
    ProjectUrlTokensSpell(u, []);
    assert ProjectUrlHitAt(content, u, p) == ProjectUrlDestAt(content, u, p, t.0);
  }

  /**
   * A match is a project-URL link: its text runs up to two before the cut,
   * the cut is `u`, and the match ends after the link's closing parenthesis.
   */
  lemma {:induction false} ProjectUrlHitSound(content: string, u: string, p: nat)
    requires p <= |content| && ProjectUrlHitAt(content, u, p).Some?
    ensures var h := ProjectUrlHitAt(content, u, p).value;
      && h.event.RemovedProjectUrl? && p + 3 <= h.cutFrom
      && ProjectUrlLinkAt(content, u, p, content[p + 1..h.cutFrom - 2], h.event.relative)
      && h == ProjectUrlHit(p, content[p + 1..h.cutFrom - 2], u, h.event.relative)
  {
    ProjectUrlHitParts(content, u, p);
    var t := Match(content, p, TextTokens()).value;
    TextSound(content, p);
    var d := Match(content, t.0, ProjectUrlTokens(u)).value;
    ProjectUrlDestSound(content, u, t.0);
    var text, relative := t.1[0], d.1[0];
    ProjectUrlLinkJoin(content, u, p, t.0, text, relative);
    var h := ProjectUrlHitAt(content, u, p).value;
    assert h.cutFrom - 2 == t.0 - 1;
    assert content[p + 1..h.cutFrom - 2] == text;
  }

  /** The hit for the link `[text](u + relative)` at `p`. */
  function ProjectUrlHit(p: nat, text: string, u: string, relative: string): (h: Hit)
    ensures h.cutTo - h.cutFrom == |u| && h.end - h.start == |LinkMarkup(text, u + relative)|
  {
    var cut := p + |text| + 3;
    Hit(p, cut, cut + |u|, p + |text| + |u| + |relative| + 4, RemovedProjectUrl(u + relative, relative))
  }

  /** Every project-URL link is matched where it starts, with its parts. */
  lemma {:induction false} ProjectUrlHitComplete(content: string, u: string, p: nat, text: string, relative: string)
    requires ProjectUrlLinkAt(content, u, p, text, relative)
    ensures ProjectUrlHitAt(content, u, p) == Some(ProjectUrlHit(p, text, u, relative))
  {
    ProjectUrlSpelling(u, text, relative);
    var a, b := Spell(TextTokens(), [text]), Spell(ProjectUrlTokens(u), [relative]);
    var q := p + |text| + 2;
    StartsAtConcat(content, p, a, b);
    MatchComplete(content, p, TextTokens(), [text]);
    assert Match(content, p, TextTokens()) == Some((q, [text]));
    MatchComplete(content, q, ProjectUrlTokens(u), [relative]);
    assert Match(content, q, ProjectUrlTokens(u)) == Some((q + |u| + |relative| + 2, [relative]));
    assert ProjectUrlHitAt(content, u, p) == ProjectUrlDestAt(content, u, p, q);
  }

  // ------------------------------------------------------------------
  // Badges
  // ------------------------------------------------------------------

  /** The `url` group of a badge: the configured pattern, optionally followed by a `?query`. */
  predicate IsBadgeUrl(pattern: iset<string>, url: string)
  {
    url in pattern || exists k :: 0 <= k < |url| && url[k] == '?' && url[..k] in pattern
  }

  /** What comes before the badge: the space of the in-line passes. */
  function Lead(placement: Placement): string
  {
    if placement.InLine? then " " else ""
  }

  /** The lookbehind `(?<=^|\n)`: the start of the input or just after a line feed. */
  predicate LineStart(content: string, p: nat)
  {
    p == 0 || (p <= |content| && content[p - 1] == '\n')
  }

  /** The lead-in of a placement at `p`: a space, or a line start. */
  predicate LeadAt(content: string, placement: Placement, p: nat)
  {
    if placement.InLine? then StartsAt(content, p, " ") else LineStart(content, p)
  }

  /** The line break `\r?\n` the own-line passes take at `e`: CRLF when a carriage return is there. */
  function Eol(content: string, placement: Placement, e: nat): string
  {
    if placement.InLine? then "" else if e < |content| && content[e] == '\r' then "\r\n" else "\n"
  }

  /** `![text](url)`, or `[![text](url)](link)` when the badge is linked. */
  function BadgeMarkup(linked: bool, text: string, url: string, link: string): string
  {
    if linked then LinkMarkup(ImageMarkup(text, url), link) else ImageMarkup(text, url)
  }

  /** The debug line of a removed badge. */
  function BadgeEvent(linked: bool, text: string, url: string, link: string): Event
  {
    if linked then RemovedBadgeWithLink(url, text, link) else RemovedBadgeWithoutLink(url, text)
  }

  /** The groups of a badge match and where the badge ends; `link` is empty for an unlinked badge. */
  datatype Found = Found(end: nat, text: string, url: string, link: string)

  /** A badge at `b` that the pattern accepts, with groups the regex can hold. */
  predicate BadgeSpelledAt(content: string, pattern: iset<string>, linked: bool, b: nat, text: string, url: string, link: string)
  {
    if linked then LinkedSpelledAt(content, pattern, b, text, url, link)
    else link == "" && ImageSpelledAt(content, pattern, b, text, url)
  }

  predicate ImageSpelledAt(content: string, pattern: iset<string>, i: nat, text: string, url: string)
  {
    ']' !in text && ')' !in url && IsBadgeUrl(pattern, url) && StartsAt(content, i, ImageMarkup(text, url))
  }

  predicate LinkedSpelledAt(content: string, pattern: iset<string>, b: nat, text: string, url: string, link: string)
  {
    ']' !in text && ')' !in url && ')' !in link && IsBadgeUrl(pattern, url)
    && StartsAt(content, b, LinkMarkup(ImageMarkup(text, url), link))
  }

  /** Where the badge proper ends, before any line break. */
  function BadgeEnd(placement: Placement, linked: bool, p: nat, text: string, url: string, link: string): nat
  {
    p + |Lead(placement)| + |BadgeMarkup(linked, text, url, link)|
  }

  /** The line break the placement wants is at `e`. */
  predicate LineEndAt(content: string, placement: Placement, e: nat)
  {
    StartsAt(content, e, Eol(content, placement, e))
  }

  /**
   * A badge the pass removes at `p`: the lead-in, the badge itself, and for
   * the own-line passes a line break right after it.
   */
  predicate BadgeAt(content: string, pattern: iset<string>, linked: bool, placement: Placement, p: nat,
                    text: string, url: string, link: string)
  {
    && LeadAt(content, placement, p)
    && BadgeSpelledAt(content, pattern, linked, p + |Lead(placement)|, text, url, link)
    && LineEndAt(content, placement, BadgeEnd(placement, linked, p, text, url, link))
  }

  /** The hit for that badge: all of it is cut, and its groups are logged. */
  function BadgeHit(content: string, placement: Placement, linked: bool, p: nat, text: string, url: string, link: string): Hit
  {
    var e := BadgeEnd(placement, linked, p, text, url, link);
    Hit(p, p, e + |Eol(content, placement, e)|, e + |Eol(content, placement, e)|, BadgeEvent(linked, text, url, link))
  }

  /** One of the four badge patterns tried at `p`. */
  function BadgeHitAt(content: string, pattern: iset<string>, linked: bool, placement: Placement, p: nat): (r: Option<Hit>)
    requires p <= |content|
    ensures r.Some? ==> Placed(r.value, p, |content|)
  {
    if !LeadAt(content, placement, p) then None
    else
      match BadgeBody(content, pattern, linked, p + |Lead(placement)|)
      case None => None
      case Some(f) => LineEndHit(content, placement, linked, p, f)
  }

  /** The end of a badge pattern once the badge has been found: the line break, if the placement wants one. */
  function LineEndHit(content: string, placement: Placement, linked: bool, p: nat, f: Found): (r: Option<Hit>)
    requires p < f.end <= |content|
    ensures r.Some? ==> Placed(r.value, p, |content|)
  {
    if LineEndAt(content, placement, f.end)
    then
      var eol := Eol(content, placement, f.end);
      Some(Hit(p, p, f.end + |eol|, f.end + |eol|, BadgeEvent(linked, f.text, f.url, f.link)))
    else None
  }

  /** The badge itself at `b`, provided its URL passes the pattern. */
  function BadgeBody(content: string, pattern: iset<string>, linked: bool, b: nat): (r: Option<Found>)
    requires b <= |content|
    ensures r.Some? ==> b < r.value.end <= |content|
  {
    if linked then LinkedBody(content, pattern, b) else ImageBody(content, pattern, b)
  }

  /** `![text](url)` at `i`, with a URL the pattern accepts. */
  function ImageBody(content: string, pattern: iset<string>, i: nat): (r: Option<Found>)
    requires i <= |content|
    ensures r.Some? ==> i < r.value.end <= |content| && r.value.link == ""
  {
    match Match(content, i, ImageTokens())
    case None => None
    case Some(m) => if IsBadgeUrl(pattern, m.1[1]) then Some(Found(m.0, m.1[0], m.1[1], "")) else None
  }

  /** `[![text](url)](link)` at `b`, with a URL the pattern accepts. */
  function LinkedBody(content: string, pattern: iset<string>, b: nat): (r: Option<Found>)
    requires b <= |content|
    ensures r.Some? ==> b < r.value.end <= |content|
  {
    if b < |content| && content[b] == '[' then
      match ImageBody(content, pattern, b + 1)
      case None => None
      case Some(f) =>
        match Match(content, f.end, LinkTailTokens())
        case None => None
        case Some(t) => Some(Found(t.0, f.text, f.url, t.1[0]))
    else None
  }

  /** The image pattern has two groups, free of `]` and `)` respectively, and spells `![text](url)`. */
  lemma {:induction false} ImageTokensSpell(caps: seq<string>)
    ensures Groups(ImageTokens()) == 2 && WellFormed(ImageTokens())
    ensures Fills(ImageTokens(), caps) <==> |caps| == 2 && ']' !in caps[0] && ')' !in caps[1]
    ensures Fills(ImageTokens(), caps) ==> Spell(ImageTokens(), caps) == ImageMarkup(caps[0], caps[1])
  {
    var dest := Then(Char('('), ParenTail());
    var close := Then(Char(']'), dest);
    var group := Then(Except(']'), close);
    var open := Then(Char('['), group);
    if |caps| > 0 {
      ParenTailSpell(caps[1..]);
      CharThen('(', ParenTail(), caps[1..]);
      CharThen(']', dest, caps[1..]);
    }
    ParenTailSpell([]);
    CharThen('(', ParenTail(), []);
    CharThen(']', dest, []);
    GroupThen(']', close, caps);
    CharThen('[', group, caps);
    CharThen('!', open, caps);
    if Fills(ImageTokens(), caps) {
      ImageMarkupParts(caps[0], caps[1]);
    }
  }

  /** The link tail has one group, free of `)`, and spells `](link)`. */
  lemma {:induction false} LinkTailTokensSpell(caps: seq<string>)
    ensures Groups(LinkTailTokens()) == 1 && WellFormed(LinkTailTokens())
    ensures Fills(LinkTailTokens(), caps) <==> |caps| == 1 && ')' !in caps[0]
    ensures Fills(LinkTailTokens(), caps) ==> Spell(LinkTailTokens(), caps) == "](" + caps[0] + ")"
  {
    var dest := Then(Char('('), ParenTail());
    ParenTailSpell(caps);
    CharThen('(', ParenTail(), caps);
    CharThen(']', dest, caps);
  }

  /** A match of the image pattern is `![text](url)` with groups it can hold. */
  lemma {:induction false} ImageSound(content: string, i: nat)
    requires i <= |content| && Match(content, i, ImageTokens()).Some?
    ensures var m := Match(content, i, ImageTokens()).value;
      && |m.1| == 2 && ']' !in m.1[0] && ')' !in m.1[1] && m.0 == i + |ImageMarkup(m.1[0], m.1[1])|
      && StartsAt(content, i, ImageMarkup(m.1[0], m.1[1]))
  {
    MatchSound(content, i, ImageTokens());
    ImageTokensSpell(Match(content, i, ImageTokens()).value.1);
  }

  /** A match of the link tail is `](link)` with no `)` in the link. */
  lemma {:induction false} LinkTailSound(content: string, j: nat)
    requires j <= |content| && Match(content, j, LinkTailTokens()).Some?
    ensures var m := Match(content, j, LinkTailTokens()).value;
      && |m.1| == 1 && ')' !in m.1[0] && m.0 == j + |m.1[0]| + 3
      && StartsAt(content, j, "](" + m.1[0] + ")")
  {
    MatchSound(content, j, LinkTailTokens());
    LinkTailTokensSpell(Match(content, j, LinkTailTokens()).value.1);
  }

  /** `![text](url)` with groups the image pattern can hold is matched, with those groups. */
  lemma {:induction false} ImageComplete(content: string, i: nat, text: string, url: string)
    requires i <= |content| && ']' !in text && ')' !in url && StartsAt(content, i, ImageMarkup(text, url))
    ensures Match(content, i, ImageTokens()) == Some((i + |ImageMarkup(text, url)|, [text, url]))
  {
    ImageTokensSpell([text, url]);
    MatchComplete(content, i, ImageTokens(), [text, url]);
  }

  /** `](link)` with no `)` in the link is matched by the link tail, with the link as its group. */
  lemma {:induction false} LinkTailComplete(content: string, j: nat, link: string)
    requires j <= |content| && ')' !in link && StartsAt(content, j, "](" + link + ")")
    ensures Match(content, j, LinkTailTokens()) == Some((j + |link| + 3, [link]))
  {
    LinkTailTokensSpell([link]);
    MatchComplete(content, j, LinkTailTokens(), [link]);
  }

  /** An image right after `[` and followed by `](link)` is the linked badge. */
  lemma {:induction false} LinkedBadgeJoin(content: string, b: nat, j: nat, image: string, link: string)
    requires j == b + 1 + |image|
    requires b < |content| && content[b] == '[' && StartsAt(content, b + 1, image) && StartsAt(content, j, "](" + link + ")")
    ensures StartsAt(content, b, LinkMarkup(image, link))
  {
    CharAt(content, b, '[');
    StartsAtJoin(content, b + 1, image, "](" + link + ")");
    StartsAtJoin(content, b, "[", image + ("](" + link + ")"));
    LinkMarkupTail(image, link);
  }

  /** ... and the linked badge is an image right after `[` followed by `](link)`. */
  lemma {:induction false} LinkedBadgeSplit(content: string, b: nat, image: string, link: string)
    requires StartsAt(content, b, LinkMarkup(image, link))
    ensures b < |content| && content[b] == '[' && StartsAt(content, b + 1, image)
    ensures StartsAt(content, b + 1 + |image|, "](" + link + ")")
  {
    LinkMarkupTail(image, link);
    StartsAtSplit(content, b, b + 1, "[", image + ("](" + link + ")"));
    StartsAtSplit(content, b + 1, b + 1 + |image|, image, "](" + link + ")");
    CharAt(content, b, '[');
  }

  /** What ImageBody reports is an image with an accepted URL, spelled from `i`. */
  lemma {:induction false} ImageBodySound(content: string, pattern: iset<string>, i: nat)
    requires i <= |content| && ImageBody(content, pattern, i).Some?
    ensures var f := ImageBody(content, pattern, i).value;
      && BadgeSpelledAt(content, pattern, false, i, f.text, f.url, f.link)
      && f.end == i + |ImageMarkup(f.text, f.url)|
  {
    ImageSound(content, i);
  }

  /** What LinkedBody reports is a linked image with an accepted URL, spelled from `b`. */
  lemma {:induction false} LinkedBodySound(content: string, pattern: iset<string>, b: nat)
    requires b <= |content| && LinkedBody(content, pattern, b).Some?
    ensures var f := LinkedBody(content, pattern, b).value;
      && BadgeSpelledAt(content, pattern, true, b, f.text, f.url, f.link)
      && f.end == b + |LinkMarkup(ImageMarkup(f.text, f.url), f.link)|
  {
    var f := ImageBody(content, pattern, b + 1).value;
    ImageBodySound(content, pattern, b + 1);
    LinkTailSound(content, f.end);
    var t := Match(content, f.end, LinkTailTokens()).value;
    assert LinkedBody(content, pattern, b) == Some(Found(t.0, f.text, f.url, t.1[0]));
    LinkedBadgeJoin(content, b, f.end, ImageMarkup(f.text, f.url), t.1[0]);
  }

  /** What BadgeBody reports is a badge that the pattern accepts, spelled from `b`. */
  lemma {:induction false} BadgeBodySound(content: string, pattern: iset<string>, linked: bool, b: nat)
    requires b <= |content| && BadgeBody(content, pattern, linked, b).Some?
    ensures var f := BadgeBody(content, pattern, linked, b).value;
      && BadgeSpelledAt(content, pattern, linked, b, f.text, f.url, f.link)
      && f.end == b + |BadgeMarkup(linked, f.text, f.url, f.link)|
  {
    if linked {
      LinkedBodySound(content, pattern, b);
    } else {
      ImageBodySound(content, pattern, b);
    }
  }

  /** An image with an accepted URL spelled from `i` is what ImageBody reports. */
  lemma {:induction false} ImageBodyComplete(content: string, pattern: iset<string>, i: nat, text: string, url: string)
    requires i <= |content| && ']' !in text && ')' !in url && IsBadgeUrl(pattern, url)
    requires StartsAt(content, i, ImageMarkup(text, url))
    ensures ImageBody(content, pattern, i) == Some(Found(i + |ImageMarkup(text, url)|, text, url, ""))
  {
    ImageComplete(content, i, text, url);
  }

  /** A linked image with an accepted URL spelled from `b` is what LinkedBody reports. */
  lemma {:induction false} LinkedBodyComplete(content: string, pattern: iset<string>, b: nat, text: string, url: string, link: string)
    requires b <= |content| && ']' !in text && ')' !in url && ')' !in link && IsBadgeUrl(pattern, url)
    requires StartsAt(content, b, LinkMarkup(ImageMarkup(text, url), link))
    ensures LinkedBody(content, pattern, b) == Some(Found(b + |LinkMarkup(ImageMarkup(text, url), link)|, text, url, link))
  {
    var image := ImageMarkup(text, url);
    LinkedBadgeSplit(content, b, image, link);
    LinkedPartsComplete(content, pattern, b, b + 1 + |image|, text, url, link);
    assert b + |LinkMarkup(image, link)| == b + 1 + |image| + |link| + 3;
  }

  /** `[`, an image with an accepted URL and `](link)` in a row are what LinkedBody reports. */
  lemma {:induction false} LinkedPartsComplete(content: string, pattern: iset<string>, b: nat, j: nat, text: string, url: string, link: string)
    requires j == b + 1 + |ImageMarkup(text, url)|
    requires b < |content| && content[b] == '['
    requires ']' !in text && ')' !in url && ')' !in link && IsBadgeUrl(pattern, url)
    requires StartsAt(content, b + 1, ImageMarkup(text, url)) && StartsAt(content, j, "](" + link + ")")
    ensures LinkedBody(content, pattern, b) == Some(Found(j + |link| + 3, text, url, link))
  {
    ImageBodyComplete(content, pattern, b + 1, text, url);
    LinkTailComplete(content, j, link);
  }

  /** A badge with an accepted URL spelled from `b` is what BadgeBody reports. */
  lemma {:induction false} BadgeBodyComplete(content: string, pattern: iset<string>, linked: bool, b: nat, text: string, url: string, link: string)
    requires b <= |content| && BadgeSpelledAt(content, pattern, linked, b, text, url, link)
    ensures BadgeBody(content, pattern, linked, b) == Some(Found(b + |BadgeMarkup(linked, text, url, link)|, text, url, link))
  {
    if linked {
      LinkedBodyComplete(content, pattern, b, text, url, link);
      assert BadgeMarkup(linked, text, url, link) == LinkMarkup(ImageMarkup(text, url), link);
      assert BadgeBody(content, pattern, linked, b) == LinkedBody(content, pattern, b);
    } else {
      ImageBodyComplete(content, pattern, b, text, url);
      assert BadgeMarkup(linked, text, url, link) == ImageMarkup(text, url);
      assert BadgeBody(content, pattern, linked, b) == ImageBody(content, pattern, b);
    }
  }

  /** Once the badge is found where it should end, the line break the placement wants makes its hit. */
  lemma {:induction false} LineEndHitAt(content: string, placement: Placement, linked: bool, p: nat, f: Found)
    requires p < f.end <= |content| && LineEndAt(content, placement, f.end)
    requires f.end == BadgeEnd(placement, linked, p, f.text, f.url, f.link)
    ensures LineEndHit(content, placement, linked, p, f) == Some(BadgeHit(content, placement, linked, p, f.text, f.url, f.link))
  {
  }

  lemma {:induction false} LineEndHitSome(content: string, placement: Placement, linked: bool, p: nat, f: Found)
    requires p < f.end <= |content| && LineEndHit(content, placement, linked, p, f).Some?
    ensures LineEndAt(content, placement, f.end)
  {
  }

  /** Once the lead-in is there and the badge is found, the rest of the match is the line break. */
  lemma {:induction false} BadgeHitOf(content: string, pattern: iset<string>, linked: bool, placement: Placement, p: nat, f: Found)
    requires p <= |content| && LeadAt(content, placement, p)
    requires BadgeBody(content, pattern, linked, p + |Lead(placement)|) == Some(f)
    ensures BadgeHitAt(content, pattern, linked, placement, p) == LineEndHit(content, placement, linked, p, f)
  {
  }

  /** ... and a badge match has the lead-in and a badge found after it. */
  lemma {:induction false} BadgeHitParts(content: string, pattern: iset<string>, linked: bool, placement: Placement, p: nat)
    requires p <= |content| && BadgeHitAt(content, pattern, linked, placement, p).Some?
    ensures LeadAt(content, placement, p) && BadgeBody(content, pattern, linked, p + |Lead(placement)|).Some?
    ensures BadgeHitAt(content, pattern, linked, placement, p)
         == LineEndHit(content, placement, linked, p, BadgeBody(content, pattern, linked, p + |Lead(placement)|).value)
  {
  }

  /** A badge match is a badge the pattern accepts, with its lead-in and line break, and all of it is cut. */
  lemma {:induction false} BadgeHitSound(content: string, pattern: iset<string>, linked: bool, placement: Placement, p: nat)
    requires p <= |content| && BadgeHitAt(content, pattern, linked, placement, p).Some?
    ensures exists text, url, link ::
      && BadgeAt(content, pattern, linked, placement, p, text, url, link)
      && BadgeHitAt(content, pattern, linked, placement, p) == Some(BadgeHit(content, placement, linked, p, text, url, link))
  {
    var b := p + |Lead(placement)|;
    BadgeHitParts(content, pattern, linked, placement, p);
    var f := BadgeBody(content, pattern, linked, b).value;
    BadgeBodySound(content, pattern, linked, b);
    assert f.end == BadgeEnd(placement, linked, p, f.text, f.url, f.link);
    LineEndHitSome(content, placement, linked, p, f);
    LineEndHitAt(content, placement, linked, p, f);
    assert BadgeAt(content, pattern, linked, placement, p, f.text, f.url, f.link);
  }

  /** The lead-in, the badge found after it and the line break after that make the hit of that badge. */
  lemma {:induction false} BadgeHitFrom(content: string, pattern: iset<string>, linked: bool, placement: Placement, p: nat,
                                        text: string, url: string, link: string)
    requires p <= |content| && LeadAt(content, placement, p)
    requires BadgeBody(content, pattern, linked, p + |Lead(placement)|)
          == Some(Found(p + |Lead(placement)| + |BadgeMarkup(linked, text, url, link)|, text, url, link))
    requires LineEndAt(content, placement, BadgeEnd(placement, linked, p, text, url, link))
    ensures BadgeHitAt(content, pattern, linked, placement, p) == Some(BadgeHit(content, placement, linked, p, text, url, link))
  {
    var e := BadgeEnd(placement, linked, p, text, url, link);
    var f := Found(e, text, url, link);
    assert f.end == e && f.text == text && f.url == url && f.link == link;
    LineEndHitAt(content, placement, linked, p, f);
    BadgeHitOf(content, pattern, linked, placement, p, f);
  }

  /** Every badge the pattern accepts, with its lead-in and line break, is matched where that lead-in starts. */
  lemma {:induction false} BadgeHitComplete(content: string, pattern: iset<string>, linked: bool, placement: Placement, p: nat,
                         text: string, url: string, link: string)
    requires BadgeAt(content, pattern, linked, placement, p, text, url, link)
    ensures BadgeHitAt(content, pattern, linked, placement, p) == Some(BadgeHit(content, placement, linked, p, text, url, link))
  {
    var b := p + |Lead(placement)|;
    BadgeSpelledWithin(content, pattern, linked, b, text, url, link);
    BadgeBodyComplete(content, pattern, linked, b, text, url, link);
    BadgeHitFrom(content, pattern, linked, placement, p, text, url, link);
  }

  /** A spelled badge lies within the content. */
  lemma {:induction false} BadgeSpelledWithin(content: string, pattern: iset<string>, linked: bool, b: nat,
                                              text: string, url: string, link: string)
    requires BadgeSpelledAt(content, pattern, linked, b, text, url, link)
    ensures b + |BadgeMarkup(linked, text, url, link)| <= |content|
  {
  }

  /** The text of the badge regex's match: the lead-in, the badge and the line break. */
  function BadgeText(content: string, placement: Placement, linked: bool, p: nat, text: string, url: string, link: string): string
  {
    var markup := BadgeMarkup(linked, text, url, link);
    Lead(placement) + markup + Eol(content, placement, p + |Lead(placement)| + |markup|)
  }

  /** Everything a badge hit cuts is the badge text, which is spelled where the hit starts. */
  lemma {:induction false} BadgeTextCut(content: string, pattern: iset<string>, linked: bool, placement: Placement, p: nat,
                     text: string, url: string, link: string)
    requires BadgeAt(content, pattern, linked, placement, p, text, url, link)
    ensures var h := BadgeHit(content, placement, linked, p, text, url, link);
      && h.end <= |content| && content[h.cutFrom..h.cutTo] == BadgeText(content, placement, linked, p, text, url, link)
  {
    var lead, markup := Lead(placement), BadgeMarkup(linked, text, url, link);
    var e := BadgeEnd(placement, linked, p, text, url, link);
    assert e == p + |lead| + |markup|;
    var eol := Eol(content, placement, e);
    assert StartsAt(content, p, lead) by {
      if placement.OwnLine? {
        StartsAtSlice(content, p, lead);
      }
    }
    assert StartsAt(content, p + |lead|, markup);
    assert StartsAt(content, e, eol);
    StartsAtJoin(content, p, lead, markup);
    StartsAtJoin(content, p, lead + markup, eol);
    StartsAtSlice(content, p, lead + markup + eol);
    assert BadgeText(content, placement, linked, p, text, url, link) == lead + markup + eol;
  }
}
