/**
 * The fragment of java.util.regex that the rewriters compile: a pattern is a
 * row of tokens, each a character, a quoted literal, or a capturing group of
 * the form `([^c]*)`. Because such a group cannot swallow its stop character
 * `c`, and every group here is followed by exactly that character, the greedy
 * group ends at the first `c` and no backtracking can change the match.
 */
module Regex {
  import opened Strings

  datatype Token =
    | Char(c: char)         // `\c` or `c`
    | Literal(w: string)    // Pattern.quote(w)
    | Except(stop: char)    // `([^stop]*)`, a capturing group

  /** A pattern is its tokens in order. */
  datatype Pattern = End | Then(head: Token, tail: Pattern)

  /** Every group is followed by its stop character, as in `\[([^\]]*)\]`. */
  predicate WellFormed(pat: Pattern)
  {
    pat.Then? ==>
      && (pat.head.Except? ==> pat.tail.Then? && pat.tail.head == Char(pat.head.stop))
      && WellFormed(pat.tail)
  }

  /** `caps` gives one value to every group, in order, none holding its group's stop character. */
  predicate Fills(pat: Pattern, caps: seq<string>)
  {
    if pat.End? then caps == []
    else if pat.head.Except? then |caps| > 0 && pat.head.stop !in caps[0] && Fills(pat.tail, caps[1..])
    else Fills(pat.tail, caps)
  }

  /** Number of capturing groups. */
  function Groups(pat: Pattern): nat
  {
    if pat.End? then 0 else (if pat.head.Except? then 1 else 0) + Groups(pat.tail)
  }

  /** Number of characters the pattern matches outside its groups. */
  function Width(pat: Pattern): nat
  {
    if pat.End? then 0
    else match pat.head
      case Char(_) => 1 + Width(pat.tail)
      case Literal(w) => |w| + Width(pat.tail)
      case Except(_) => Width(pat.tail)
  }

  /** The text the pattern matches when its groups hold `caps`. */
  function Spell(pat: Pattern, caps: seq<string>): string
    requires Fills(pat, caps)
  {
    if pat.End? then []
    else match pat.head
      case Char(c) => [c] + Spell(pat.tail, caps)
      case Literal(w) => w + Spell(pat.tail, caps)
      case Except(_) => caps[0] + Spell(pat.tail, caps[1..])
  }

  /** A leading character adds nothing to the groups and spells itself first. */
  lemma CharThen(c: char, t: Pattern, caps: seq<string>)
    ensures Fills(Then(Char(c), t), caps) == Fills(t, caps)
    ensures Groups(Then(Char(c), t)) == Groups(t) && Width(Then(Char(c), t)) == 1 + Width(t)
    ensures WellFormed(Then(Char(c), t)) == WellFormed(t)
    ensures Fills(t, caps) ==> Spell(Then(Char(c), t), caps) == [c] + Spell(t, caps)
  {
  }

  /** A leading group takes the first value, which must be free of its stop character. */
  lemma GroupThen(stop: char, t: Pattern, caps: seq<string>)
    ensures Fills(Then(Except(stop), t), caps) == (|caps| > 0 && stop !in caps[0] && Fills(t, caps[1..]))
    ensures Groups(Then(Except(stop), t)) == 1 + Groups(t) && Width(Then(Except(stop), t)) == Width(t)
    ensures WellFormed(Then(Except(stop), t)) == (t.Then? && t.head == Char(stop) && WellFormed(t))
    ensures Fills(Then(Except(stop), t), caps) ==> Spell(Then(Except(stop), t), caps) == caps[0] + Spell(t, caps[1..])
  {
  }

  /** The empty pattern takes no groups and spells nothing. */
  lemma EndSpell(caps: seq<string>)
    ensures Fills(End, caps) == (caps == []) && Groups(End) == 0 && Width(End) == 0 && WellFormed(End)
    ensures Fills(End, caps) ==> Spell(End, caps) == []
  {
  }

  /**
   * The pattern anchored at offset `p`: where the match ends and what the
   * groups captured, or None when it does not match there.
   */
  function Match(s: string, p: nat, pat: Pattern): (r: Option<(nat, seq<string>)>)
    requires p <= |s|
    // the offset is part of the measure so that a fixed pattern is not unrolled against unknown text
    decreases pat, |s| - p
    ensures r.Some? ==> p + Width(pat) <= r.value.0 <= |s| && |r.value.1| == Groups(pat)
  {
    if pat.End? then Some((p, []))
    else match pat.head
      case Char(c) => if p < |s| && s[p] == c then Match(s, p + 1, pat.tail) else None
      case Literal(w) => if StartsAt(s, p, w) then Match(s, p + |w|, pat.tail) else None
      case Except(stop) =>
        match IndexOf(s, stop, p)
        case None => None
        case Some(q) =>
          match Match(s, q, pat.tail)
          case None => None
          case Some(rest) => Some((rest.0, [s[p..q]] + rest.1))
  }

  /** What a match means: the groups fill the pattern, and its text is spelled from `p` to the match end. */
  predicate SpelledBy(s: string, p: nat, pat: Pattern, r: (nat, seq<string>))
  {
    Fills(pat, r.1) && r.0 == p + |Spell(pat, r.1)| && StartsAt(s, p, Spell(pat, r.1))
  }

  /** A match spells the pattern with the captured groups, and ends where that text ends. */
  lemma {:induction false} MatchSound(s: string, p: nat, pat: Pattern)
    requires p <= |s| && Match(s, p, pat).Some?
    decreases pat, 1
    ensures SpelledBy(s, p, pat, Match(s, p, pat).value)
  {
    if pat.End? {
      assert Spell(pat, []) == [];
    } else if pat.head.Char? {
      CharSound(s, p, pat);
    } else if pat.head.Literal? {
      LiteralSound(s, p, pat);
    } else {
      GroupSound(s, p, pat);
    }
  }

  lemma {:induction false} CharSound(s: string, p: nat, pat: Pattern)
    requires p <= |s| && Match(s, p, pat).Some? && pat.Then? && pat.head.Char?
    decreases pat, 0
    ensures SpelledBy(s, p, pat, Match(s, p, pat).value)
  {
    var c := pat.head.c;
    assert p < |s| && s[p] == c && Match(s, p, pat) == Match(s, p + 1, pat.tail);
    MatchSound(s, p + 1, pat.tail);
    var caps := Match(s, p + 1, pat.tail).value.1;
    assert Spell(pat, caps) == [c] + Spell(pat.tail, caps);
    CharAt(s, p, c);
    StartsAtJoin(s, p, [c], Spell(pat.tail, caps));
  }

  lemma {:induction false} LiteralSound(s: string, p: nat, pat: Pattern)
    requires p <= |s| && Match(s, p, pat).Some? && pat.Then? && pat.head.Literal?
    decreases pat, 0
    ensures SpelledBy(s, p, pat, Match(s, p, pat).value)
  {
    var w := pat.head.w;
    assert StartsAt(s, p, w) && Match(s, p, pat) == Match(s, p + |w|, pat.tail);
    MatchSound(s, p + |w|, pat.tail);
    var caps := Match(s, p + |w|, pat.tail).value.1;
    assert Spell(pat, caps) == w + Spell(pat.tail, caps);
    StartsAtJoin(s, p, w, Spell(pat.tail, caps));
  }

  lemma {:induction false} GroupSound(s: string, p: nat, pat: Pattern)
    requires p <= |s| && Match(s, p, pat).Some? && pat.Then? && pat.head.Except?
    decreases pat, 0
    ensures SpelledBy(s, p, pat, Match(s, p, pat).value)
  {
    var stop := pat.head.stop;
    var q := IndexOf(s, stop, p).value;
    var r := Match(s, q, pat.tail).value;
    var caps := [s[p..q]] + r.1;
    assert Match(s, p, pat) == Some((r.0, caps));
    MatchSound(s, q, pat.tail);
    assert caps[0] == s[p..q] && caps[1..] == r.1;
    FreeOfSlice(s, stop, p, q);
    assert Fills(pat, caps);
    assert Spell(pat, caps) == s[p..q] + Spell(pat.tail, r.1);
    StartsAtSlice(s, p, s[p..q]);
    StartsAtJoin(s, p, s[p..q], Spell(pat.tail, r.1));
  }

  /** The text of the pattern sits at `p`, with groups that do not hold their stop characters. */
  predicate SpelledAt(s: string, p: nat, pat: Pattern, caps: seq<string>)
  {
    p <= |s| && WellFormed(pat) && Fills(pat, caps) && StartsAt(s, p, Spell(pat, caps))
  }

  /** Wherever the pattern's text is spelled with admissible groups, the match finds exactly those groups. */
  lemma {:induction false} MatchComplete(s: string, p: nat, pat: Pattern, caps: seq<string>)
    requires SpelledAt(s, p, pat, caps)
    decreases pat, 1
    ensures Match(s, p, pat).Some?
    ensures Match(s, p, pat).value.0 == p + |Spell(pat, caps)|
    ensures Match(s, p, pat).value.1 == caps
  {
    if pat.End? {
      assert caps == [] && Spell(pat, caps) == [];
    } else if pat.head.Char? {
      CharComplete(s, p, pat, caps);
    } else if pat.head.Literal? {
      LiteralComplete(s, p, pat, caps);
    } else {
      GroupComplete(s, p, pat, caps);
    }
  }

  lemma {:induction false} CharComplete(s: string, p: nat, pat: Pattern, caps: seq<string>)
    requires SpelledAt(s, p, pat, caps) && pat.Then? && pat.head.Char?
    decreases pat, 0
    ensures Match(s, p, pat).Some?
    ensures Match(s, p, pat).value.0 == p + |Spell(pat, caps)|
    ensures Match(s, p, pat).value.1 == caps
  {
    var c := pat.head.c;
    assert Spell(pat, caps) == [c] + Spell(pat.tail, caps);
    StartsAtConcat(s, p, [c], Spell(pat.tail, caps));
    CharAt(s, p, c);
    MatchComplete(s, p + 1, pat.tail, caps);
    assert Match(s, p, pat) == Match(s, p + 1, pat.tail);
  }

  lemma {:induction false} LiteralComplete(s: string, p: nat, pat: Pattern, caps: seq<string>)
    requires SpelledAt(s, p, pat, caps) && pat.Then? && pat.head.Literal?
    decreases pat, 0
    ensures Match(s, p, pat).Some?
    ensures Match(s, p, pat).value.0 == p + |Spell(pat, caps)|
    ensures Match(s, p, pat).value.1 == caps
  {
    var w := pat.head.w;
    assert Spell(pat, caps) == w + Spell(pat.tail, caps);
    StartsAtConcat(s, p, w, Spell(pat.tail, caps));
    MatchComplete(s, p + |w|, pat.tail, caps);
    assert Match(s, p, pat) == Match(s, p + |w|, pat.tail);
  }

  lemma {:induction false} GroupComplete(s: string, p: nat, pat: Pattern, caps: seq<string>)
    requires SpelledAt(s, p, pat, caps) && pat.Then? && pat.head.Except?
    decreases pat, 0
    ensures Match(s, p, pat).Some?
    ensures Match(s, p, pat).value.0 == p + |Spell(pat, caps)|
    ensures Match(s, p, pat).value.1 == caps
  {
    var stop := pat.head.stop;
    var q := p + |caps[0]|;
    var next := pat.tail;
    assert next.head == Char(stop);
    assert Fills(next, caps[1..]);
    assert Fills(next.tail, caps[1..]);
    var tail := Spell(next.tail, caps[1..]);
    assert Spell(pat, caps) == caps[0] + Spell(next, caps[1..]);
    assert Spell(next, caps[1..]) == [stop] + tail;
    StartsAtConcat(s, p, caps[0], Spell(next, caps[1..]));
    StartsAtConcat(s, q, [stop], tail);
    StartsAtSlice(s, p, caps[0]);
    CharAt(s, q, stop);
    FreeOfSlice(s, stop, p, q);
    IndexOfAt(s, stop, p, q);
    MatchComplete(s, q, next, caps[1..]);
    assert [s[p..q]] + caps[1..] == caps;
  }
}
