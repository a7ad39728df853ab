/**
 * Markdown inline link and image syntax, as the site-index passes spell it.
 */
module Markdown {

  /** `[text](destination)`. */
  function LinkMarkup(text: string, destination: string): (r: string)
    ensures |r| == |text| + |destination| + 4
  {
    "[" + text + "]" + "(" + destination + ")"
  }

  /** `![text](source)`: an image is a link preceded by `!`. */
  function ImageMarkup(text: string, source: string): (r: string)
    ensures |r| == |text| + |source| + 5
  {
    "!" + LinkMarkup(text, source)
  }

  /** The link markup read as its text part followed by its destination part. */
  lemma {:induction false} LinkMarkupHalves(text: string, destination: string)
    ensures LinkMarkup(text, destination) == "[" + text + "]" + ("(" + destination + ")")
  {
  }

  /** The link markup read as `[`, the text, and the tail from `](` on. */
  lemma {:induction false} LinkMarkupTail(text: string, destination: string)
    ensures LinkMarkup(text, destination) == "[" + (text + ("](" + destination + ")"))
  {
    assert "]" + "(" == "](";
  }

  /** The image markup read as `![`, the text, `]` and the parenthesised source. */
  lemma {:induction false} ImageMarkupParts(text: string, source: string)
    ensures ImageMarkup(text, source) == "![" + text + "]" + ("(" + source + ")")
  {
    LinkMarkupHalves(text, source);
    assert "!" + "[" == "![";
  }
}
