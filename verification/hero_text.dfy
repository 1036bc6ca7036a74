/**
 * `splitTextForAnimation` in `initHeroAnimations`: a heading's text is
 * replaced by one inline span per character, each fading in a little later
 * than the one before it.
 */
module HeroText {

  /** U+00A0, which keeps a space visible as an inline-block span. */
  const Nbsp: char := '\U{00A0}'

  /** Seconds between the transitions of consecutive characters. */
  const Stagger: real := 0.05

  /** A character's span: its text and the delay of its opacity and transform transitions. */
  datatype Span = Span(text: char, delay: real)

  /** What a character's span shows. */
  function Shown(c: char): (r: char)
    ensures r != ' '
    ensures c == ' ' ==> r == Nbsp
    ensures c != ' ' ==> r == c
  {
    if c == ' ' then Nbsp else c
  }

  /** `spans` is the splitting of `text`: one span per character, in order. */
  ghost predicate SplitOf(text: string, spans: seq<Span>) {
    && |spans| == |text|
    && forall i :: 0 <= i < |text| ==> spans[i] == Span(Shown(text[i]), i as real * Stagger)
  }

  method SplitText(text: string) returns (spans: seq<Span>)
    ensures |spans| == |text|
    ensures forall i :: 0 <= i < |text| ==> spans[i].text == Shown(text[i])
    ensures forall i :: 0 <= i < |text| ==> spans[i].delay == i as real * Stagger
    ensures forall i, j :: 0 <= i < j < |spans| ==> spans[i].delay < spans[j].delay
    ensures SplitOf(text, spans)
  {
    spans := [];
    for index := 0 to |text|
      invariant |spans| == index
      invariant forall i :: 0 <= i < index ==> spans[i] == Span(Shown(text[i]), i as real * Stagger)
    {
      spans := spans + [Span(Shown(text[index]), index as real * Stagger)];
    }
  }

  /** The text the spans show, read left to right. */
  function Rendered(spans: seq<Span>): (r: string)
    ensures |r| == |spans|
  {
    seq(|spans|, i requires 0 <= i < |spans| => spans[i].text)
  }

  /** Turns every non-breaking space back into a plain one. */
  function Unbreak(s: string): (r: string)
    ensures |r| == |s|
  {
    seq(|s|, i requires 0 <= i < |s| => if s[i] == Nbsp then ' ' else s[i])
  }

  /**
   * The spans show the original text, read back with non-breaking spaces as
   * spaces, whenever the text had no non-breaking space of its own; and they
   * never show a plain space.
   */
  lemma RenderedRoundTrip(text: string, spans: seq<Span>)
    requires SplitOf(text, spans)
    requires forall i :: 0 <= i < |text| ==> text[i] != Nbsp
    ensures Unbreak(Rendered(spans)) == text
    ensures forall i :: 0 <= i < |spans| ==> Rendered(spans)[i] != ' '
  {
    forall i | 0 <= i < |text|
      ensures Unbreak(Rendered(spans))[i] == text[i]
    {
      assert Rendered(spans)[i] == Shown(text[i]);
    }
  }

  /**
   * Splitting is compositional: the spans of a + b are the spans of a
   * followed by those of b, delayed by |a| steps.
   */
  lemma SplitOfAppend(a: string, b: string, sa: seq<Span>, sb: seq<Span>)
    requires SplitOf(a, sa) && SplitOf(b, sb)
    ensures SplitOf(a + b, sa + seq(|sb|, i requires 0 <= i < |sb| => sb[i].(delay := sb[i].delay + |a| as real * Stagger)))
  {
    var shifted := seq(|sb|, i requires 0 <= i < |sb| => sb[i].(delay := sb[i].delay + |a| as real * Stagger));
    forall i | |a| <= i < |a| + |b|
      ensures (sa + shifted)[i] == Span(Shown((a + b)[i]), i as real * Stagger)
    {
      var j := i - |a|;
      assert (sa + shifted)[i] == shifted[j];
      assert (i as real) * Stagger == j as real * Stagger + |a| as real * Stagger;
    }
  }
}
