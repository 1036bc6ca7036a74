/**
 * `updateActiveNavLink` in `initNavigation`: on every scroll (and once at
 * start-up) the navigation link of the section under a probe line 100 pixels
 * below the top of the viewport is highlighted.
 */
module ActiveLink {

  import opened Wrappers

  /** How far below the top of the viewport the probe line sits. */
  const ProbeOffset: real := 100.0

  /** A `section[id]` of the page, with its `offsetTop` and `clientHeight`. */
  datatype Section = Section(id: string, top: int, height: nat)

  /**
   * A navigation link: its `href`, and whether it carries the highlight
   * classes (`text-blue-400 border-blue-400`) rather than the plain ones
   * (`text-gray-300 hover:text-white`).
   */
  datatype Link = Link(href: string, highlighted: bool)

  /** The section spans the half-open interval [top, top + height). */
  predicate Contains(s: Section, y: real) {
    s.top as real <= y < (s.top + s.height) as real
  }

  /** The href a link needs to point at section `id`. */
  function Anchor(id: string): (r: string)
    ensures |r| == |id| + 1 && r[0] == '#' && r[1..] == id
  {
    "#" + id
  }

  /** Index of the last section, in document order, that contains y. */
  function LastMatch(sections: seq<Section>, y: real): (r: Option<nat>)
    ensures r.Some? ==> r.value < |sections| && Contains(sections[r.value], y)
    ensures r.Some? ==> forall j :: r.value < j < |sections| ==> !Contains(sections[j], y)
    ensures r.None? <==> forall j :: 0 <= j < |sections| ==> !Contains(sections[j], y)
    decreases |sections|
  {
    if |sections| == 0 then None
    else if Contains(sections[|sections| - 1], y) then Some(|sections| - 1)
    else LastMatch(sections[..|sections| - 1], y)
  }

  /** Each link with its highlight set exactly when it points at `target`. */
  predicate HighlightsOnly(links: seq<Link>, r: seq<Link>, target: string) {
    && |r| == |links|
    && (forall i :: 0 <= i < |r| ==> r[i].href == links[i].href)
    && (forall i :: 0 <= i < |r| ==> (r[i].highlighted <==> links[i].href == target))
  }

  /**
   * The inner loop of the handler: every link loses the highlight and gets it
   * back when its href is `target`.
   */
  method Highlight(links: seq<Link>, target: string) returns (r: seq<Link>)
    ensures HighlightsOnly(links, r, target)
  {
    r := [];
    for i := 0 to |links|
      invariant |r| == i
      invariant forall k :: 0 <= k < i ==> r[k].href == links[k].href
      invariant forall k :: 0 <= k < i ==> (r[k].highlighted <==> links[k].href == target)
    {
      var link := links[i].(highlighted := false);
      if link.href == target {
        link := link.(highlighted := true);
      }
      r := r + [link];
    }
  }

  /**
   * One run of the handler at window offset scrollY. When some section
   * contains the probe line, exactly the links pointing at the last such
   * section end up highlighted; when none does, no link changes.
   */
  method UpdateActiveNavLink(sections: seq<Section>, links: seq<Link>, scrollY: real)
    returns (r: seq<Link>)
    ensures |r| == |links|
    ensures forall i :: 0 <= i < |r| ==> r[i].href == links[i].href
    ensures LastMatch(sections, scrollY + ProbeOffset).None? ==> r == links
    ensures LastMatch(sections, scrollY + ProbeOffset).Some? ==>
      var s := sections[LastMatch(sections, scrollY + ProbeOffset).value];
      forall i :: 0 <= i < |r| ==> (r[i].highlighted <==> links[i].href == Anchor(s.id))
  {
    var y := scrollY + ProbeOffset;
    r := links;
    for k := 0 to |sections|
      invariant LastMatch(sections[..k], y).None? ==> r == links
      invariant LastMatch(sections[..k], y).Some? ==>
        HighlightsOnly(links, r, Anchor(sections[LastMatch(sections[..k], y).value].id))
    {
      assert sections[..k + 1][..k] == sections[..k];
      if Contains(sections[k], y) {
        r := Highlight(r, Anchor(sections[k].id));
      }
    }
    assert sections[..|sections|] == sections;
  }
}
