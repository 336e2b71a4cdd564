/** `updateActiveLink` of the site script: the nav link of the section under
    the reading position is highlighted. Section offsets, the scroll
    position and link `href`s are inputs. */
module ActiveLink {
  import opened JsText

  datatype Section = Section(id: string, top: int, height: int)

  /** A nav link's `href` attribute, which may be absent. */
  datatype Link = Link(href: Option<string>)

  /** The scroll position is read 120 px below the top of the viewport. */
  const Offset: int := 120

  predicate Contains(s: Section, pos: int) {
    s.top <= pos < s.top + s.height
  }

  /** The id of the first section containing `pos`, or "" when none does. */
  function CurrentId(sections: seq<Section>, pos: int): (id: string)
    ensures (forall k :: 0 <= k < |sections| ==> !Contains(sections[k], pos)) ==> id == ""
    ensures (exists k :: 0 <= k < |sections| && Contains(sections[k], pos)) ==>
              exists k :: 0 <= k < |sections| && Contains(sections[k], pos) && id == sections[k].id
                          && forall j :: 0 <= j < k ==> !Contains(sections[j], pos)
  {
    if |sections| == 0 then ""
    else if Contains(sections[0], pos) then sections[0].id
    else
      var id := CurrentId(sections[1..], pos);
      assert forall k :: 1 <= k < |sections| ==> sections[k] == sections[1..][k - 1];
      if exists k :: 0 <= k < |sections| && Contains(sections[k], pos) then
        var k :| 1 <= k < |sections| && Contains(sections[k], pos);
        assert Contains(sections[1..][k - 1], pos);
        id
      else id
  }

  /** `link.getAttribute("href")?.substring(1)`: absent for a link with no
      `href`, otherwise the text after the first character ("" for "#"). */
  function HrefId(link: Link): (r: Option<string>)
    ensures r.None? <==> link.href.None?
    ensures r.Some? && |link.href.value| >= 1 ==> link.href.value == [link.href.value[0]] + r.value
  {
    match link.href
    case None => None
    case Some(h) => Some(if |h| == 0 then "" else h[1..])
  }

  /** The `active` flag of every link after a scroll to `scrollY`: a link is
      highlighted when its anchor names the current section. */
  function UpdateActiveLink(sections: seq<Section>, links: seq<Link>, scrollY: int): (r: seq<bool>)
    ensures |r| == |links|
    ensures forall i :: 0 <= i < |links| ==> (r[i] <==> HrefId(links[i]) == Some(CurrentId(sections, scrollY + Offset)))
  {
    var id := CurrentId(sections, scrollY + Offset);
    seq(|links|, i requires 0 <= i < |links| => HrefId(links[i]) == Some(id))
  }

  /** Two links with different anchors are never highlighted together. */
  lemma HighlightIsExclusive(sections: seq<Section>, links: seq<Link>, scrollY: int, i: nat, j: nat)
    requires i < |links| && j < |links| && HrefId(links[i]) != HrefId(links[j])
    ensures var r := UpdateActiveLink(sections, links, scrollY); !(r[i] && r[j])
  {
  }

  /** When no section contains the reading position the current id is "",
      so a link whose `href` is just "#" (or empty) is highlighted. */
  lemma BareHashLinkLitOutsideSections(sections: seq<Section>, links: seq<Link>, scrollY: int, i: nat)
    requires i < |links| && links[i].href == Some("#")
    requires forall k :: 0 <= k < |sections| ==> !Contains(sections[k], scrollY + Offset)
    ensures UpdateActiveLink(sections, links, scrollY)[i]
  {
  }
}
