/**
 * The active-link highlighting of script.js: on every scroll the handler finds the last
 * section whose top, less 200 pixels, is at or above the scroll position, and marks exactly
 * the navigation links whose `href` contains that section's id.
 */
module ActiveNav {
  import opened Optional
  import opened JsString

  /** A `section` element: its `id` attribute (absent is null) and its `offsetTop`. */
  datatype Section = Section(id: Option<string>, top: int)

  /** A `.nav-links a` element: its `href` attribute (absent is null) and its `active` class. */
  class NavLink {
    const href: Option<string>
    var active: bool
  }

  /** The scroll position has come within 200 pixels of the section's top. */
  predicate Reached(section: Section, scrollY: real) {
    scrollY >= (section.top - 200) as real
  }

  /** The index of the last section, in document order, that the scroll position has reached. */
  function LastReached(sections: seq<Section>, scrollY: real): (r: Option<nat>)
    ensures r.Some? ==> r.value < |sections| && Reached(sections[r.value], scrollY)
    ensures r.Some? ==> forall j :: r.value < j < |sections| ==> !Reached(sections[j], scrollY)
    ensures r.None? ==> forall j :: 0 <= j < |sections| ==> !Reached(sections[j], scrollY)
  {
    if sections == [] then None
    else if Reached(sections[|sections| - 1], scrollY) then Some(|sections| - 1)
    else LastReached(sections[..|sections| - 1], scrollY)
  }

  /** A string-valued attribute as JavaScript converts it to text: null becomes "null". */
  function AttrText(value: Option<string>): string {
    match value
    case Some(s) => s
    case None => "null"
  }

  /** The id the handler settles on: "" when no section is reached. */
  function CurrentId(sections: seq<Section>, scrollY: real): string {
    match LastReached(sections, scrollY)
    case None => ""
    case Some(k) => AttrText(sections[k].id)
  }

  /** The scan over the sections: `current` ends as the id of the last reached section. */
  method ScanSections(sections: seq<Section>, scrollY: real) returns (current: string)
    ensures current == CurrentId(sections, scrollY)
  {
    current := "";
    for i := 0 to |sections|
      invariant current == CurrentId(sections[..i], scrollY)
    {
      assert sections[..i + 1][..i] == sections[..i];
      if scrollY >= (sections[i].top - 200) as real {
        current := AttrText(sections[i].id);
      }
    }
    assert sections[..|sections|] == sections;
  }

  /** The position of the first link without an `href`, or the number of links if there is none. */
  function FirstMissingHref(links: seq<NavLink>): (k: nat)
    ensures k <= |links|
    ensures forall j :: 0 <= j < k ==> links[j].href.Some?
    ensures k < |links| ==> links[k].href.None?
  {
    if links == [] then 0
    else if links[0].href.None? then 0
    else 1 + FirstMissingHref(links[1..])
  }

  /**
   * The loop over the links: each loses `active` and gets it back iff its `href` includes
   * `current`. A link without `href` makes `getAttribute("href").includes` throw, so the loop
   * stops there (ok is false): that link has lost `active` and the later ones are untouched.
   */
  method HighlightLinks(links: seq<NavLink>, current: string) returns (ok: bool)
    requires forall i, j :: 0 <= i < j < |links| ==> links[i] != links[j]
    modifies set l | l in links
    ensures ok <==> FirstMissingHref(links) == |links|
    ensures forall j :: 0 <= j < FirstMissingHref(links) ==>
      (links[j].active <==> Includes(links[j].href.value, current))
    ensures FirstMissingHref(links) < |links| ==> !links[FirstMissingHref(links)].active
    ensures forall j :: FirstMissingHref(links) < j < |links| ==> links[j].active == old(links[j].active)
  {
    var stop := FirstMissingHref(links);
    var i := 0;
    while i < |links|
      invariant 0 <= i <= stop
      invariant forall j :: 0 <= j < i ==> (links[j].active <==> Includes(links[j].href.value, current))
      invariant forall j :: i <= j < |links| ==> links[j].active == old(links[j].active)
    {
      var link := links[i];
      link.active := false;
      if link.href.None? {
        return false;
      }
      if Includes(link.href.value, current) {
        link.active := true;
      }
      i := i + 1;
    }
    return true;
  }

  /**
   * The whole scroll handler. In particular, when no section is reached the id is "" and
   * every link up to the first one without `href` becomes active.
   */
  method OnScroll(sections: seq<Section>, links: seq<NavLink>, scrollY: real) returns (ok: bool)
    requires forall i, j :: 0 <= i < j < |links| ==> links[i] != links[j]
    modifies set l | l in links
    ensures ok <==> FirstMissingHref(links) == |links|
    ensures forall j :: 0 <= j < FirstMissingHref(links) ==>
      (links[j].active <==> Includes(links[j].href.value, CurrentId(sections, scrollY)))
    ensures LastReached(sections, scrollY).None? ==>
      forall j :: 0 <= j < FirstMissingHref(links) ==> links[j].active
    ensures FirstMissingHref(links) < |links| ==> !links[FirstMissingHref(links)].active
    ensures forall j :: FirstMissingHref(links) < j < |links| ==> links[j].active == old(links[j].active)
  {
    var current := ScanSections(sections, scrollY);
    ok := HighlightLinks(links, current);
  }
}
