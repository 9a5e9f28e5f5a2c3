/** Active-link highlighting in the navigation bar (`updateActiveNavigation`).
    The DOM reads become parameters: each `section[id]` in document order as
    its id, `offsetTop` and `clientHeight`, and each `.nav-link` as its `href`
    attribute; the `active` class of the links is an array of flags. */
module Navigation {
  import opened Wrappers

  /** How far above a section's top the reader may be for it to count as current. */
  const SectionOffset := 100

  datatype Section = Section(id: string, offsetTop: int, clientHeight: int)

  /** The condition tested for each section. */
  predicate InView(s: Section, scrollY: int)
  {
    s.offsetTop - SectionOffset <= scrollY < s.offsetTop - SectionOffset + s.clientHeight
  }

  /** The index of the last section, in document order, that is in view. */
  function LastInView(sections: seq<Section>, scrollY: int): (r: Option<nat>)
    ensures r.Some? ==> (r.value < |sections| && InView(sections[r.value], scrollY) &&
      forall j :: r.value < j < |sections| ==> !InView(sections[j], scrollY))
    ensures r.None? ==> forall j :: 0 <= j < |sections| ==> !InView(sections[j], scrollY)
  {
    if sections == [] then None
    else if InView(sections[|sections| - 1], scrollY) then Some(|sections| - 1)
    else LastInView(sections[..|sections| - 1], scrollY)
  }

  /** The id the links are compared against: that of the last section in view,
      or '' when none is. */
  function CurrentId(sections: seq<Section>, scrollY: int): string
  {
    match LastInView(sections, scrollY)
    case None => ""
    case Some(k) => sections[k].id
  }

  /** Whether a link is highlighted for the current id. */
  predicate Highlighted(href: Option<string>, current: string)
  {
    href == Some("#" + current)
  }

  /** When some section is in view, `CurrentId` is the id of a section in view
      with no section after it in view; when none is, it is ''. */
  lemma CurrentIdSpec(sections: seq<Section>, scrollY: int)
    ensures (exists k :: 0 <= k < |sections| && InView(sections[k], scrollY)) ==>
      exists k :: 0 <= k < |sections| && InView(sections[k], scrollY) &&
        CurrentId(sections, scrollY) == sections[k].id &&
        forall j :: k < j < |sections| ==> !InView(sections[j], scrollY)
    ensures (forall k :: 0 <= k < |sections| ==> !InView(sections[k], scrollY)) ==>
      CurrentId(sections, scrollY) == ""
  {
    match LastInView(sections, scrollY)
    case None =>
    case Some(k) =>
      assert InView(sections[k], scrollY);
  }

  /** With no section in view `current` is '', so the only links highlighted
      are those whose `href` is exactly '#'. */
  lemma NothingInViewHighlightsBareHash(sections: seq<Section>, scrollY: int, href: Option<string>)
    requires forall k :: 0 <= k < |sections| ==> !InView(sections[k], scrollY)
    ensures Highlighted(href, CurrentId(sections, scrollY)) <==> href == Some("#")
  {
    CurrentIdSpec(sections, scrollY);
    assert "#" + "" == "#";
  }

  /** The first loop of `updateActiveNavigation`: every section in view
      overwrites `current`, so the last one wins. */
  method FindCurrent(sections: seq<Section>, scrollY: int) returns (current: string)
    ensures current == CurrentId(sections, scrollY)
  {
    current := "";
    for i := 0 to |sections|
      invariant current == CurrentId(sections[..i], scrollY)
    {
      assert sections[..i + 1][..i] == sections[..i];
      if InView(sections[i], scrollY) {
        current := sections[i].id;
      }
    }
    assert sections[..|sections|] == sections;
  }

  /** The second loop: remove `active` from every link, then add it to those
      whose `href` is `'#' + current`. */
  method HighlightLinks(hrefs: seq<Option<string>>, active: array<bool>, current: string)
    requires active.Length == |hrefs|
    modifies active
    ensures forall i :: 0 <= i < active.Length ==> active[i] == Highlighted(hrefs[i], current)
  {
    for i := 0 to active.Length
      invariant forall j :: 0 <= j < i ==> active[j] == Highlighted(hrefs[j], current)
    {
      active[i] := false;
      if hrefs[i] == Some("#" + current) {
        active[i] := true;
      }
    }
  }

  /** `updateActiveNavigation`: exactly the links pointing at the last section
      in view are active afterwards. */
  method UpdateActiveNavigation(sections: seq<Section>, scrollY: int,
                                hrefs: seq<Option<string>>, active: array<bool>)
    requires active.Length == |hrefs|
    modifies active
    ensures forall i :: 0 <= i < active.Length ==>
      active[i] == Highlighted(hrefs[i], CurrentId(sections, scrollY))
  {
    var current := FindCurrent(sections, scrollY);
    HighlightLinks(hrefs, active, current);
  }
}
