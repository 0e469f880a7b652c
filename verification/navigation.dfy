/**
 * The scroll handler of the navigation bar (res.js:36-67): the navbar's
 * background colour, and which navigation link is marked active.
 * Scroll positions and layout offsets are whole pixels here.
 */
module Navigation {
  import opened Wrappers

  /** Past this many pixels of scrolling the navbar turns almost opaque. */
  const ScrolledAfter := 50
  /** The active-section probe sits this far below the top of the viewport. */
  const ProbeOffset := 100
  /** A section counts as reached this far before its top edge. */
  const SectionLead := 150

  const LightTop := "rgba(255, 255, 255, 0.95)"
  const LightScrolled := "rgba(255, 255, 255, 0.98)"
  const DarkTop := "rgba(17, 24, 39, 0.95)"
  const DarkScrolled := "rgba(17, 24, 39, 0.98)"

  /** The navbar background for a scroll offset and colour scheme (res.js:40-50, 97-101, 111-115). */
  function NavbarBackground(scrollY: int, dark: bool): (b: string)
    ensures |b| == if dark then 22 else 25
    ensures b[..5] == "rgba(" && b[|b| - 5..] == (if scrollY > ScrolledAfter then "0.98)" else "0.95)")
    ensures b[5] == (if dark then '1' else '2')
  {
    if scrollY > ScrolledAfter then
      (if dark then DarkScrolled else LightScrolled)
    else
      (if dark then DarkTop else LightTop)
  }

  /** The four backgrounds are distinct: the colour tells the scheme and whether the page is scrolled. */
  lemma NavbarBackgroundDistinct(y1: int, d1: bool, y2: int, d2: bool)
    ensures NavbarBackground(y1, d1) == NavbarBackground(y2, d2) <==>
      d1 == d2 && (y1 > ScrolledAfter <==> y2 > ScrolledAfter)
  {
    var b1, b2 := NavbarBackground(y1, d1), NavbarBackground(y2, d2);
    if b1 == b2 {
      // The palettes differ at index 5, the opacities at the last digit.
      assert b1[5] == b2[5] && b1[|b1| - 2] == b2[|b2| - 2];
    }
  }

  /** A `section[id]` element: its id and its layout box. */
  datatype Section = Section(id: string, offsetTop: int, offsetHeight: int)

  /** The probe at pos lies in the section's band, both ends included. */
  predicate Reaches(s: Section, pos: int) {
    var top := s.offsetTop - SectionLead;
    top <= pos <= top + s.offsetHeight
  }

  /** The last section whose band holds pos: later matches overwrite earlier ones. */
  function LastReached(sections: seq<Section>, pos: int): (r: Option<nat>)
    ensures r.Some? ==> r.value < |sections| && Reaches(sections[r.value], pos)
    ensures r.Some? ==> forall j :: r.value < j < |sections| ==> !Reaches(sections[j], pos)
    ensures r.None? ==> forall j :: 0 <= j < |sections| ==> !Reaches(sections[j], pos)
  {
    if sections == [] then None
    else if Reaches(sections[|sections| - 1], pos) then Some(|sections| - 1)
    else LastReached(sections[..|sections| - 1], pos)
  }

  /** `document.querySelector('.nav-link[href="#id"]')`: the first link with that target. */
  function FirstLinkTo(hrefs: seq<string>, id: string): (r: Option<nat>)
    ensures r.Some? ==> r.value < |hrefs| && hrefs[r.value] == "#" + id
    ensures r.Some? ==> forall k :: 0 <= k < r.value ==> hrefs[k] != "#" + id
    ensures r.None? ==> forall k :: 0 <= k < |hrefs| ==> hrefs[k] != "#" + id
  {
    if hrefs == [] then None
    else if hrefs[0] == "#" + id then Some(0)
    else match FirstLinkTo(hrefs[1..], id)
      case None => None
      case Some(k) => Some(k + 1)
  }

  /** The active links once a section is reached: the first link to it, or none. */
  function ActiveFor(hrefs: seq<string>, id: string): set<nat> {
    match FirstLinkTo(hrefs, id)
    case None => {}
    case Some(k) => {k}
  }

  /**
   * The active-link part of the scroll handler. The links are given by their
   * `href` in document order and the active ones by index. Every section whose
   * band holds `scrollY + 100` clears all links and activates the first link
   * to it, so the last such section decides; if none does, nothing changes.
   */
  method UpdateActive(hrefs: seq<string>, sections: seq<Section>, scrollY: int, active: set<nat>)
    returns (next: set<nat>)
    ensures next == match LastReached(sections, scrollY + ProbeOffset)
      case None => active
      case Some(i) => ActiveFor(hrefs, sections[i].id)
  {
    var scrollPos := scrollY + ProbeOffset;
    next := active;
    for i := 0 to |sections|
      invariant next == match LastReached(sections[..i], scrollPos)
        case None => active
        case Some(j) => ActiveFor(hrefs, sections[j].id)
    {
      var section := sections[i];
      var top := section.offsetTop - SectionLead;
      var bottom := top + section.offsetHeight;
      assert sections[..i + 1][..i] == sections[..i];
      if scrollPos >= top && scrollPos <= bottom {
        next := {};
        var link := FirstLinkTo(hrefs, section.id);
        if link.Some? {
          next := next + {link.value};
        }
      }
    }
    assert sections[..|sections|] == sections;
  }
}
