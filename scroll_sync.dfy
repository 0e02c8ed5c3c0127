/** The scroll-synchronised navigation rule of the SmartWare landing page.

    A section is a region of the page with an element id, a top offset and a
    height (the browser's offsetTop and offsetHeight, whole pixels). On every
    scroll event the page computes a threshold one third of the way down the
    viewport and makes the last section whose half-open span contains it the
    active one; the navigation bar highlights the item equal to the active
    section, and a click on an item scrolls to 80 pixels above that section.

    Fractional scroll positions and the division by three are modelled with
    Dafny's exact `real` numbers: an idealisation of the browser's floating
    point, which is not modelled. */
module ScrollSync {

  datatype Option<T> = None | Some(value: T)

  /** One measured region of the page. */
  datatype Section = Section(id: string, top: int, height: int)

  /** The ids the page gives its sections, in document order: the ref
      callbacks store them at indices 0 to 4 of the section array. */
  const SectionIds: seq<string> := ["hero", "about", "services", "products", "contact"]

  /** The first value of the active section. */
  const InitialSection: string := "hero"

  /** The items of the navigation bar, in the order they are rendered. */
  const NavItems: seq<string> := ["about", "services", "products", "contact"]

  /** Height in pixels of the fixed navigation bar that a programmatic scroll
      leaves above its target section. */
  const NavBarOffset: int := 80

  // ---------------------------------------------------------------------
  // The threshold and the containment test
  // ---------------------------------------------------------------------

  /** The document position that decides the active section: one third of
      the way down the viewport, so its distance from the top of the
      viewport is half its distance from the bottom, and it lies strictly
      above the viewport's midpoint. */
  function Threshold(scrollY: real, innerHeight: int): (t: real)
    ensures 2.0 * (t - scrollY) == (scrollY + innerHeight as real) - t
    ensures innerHeight > 0 ==> scrollY < t < scrollY + innerHeight as real / 2.0
  {
    scrollY + innerHeight as real / 3.0
  }

  /** Section `s` contains position `t`: its top is at or above `t` and its
      bottom strictly below it. Equivalently, the offset of `t` into the
      section is at least zero and less than the section's height, so a
      section of zero (or negative) height contains no position. */
  predicate Contains(s: Section, t: real): (b: bool)
    ensures b <==> 0.0 <= t - s.top as real < s.height as real
    ensures b ==> s.height > 0
  {
    s.top as real <= t < (s.top + s.height) as real
  }

  /** Index `i` is the last section in array order that contains `t`. */
  predicate IsLastMatch(sections: seq<Section>, t: real, i: int)
  {
    0 <= i < |sections| && Contains(sections[i], t) &&
    forall j :: i < j < |sections| ==> !Contains(sections[j], t)
  }

  /** No section contains `t`. */
  predicate NoMatch(sections: seq<Section>, t: real)
  {
    forall j :: 0 <= j < |sections| ==> !Contains(sections[j], t)
  }

  /** Some section carries the id `id`. */
  predicate HasId(sections: seq<Section>, id: string)
  {
    exists i :: 0 <= i < |sections| && sections[i].id == id
  }

  /** No two sections carry the same id. */
  predicate UniqueIds(sections: seq<Section>)
  {
    forall i, j :: 0 <= i < j < |sections| ==> sections[i].id != sections[j].id
  }

  // ---------------------------------------------------------------------
  // The active-section rule
  // ---------------------------------------------------------------------

  /** The index of the last section containing `t`, or None when none does. */
  function LastMatch(sections: seq<Section>, t: real): (r: Option<nat>)
    ensures r.Some? ==> IsLastMatch(sections, t, r.value)
    ensures r.None? <==> NoMatch(sections, t)
    decreases |sections|
  {
    if sections == [] then None
    else if Contains(sections[|sections| - 1], t) then Some(|sections| - 1)
    else LastMatch(sections[..|sections| - 1], t)
  }

  /** The active section after a scroll whose threshold is `t`, when it was
      `active` before: the id of the last containing section, and `active`
      itself when no section contains `t`. */
  function NextActive(sections: seq<Section>, t: real, active: string): (r: string)
    ensures NoMatch(sections, t) ==> r == active
    ensures forall i :: IsLastMatch(sections, t, i) ==> r == sections[i].id
    ensures r == active ||
            exists i :: 0 <= i < |sections| && Contains(sections[i], t) && sections[i].id == r
  {
    match LastMatch(sections, t)
    case None => active
    case Some(i) => sections[i].id
  }

  /** The scroll handler: walks the sections in array order and overwrites
      the active section with the id of every section that contains the
      threshold. */
  method HandleScroll(sections: seq<Section>, scrollY: real, innerHeight: int, active: string)
    returns (next: string)
    ensures next == NextActive(sections, Threshold(scrollY, innerHeight), active)
  {
    var t := scrollY + innerHeight as real / 3.0;
    next := active;
    var i := 0;
    while i < |sections|
      invariant 0 <= i <= |sections|
      invariant next == NextActive(sections[..i], t, active)
    {
      assert sections[..i + 1][..i] == sections[..i];
      if sections[i].top as real <= t && (sections[i].top + sections[i].height) as real > t {
        next := sections[i].id;
      }
      i := i + 1;
    }
    assert sections[..i] == sections;
  }

  /** The active section after a sequence of scroll events, each given as
      (scrollY, innerHeight), over a fixed layout: the first value, or the id
      of a section that contained the threshold of one of the events. */
  function ActiveAfter(sections: seq<Section>, events: seq<(real, int)>, active: string): (r: string)
    ensures r == active ||
            exists e, i :: 0 <= e < |events| && 0 <= i < |sections| &&
                           Contains(sections[i], Threshold(events[e].0, events[e].1)) && sections[i].id == r
    decreases |events|
  {
    if events == [] then active
    else ActiveAfter(sections, events[1..],
                     NextActive(sections, Threshold(events[0].0, events[0].1), active))
  }

  // ---------------------------------------------------------------------
  // Properties of the active-section rule
  // ---------------------------------------------------------------------

  /** A section whose bottom equals the top of a later section hands the
      shared boundary to the later one, whatever the sections in between. */
  lemma SharedBoundaryGoesToLater(sections: seq<Section>, i: int, j: int, active: string)
    requires 0 <= i < j < |sections|
    requires sections[i].top + sections[i].height == sections[j].top
    requires sections[j].height > 0
    requires UniqueIds(sections)
    ensures !Contains(sections[i], sections[j].top as real)
    ensures Contains(sections[j], sections[j].top as real)
    ensures NextActive(sections, sections[j].top as real, active) != sections[i].id
    ensures exists k :: j <= k < |sections| && NextActive(sections, sections[j].top as real, active) == sections[k].id
  {
  }

  /** The sections lie one below the other without gaps or overlaps, each
      with a positive height, as the page's full-width sections do. */
  predicate Stacked(sections: seq<Section>)
  {
    (forall k :: 0 <= k < |sections| ==> sections[k].height > 0) &&
    forall k :: 0 < k < |sections| ==> sections[k - 1].top + sections[k - 1].height == sections[k].top
  }

  /** In a stacked layout every later section starts further down. */
  lemma {:induction false} StackedTopsIncrease(sections: seq<Section>, a: int, b: int)
    requires Stacked(sections) && 0 <= a < b < |sections|
    ensures sections[a].top < sections[b].top
    decreases b - a
  {
    if a + 1 < b {
      StackedTopsIncrease(sections, a + 1, b);
    }
    assert sections[a].top < sections[a + 1].top;
  }

  /** In a stacked layout a threshold on the top edge of a section makes
      that section active, whatever the ids and the previous value. */
  lemma StackedTopEdgeActivates(sections: seq<Section>, k: int, active: string)
    requires Stacked(sections) && 0 <= k < |sections|
    ensures NextActive(sections, sections[k].top as real, active) == sections[k].id
  {
    var t := sections[k].top as real;
    forall m | k < m < |sections|
      ensures !Contains(sections[m], t)
    {
      StackedTopsIncrease(sections, k, m);
    }
    assert IsLastMatch(sections, t, k);
  }

  /** A section of zero (or negative) height never becomes active through
      its own span: the active id always comes from a section of positive
      height, or is the old value. */
  lemma EmptySectionNeverMatches(sections: seq<Section>, t: real, active: string)
    ensures NextActive(sections, t, active) == active ||
            exists i :: 0 <= i < |sections| && sections[i].height > 0 &&
                        NextActive(sections, t, active) == sections[i].id
  {
  }

  /** Once the active section is the id of some section, it stays the id
      of some section over any sequence of scroll events. */
  lemma ActiveStaysASectionId(sections: seq<Section>, events: seq<(real, int)>, active: string)
    requires HasId(sections, active)
    ensures HasId(sections, ActiveAfter(sections, events, active))
  {
  }

  /** Over a page laid out with the five sections, starting from "hero",
      the active section is always one of the five section ids. */
  lemma ActiveIsAlwaysAPageSection(sections: seq<Section>, events: seq<(real, int)>)
    requires |sections| == |SectionIds|
    requires forall k :: 0 <= k < |SectionIds| ==> sections[k].id == SectionIds[k]
    ensures ActiveAfter(sections, events, InitialSection) in SectionIds
  {
  }

  /** The worked example: five 800-pixel sections stacked from offset 0, a
      900-pixel viewport scrolled to 1700 puts the threshold at 2000, inside
      "services". A threshold past the last bottom keeps the old value. */
  lemma ServicesExample(active: string)
    ensures var sections := [Section("hero", 0, 800), Section("about", 800, 800),
                             Section("services", 1600, 800), Section("products", 2400, 800),
                             Section("contact", 3200, 800)];
            NextActive(sections, Threshold(1700.0, 900), active) == "services" &&
            NextActive(sections, Threshold(4000.0, 900), active) == active
  {
    var sections := [Section("hero", 0, 800), Section("about", 800, 800),
                     Section("services", 1600, 800), Section("products", 2400, 800),
                     Section("contact", 3200, 800)];
    assert Threshold(1700.0, 900) == 2000.0;
    assert IsLastMatch(sections, 2000.0, 2);
    assert NoMatch(sections, Threshold(4000.0, 900));
  }

  // ---------------------------------------------------------------------
  // Programmatic scroll
  // ---------------------------------------------------------------------

  /** The index of the first element of `doc` carrying `id`, as the
      document's id lookup returns the first such element; the lookup of the
      empty id finds nothing, whatever the document holds. */
  function FindById(doc: seq<Section>, id: string): (r: Option<nat>)
    ensures r.Some? ==> r.value < |doc| && doc[r.value].id == id &&
                        forall j :: 0 <= j < r.value ==> doc[j].id != id
    ensures r.None? <==> id == "" || !HasId(doc, id)
    decreases |doc|
  {
    if id == "" || doc == [] then None
    else if doc[0].id == id then Some(0)
    else match FindById(doc[1..], id)
      case None => None
      case Some(k) => Some(k + 1)
  }

  /** The scroll position a click on `id` requests: 80 pixels above the top
      of the first element with that id, or no request (None) when the lookup
      finds no element. The browser's clamping of the request to the
      scrollable range is not part of this value. */
  function ScrollTarget(doc: seq<Section>, id: string): (r: Option<int>)
    ensures r.None? <==> id == "" || !HasId(doc, id)
    ensures forall i :: 0 <= i < |doc| && doc[i].id == id && id != "" &&
                        (forall j :: 0 <= j < i ==> doc[j].id != id) ==>
                        r == Some(doc[i].top - NavBarOffset)
  {
    match FindById(doc, id)
    case None => None
    case Some(i) => Some(doc[i].top - NavBarOffset)
  }

  /** With unique ids the target of a click is the top of the one section
      with that id, less the navigation bar. */
  lemma ScrollTargetOfUniqueId(doc: seq<Section>, i: int)
    requires 0 <= i < |doc| && UniqueIds(doc) && doc[i].id != ""
    ensures ScrollTarget(doc, doc[i].id) == Some(doc[i].top - 80)
  {
  }

  // ---------------------------------------------------------------------
  // Navigation highlight
  // ---------------------------------------------------------------------

  /** For each navigation item, whether it is highlighted: one flag per
      item, set exactly when that item is the active section. */
  function Highlights(active: string): (r: seq<bool>)
    ensures |r| == |NavItems|
    ensures forall k :: 0 <= k < |r| ==> (r[k] <==> NavItems[k] == active)
  {
    seq(|NavItems|, k requires 0 <= k < |NavItems| => NavItems[k] == active)
  }

  /** An item is highlighted exactly when it equals the active section, at
      most one item is highlighted, one is exactly when the active section is
      a navigation item, and none is while the active section is "hero". */
  lemma HighlightIsExclusive(active: string)
    ensures forall k :: 0 <= k < |NavItems| ==> (Highlights(active)[k] <==> NavItems[k] == active)
    ensures forall j, k :: 0 <= j < k < |NavItems| ==> !(Highlights(active)[j] && Highlights(active)[k])
    ensures (exists k :: 0 <= k < |NavItems| && Highlights(active)[k]) <==> active in NavItems
    ensures active == InitialSection ==> forall k :: 0 <= k < |NavItems| ==> !Highlights(active)[k]
  {
  }
}
