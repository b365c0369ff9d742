/**
 * The navigation bar of js/app.js: the mobile menu (its `open` class, the
 * toggle's `aria-expanded` and the body scroll lock), the scroll spy that
 * marks the link of the section in view, and the two scroll thresholds.
 */
module Navigation {
  import opened JsValue
  import Page

  /** The scroll spy looks 100 px below the top of the viewport. */
  const SpyOffset: int := 100
  /** Link clicks scroll to 70 px above the target, to clear the fixed bar. */
  const NavHeight: int := 70
  /** Past this scroll position the bar gets `is-scrolled`. */
  const ScrolledThreshold: int := 50
  /** Past this scroll position the back-to-top button is shown. */
  const BackToTopThreshold: int := 600

  /** One `section[id]`: its id, `offsetTop` and `offsetHeight`. */
  datatype Section = Section(id: string, top: int, height: int)

  /** The scroll spy's test for one section. */
  predicate Contains(s: Section, pos: int)
  {
    s.top <= pos < s.top + s.height
  }

  /**
   * The section whose highlight survives the spy's `forEach`: the last one in
   * document order that contains `pos`, or `None` when none does.
   */
  function LastContaining(sections: seq<Section>, pos: int): (r: Option<nat>)
    ensures r.Some? ==> r.value < |sections| && Contains(sections[r.value], pos)
    ensures r.Some? ==> forall j :: r.value < j < |sections| ==> !Contains(sections[j], pos)
    ensures r.None? ==> forall j :: 0 <= j < |sections| ==> !Contains(sections[j], pos)
  {
    if |sections| == 0 then None
    else if Contains(sections[|sections| - 1], pos) then Some(|sections| - 1)
    else LastContaining(sections[..|sections| - 1], pos)
  }

  /** Extending the list by one section: that section wins if it contains `pos`. */
  lemma LastContainingExtend(sections: seq<Section>, s: Section, pos: int)
    ensures LastContaining(sections + [s], pos) ==
      if Contains(s, pos) then Some(|sections|) else LastContaining(sections, pos)
  {
    assert (sections + [s])[..|sections|] == sections;
  }

  /** `document.querySelector('.nav-menu a[href="…"]')`: the first link with that href. */
  function FirstWithHref(links: seq<string>, href: string): (r: Option<nat>)
    ensures r.Some? ==> r.value < |links| && links[r.value] == href
    ensures r.Some? ==> forall j :: 0 <= j < r.value ==> links[j] != href
    ensures r.None? ==> forall j :: 0 <= j < |links| ==> links[j] != href
  {
    if |links| == 0 then None
    else if links[0] == href then Some(0)
    else
      match FirstWithHref(links[1..], href)
      case None => None
      case Some(k) => Some(k + 1)
  }

  /** The `active` classes after the spy highlights the section `id`. */
  function Highlighted(links: seq<string>, id: string): (r: seq<bool>)
    ensures |r| == |links|
  {
    var target := FirstWithHref(links, "#" + id);
    seq(|links|, k requires 0 <= k < |links| => target == Some(k))
  }

  /**
   * After a highlight exactly one link is active when some link points at the
   * section, and it is the first such link; otherwise no link is active.
   */
  lemma HighlightMarksFirstMatchingLink(links: seq<string>, id: string)
    ensures forall i, j :: 0 <= i < |links| && 0 <= j < |links| && Highlighted(links, id)[i] && Highlighted(links, id)[j] ==> i == j
    ensures forall k :: 0 <= k < |links| && Highlighted(links, id)[k] ==>
      links[k] == "#" + id && forall j :: 0 <= j < k ==> links[j] != "#" + id
    ensures (exists k :: 0 <= k < |links| && links[k] == "#" + id) <==>
      (exists k :: 0 <= k < |links| && Highlighted(links, id)[k])
  {
    var target := FirstWithHref(links, "#" + id);
    if target.Some? {
      assert Highlighted(links, id)[target.value];
    }
  }

  /** The id a link's click scrolls to: its href without the leading `#`. */
  function TargetId(href: string): (r: string)
    ensures |href| >= 1 ==> href == [href[0]] + r
    ensures |href| == 0 ==> r == ""
  {
    if |href| == 0 then "" else href[1..]
  }

  /** A `#id` link scrolls to the section `id`. */
  lemma TargetIdOfAnchor(id: string)
    ensures TargetId("#" + id) == id
  {
  }

  /** The `is-scrolled` class for a scroll position. */
  predicate IsScrolled(scrollY: int)
  {
    scrollY > ScrolledThreshold
  }

  /** The back-to-top button's `show` class for a scroll position. */
  predicate ShowsBackToTop(scrollY: int)
  {
    scrollY > BackToTopThreshold
  }

  /** Whenever the back-to-top button shows, the bar is already in its scrolled style. */
  lemma BackToTopImpliesScrolled(scrollY: int)
    ensures ShowsBackToTop(scrollY) ==> IsScrolled(scrollY)
    ensures ScrolledThreshold < scrollY <= BackToTopThreshold <==> IsScrolled(scrollY) && !ShowsBackToTop(scrollY)
  {
  }

  /** #nav with .nav-toggle, .nav-menu and the `.nav-menu a` links, plus #back-to-top. */
  class Navigation {
    const doc: Page.Document
    /** Whether `.nav-toggle` exists; without it no toggle listener is registered. */
    const hasToggle: bool
    /** The `href` of each `.nav-menu a`, in document order. */
    const links: seq<string>
    /** The `active` class of each link. */
    const active: array<bool>
    /** `.nav-menu` carries `open`. */
    var menuOpen: bool
    /** The toggle's `aria-expanded`. */
    var ariaExpanded: bool
    /** #nav carries `is-scrolled`. */
    var scrolled: bool
    /** #back-to-top carries `show`. */
    var backToTopShown: bool

    ghost predicate Valid()
      reads this
    {
      && active.Length == |links|
      && (hasToggle ==> ariaExpanded == menuOpen)
    }

    constructor (doc: Page.Document, hasToggle: bool, links: seq<string>)
      ensures Valid() && fresh(active)
      ensures this.doc == doc && this.hasToggle == hasToggle && this.links == links
      ensures !menuOpen && !ariaExpanded && !scrolled && !backToTopShown
      ensures forall k :: 0 <= k < active.Length ==> !active[k]
    {
      this.doc := doc;
      this.hasToggle := hasToggle;
      this.links := links;
      active := new bool[|links|](_ => false);
      menuOpen, ariaExpanded := false, false;
      scrolled, backToTopShown := false, false;
    }

    /** The menu closes: `open` removed, `aria-expanded="false"`, scrolling released. */
    method CloseMenu()
      requires Valid()
      modifies this, doc
      ensures Valid()
      ensures !menuOpen && !doc.scrollLocked
      ensures hasToggle ==> !ariaExpanded
      ensures scrolled == old(scrolled) && backToTopShown == old(backToTopShown)
      ensures doc.announcement == old(doc.announcement)
    {
      menuOpen := false;
      if hasToggle {
        ariaExpanded := false;
      }
      doc.scrollLocked := false;
    }

    /** A click on the toggle flips the menu and locks scrolling iff it is now open. */
    method Toggle()
      requires Valid() && hasToggle
      modifies this, doc
      ensures Valid()
      ensures menuOpen == !old(menuOpen) && ariaExpanded == menuOpen
      ensures doc.scrollLocked == menuOpen
      ensures scrolled == old(scrolled) && backToTopShown == old(backToTopShown)
      ensures doc.announcement == old(doc.announcement)
    {
      menuOpen := !menuOpen;
      ariaExpanded := menuOpen;
      doc.scrollLocked := menuOpen;
    }

    /** A click anywhere: outside both the menu and the toggle it closes an open menu. */
    method DocumentClick(inMenu: bool, inToggle: bool)
      requires Valid()
      modifies this, doc
      ensures Valid()
      ensures old(menuOpen) && !inMenu && !(hasToggle && inToggle) ==> !menuOpen && !doc.scrollLocked
      ensures !(old(menuOpen) && !inMenu && !(hasToggle && inToggle)) ==>
        menuOpen == old(menuOpen) && ariaExpanded == old(ariaExpanded) && doc.scrollLocked == old(doc.scrollLocked)
      ensures scrolled == old(scrolled) && backToTopShown == old(backToTopShown)
      ensures doc.announcement == old(doc.announcement)
    {
      if menuOpen && !inMenu && !(hasToggle && inToggle) {
        CloseMenu();
      }
    }

    /**
     * A click on link `k`, where `offsetOf(id)` is the `offsetTop` of the
     * element with that id (`None` when there is none): the link's target is
     * its href without the `#`; the page scrolls to 70 px above the target
     * and the menu closes, and a missing target changes nothing.
     */
    method LinkClick(k: nat, offsetOf: string -> Option<int>) returns (scrollTo: Option<int>)
      requires Valid() && k < |links|
      modifies this, doc
      ensures Valid()
      ensures var targetTop := offsetOf(TargetId(links[k]));
        && (targetTop.Some? ==> scrollTo == Some(targetTop.value - NavHeight) && !menuOpen && !doc.scrollLocked)
        && (hasToggle && targetTop.Some? ==> !ariaExpanded)
        && (targetTop.None? ==>
              scrollTo.None? && menuOpen == old(menuOpen) && ariaExpanded == old(ariaExpanded)
              && doc.scrollLocked == old(doc.scrollLocked))
      ensures scrolled == old(scrolled) && backToTopShown == old(backToTopShown)
      ensures doc.announcement == old(doc.announcement)
    {
      scrollTo := None;
      var targetTop := offsetOf(TargetId(links[k]));
      if targetTop.Some? {
        scrollTo := Some(targetTop.value - NavHeight);
        CloseMenu();
      }
    }

    /** Escape closes an open menu; otherwise the key is ignored here. */
    method KeyDown(key: string)
      requires Valid()
      modifies this, doc
      ensures Valid()
      ensures key == "Escape" && old(menuOpen) ==> !menuOpen && !doc.scrollLocked && (hasToggle ==> !ariaExpanded)
      ensures !(key == "Escape" && old(menuOpen)) ==>
        menuOpen == old(menuOpen) && ariaExpanded == old(ariaExpanded) && doc.scrollLocked == old(doc.scrollLocked)
      ensures scrolled == old(scrolled) && backToTopShown == old(backToTopShown)
      ensures doc.announcement == old(doc.announcement)
    {
      if key == "Escape" && menuOpen {
        CloseMenu();
      }
    }

    /** Every link loses `active`, then the first link to `#id` gains it. */
    method Highlight(id: string)
      requires Valid()
      modifies active
      ensures active[..] == Highlighted(links, id)
    {
      var k := 0;
      while k < active.Length
        invariant 0 <= k <= active.Length
        invariant forall j :: 0 <= j < k ==> !active[j]
      {
        active[k] := false;
        k := k + 1;
      }
      var target := FirstWithHref(links, "#" + id);
      if target.Some? {
        active[target.value] := true;
      }
    }

    /**
     * The debounced scroll handler at scroll position `scrollY`: each section
     * containing `scrollY + 100` takes over the highlight in turn, so the last
     * one wins and no match leaves the highlight as it was; then the bar's
     * scrolled style follows the 50 px threshold.
     */
    method OnScroll(sections: seq<Section>, scrollY: int)
      requires Valid()
      modifies this, active
      ensures Valid()
      ensures var hit := LastContaining(sections, scrollY + SpyOffset);
        active[..] == if hit.Some? then Highlighted(links, sections[hit.value].id) else old(active[..])
      ensures scrolled == IsScrolled(scrollY)
      ensures menuOpen == old(menuOpen) && ariaExpanded == old(ariaExpanded) && backToTopShown == old(backToTopShown)
    {
      var pos := scrollY + SpyOffset;
      var i := 0;
      while i < |sections|
        invariant 0 <= i <= |sections|
        invariant Valid()
        invariant menuOpen == old(menuOpen) && ariaExpanded == old(ariaExpanded) && backToTopShown == old(backToTopShown)
        invariant var hit := LastContaining(sections[..i], pos);
          active[..] == if hit.Some? then Highlighted(links, sections[hit.value].id) else old(active[..])
      {
        LastContainingExtend(sections[..i], sections[i], pos);
        assert sections[..i + 1] == sections[..i] + [sections[i]];
        if Contains(sections[i], pos) {
          Highlight(sections[i].id);
        }
        i := i + 1;
      }
      assert sections[..|sections|] == sections;
      scrolled := IsScrolled(scrollY);
    }

    /** The back-to-top scroll listener. */
    method BackToTopOnScroll(scrollY: int)
      requires Valid()
      modifies this
      ensures Valid()
      ensures backToTopShown == ShowsBackToTop(scrollY)
      ensures menuOpen == old(menuOpen) && ariaExpanded == old(ariaExpanded) && scrolled == old(scrolled)
    {
      backToTopShown := ShowsBackToTop(scrollY);
    }
  }
}
