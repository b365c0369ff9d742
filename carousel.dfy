/**
 * A carousel of js/app.js: slides with one indicator dot each, keyboard
 * movement between slides, a dragging flag that suppresses clicks, and a
 * click that opens the lightbox on the carousel's images.
 */
module Carousel {
  import opened JsValue
  import Lightbox
  import Page

  /**
   * The keyboard handler's target slide for `key` when slide `focused` of `n`
   * has the focus (`None` when the focus is not on a slide); `None` means the
   * handler returns without doing anything.
   */
  function KeyTarget(key: string, focused: Option<nat>, n: nat): (r: Option<nat>)
    requires focused.Some? ==> focused.value < n
    ensures r.Some? ==> focused.Some? && r.value < n
    ensures focused.None? ==> r.None?
    ensures focused.Some? ==>
      && (key == "Home" ==> r == Some(0))
      && (key == "End" ==> r == Some(n - 1))
      && (key !in {"ArrowLeft", "ArrowRight", "Home", "End"} ==> r.None?)
  {
    match focused
    case None => None
    case Some(i) =>
      if key == "ArrowLeft" then Some(if i > 0 then i - 1 else n - 1)
      else if key == "ArrowRight" then Some(if i < n - 1 then i + 1 else 0)
      else if key == "Home" then Some(0)
      else if key == "End" then Some(n - 1)
      else None
  }

  /**
   * The arrow keys wrap exactly as the lightbox does: ArrowLeft is a step of
   * -1 and ArrowRight a step of +1 in navigateLightbox's rule.
   */
  lemma ArrowsAgreeWithLightbox(i: nat, n: nat)
    requires i < n
    ensures KeyTarget("ArrowLeft", Some(i), n) == Some(Lightbox.Step(i, -1, n) as nat)
    ensures KeyTarget("ArrowRight", Some(i), n) == Some(Lightbox.Step(i, 1, n) as nat)
  {
  }

  /** From the last slide ArrowRight reaches slide 0; from slide 0 ArrowLeft reaches the last. */
  lemma ArrowsWrap(n: nat)
    requires n >= 1
    ensures KeyTarget("ArrowRight", Some(n - 1), n) == Some(0)
    ensures KeyTarget("ArrowLeft", Some(0), n) == Some(n - 1)
  {
  }

  /** ArrowLeft after ArrowRight (and the reverse) returns to the starting slide. */
  lemma ArrowsUndoEachOther(i: nat, n: nat)
    requires i < n
    ensures KeyTarget("ArrowLeft", KeyTarget("ArrowRight", Some(i), n), n) == Some(i)
    ensures KeyTarget("ArrowRight", KeyTarget("ArrowLeft", Some(i), n), n) == Some(i)
  {
  }

  /** The indices of dots carrying `aria-current`. */
  function CurrentDots(dots: seq<bool>): set<int>
  {
    set k | 0 <= k < |dots| && dots[k]
  }

  /** When every dot carries `aria-current` iff it is at `active`, the current dots are exactly `{active}`. */
  lemma OnlyActiveDotIsCurrent(dots: seq<bool>, active: int)
    requires forall k :: 0 <= k < |dots| ==> dots[k] == (k == active)
    ensures 0 <= active < |dots| ==> CurrentDots(dots) == {active}
    ensures !(0 <= active < |dots|) ==> CurrentDots(dots) == {}
  {
    if 0 <= active < |dots| {
      assert active in CurrentDots(dots);
    }
  }

  class Carousel {
    /** Number of `.carousel-slide` elements; initializeCarousel stops at 0. */
    const slideCount: nat
    /** `{src, alt}` of each slide's image, in slide order. */
    const slideImages: seq<Lightbox.Image>
    /** `aria-current` of each dot; no dots at all without a `.carousel-dots` container. */
    const dots: array<bool>
    const lightbox: Lightbox.Lightbox
    /** Mouse or touch is down on the track. */
    var isDown: bool
    /** The mouse or finger moved while down; clicks on slides are suppressed. */
    var isDragging: bool

    ghost predicate Valid()
      reads this
    {
      && slideCount >= 1
      && |slideImages| == slideCount
      && (dots.Length == 0 || dots.Length == slideCount)
    }

    /** initializeCarousel: one dot per slide, the first one current. */
    constructor (images: seq<Lightbox.Image>, hasDots: bool, lightbox: Lightbox.Lightbox)
      requires |images| >= 1
      ensures Valid() && fresh(dots)
      ensures slideCount == |images| && slideImages == images && this.lightbox == lightbox
      ensures dots.Length == (if hasDots then |images| else 0)
      ensures forall k :: 0 <= k < dots.Length ==> dots[k] == (k == 0)
      ensures !isDown && !isDragging
    {
      slideCount := |images|;
      slideImages := images;
      dots := new bool[if hasDots then |images| else 0](k => k == 0);
      this.lightbox := lightbox;
      isDown, isDragging := false, false;
    }

    /** updateActiveDot: the dot at `active` gets `aria-current`, every other dot loses it. */
    method UpdateActiveDot(active: int)
      modifies dots
      ensures forall k :: 0 <= k < dots.Length ==> dots[k] == (k == active)
    {
      var k := 0;
      while k < dots.Length
        invariant 0 <= k <= dots.Length
        invariant forall j :: 0 <= j < k ==> dots[j] == (j == active)
      {
        dots[k] := k == active;
        k := k + 1;
      }
    }

    /** A dot click scrolls to its slide and makes it the current dot. */
    method ClickDot(k: nat)
      requires Valid() && k < dots.Length
      modifies dots
      ensures CurrentDots(dots[..]) == {k}
    {
      UpdateActiveDot(k);
      OnlyActiveDotIsCurrent(dots[..], k);
    }

    /**
     * The track's keydown handler. For a handled key the focus moves to the
     * target slide and exactly that slide's dot becomes current; any other
     * key, or a focus outside the slides, changes nothing.
     */
    method KeyDown(key: string, focused: Option<nat>) returns (newFocus: Option<nat>)
      requires Valid() && (focused.Some? ==> focused.value < slideCount)
      modifies dots
      ensures newFocus == KeyTarget(key, focused, slideCount)
      ensures newFocus.None? ==> dots[..] == old(dots[..])
      ensures newFocus.Some? && dots.Length > 0 ==> CurrentDots(dots[..]) == {newFocus.value}
      ensures newFocus.Some? ==> forall k :: 0 <= k < dots.Length ==> dots[k] == (k == newFocus.value)
    {
      newFocus := KeyTarget(key, focused, slideCount);
      if newFocus.Some? {
        UpdateActiveDot(newFocus.value);
        OnlyActiveDotIsCurrent(dots[..], newFocus.value);
      }
    }

    /** The slide observer: slide `k` came into view. */
    method SlideInView(k: nat)
      requires Valid() && k < slideCount
      modifies dots, lightbox.doc
      ensures forall j :: 0 <= j < dots.Length ==> dots[j] == (j == k)
      ensures lightbox.doc.announcement == "Slide " + NatString(k + 1) + " of " + NatString(slideCount) + " in view"
      ensures lightbox.doc.scrollLocked == old(lightbox.doc.scrollLocked)
    {
      UpdateActiveDot(k);
      lightbox.doc.Announce("Slide " + NatString(k + 1) + " of " + NatString(slideCount) + " in view");
    }

    /** mousedown / touchstart. */
    method Press()
      modifies this
      ensures isDown && isDragging == old(isDragging)
    {
      isDown := true;
    }

    /** mousemove / touchmove: moving while down makes this a drag. */
    method Move()
      modifies this
      ensures isDown == old(isDown)
      ensures isDragging == (old(isDragging) || old(isDown))
    {
      if isDown {
        isDragging := true;
      }
    }

    /**
     * mouseup / touchend: the press ends; a drag schedules the
     * 100 ms cooldown that will clear `isDragging`.
     */
    method Release() returns (cooldownScheduled: bool)
      modifies this
      ensures !isDown && isDragging == old(isDragging)
      ensures cooldownScheduled == old(isDragging)
    {
      isDown := false;
      cooldownScheduled := isDragging;
    }

    /** mouseleave: released without scheduling the cooldown. */
    method Leave()
      modifies this
      ensures !isDown && isDragging == old(isDragging)
    {
      isDown := false;
    }

    /** The cooldown timer fired. */
    method CooldownElapsed()
      modifies this
      ensures !isDragging && isDown == old(isDown)
    {
      isDragging := false;
    }

    /**
     * A click on slide `k`: suppressed while dragging, otherwise it opens the
     * lightbox on all of this carousel's images at `k`.
     */
    method ClickSlide(k: nat) returns (launched: bool)
      requires Valid() && k < slideCount
      modifies lightbox, lightbox.doc
      ensures launched == !isDragging
      ensures launched ==> lightbox.images == slideImages && lightbox.index == k
      ensures launched && lightbox.hasImg ==>
        && lightbox.open && lightbox.doc.scrollLocked
        && lightbox.shownSrc == slideImages[k].src && lightbox.shownAlt == slideImages[k].alt
        && lightbox.doc.announcement == Lightbox.Position(k, slideCount) + " opened"
      ensures launched && !lightbox.hasImg ==>
        && lightbox.open == old(lightbox.open)
        && lightbox.shownSrc == old(lightbox.shownSrc) && lightbox.shownAlt == old(lightbox.shownAlt)
        && lightbox.doc.scrollLocked == old(lightbox.doc.scrollLocked)
        && lightbox.doc.announcement == old(lightbox.doc.announcement)
      ensures !launched ==> lightbox.Unchanged()
    {
      launched := !isDragging;
      if launched {
        lightbox.Open(slideImages, k);
      }
    }
  }
}
