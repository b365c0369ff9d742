/**
 * The lightbox of js/app.js: a session of images with a current index that
 * wraps around, shown in a full-screen overlay that locks page scrolling.
 */
module Lightbox {
  import opened JsValue
  import Page
  import opened Arithmetic

  /** One `{src, alt}` entry of `lightboxImages`. */
  datatype Image = Image(src: string, alt: string)

  /**
   * navigateLightbox's index rule: move by `direction`, going to the last
   * image below 0 and to the first at or past the end.
   */
  function Step(index: int, direction: int, n: nat): (r: int)
    ensures n >= 1 ==> 0 <= r < n
    ensures n == 0 ==> r == (if index + direction < 0 then -1 else 0)
    ensures 0 <= index + direction < n ==> r == index + direction
  {
    var moved := index + direction;
    if moved < 0 then n - 1
    else if moved >= n then 0
    else moved
  }

  /** `k` successive `navigateLightbox(1)` calls. */
  function Forward(index: int, k: nat, n: nat): int
  {
    if k == 0 then index else Step(Forward(index, k - 1, n), 1, n)
  }

  /** Going back from the first image reaches the last, and forward from the last the first. */
  lemma WrapsAtBothEnds(n: nat)
    requires n >= 1
    ensures Step(0, -1, n) == n - 1
    ensures Step(n - 1, 1, n) == 0
  {
  }

  /** A step back undoes a step forward, and the other way round, from any image. */
  lemma StepsUndoEachOther(i: int, n: nat)
    requires 0 <= i < n
    ensures Step(Step(i, 1, n), -1, n) == i
    ensures Step(Step(i, -1, n), 1, n) == i
  {
  }

  /** `k` forward steps from an in-range index land on `(i + k) mod n`. */
  lemma {:induction false} ForwardIsModular(i: int, k: nat, n: nat)
    requires 0 <= i < n
    ensures Forward(i, k, n) == (i + k) % n
  {
    if k > 0 {
      ForwardIsModular(i, k - 1, n);
      var q, prev := (i + k - 1) / n, (i + k - 1) % n;
      assert i + k - 1 == n * q + prev;
      assert Forward(i, k, n) == Step(prev, 1, n);
      if prev + 1 < n {
        DivModUnique(i + k, n, q, prev + 1);
      } else {
        assert n * (q + 1) == n * q + n;
        DivModUnique(i + k, n, q + 1, 0);
      }
    }
  }

  /** n forward steps through n images come back to the starting image. */
  lemma FullCycleReturns(i: int, n: nat)
    requires 0 <= i < n
    ensures Forward(i, n, n) == i
  {
    ForwardIsModular(i, n, n);
    DivModUnique(i + n, n, 1, i);
  }

  /** The text announced when the lightbox shows image `index` of `n`. */
  function Position(index: nat, n: nat): (p: string)
    ensures |p| > |"Image "| && p[..|"Image "|] == "Image "
  {
    "Image " + (NatString(index + 1) + (" of " + NatString(n)))
  }

  /** Every character is a decimal digit. */
  predicate AllDigits(s: string)
  {
    forall k :: 0 <= k < |s| ==> '0' <= s[k] <= '9'
  }

  /** Two digit strings around " of " can be read back: the separator cannot sit anywhere else. */
  lemma SplitAtOf(a: string, b: string, c: string, d: string)
    requires AllDigits(a) && AllDigits(c)
    requires a + (" of " + b) == c + (" of " + d)
    ensures a == c && b == d
  {
    var x := a + (" of " + b);
    SeparatorAt(a, b, c, d);
    SeparatorAt(c, d, a, b);
    if |a| < |c| {
      assert false;
    } else if |c| < |a| {
      assert false;
    }
    assert a == x[..|a|] == c;
    assert b == x[|a| + 4..] == d;
  }

  /** Where the shorter prefix ends, one side has the separator's space and the other a character of its prefix. */
  lemma SeparatorAt(a: string, b: string, c: string, d: string)
    ensures |a| < |c| ==> (a + (" of " + b))[|a|] == ' ' && (c + (" of " + d))[|a|] == c[|a|]
  {
  }

  /** Different positions are announced differently: the text determines the index and the count. */
  lemma PositionInjective(i: nat, n: nat, j: nat, m: nat)
    requires Position(i, n) == Position(j, m)
    ensures i == j && n == m
  {
    var a, b, c, d := NatString(i + 1), NatString(n), NatString(j + 1), NatString(m);
    assert a + (" of " + b) == Position(i, n)[6..] == c + (" of " + d);
    SplitAtOf(a, b, c, d);
    NatStringInjective(i + 1, j + 1);
    NatStringInjective(n, m);
  }

  /** The #lightbox overlay with its #lightbox-img and the two globals of js/app.js. */
  class Lightbox {
    const doc: Page.Document
    /** Whether #lightbox-img exists. */
    const hasImg: bool
    /** `lightboxImages`. */
    var images: seq<Image>
    /** `currentLightboxIndex`. */
    var index: int
    /** #lightbox carries the `open` class. */
    var open: bool
    /** `src` and `alt` of #lightbox-img. */
    var shownSrc: string
    var shownAlt: string

    constructor (doc: Page.Document, hasImg: bool)
      ensures this.doc == doc && this.hasImg == hasImg
      ensures images == [] && index == 0 && !open
    {
      this.doc := doc;
      this.hasImg := hasImg;
      images := [];
      index := 0;
      open := false;
      shownSrc, shownAlt := "", "";
    }

    /** `lightboxImages[currentLightboxIndex]` exists and #lightbox-img is there. */
    predicate Shows(imgs: seq<Image>, i: int)
    {
      hasImg && 0 <= i < |imgs|
    }

    /**
     * openLightbox: the session is replaced unconditionally; only when the
     * image at `i` exists does the overlay open, lock scrolling and announce.
     */
    method Open(imgs: seq<Image>, i: int)
      modifies this, doc
      ensures images == imgs && index == i
      ensures Shows(imgs, i) ==>
        && open && doc.scrollLocked
        && shownSrc == imgs[i].src && shownAlt == imgs[i].alt
        && doc.announcement == Position(i, |imgs|) + " opened"
      ensures !Shows(imgs, i) ==>
        && open == old(open) && shownSrc == old(shownSrc) && shownAlt == old(shownAlt)
        && doc.scrollLocked == old(doc.scrollLocked) && doc.announcement == old(doc.announcement)
    {
      images := imgs;
      index := i;
      if Shows(images, index) {
        shownSrc, shownAlt := images[index].src, images[index].alt;
        open := true;
        doc.scrollLocked := true;
        doc.Announce(Position(index, |images|) + " opened");
      }
    }

    /** navigateLightbox: move with wrap-around and show the new image if it exists. */
    method Navigate(direction: int)
      modifies this, doc
      ensures index == Step(old(index), direction, |images|)
      ensures images == old(images) && open == old(open)
      ensures doc.scrollLocked == old(doc.scrollLocked)
      ensures Shows(images, index) ==>
        shownSrc == images[index].src && shownAlt == images[index].alt
        && doc.announcement == Position(index, |images|)
      ensures !Shows(images, index) ==>
        shownSrc == old(shownSrc) && shownAlt == old(shownAlt) && doc.announcement == old(doc.announcement)
    {
      index := Step(index, direction, |images|);
      if Shows(images, index) {
        shownSrc, shownAlt := images[index].src, images[index].alt;
        doc.Announce(Position(index, |images|));
      }
    }

    /** closeLightbox: the overlay closes and scrolling is released. */
    method Close()
      modifies this, doc
      ensures !open && !doc.scrollLocked
      ensures doc.announcement == "Image viewer closed"
      ensures images == old(images) && index == old(index)
      ensures shownSrc == old(shownSrc) && shownAlt == old(shownAlt)
    {
      open := false;
      doc.scrollLocked := false;
      doc.Announce("Image viewer closed");
    }

    /** A click on the overlay closes it only when it hits the backdrop itself. */
    method Click(onBackdrop: bool)
      modifies this, doc
      ensures onBackdrop ==> !open && !doc.scrollLocked && doc.announcement == "Image viewer closed"
      ensures !onBackdrop ==>
        open == old(open) && doc.scrollLocked == old(doc.scrollLocked) && doc.announcement == old(doc.announcement)
      ensures images == old(images) && index == old(index)
      ensures shownSrc == old(shownSrc) && shownAlt == old(shownAlt)
    {
      if onBackdrop {
        Close();
      }
    }

    /** Nothing about the lightbox or the document has changed since the call began. */
    twostate predicate Unchanged()
      reads this, doc
    {
      && images == old(images) && index == old(index) && open == old(open)
      && shownSrc == old(shownSrc) && shownAlt == old(shownAlt)
      && doc.scrollLocked == old(doc.scrollLocked) && doc.announcement == old(doc.announcement)
    }

    /**
     * The two document keydown listeners: Escape closes an open lightbox,
     * the arrow keys move through it while it is open. Nothing happens while
     * it is closed, or for any other key.
     */
    method KeyDown(key: string)
      modifies this, doc
      ensures !old(open) || key !in {"Escape", "ArrowLeft", "ArrowRight"} ==> Unchanged()
      ensures old(open) && key == "Escape" ==>
        && !open && !doc.scrollLocked && doc.announcement == "Image viewer closed"
        && index == old(index) && shownSrc == old(shownSrc) && shownAlt == old(shownAlt)
      ensures old(open) && key in {"ArrowLeft", "ArrowRight"} ==>
        var direction := if key == "ArrowLeft" then -1 else 1;
        && open && doc.scrollLocked == old(doc.scrollLocked)
        && index == Step(old(index), direction, |images|)
        && (Shows(images, index) ==>
              shownSrc == images[index].src && shownAlt == images[index].alt
              && doc.announcement == Position(index, |images|))
        && (!Shows(images, index) ==>
              shownSrc == old(shownSrc) && shownAlt == old(shownAlt) && doc.announcement == old(doc.announcement))
      ensures images == old(images)
    {
      if key == "Escape" && open {
        Close();
      }
      if open {
        if key == "ArrowLeft" {
          Navigate(-1);
        }
        if key == "ArrowRight" {
          Navigate(1);
        }
      }
    }
  }
}
