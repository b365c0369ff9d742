/**
 * The RSVP section of js/app.js: the deadline check, the trigger's choice
 * between the embedded form and a new tab, the two iframe modals (the RSVP
 * form and the stays-and-travel flip book) and the modal focus trap.
 */
module Rsvp {
  import opened JsValue
  import Page
  import Lightbox
  import Countdown

  // ----- the deadline -------------------------------------------------------

  /** The local calendar day of instant `t` (ms) at a fixed UTC offset (ms). */
  function LocalDay(t: int, offset: int): int
  {
    (t + offset) / Countdown.DayMs
  }

  /**
   * `deadline.setHours(23, 59, 59, 999)`: the last millisecond of the local
   * day containing `t`, as an instant.
   */
  function EndOfLocalDay(t: int, offset: int): (e: int)
    ensures LocalDay(e, offset) == LocalDay(t, offset)
    ensures LocalDay(e + 1, offset) == LocalDay(t, offset) + 1
    ensures e >= t
  {
    LocalDay(t, offset) * Countdown.DayMs + Countdown.DayMs - 1 - offset
  }

  /** `config.rsvp?.deadlineISO`. */
  function DeadlineValue(config: Json): Option<Json>
  {
    Member(Member(Some(config), "rsvp"), "deadlineISO")
  }

  /**
   * checkRSVPDeadline's verdict. `dateOf(v)` is the instant `new Date(v)`
   * denotes, `None` for an Invalid Date (every comparison with it is false).
   */
  predicate IsClosed(config: Json, now: int, dateOf: Json -> Option<int>, offset: int)
    ensures !IsTruthy(DeadlineValue(config)) ==> !IsClosed(config, now, dateOf, offset)
    ensures IsClosed(config, now, dateOf, offset) ==>
      && IsTruthy(DeadlineValue(config)) && dateOf(DeadlineValue(config).value).Some?
      && now > dateOf(DeadlineValue(config).value).value
  {
    var v := DeadlineValue(config);
    && IsTruthy(v)
    && dateOf(v.value).Some?
    && now > EndOfLocalDay(dateOf(v.value).value, offset)
  }

  /**
   * RSVP is closed exactly when the local day of `now` is later than the
   * local day of the deadline instant.
   */
  lemma ClosedIffLaterLocalDay(config: Json, now: int, dateOf: Json -> Option<int>, offset: int)
    requires IsTruthy(DeadlineValue(config)) && dateOf(DeadlineValue(config).value).Some?
    ensures IsClosed(config, now, dateOf, offset) <==>
      LocalDay(now, offset) > LocalDay(dateOf(DeadlineValue(config).value).value, offset)
  {
    var t := dateOf(DeadlineValue(config).value).value;
    var e := EndOfLocalDay(t, offset);
    if now > e {
      LocalDayMonotone(e + 1, now, offset);
    } else {
      LocalDayMonotone(now, e, offset);
    }
  }

  /** Once the deadline has passed, RSVP stays closed at every later instant. */
  lemma StaysClosed(config: Json, now: int, later: int, dateOf: Json -> Option<int>, offset: int)
    requires IsClosed(config, now, dateOf, offset) && now <= later
    ensures IsClosed(config, later, dateOf, offset)
  {
  }

  lemma LocalDayMonotone(a: int, b: int, offset: int)
    requires a <= b
    ensures LocalDay(a, offset) <= LocalDay(b, offset)
  {
    var qa, qb := LocalDay(a, offset), LocalDay(b, offset);
    var ra, rb := (a + offset) % Countdown.DayMs, (b + offset) % Countdown.DayMs;
    assert a + offset == Countdown.DayMs * qa + ra;
    assert b + offset == Countdown.DayMs * qb + rb;
  }

  /** Without a truthy deadline, or with an unparsable one, RSVP never closes. */
  lemma NoDeadlineNeverCloses(config: Json, now: int, dateOf: Json -> Option<int>, offset: int)
    requires !IsTruthy(DeadlineValue(config)) || dateOf(DeadlineValue(config).value).None?
    ensures !IsClosed(config, now, dateOf, offset)
  {
  }

  /**
   * A date-only deadline ("2025-03-01") is parsed as UTC midnight. East of
   * UTC (or at UTC) it stays open through the end of that day on the local
   * clock; west of UTC the end of its local day is the last millisecond of
   * the previous local day, so it closes a day early.
   */
  lemma DateOnlyDeadlineDay(midnight: int, offset: int)
    requires midnight % Countdown.DayMs == 0
    requires -Countdown.DayMs < offset < Countdown.DayMs
    ensures 0 <= offset ==> EndOfLocalDay(midnight, offset) + offset == midnight + Countdown.DayMs - 1
    ensures offset < 0 ==> EndOfLocalDay(midnight, offset) + offset == midnight - 1
  {
    var q := midnight / Countdown.DayMs;
    assert midnight == Countdown.DayMs * q;
    if 0 <= offset {
      assert midnight + offset == Countdown.DayMs * q + offset;
    } else {
      assert midnight + offset == Countdown.DayMs * (q - 1) + (Countdown.DayMs + offset);
    }
  }

  /** The `[data-rsvp-trigger]` button and the `.closed-note` paragraph. */
  class RsvpPanel {
    const hasTrigger: bool
    const hasNote: bool
    /** The trigger's `aria-disabled="true"`. */
    var triggerDisabled: bool
    /** The trigger's `display: none`. */
    var triggerHidden: bool
    /** The note's text, its `hidden` flag and the `href` of its contact link, if any. */
    var noteText: string
    var noteHidden: bool
    var contactHref: Option<string>

    constructor (hasTrigger: bool, hasNote: bool)
      ensures this.hasTrigger == hasTrigger && this.hasNote == hasNote
      ensures !triggerDisabled && !triggerHidden && noteHidden && contactHref.None?
    {
      this.hasTrigger := hasTrigger;
      this.hasNote := hasNote;
      triggerDisabled, triggerHidden := false, false;
      noteText, noteHidden := "", true;
      contactHref := None;
    }

    /**
     * checkRSVPDeadline at instant `now`. Once closed the trigger is disabled
     * and hidden; the note shows `closedMessage` only when it is present,
     * followed by a `mailto:` link only when `rsvpEmail` is present.
     */
    method CheckDeadline(config: Json, now: int, dateOf: Json -> Option<int>, offset: int)
      modifies this
      ensures var closed := IsClosed(config, now, dateOf, offset);
        var message := Member(Member(Some(config), "rsvp"), "closedMessage");
        var email := Member(Some(config), "rsvpEmail");
        && (closed && hasTrigger ==> triggerDisabled && triggerHidden)
        && (!(closed && hasTrigger) ==> triggerDisabled == old(triggerDisabled) && triggerHidden == old(triggerHidden))
        && (closed && hasNote && IsTruthy(message) ==>
              && noteText == ToJsString(message) && !noteHidden
              && contactHref == (if IsTruthy(email) then Some("mailto:" + ToJsString(email)) else None))
        && (!(closed && hasNote && IsTruthy(message)) ==>
              noteText == old(noteText) && noteHidden == old(noteHidden) && contactHref == old(contactHref))
    {
      var deadlineValue := DeadlineValue(config);
      if !IsTruthy(deadlineValue) {
        return;
      }
      var deadline := dateOf(deadlineValue.value);
      if deadline.Some? && now > EndOfLocalDay(deadline.value, offset) {
        if hasTrigger {
          triggerDisabled := true;
          triggerHidden := true;
        }
        var rsvp := Member(Some(config), "rsvp");
        var message := Member(rsvp, "closedMessage");
        if hasNote && IsTruthy(message) {
          noteText := ToJsString(message);
          contactHref := None;
          noteHidden := false;
          var email := Member(Some(config), "rsvpEmail");
          if IsTruthy(email) {
            contactHref := Some("mailto:" + ToJsString(email));
          }
        }
      }
    }
  }

  // ----- the trigger and the RSVP modal -------------------------------------

  /** What a click on the RSVP trigger does. */
  datatype TriggerAction =
    | ShowModal                       // openRSVPModal
    | OpenNewTab(link: Option<Json>)  // window.open(config.rsvp.link, '_blank', …)
    | Throws                          // `config.rsvp.link` with `rsvp` undefined or null

  /**
   * A truthy `rsvp.embed` shows the modal; otherwise `rsvp.link` opens in a
   * new tab, which throws when `rsvp` is missing or null.
   */
  function TriggerClick(config: Json): (a: TriggerAction)
    ensures a.ShowModal? <==> IsTruthy(Member(Member(Some(config), "rsvp"), "embed"))
    ensures a.Throws? <==>
      !IsTruthy(Member(Member(Some(config), "rsvp"), "embed")) && Member(Some(config), "rsvp") in {None, Some(JNull)}
    ensures a.OpenNewTab? ==> a.link == Member(Member(Some(config), "rsvp"), "link")
  {
    var rsvp := Member(Some(config), "rsvp");
    if IsTruthy(Member(rsvp, "embed")) then ShowModal
    else if rsvp.None? || rsvp == Some(JNull) then Throws
    else OpenNewTab(Member(rsvp, "link"))
  }

  /** An embed-enabled object config always shows the modal, never a new tab. */
  lemma EmbedAlwaysShowsModal(fields: map<string, Json>, rsvp: map<string, Json>)
    requires "rsvp" in fields && fields["rsvp"] == JObj(rsvp)
    requires "embed" in rsvp && Truthy(rsvp["embed"])
    ensures TriggerClick(JObj(fields)) == ShowModal
  {
  }

  /** The `.rsvp-modal` dialog and its iframe. */
  class RsvpModal {
    const doc: Page.Document
    const hasIframe: bool
    var hidden: bool
    var iframeSrc: string

    ghost predicate Valid()
      reads this
    {
      hidden ==> iframeSrc == ""
    }

    constructor (doc: Page.Document, hasIframe: bool)
      ensures Valid() && this.doc == doc && this.hasIframe == hasIframe && hidden
    {
      this.doc := doc;
      this.hasIframe := hasIframe;
      hidden, iframeSrc := true, "";
    }

    /** openRSVPModal: without an iframe nothing happens. */
    method Open(config: Json)
      requires Valid()
      modifies this, doc
      ensures Valid()
      ensures hasIframe ==>
        && !hidden && iframeSrc == ToJsString(Member(Member(Some(config), "rsvp"), "link"))
        && doc.announcement == "RSVP form opened"
      ensures !hasIframe ==> hidden == old(hidden) && iframeSrc == old(iframeSrc) && doc.announcement == old(doc.announcement)
      ensures doc.scrollLocked == old(doc.scrollLocked)
    {
      if hasIframe {
        iframeSrc := ToJsString(Member(Member(Some(config), "rsvp"), "link"));
        hidden := false;
        doc.Announce("RSVP form opened");
      }
    }

    /** closeRSVPModal: hidden again with the form unloaded. */
    method Close()
      requires Valid()
      modifies this, doc
      ensures Valid()
      ensures hasIframe ==> hidden && iframeSrc == "" && doc.announcement == "RSVP form closed"
      ensures !hasIframe ==> hidden == old(hidden) && iframeSrc == old(iframeSrc) && doc.announcement == old(doc.announcement)
      ensures doc.scrollLocked == old(doc.scrollLocked)
    {
      if hasIframe {
        hidden := true;
        iframeSrc := "";
        doc.Announce("RSVP form closed");
      }
    }

    /** The trigger's click handler; a new tab is returned to the caller to open. */
    method ClickTrigger(config: Json) returns (action: TriggerAction)
      requires Valid()
      modifies this, doc
      ensures Valid()
      ensures action == TriggerClick(config)
      ensures action.ShowModal? && hasIframe ==>
        && !hidden && iframeSrc == ToJsString(Member(Member(Some(config), "rsvp"), "link"))
        && doc.announcement == "RSVP form opened"
      ensures !(action.ShowModal? && hasIframe) ==>
        hidden == old(hidden) && iframeSrc == old(iframeSrc) && doc.announcement == old(doc.announcement)
      ensures doc.scrollLocked == old(doc.scrollLocked)
    {
      action := TriggerClick(config);
      if action.ShowModal? {
        Open(config);
      }
    }

    /** Escape closes the modal while it is shown. */
    method KeyDown(key: string)
      requires Valid()
      modifies this, doc
      ensures Valid()
      ensures key == "Escape" && !old(hidden) && hasIframe ==>
        hidden && iframeSrc == "" && doc.announcement == "RSVP form closed"
      ensures !(key == "Escape" && !old(hidden) && hasIframe) ==>
        hidden == old(hidden) && iframeSrc == old(iframeSrc) && doc.announcement == old(doc.announcement)
      ensures doc.scrollLocked == old(doc.scrollLocked)
    {
      if key == "Escape" && !hidden {
        Close();
      }
    }

    /** A click inside the modal closes it only when it hits the backdrop itself. */
    method Click(onBackdrop: bool)
      requires Valid()
      modifies this, doc
      ensures Valid()
      ensures onBackdrop && hasIframe ==> hidden && iframeSrc == "" && doc.announcement == "RSVP form closed"
      ensures !(onBackdrop && hasIframe) ==>
        hidden == old(hidden) && iframeSrc == old(iframeSrc) && doc.announcement == old(doc.announcement)
      ensures doc.scrollLocked == old(doc.scrollLocked)
    {
      if onBackdrop {
        Close();
      }
    }
  }

  // ----- the flip-book modal ------------------------------------------------

  /** The `.flip-modal` dialog; it is only wired up when it has its iframe and close button. */
  class FlipModal {
    var hidden: bool
    var iframeSrc: string
    var iframeTitle: string

    ghost predicate Valid()
      reads this
    {
      hidden ==> iframeSrc == ""
    }

    constructor ()
      ensures Valid() && hidden
    {
      hidden, iframeSrc, iframeTitle := true, "", "";
    }

    /** A click on a `[data-embed-link]` shows its `href` in the iframe. */
    method OpenLink(href: string, text: string)
      modifies this
      ensures Valid()
      ensures !hidden && iframeSrc == href && iframeTitle == "Flip book: " + text
    {
      iframeSrc := href;
      iframeTitle := "Flip book: " + text;
      hidden := false;
    }

    /** closeModal. */
    method Close()
      modifies this
      ensures Valid()
      ensures hidden && iframeSrc == "" && iframeTitle == old(iframeTitle)
    {
      hidden := true;
      iframeSrc := "";
    }

    /** Escape closes the modal while it is shown. */
    method KeyDown(key: string)
      requires Valid()
      modifies this
      ensures Valid()
      ensures key == "Escape" ==> hidden && iframeSrc == ""
      ensures key != "Escape" ==> hidden == old(hidden) && iframeSrc == old(iframeSrc)
      ensures iframeTitle == old(iframeTitle)
    {
      if key == "Escape" && !hidden {
        Close();
      }
    }

    /** A click on the backdrop (not on the iframe) closes the modal. */
    method Click(onBackdrop: bool)
      requires Valid()
      modifies this
      ensures Valid()
      ensures onBackdrop ==> hidden && iframeSrc == ""
      ensures !onBackdrop ==> hidden == old(hidden) && iframeSrc == old(iframeSrc)
      ensures iframeTitle == old(iframeTitle)
    {
      if onBackdrop {
        Close();
      }
    }
  }

  // ----- the focus trap -------------------------------------------------------

  /**
   * trapFocusInModal's Tab handler over `n` focusable elements when element
   * `active` has the focus (`None` outside them): the element it focuses, or
   * `None` when it leaves the key to the browser.
   */
  function TrapTarget(n: nat, active: Option<nat>, key: string, shift: bool): (r: Option<nat>)
    ensures r.Some? ==> n >= 1 && key == "Tab" && active.Some?
    ensures r.Some? && shift ==> active == Some(0) && r == Some(n - 1)
    ensures r.Some? && !shift ==> active == Some(n - 1) && r == Some(0)
    ensures n >= 1 && key == "Tab" && shift && active == Some(0) ==> r == Some(n - 1)
    ensures n >= 1 && key == "Tab" && !shift && active == Some(n - 1) ==> r == Some(0)
  {
    if n == 0 || key != "Tab" || active.None? then None
    else if shift then (if active.value == 0 then Some(n - 1) else None)
    else (if active.value == n - 1 then Some(0) else None)
  }

  /**
   * Where Tab moves the focus from focusable element `i`: the trap's target,
   * or otherwise the browser's next (or, with Shift, previous) element.
   */
  function TabFrom(n: nat, i: nat, shift: bool): (r: int)
    requires i < n
    ensures !shift && i < n - 1 ==> r == i + 1
    ensures shift && i > 0 ==> r == i - 1
    ensures !shift && i == n - 1 ==> r == 0
    ensures shift && i == 0 ==> r == n - 1
  {
    match TrapTarget(n, Some(i), "Tab", shift)
    case Some(j) => j
    case None => if shift then i - 1 else i + 1
  }

  /**
   * Tab and Shift+Tab inside the modal cycle through its focusable elements
   * exactly as the lightbox cycles through its images, so the focus never
   * leaves the modal.
   */
  lemma TabCyclesInsideModal(n: nat, i: nat, shift: bool)
    requires i < n
    ensures TabFrom(n, i, shift) == Lightbox.Step(i, if shift then -1 else 1, n)
    ensures 0 <= TabFrom(n, i, shift) < n
  {
  }
}
