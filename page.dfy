/**
 * The parts of the document that several widgets write to: the body's
 * scroll lock (`document.body.style.overflow`) and the live region that
 * screen-reader announcements go to.
 */
module Page {

  class Document {
    /** `document.body.style.overflow == 'hidden'`. */
    var scrollLocked: bool
    /** Text of the `#sr-announcements` live region. */
    var announcement: string

    constructor ()
      ensures !scrollLocked && announcement == ""
    {
      scrollLocked := false;
      announcement := "";
    }

    /** announceToScreenReader: the message replaces whatever was announced. */
    method Announce(message: string)
      modifies this
      ensures announcement == message && scrollLocked == old(scrollLocked)
    {
      announcement := message;
    }
  }
}
