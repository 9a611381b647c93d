/**
 * The image lightbox: whether the modal is displayed (`display: block` or
 * `none`), the `src` of its image slot and the text put into its caption.
 * It is wired up only when the modal, its image slot, its caption, its
 * close button and at least one gallery image all exist.
 */
module Lightbox {

  /** What the lightbox shows. */
  datatype View = View(shown: bool, src: string, caption: string)

  /** The events the lightbox listens to. */
  datatype Event =
    | ImageClick(src: string, alt: string)  // a click on a gallery image; `src` is the image's `src` property (the URL the browser resolved), `alt` its alt text
    | CloseClick                            // a click on the close button
    | WindowClick(onBackdrop: bool)         // any click; its target is the modal itself or not
    | KeyDown(key: string)                  // a key press anywhere in the document

  /** The key names the keydown handler accepts: the current "Escape" and the legacy "Esc". */
  predicate IsCloseKey(key: string)
  {
    key == "Escape" || key == "Esc"
  }

  /** The three ways out: the close button, a click on the backdrop, an escape key. */
  predicate Closes(e: Event)
  {
    || e.CloseClick?
    || (e.WindowClick? && e.onBackdrop)
    || (e.KeyDown? && IsCloseKey(e.key))
  }

  /** What one event does to the lightbox. */
  function Step(v: View, e: Event): (r: View)
    ensures r.shown <==> e.ImageClick? || (v.shown && !Closes(e))
    ensures e.ImageClick? ==> r.src == e.src && r.caption == e.alt
    ensures !e.ImageClick? ==> r.src == v.src && r.caption == v.caption
  {
    match e
    case ImageClick(src, alt) => View(true, src, alt)
    case _ => if Closes(e) then v.(shown := false) else v
  }

  /** Opening from image ("a.jpg", "Caption A") shows exactly that image and caption. */
  lemma OpenShowsClickedImage(v: View)
    ensures Step(v, ImageClick("a.jpg", "Caption A")) == View(true, "a.jpg", "Caption A")
  {
  }

  /**
   * Each of the three triggers closes an open lightbox and leaves a closed
   * one closed; closing twice is closing once.
   */
  lemma CloseIsIdempotent(v: View, e: Event)
    requires Closes(e)
    ensures !Step(v, e).shown
    ensures Step(Step(v, e), e) == Step(v, e)
  {
  }

  /** Other keys, and clicks on anything but the backdrop, change nothing. */
  lemma OtherEventsChangeNothing(v: View, e: Event)
    requires !e.ImageClick? && !Closes(e)
    ensures Step(v, e) == v
  {
  }

  class Modal {
    var shown: bool
    var src: string
    var caption: string

    ghost function Current(): View
      reads this
    {
      View(shown, src, caption)
    }

    /** The state the page's markup and stylesheet give the modal before any event. */
    constructor (initial: View)
      ensures Current() == initial
    {
      shown, src, caption := initial.shown, initial.src, initial.caption;
    }

    /** A gallery image's click handler: display the modal with that image's `src` and `alt`. */
    method OpenImage(imageSrc: string, imageAlt: string)
      modifies this
      ensures Current() == Step(old(Current()), ImageClick(imageSrc, imageAlt))
    {
      shown := true;
      src := imageSrc;
      caption := imageAlt;
    }

    /** The close button's click handler. */
    method CloseButton()
      modifies this
      ensures Current() == Step(old(Current()), CloseClick)
    {
      shown := false;
    }

    /** The window's click handler: hide only when the click landed on the modal itself. */
    method WindowClicked(targetIsModal: bool)
      modifies this
      ensures Current() == Step(old(Current()), WindowClick(targetIsModal))
    {
      if targetIsModal {
        shown := false;
      }
    }

    /** The document's keydown handler. */
    method KeyPressed(key: string)
      modifies this
      ensures Current() == Step(old(Current()), KeyDown(key))
    {
      if key == "Escape" || key == "Esc" {
        shown := false;
      }
    }
  }
}
