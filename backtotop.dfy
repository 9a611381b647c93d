/**
 * The back-to-top button: the `show` class, recomputed on every scroll
 * event from the vertical scroll offset `window.pageYOffset` (a real
 * number of CSS pixels).
 */
module BackToTop {

  /** The offset beyond which the button is shown. */
  const Threshold: real := 300.0

  /** The button is shown exactly when the page is scrolled strictly past the threshold. */
  predicate Visible(offset: real)
  {
    offset > Threshold
  }

  /** The boundary: at 300 the button is hidden, just past it and at 301 it is shown. */
  lemma VisibleBoundary()
    ensures !Visible(300.0)
    ensures Visible(300.5) && Visible(301.0)
    ensures !Visible(0.0)
  {
  }

  /** Visibility only grows with the offset: scrolling further down never hides the button. */
  lemma VisibleMonotone(a: real, b: real)
    requires a <= b
    ensures Visible(a) ==> Visible(b)
  {
  }

  class Button {
    /** The button carries `show`. */
    var shown: bool

    constructor (initiallyShown: bool)
      ensures shown == initiallyShown
    {
      shown := initiallyShown;
    }

    /**
     * The scroll handler: add `show` past the threshold, remove it
     * otherwise. The new state depends on the offset alone, so a repeated
     * event at the same offset changes nothing.
     */
    method OnScroll(offset: real)
      modifies this
      ensures shown == Visible(offset)
    {
      if offset > Threshold {
        shown := true;
      } else {
        shown := false;
      }
    }
  }
}
