/**
 * The theme switcher: the `dark-mode` class on the body and the one
 * `localStorage` slot named `theme`, modelled as an optional string (None
 * when the key has never been written).
 */
module Theme {

  datatype Option<T> = None | Some(value: T)

  /** The value the click handler writes for a given state of the `dark-mode` class. */
  function Persisted(dark: bool): (v: string)
    ensures v == "dark" || v == "light"
    ensures v == "dark" <==> dark
  {
    if dark then "dark" else "light"
  }

  /** Whether start-up applies dark mode for a stored value: only the exact string "dark" does. */
  predicate DarkAtStartup(stored: Option<string>)
  {
    stored == Some("dark")
  }

  /** A page reloaded after any click starts in the theme the click left it in. */
  lemma ReloadRestoresTheme(dark: bool)
    ensures DarkAtStartup(Some(Persisted(dark))) == dark
  {
  }

  /** With nothing stored, or "light", or any value other than "dark", the page starts light. */
  lemma AnythingButDarkIsLight(stored: Option<string>)
    requires stored != Some("dark")
    ensures !DarkAtStartup(stored)
    ensures DarkAtStartup(stored) == DarkAtStartup(None)
  {
  }

  class Switcher {
    /** The body carries `dark-mode`. */
    var dark: bool
    /** The `theme` slot of `localStorage`. */
    var stored: Option<string>

    /**
     * Set-up when the switcher element exists: dark mode is added when the
     * slot holds "dark"; a body whose markup already carries `dark-mode`
     * keeps it.
     */
    constructor (initiallyDark: bool, saved: Option<string>)
      ensures stored == saved
      ensures dark == (initiallyDark || DarkAtStartup(saved))
    {
      stored := saved;
      dark := initiallyDark;
      if saved == Some("dark") {
        dark := true;
      }
    }

    /** The click handler: toggle `dark-mode`, then store the theme now shown. */
    method Toggle()
      modifies this
      ensures dark == !old(dark)
      ensures stored == Some(Persisted(dark))
    {
      dark := !dark;
      if dark {
        stored := Some("dark");
      } else {
        stored := Some("light");
      }
    }
  }

  /** Two clicks restore the theme, and the slot then holds that theme's name. */
  method ToggleTwice(s: Switcher)
    modifies s
    ensures s.dark == old(s.dark)
    ensures s.stored == Some(Persisted(old(s.dark)))
  {
    s.Toggle();
    s.Toggle();
  }
}
