/**
 * The dark-mode toggle (res.js:71-117). The page state it touches: the
 * `dark-mode` class of the body, the `darkMode` entry of local storage, the
 * toggle's icon and the navbar background. Storage and the scroll offset
 * are passed in rather than read from the browser.
 */
module DarkMode {
  import opened Wrappers
  import Navigation

  const StorageKey := "darkMode"
  const SunIcon := "bi bi-sun-fill"
  const MoonIcon := "bi bi-moon-fill"

  /** What `enableDarkMode` and `disableDarkMode` write to storage. */
  function Stored(dark: bool): (s: string)
    ensures s == "true" <==> dark
  {
    if dark then "true" else "false"
  }

  /** The startup decision: dark exactly when the saved entry is the string "true". */
  function StartsDark(saved: Option<string>): (dark: bool)
    ensures dark <==> saved == Some(Stored(true))
  {
    saved == Some("true")
  }

  /** What is written is read back as the same mode on the next page load. */
  lemma {:induction false} StoredRoundTrip(dark: bool)
    ensures StartsDark(Some(Stored(dark))) == dark
  {
    if !dark {
      assert Stored(dark)[0] == 'f';
    }
  }

  class Theme {
    /** The body carries the `dark-mode` class. */
    var dark: bool
    /** `localStorage.getItem('darkMode')`, `None` when absent. */
    var stored: Option<string>
    /** The icon's class name; `None` while it is still the page's own markup. */
    var icon: Option<string>
    /** The navbar's inline background; `None` until the script first sets it. */
    var background: Option<string>

    /** Storage says "true" exactly when the page is dark. */
    ghost predicate Valid()
      reads this
    {
      stored == Some("true") <==> dark
    }

    /** Startup: read the saved preference and apply it if it is dark; nothing is written otherwise. */
    constructor (saved: Option<string>, scrollY: int)
      ensures Valid()
      ensures dark == StartsDark(saved)
      ensures stored == saved
      ensures dark ==> icon == Some(SunIcon) && background == Some(Navigation.NavbarBackground(scrollY, true))
      ensures !dark ==> icon == None && background == None
    {
      dark := false;
      stored := saved;
      icon := None;
      background := None;
      new;
      if saved == Some("true") {
        Enable(scrollY);
      }
    }

    /** `enableDarkMode`. */
    method Enable(scrollY: int)
      modifies this
      ensures Valid()
      ensures dark && stored == Some(Stored(true)) && icon == Some(SunIcon)
      ensures background == Some(Navigation.NavbarBackground(scrollY, true))
    {
      dark := true;
      icon := Some(SunIcon);
      stored := Some("true");
      background := Some(if scrollY > Navigation.ScrolledAfter then Navigation.DarkScrolled else Navigation.DarkTop);
    }

    /** `disableDarkMode`. */
    method Disable(scrollY: int)
      modifies this
      ensures Valid()
      ensures !dark && stored == Some(Stored(false)) && icon == Some(MoonIcon)
      ensures background == Some(Navigation.NavbarBackground(scrollY, false))
    {
      dark := false;
      icon := Some(MoonIcon);
      stored := Some("false");
      background := Some(if scrollY > Navigation.ScrolledAfter then Navigation.LightScrolled else Navigation.LightTop);
    }

    /** The toggle's click handler: flips the mode and persists the new one. */
    method Toggle(scrollY: int)
      modifies this
      ensures Valid()
      ensures dark == !old(dark)
      ensures stored == Some(Stored(dark))
      ensures icon == Some(if dark then SunIcon else MoonIcon)
      ensures background == Some(Navigation.NavbarBackground(scrollY, dark))
    {
      if dark {
        Disable(scrollY);
      } else {
        Enable(scrollY);
      }
    }

    /** The navbar part of the scroll handler, which reads the body's class. */
    method Scroll(scrollY: int)
      modifies this`background
      ensures background == Some(Navigation.NavbarBackground(scrollY, dark))
    {
      if scrollY > Navigation.ScrolledAfter {
        background := Some(Navigation.LightScrolled);
        if dark {
          background := Some(Navigation.DarkScrolled);
        }
      } else {
        background := Some(Navigation.LightTop);
        if dark {
          background := Some(Navigation.DarkTop);
        }
      }
    }
  }
}
