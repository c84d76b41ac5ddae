/**
 * The dark-mode toggle: the page's `data-bs-theme` attribute, the
 * `dark-mode` class on the body, the saved `theme` preference and the
 * toggle button's icon classes and title. The operating system's colour
 * preference and the saved preference are parameters.
 */
module DarkMode {
  import opened Wrappers

  /** What the toggle reads and writes. */
  datatype Page = Page(
    theme: Option<string>,       // `data-bs-theme` on the document element
    bodyClasses: set<string>,    // the body's class list
    saved: Option<string>,       // `localStorage.getItem('theme')`
    iconClasses: set<string>,    // the class list of the button's `<i>`
    title: Option<string>)       // the button's `title` attribute

  const DarkClass := "dark-mode"
  const Sun := "fa-sun"
  const Moon := "fa-moon"
  const ToLight := "Switch to Light Mode"
  const ToDark := "Switch to Dark Mode"

  predicate IsDark(p: Page) {
    p.theme == Some("dark")
  }

  /** `!savedTheme`: no saved preference, or the empty string. */
  predicate Falsy(saved: Option<string>) {
    saved == None || saved == Some("")
  }

  /**
   * The button shows what a click will switch to, the body class follows the
   * theme, and the theme is one of the two the toggle writes.
   */
  predicate Consistent(p: Page) {
    && (p.theme == Some("dark") || p.theme == Some("light"))
    && (DarkClass in p.bodyClasses <==> IsDark(p))
    && (Sun in p.iconClasses <==> IsDark(p))
    && (Moon in p.iconClasses <==> !IsDark(p))
    && p.title == Some(if IsDark(p) then ToLight else ToDark)
  }

  /** `updateDarkModeIcon(isDarkMode)`. */
  function UpdateIcon(p: Page, isDarkMode: bool): (r: Page)
    ensures r.theme == p.theme && r.bodyClasses == p.bodyClasses && r.saved == p.saved
    ensures Sun in r.iconClasses <==> isDarkMode
    ensures Moon in r.iconClasses <==> !isDarkMode
    ensures forall c :: c != Sun && c != Moon ==> (c in r.iconClasses <==> c in p.iconClasses)
    ensures r.title == Some(if isDarkMode then ToLight else ToDark)
  {
    if isDarkMode then
      p.(iconClasses := p.iconClasses - {Moon} + {Sun}, title := Some(ToLight))
    else
      p.(iconClasses := p.iconClasses - {Sun} + {Moon}, title := Some(ToDark))
  }

  /**
   * The `DOMContentLoaded` handler: dark when the saved preference is
   * `dark`, or when nothing is saved and the system prefers dark; light
   * otherwise. Only the dark branch touches the body class. The saved
   * preference is read, never written.
   */
  function Load(p: Page, prefersDark: bool): (r: Page)
    ensures IsDark(r) <==> p.saved == Some("dark") || (Falsy(p.saved) && prefersDark)
    ensures r.theme == Some("dark") || r.theme == Some("light")
    ensures r.saved == p.saved
    ensures IsDark(r) ==> r.bodyClasses == p.bodyClasses + {DarkClass}
    ensures !IsDark(r) ==> r.bodyClasses == p.bodyClasses
    ensures (IsDark(r) || DarkClass !in p.bodyClasses) ==> Consistent(r)
  {
    var applied :=
      if p.saved == Some("dark") || (Falsy(p.saved) && prefersDark) then
        UpdateIcon(p.(theme := Some("dark"), bodyClasses := p.bodyClasses + {DarkClass}), true)
      else
        p.(theme := Some("light"));
    UpdateIcon(applied, IsDark(applied))
  }

  /**
   * The click handler: switches to the other theme, moves the body class
   * with it, saves the new theme and updates the icon.
   */
  function Click(p: Page): (r: Page)
    ensures IsDark(r) <==> !IsDark(p)
    ensures r.saved == r.theme
    ensures Consistent(r)
    ensures forall c :: c != DarkClass ==> (c in r.bodyClasses <==> c in p.bodyClasses)
  {
    if IsDark(p) then
      UpdateIcon(p.(theme := Some("light"), bodyClasses := p.bodyClasses - {DarkClass}, saved := Some("light")), false)
    else
      UpdateIcon(p.(theme := Some("dark"), bodyClasses := p.bodyClasses + {DarkClass}, saved := Some("dark")), true)
  }

  /** From a consistent page, two clicks restore every attribute and class; only the saved preference remains. */
  lemma ClickTwice(p: Page)
    requires Consistent(p)
    ensures Click(Click(p)) == p.(saved := p.theme)
  {
    var q := Click(Click(p));
    if IsDark(p) {
      assert q.bodyClasses == p.bodyClasses - {DarkClass} + {DarkClass};
      assert q.iconClasses == p.iconClasses - {Sun} + {Moon} - {Moon} + {Sun};
    } else {
      assert q.bodyClasses == p.bodyClasses + {DarkClass} - {DarkClass};
      assert q.iconClasses == p.iconClasses - {Moon} + {Sun} - {Sun} + {Moon};
    }
  }

  /**
   * Once the toggle has been clicked, the next load shows the theme chosen,
   * whatever the system prefers.
   */
  lemma ReloadKeepsChoice(p: Page, next: Page, prefersDark: bool)
    requires next.saved == Click(p).saved
    ensures IsDark(Load(next, prefersDark)) <==> IsDark(Click(p))
  {
  }
}
