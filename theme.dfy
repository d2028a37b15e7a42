/** Theme preference: resolution, application, user toggle and the
    operating system's colour-scheme change (js/scripts.js, lines 5-77).

    The page state the script reads and writes is the value `Env`: the
    `localStorage` entry under `user-theme-preference`, the
    `prefers-color-scheme: dark` signal and whether `window.matchMedia`
    exists, the `data-theme` attribute of the document element, and the
    class of the `themeIcon` element (which may be missing). The script's
    handlers are the methods of `ThemeController`; each is specified by a
    transition function on `Env`, and the properties are lemmas about those
    functions. */
module Theme {
  import opened Wrappers

  const Light := "light"
  const Dark := "dark"
  const SunIcon := "bi bi-sun-fill"
  const MoonIcon := "bi bi-moon-fill"

  predicate IsTheme(t: string) {
    t == Light || t == Dark
  }

  datatype Env = Env(
    stored: Option<string>,    // localStorage.getItem('user-theme-preference')
    systemDark: bool,          // matchMedia('(prefers-color-scheme: dark)').matches
    hasMatchMedia: bool,       // window.matchMedia exists
    attr: Option<string>,      // data-theme attribute of <html>
    hasIcon: bool,             // the #themeIcon element exists
    icon: string)              // its className

  /** `getTheme`: a valid stored choice, else the system signal, else light. */
  function GetTheme(stored: Option<string>, hasMatchMedia: bool, systemDark: bool): (r: string)
    ensures IsTheme(r)
    ensures stored.Some? && IsTheme(stored.value) ==> r == stored.value
    ensures !(stored.Some? && IsTheme(stored.value)) ==> (r == Dark <==> hasMatchMedia && systemDark)
  {
    if stored == Some(Light) || stored == Some(Dark) then stored.value
    else if hasMatchMedia && systemDark then Dark
    else Light
  }

  /** `updateThemeIcon`'s choice of icon. */
  function IconFor(theme: string): (r: string)
    ensures r == SunIcon || r == MoonIcon
    ensures r == SunIcon <==> theme == Dark
  {
    if theme == Dark then SunIcon else MoonIcon
  }

  /** The ternary of `toggleTheme`: anything but dark becomes dark. */
  function Flip(current: string): (r: string)
    ensures IsTheme(r)
    ensures r == Light <==> current == Dark
  {
    if current == Dark then Light else Dark
  }

  /** `attr || getTheme()`: the displayed theme, or the resolved one if the
      attribute is absent or empty. */
  function Current(e: Env): string {
    if Truthy(e.attr) then e.attr.value else GetTheme(e.stored, e.hasMatchMedia, e.systemDark)
  }

  // ---------------------------------------------------------------------
  // Transitions

  /** `updateThemeIcon(t)`: only the icon changes, and only if it exists. */
  function IconUpdated(e: Env, theme: string): Env {
    if e.hasIcon then e.(icon := IconFor(theme)) else e
  }

  /** `applyTheme(t)`: set the attribute, then update the icon. */
  function Applied(e: Env, theme: string): Env {
    IconUpdated(e.(attr := Some(theme)), theme)
  }

  /** `initTheme`. */
  function Initialized(e: Env): Env {
    Applied(e, GetTheme(e.stored, e.hasMatchMedia, e.systemDark))
  }

  /** `toggleTheme`: store the flipped current theme, then apply it. */
  function Toggled(e: Env): Env {
    var t := Flip(Current(e));
    Applied(e.(stored := Some(t)), t)
  }

  /** The DOMContentLoaded step that refreshes the icon from `attr || getTheme()`. */
  function IconRefreshed(e: Env): Env {
    IconUpdated(e, Current(e))
  }

  /** The operating system's colour scheme changes to `matches`. The listener
      exists only when `window.matchMedia` does; it applies the system theme
      unless the stored key is truthy. */
  function SystemChanged(e: Env, matches: bool): Env {
    var e' := e.(systemDark := matches);
    if e.hasMatchMedia && !Truthy(e.stored) then Applied(e', if matches then Dark else Light)
    else e'
  }

  /** A run of system changes, in order. */
  function SystemChanges(e: Env, changes: seq<bool>): Env
    decreases |changes|
  {
    if changes == [] then e else SystemChanges(SystemChanged(e, changes[0]), changes[1..])
  }

  /** The attribute holds a theme and the icon, when present, shows it. */
  predicate Consistent(e: Env) {
    && e.attr.Some? && IsTheme(e.attr.value)
    && (e.hasIcon ==> e.icon == IconFor(e.attr.value))
  }

  // ---------------------------------------------------------------------
  // Properties

  /** `applyTheme` writes the attribute and the icon and never storage. */
  lemma ApplyEffect(e: Env, theme: string)
    ensures Applied(e, theme).attr == Some(theme)
    ensures e.hasIcon ==> Applied(e, theme).icon == (if theme == Dark then SunIcon else MoonIcon)
    ensures !e.hasIcon ==> Applied(e, theme).icon == e.icon
    ensures Applied(e, theme).stored == e.stored
    ensures Applied(e, theme).systemDark == e.systemDark && Applied(e, theme).hasMatchMedia == e.hasMatchMedia
  {
  }

  /** The stored value wins over the system signal. */
  lemma StoredChoiceWins(stored: string, hasMatchMedia: bool, systemDark: bool)
    requires IsTheme(stored)
    ensures GetTheme(Some(stored), hasMatchMedia, systemDark) == stored
  {
  }

  /** Without a valid stored value the result is dark exactly when the
      system reports dark; an invalid stored string is ignored. */
  lemma SystemDecidesWithoutChoice(stored: Option<string>, hasMatchMedia: bool, systemDark: bool)
    requires !(stored.Some? && IsTheme(stored.value))
    ensures GetTheme(stored, hasMatchMedia, systemDark) == GetTheme(None, hasMatchMedia, systemDark)
    ensures GetTheme(stored, true, systemDark) == (if systemDark then Dark else Light)
    ensures GetTheme(stored, false, systemDark) == Light
  {
  }

  /** `initTheme` leaves the page consistent, showing the resolved theme,
      with storage untouched. */
  lemma InitEstablishesConsistency(e: Env)
    ensures Consistent(Initialized(e))
    ensures Initialized(e).attr == Some(GetTheme(e.stored, e.hasMatchMedia, e.systemDark))
    ensures Initialized(e).stored == e.stored
  {
  }

  /** A toggle flips the current theme, persists it, and leaves the page
      consistent with storage equal to the attribute. */
  lemma ToggleFlipsAndPersists(e: Env)
    ensures Toggled(e).attr == Some(Flip(Current(e)))
    ensures Toggled(e).stored == Toggled(e).attr
    ensures Consistent(Toggled(e))
    ensures Current(e) == Dark ==> Toggled(e).attr == Some(Light)
    ensures Current(e) != Dark ==> Toggled(e).attr == Some(Dark)
  {
  }

  /** Two toggles from a page showing light or dark restore the attribute;
      storage then holds that same value. */
  lemma ToggleTwiceRestores(e: Env)
    requires e.attr.Some? && IsTheme(e.attr.value)
    ensures Toggled(Toggled(e)).attr == e.attr
    ensures Toggled(Toggled(e)).stored == e.attr
  {
    var once := Toggled(e);
    assert once.attr == Some(Flip(e.attr.value));
  }

  /** A toggle from a page with a non-empty attribute flips that attribute,
      whatever storage and the system say. */
  lemma ToggleFromAttribute(e: Env)
    requires Truthy(e.attr)
    ensures Toggled(e).attr == Some(Flip(e.attr.value))
    ensures Toggled(e).stored == Some(Flip(e.attr.value))
  {
  }

  /** A toggle from a page whose attribute is absent or empty works from
      the resolved theme. */
  lemma ToggleFromResolved(e: Env)
    requires !Truthy(e.attr)
    ensures Toggled(e).attr == Some(Flip(GetTheme(e.stored, e.hasMatchMedia, e.systemDark)))
  {
  }

  /** A system change applies the system theme when the stored key is absent
      or empty and the listener exists. */
  lemma SystemChangeApplied(e: Env, matches: bool)
    requires e.hasMatchMedia && !Truthy(e.stored)
    ensures SystemChanged(e, matches).attr == Some(if matches then Dark else Light)
    ensures SystemChanged(e, matches).attr == Some(GetTheme(e.stored, true, matches))
    ensures Consistent(SystemChanged(e, matches))
  {
  }

  /** Any truthy stored string blocks a system change, including one that
      `getTheme` would ignore. */
  lemma SystemChangeBlocked(e: Env, matches: bool)
    requires Truthy(e.stored) || !e.hasMatchMedia
    ensures SystemChanged(e, matches) == e.(systemDark := matches)
  {
  }

  /** A system change never writes storage and keeps a consistent page consistent. */
  lemma SystemChangePreserves(e: Env, matches: bool)
    ensures SystemChanged(e, matches).stored == e.stored
    ensures Consistent(e) ==> Consistent(SystemChanged(e, matches))
  {
  }

  /** Once the user has toggled, no run of system changes alters the theme. */
  lemma {:induction false} UserChoiceSticks(e: Env, changes: seq<bool>)
    requires Truthy(e.stored)
    ensures SystemChanges(e, changes).attr == e.attr
    ensures SystemChanges(e, changes).stored == e.stored
    ensures SystemChanges(e, changes).icon == e.icon
    decreases |changes|
  {
    if changes != [] {
      UserChoiceSticks(SystemChanged(e, changes[0]), changes[1..]);
    }
  }

  lemma ToggleThenSystemChanges(e: Env, changes: seq<bool>)
    ensures SystemChanges(Toggled(e), changes).attr == Some(Flip(Current(e)))
  {
    UserChoiceSticks(Toggled(e), changes);
  }

  /** Refreshing the icon of a consistent page changes nothing. */
  lemma IconRefreshIdle(e: Env)
    requires Consistent(e)
    ensures IconRefreshed(e) == e
  {
  }

  /** The refresh repairs a stale icon: afterwards the icon, when present,
      shows the current theme, and a page whose attribute holds a theme is
      consistent. */
  lemma IconRefreshRepairs(e: Env)
    ensures e.hasIcon ==> IconRefreshed(e).icon == IconFor(Current(e))
    ensures IconRefreshed(e).attr == e.attr && IconRefreshed(e).stored == e.stored
    ensures e.attr.Some? && IsTheme(e.attr.value) ==> Consistent(IconRefreshed(e))
  {
  }

  /** An icon element that did not yet exist when `initTheme` ran, and that
      appears with any class `icon` before the DOM is ready, is set right by
      the refresh. */
  lemma LateIconRepaired(e: Env, icon: string)
    ensures !e.hasIcon ==> Initialized(e).icon == e.icon
    ensures Consistent(IconRefreshed(Initialized(e).(hasIcon := true, icon := icon)))
  {
  }

  // ---------------------------------------------------------------------
  // The page, updated in place

  class ThemeController {
    var stored: Option<string>
    var systemDark: bool
    var hasMatchMedia: bool
    var attr: Option<string>
    var hasIcon: bool
    var icon: string

    function Snapshot(): Env
      reads this
    {
      Env(stored, systemDark, hasMatchMedia, attr, hasIcon, icon)
    }

    /** The page before the script runs. */
    constructor (stored: Option<string>, systemDark: bool, hasMatchMedia: bool,
                 attr: Option<string>, hasIcon: bool, icon: string)
      ensures Snapshot() == Env(stored, systemDark, hasMatchMedia, attr, hasIcon, icon)
    {
      this.stored, this.systemDark, this.hasMatchMedia := stored, systemDark, hasMatchMedia;
      this.attr, this.hasIcon, this.icon := attr, hasIcon, icon;
    }

    method ResolveTheme() returns (t: string)
      ensures t == GetTheme(stored, hasMatchMedia, systemDark)
      ensures IsTheme(t)
    {
      if stored == Some(Light) || stored == Some(Dark) {
        return stored.value;
      }
      if hasMatchMedia && systemDark {
        return Dark;
      }
      return Light;
    }

    method UpdateThemeIcon(theme: string)
      modifies this
      ensures Snapshot() == IconUpdated(old(Snapshot()), theme)
    {
      if hasIcon {
        if theme == Dark {
          icon := SunIcon;
        } else {
          icon := MoonIcon;
        }
      }
    }

    method ApplyTheme(theme: string)
      modifies this
      ensures Snapshot() == Applied(old(Snapshot()), theme)
      ensures stored == old(stored)
    {
      attr := Some(theme);
      UpdateThemeIcon(theme);
    }

    method InitTheme()
      modifies this
      ensures Snapshot() == Initialized(old(Snapshot()))
      ensures Consistent(Snapshot())
    {
      var theme := ResolveTheme();
      ApplyTheme(theme);
    }

    method ToggleTheme()
      modifies this
      ensures Snapshot() == Toggled(old(Snapshot()))
      ensures stored == attr && Consistent(Snapshot())
    {
      var current: string;
      if attr.Some? && attr.value != "" {
        current := attr.value;
      } else {
        current := ResolveTheme();
      }
      var newTheme := if current == Dark then Light else Dark;
      stored := Some(newTheme);
      ApplyTheme(newTheme);
      ToggleFlipsAndPersists(old(Snapshot()));
    }

    method RefreshIcon()
      modifies this
      ensures Snapshot() == IconRefreshed(old(Snapshot()))
    {
      var current: string;
      if attr.Some? && attr.value != "" {
        current := attr.value;
      } else {
        current := ResolveTheme();
      }
      UpdateThemeIcon(current);
    }

    /** The system signal becomes `matches`; the listener (registered only
        when `matchMedia` exists) runs. */
    method OnSystemChange(matches: bool)
      modifies this
      ensures Snapshot() == SystemChanged(old(Snapshot()), matches)
      ensures stored == old(stored)
    {
      systemDark := matches;
      if hasMatchMedia {
        if !(stored.Some? && stored.value != "") {
          var systemTheme := if matches then Dark else Light;
          ApplyTheme(systemTheme);
        }
      }
    }
  }
}
