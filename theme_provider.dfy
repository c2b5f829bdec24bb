/** The theme of `hooks/ThemeProvider.tsx`: the chosen theme is kept in
    state and persisted in local storage under the key `theme`; what is
    shown is the chosen theme with `system` resolved by the browser's
    dark-mode preference. Local storage is a map from keys to strings; the
    preference is a parameter, read afresh on every render. */
module ThemeProvider {
  import opened Wrappers

  datatype Theme = Light | Dark | System

  /** What is applied to the page: never `system`. */
  datatype ResolvedTheme = ResolvedLight | ResolvedDark

  const THEME_KEY: string := "theme"

  /** The string a theme is stored as. */
  function ThemeName(t: Theme): string {
    match t
    case Light => "light"
    case Dark => "dark"
    case System => "system"
  }

  /** The `data-theme` attribute of the resolved theme. */
  function ResolvedName(r: ResolvedTheme): string {
    match r
    case ResolvedLight => "light"
    case ResolvedDark => "dark"
  }

  /** The stored string, if it is one of the three theme names. */
  function ParseTheme(s: string): (t: Option<Theme>)
    ensures t.Some? ==> ThemeName(t.value) == s
    ensures t.None? <==> s != "light" && s != "dark" && s != "system"
  {
    if s == "light" then Some(Light)
    else if s == "dark" then Some(Dark)
    else if s == "system" then Some(System)
    else None
  }

  /** Every theme's name reads back as that theme. */
  lemma ParseThemeName(t: Theme)
    ensures ParseTheme(ThemeName(t)) == Some(t)
  {
  }

  /** `retrieveLocalTheme`: a stored theme name is taken as it is;
      anything else, or nothing stored, gives `system`. */
  function RetrieveLocalTheme(store: map<string, string>): (t: Theme)
    ensures THEME_KEY in store && ParseTheme(store[THEME_KEY]).Some? ==> ThemeName(t) == store[THEME_KEY]
    ensures THEME_KEY !in store || ParseTheme(store[THEME_KEY]).None? ==> t == System
  {
    if THEME_KEY in store && ParseTheme(store[THEME_KEY]).Some? then ParseTheme(store[THEME_KEY]).value
    else System
  }

  /** `setLocalTheme`: the store with the theme's name under `theme`. */
  function SetLocalTheme(store: map<string, string>, t: Theme): (s: map<string, string>)
    ensures THEME_KEY in s && s[THEME_KEY] == ThemeName(t)
    ensures forall k :: k in store && k != THEME_KEY ==> k in s && s[k] == store[k]
    ensures s.Keys == store.Keys + {THEME_KEY}
  {
    store[THEME_KEY := ThemeName(t)]
  }

  /** A theme written to the store is the one read back, whatever else
      the store holds. */
  lemma RetrieveAfterSet(store: map<string, string>, t: Theme)
    ensures RetrieveLocalTheme(SetLocalTheme(store, t)) == t
  {
    ParseThemeName(t);
  }

  /** `resolveTheme`: dark exactly for `dark`, or for `system` when the
      user prefers dark; an explicit theme resolves to itself whatever the
      preference. */
  function ResolveTheme(theme: Theme, prefersDark: bool): (r: ResolvedTheme)
    ensures r == ResolvedDark <==> theme == Dark || (theme == System && prefersDark)
    ensures theme != System ==> ResolvedName(r) == ThemeName(theme)
  {
    match theme
    case System => if prefersDark then ResolvedDark else ResolvedLight
    case Light => ResolvedLight
    case Dark => ResolvedDark
  }

  /** The `ThemeProvider` component: its `theme` state and local storage. */
  class ThemeState {
    var theme: Theme
    var store: map<string, string>

    /** The state always agrees with what a reload would read back. */
    ghost predicate Valid()
      reads this
    {
      theme == RetrieveLocalTheme(store)
    }

    /** On mount the state is initialised from the store. */
    constructor (store: map<string, string>)
      ensures Valid()
      ensures this.store == store && theme == RetrieveLocalTheme(store)
    {
      this.store := store;
      theme := RetrieveLocalTheme(store);
    }

    /** `switchTheme`: sets the state and persists it. */
    method SwitchTheme(t: Theme)
      requires Valid()
      modifies this
      ensures Valid()
      ensures theme == t && store == SetLocalTheme(old(store), t)
      ensures RetrieveLocalTheme(store) == t
    {
      theme := t;
      store := SetLocalTheme(store, t);
      RetrieveAfterSet(old(store), t);
    }

    /** A change of the dark-mode preference reloads the page, which reads
        the state back from the store; the theme does not change. */
    method PreferenceChanged()
      requires Valid()
      modifies this
      ensures Valid() && theme == old(theme) && store == old(store)
    {
      theme := RetrieveLocalTheme(store);
    }

    /** The theme applied on this render. */
    function Resolved(prefersDark: bool): ResolvedTheme
      reads this
    {
      ResolveTheme(theme, prefersDark)
    }

    /** `isDark`: the resolved theme is dark; the wrapper then carries the
        `dark` class. */
    predicate IsDark(prefersDark: bool)
      reads this
      ensures IsDark(prefersDark) <==> theme == Dark || (theme == System && prefersDark)
    {
      Resolved(prefersDark) == ResolvedDark
    }
  }

  /** A theme chosen once survives a reload with a different preference,
      and `system` then follows the preference. */
  method SwitchThenReloadScenario(store: map<string, string>)
  {
    var state := new ThemeState(store);
    state.SwitchTheme(Dark);
    state.PreferenceChanged();
    assert state.IsDark(false) && state.IsDark(true);
    state.SwitchTheme(System);
    var reloaded := new ThemeState(state.store);
    assert reloaded.theme == System;
    assert reloaded.IsDark(true) && !reloaded.IsDark(false);
  }
}
