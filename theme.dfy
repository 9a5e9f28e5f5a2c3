/** The light/dark theme switch: the global `currentTheme`, the `data-theme`
    attribute on the document element, the class of the toggle button's icon,
    and the `theme` entry of `localStorage`. Storage is a field of the
    controller: what the previous visit left there is given to the constructor. */
module Theme {
  import opened Wrappers

  const Dark := "dark"
  const Light := "light"
  /** Icon shown while the theme is dark: clicking switches to light. */
  const SunIcon := "fas fa-sun"
  /** Icon shown for any other theme. */
  const MoonIcon := "fas fa-moon"

  /** JavaScript truthiness of `localStorage.getItem('theme')`: `null` and the
      empty string are falsy, every other string is truthy. */
  predicate Truthy(saved: Option<string>)
  {
    saved.Some? && saved.value != ""
  }

  /** The theme `toggleTheme` switches to: light from dark, dark from anything
      else (including a theme string other than the two known ones). */
  function Toggled(theme: string): (r: string)
    ensures r == Light <==> theme == Dark
    ensures r == Dark <==> theme != Dark
  {
    if theme == Dark then Light else Dark
  }

  /** The icon class `updateThemeIcon` gives the toggle button. */
  function IconFor(theme: string): (r: string)
    ensures r == SunIcon <==> theme == Dark
    ensures r == MoonIcon <==> theme != Dark
  {
    if theme == Dark then SunIcon else MoonIcon
  }

  /** The theme in force once `initializeTheme` has run: a truthy saved theme
      replaces the default, whatever string it is. */
  function StartupTheme(saved: Option<string>): (r: string)
    ensures Truthy(saved) ==> r == saved.value
    ensures !Truthy(saved) ==> r == Dark
  {
    if Truthy(saved) then saved.value else Dark
  }

  /** Toggling twice is the identity on the two known themes; any other theme
      (only reachable from storage) becomes light. */
  lemma ToggleTwice(theme: string)
    ensures Toggled(Toggled(theme)) == if theme == Dark then Dark else Light
    ensures theme == Dark || theme == Light ==> Toggled(Toggled(theme)) == theme
  {
  }

  /** Every toggle changes the icon. */
  lemma ToggleChangesIcon(theme: string)
    ensures IconFor(Toggled(theme)) != IconFor(theme)
  {
  }

  class ThemeController {
    /** The global `currentTheme`. */
    var currentTheme: string
    /** The `data-theme` attribute of the document element; `None` when absent. */
    var dataTheme: Option<string>
    /** The class name of the icon inside the toggle button. */
    var iconClass: string
    /** `localStorage`'s `theme` entry. */
    var storage: Option<string>

    /** The page, the icon and the theme agree. */
    ghost predicate Synced()
      reads this
    {
      dataTheme == Some(currentTheme) && iconClass == IconFor(currentTheme)
    }

    /** Page load: `currentTheme` starts as 'dark'; the attribute and icon are
        as the markup has them; storage holds what an earlier visit saved. */
    constructor (saved: Option<string>, initialDataTheme: Option<string>, initialIcon: string)
      ensures currentTheme == Dark && dataTheme == initialDataTheme
      ensures iconClass == initialIcon && storage == saved
    {
      currentTheme := Dark;
      dataTheme := initialDataTheme;
      iconClass := initialIcon;
      storage := saved;
    }

    /** `updateThemeIcon`. */
    method UpdateThemeIcon()
      modifies this
      ensures iconClass == IconFor(currentTheme)
      ensures currentTheme == old(currentTheme) && dataTheme == old(dataTheme) && storage == old(storage)
    {
      iconClass := if currentTheme == Dark then SunIcon else MoonIcon;
    }

    /** `initializeTheme` (without the listener wiring): a truthy saved theme
        becomes the current theme and is applied to the page and the icon;
        otherwise nothing changes. Storage is only read. */
    method InitializeTheme()
      modifies this
      ensures storage == old(storage)
      ensures Truthy(old(storage)) ==> currentTheme == old(storage).value && Synced()
      ensures !Truthy(old(storage)) ==>
        currentTheme == old(currentTheme) && dataTheme == old(dataTheme) && iconClass == old(iconClass)
    {
      var savedTheme := storage;
      if savedTheme.Some? && savedTheme.value != "" {
        currentTheme := savedTheme.value;
        dataTheme := Some(currentTheme);
        UpdateThemeIcon();
      }
    }

    /** `toggleTheme`: switch the theme, apply it to the page, persist it and
        update the icon. Afterwards the page, icon and storage all agree. */
    method ToggleTheme()
      modifies this
      ensures currentTheme == Toggled(old(currentTheme))
      ensures Synced() && storage == Some(currentTheme)
    {
      currentTheme := if currentTheme == Dark then Light else Dark;
      dataTheme := Some(currentTheme);
      storage := Some(currentTheme);
      UpdateThemeIcon();
    }
  }

  /** Page load as `initializeApp` runs it: construct the state, then
      `initializeTheme`. The theme in force is `StartupTheme` of what storage
      held. If storage changed it, the page and icon show it; otherwise the
      attribute and icon stay as the markup has them, whether or not they
      agree with the default 'dark'. */
  method LoadTheme(saved: Option<string>, initialDataTheme: Option<string>, initialIcon: string)
    returns (t: ThemeController)
    ensures fresh(t)
    ensures t.currentTheme == StartupTheme(saved) && t.storage == saved
    ensures Truthy(saved) ==> t.Synced()
    ensures !Truthy(saved) ==> t.dataTheme == initialDataTheme && t.iconClass == initialIcon
  {
    t := new ThemeController(saved, initialDataTheme, initialIcon);
    t.InitializeTheme();
  }
}
