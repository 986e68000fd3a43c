/** The colour choice of `ThemeManager` in scripts.js: a theme name decides the
    two CSS variables `--color-dark` and `--color-light`, and the starting
    theme follows the environment's dark-mode preference. */
module Theme {

  /** The values written to `--color-dark` and `--color-light`. */
  datatype Palette = Palette(dark: string, light: string)

  /** The theme selected in the settings form together with the palette applied. */
  datatype ThemeState = ThemeState(selected: string, palette: Palette)

  const Night: string := "night"
  const Day: string := "day"
  const White: string := "255, 255, 255"
  const Ink: string := "10, 10, 20"

  /** `applyTheme`: "night" puts white text on ink; any other name, including
      "day", puts ink on white. */
  function ApplyTheme(theme: string): (p: Palette)
    ensures theme == Night ==> p.dark == White && p.light == Ink
    ensures theme != Night ==> p.dark == Ink && p.light == White
  {
    if theme == Night then Palette(White, Ink) else Palette(Ink, White)
  }

  /** `initTheme`: "night" exactly when dark mode is preferred, and the
      settings field shows the same theme that was applied. */
  function InitTheme(prefersDark: bool): (s: ThemeState)
    ensures s.selected == Night <==> prefersDark
    ensures s.selected == Night || s.selected == Day
    ensures s.palette == ApplyTheme(s.selected)
  {
    var preferred := if prefersDark then Night else Day;
    ThemeState(preferred, ApplyTheme(preferred))
  }

  /** The two presets are each other's swap, and every name other than
      "night" behaves as "day". */
  lemma NightSwapsDayRoles(theme: string)
    requires theme != Night
    ensures ApplyTheme(theme) == ApplyTheme(Day)
    ensures ApplyTheme(Night) == Palette(ApplyTheme(theme).light, ApplyTheme(theme).dark)
  {
  }
}
