// Colour theme: the stored mode ('light', 'dark' or 'auto', kept in the
// settings) and the theme shown on the page (the `data-theme` attribute).

module Theme {
  import opened Storage

  /** JavaScript truthiness of a setting value. */
  predicate Truthy(v: Json) {
    match v
    case JNull => false
    case JBool(b) => b
    case JNum(n) => n != 0
    case JStr(s) => s != ""
  }

  /** `settings.theme || 'light'`. */
  function ThemeMode(settings: Settings): (r: Json)
    ensures Truthy(r)
  {
    if "theme" in settings && Truthy(settings["theme"]) then settings["theme"] else JStr("light")
  }

  /** resolveTheme: 'auto' follows the system preference (light when it is
    unknown), 'dark' stays dark, anything else is light. */
  function ResolveTheme(mode: Json, systemDark: bool): (r: string)
    ensures r == "dark" || r == "light"
    ensures r == "dark" <==> (mode == JStr("auto") && systemDark) || mode == JStr("dark")
  {
    if mode == JStr("auto") then (if systemDark then "dark" else "light")
    else if mode == JStr("dark") then "dark" else "light"
  }

  /** The page shows what the stored mode resolves to. */
  predicate Mirrors(settings: Settings, dataTheme: string, systemDark: bool) {
    dataTheme == ResolveTheme(ThemeMode(settings), systemDark)
  }

  /** The header toggle's choice: from 'auto' it goes to the opposite of the
    shown theme (an absent attribute counts as light), otherwise from
    'dark' to 'light' and from anything else to 'dark'. */
  function NextMode(mode: Json, dataTheme: string): (r: string)
    ensures r == "dark" || r == "light"
  {
    if mode == JStr("auto") then
      var resolved := if dataTheme == "" then "light" else dataTheme;
      if resolved == "dark" then "light" else "dark"
    else if mode == JStr("dark") then "light" else "dark"
  }

  /** The settings applyTheme saves: the loaded settings with the chosen
    mode, merged over the defaults. */
  function SettingsWithMode(settings: Settings, mode: Json): Settings {
    MergeSettings(settings["theme" := mode])
  }

  /** When the page mirrors the stored mode, the toggle always changes the
    theme shown, the new mode is stored as given, and the page mirrors the
    new stored mode again. */
  lemma ToggleFlips(settings: Settings, dataTheme: string, systemDark: bool)
    requires Mirrors(settings, dataTheme, systemDark)
    ensures var next := NextMode(ThemeMode(settings), dataTheme);
      var saved := SettingsWithMode(settings, JStr(next));
      && ResolveTheme(JStr(next), systemDark) == next
      && next != dataTheme
      && ThemeMode(saved) == JStr(next)
      && Mirrors(saved, next, systemDark)
  {
  }

  /** Two toggles from a mirrored page come back to the theme shown at the
    start. */
  lemma ToggleTwice(settings: Settings, dataTheme: string, systemDark: bool)
    requires Mirrors(settings, dataTheme, systemDark)
    ensures var next := NextMode(ThemeMode(settings), dataTheme);
      NextMode(ThemeMode(SettingsWithMode(settings, JStr(next))), next) == dataTheme
  {
    ToggleFlips(settings, dataTheme, systemDark);
  }

  /** applyTheme(mode): stores `mode || settings.theme || 'light'` and
    returns the theme to show. */
  method ApplyTheme(store: Store, mode: Json, systemDark: bool, writeOk: bool) returns (dataTheme: string)
    modifies store
    ensures var chosen := if Truthy(mode) then mode else ThemeMode(SettingsFrom(old(store.settings)));
      && dataTheme == ResolveTheme(chosen, systemDark)
      && store.settings == if writeOk then Object(SettingsWithMode(SettingsFrom(old(store.settings)), chosen))
                           else old(store.settings)
    ensures store.caught == old(store.caught) && store.speciesNames == old(store.speciesNames)
    ensures store.speciesMeta == old(store.speciesMeta) && store.segments == old(store.segments)
    ensures store.pokemonToSpecies == old(store.pokemonToSpecies)
  {
    var settings := store.LoadSettings();
    var storedMode := if Truthy(mode) then mode else ThemeMode(settings);
    var resolved := ResolveTheme(storedMode, systemDark);
    var merged := store.SaveSettings(settings["theme" := storedMode], writeOk);
    dataTheme := resolved;
  }

  /** The header toggle of js/ui.js; when the write succeeds and the page
    mirrored the stored mode, it still does and the shown theme changed. */
  method ToggleTheme(store: Store, dataTheme: string, systemDark: bool, writeOk: bool) returns (shown: string)
    modifies store
    ensures var next := NextMode(ThemeMode(SettingsFrom(old(store.settings))), dataTheme);
      && shown == next
      && store.settings == if writeOk then Object(SettingsWithMode(SettingsFrom(old(store.settings)), JStr(next)))
                           else old(store.settings)
    ensures writeOk && Mirrors(SettingsFrom(old(store.settings)), dataTheme, systemDark) ==>
      Mirrors(SettingsFrom(store.settings), shown, systemDark) && shown != dataTheme
    ensures store.caught == old(store.caught) && store.speciesNames == old(store.speciesNames)
    ensures store.speciesMeta == old(store.speciesMeta) && store.segments == old(store.segments)
    ensures store.pokemonToSpecies == old(store.pokemonToSpecies)
  {
    var settings := store.LoadSettings();
    var nextMode := NextMode(ThemeMode(settings), dataTheme);
    shown := ApplyTheme(store, JStr(nextMode), systemDark, writeOk);
    if writeOk {
      SettingsRoundTrip(settings["theme" := JStr(nextMode)]);
      if Mirrors(settings, dataTheme, systemDark) {
        ToggleFlips(settings, dataTheme, systemDark);
      }
    }
  }

  /** The older page's toggle: `data-theme || 'dark'`, then the opposite. */
  function AppNextTheme(dataTheme: string): (r: string)
    ensures r == "dark" || r == "light"
  {
    var current := if dataTheme == "" then "dark" else dataTheme;
    if current == "dark" then "light" else "dark"
  }

  /** The older toggle always lands on 'light' or 'dark', changes a shown
    'light'/'dark' theme, and two toggles restore it. */
  lemma AppToggleFlips(dataTheme: string)
    ensures dataTheme == "dark" || dataTheme == "light" ==>
      AppNextTheme(dataTheme) != dataTheme && AppNextTheme(AppNextTheme(dataTheme)) == dataTheme
    ensures dataTheme == "" ==> AppNextTheme(dataTheme) == "light"
  {
  }
}
