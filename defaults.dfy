/** Application constants the modelled services use. */
module Defaults {

  /** The fallback colour theme, one entry per colour the styling needs. */
  const DefaultTheme: map<string, string> := map[
    "background" := "#0d1117",
    "foreground" := "#e6edf3",
    "cursor" := "#e6edf3",
    "black" := "#0d1117",
    "red" := "#ff7b72",
    "green" := "#3fb950",
    "yellow" := "#d29922",
    "blue" := "#58a6ff",
    "magenta" := "#bc8cff",
    "cyan" := "#39c5cf",
    "white" := "#e6edf3"
  ]

  /** The eleven colour names of a theme. */
  const ThemeKeys: set<string> := {
    "background", "foreground", "cursor", "black", "red", "green",
    "yellow", "blue", "magenta", "cyan", "white"
  }

  /** The fallback theme has exactly the eleven colour names, and no value
      is empty. */
  lemma DefaultThemeShape()
    ensures DefaultTheme.Keys == ThemeKeys
    ensures forall k :: k in DefaultTheme ==> DefaultTheme[k] != []
  {
  }
}
