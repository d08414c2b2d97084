/** The conversion of a colour-theme file into the editor's theme
    definition. Loading the file and registering the theme are not modelled. */
module Themes {

  /** One token rule; the editor reads it, the conversion passes it on. */
  datatype ThemeRule = ThemeRule(token: string, foreground: string, background: string, fontStyle: string)

  /** The theme file: its name, its kind (the `type` field), its colour map
      and its token rules. */
  datatype ThemeJson = ThemeJson(name: string, kind: string, colors: map<string, string>, rules: seq<ThemeRule>)

  /** The editor's theme definition. */
  datatype EditorTheme = EditorTheme(base: string, inherit: bool, rules: seq<ThemeRule>)

  /** The three built-in themes a definition can extend. */
  const BaseThemes: set<string> := {"vs", "vs-dark", "hc-black"}

  /** `getEditorTheme`: a dark file extends `vs-dark`, a high-contrast one
      `hc-black`, any other `vs`; the definition inherits from its base and
      carries the file's rules over unchanged. */
  function GetEditorTheme(theme: ThemeJson): (r: EditorTheme)
    ensures r.base == "vs-dark" <==> theme.kind == "dark"
    ensures r.base == "hc-black" <==> theme.kind == "hc"
    ensures r.base == "vs" <==> theme.kind != "dark" && theme.kind != "hc"
    ensures r.base in BaseThemes
    ensures r.inherit
    ensures r.rules == theme.rules
  {
    var base := if theme.kind == "dark" then "vs-dark" else if theme.kind == "hc" then "hc-black" else "vs";
    EditorTheme(base, true, theme.rules)
  }

  /** The name and the colour map play no part in the definition: two files
      that agree on kind and rules give the same definition. */
  lemma OnlyKindAndRules(a: ThemeJson, b: ThemeJson)
    requires a.kind == b.kind && a.rules == b.rules
    ensures GetEditorTheme(a) == GetEditorTheme(b)
  {
  }
}
