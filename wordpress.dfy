/** The WordPress services the plugin calls, reduced to data: the installed
    themes (`wp_get_theme`), the filter table (`add_filter`), permanent theme
    switches (`switch_theme`), the per-theme `sidebars_widgets` theme mod
    (`get_theme_mod`/`set_theme_mod`) and `get_raw_theme_root`. */
module WordPress {
  import opened Php

  /** What `WP_Theme::errors()` reports: nothing, a problem with an installed
      theme (a missing stylesheet or parent, say), or `theme_not_found`. */
  datatype Health = Healthy | Broken | NotFound

  /** The parts of a `WP_Theme` object the plugin reads. */
  datatype Theme = Theme(
    stylesheet: string,  // get_stylesheet(): the (child) theme directory
    template: string,    // get_template(): the parent theme directory
    name: string,        // display('Name')
    health: Health,
    allowed: bool)       // is_allowed()

  /** `WP_Theme::exists()`: false only for `theme_not_found`. */
  predicate Exists(t: Theme) {
    t.health != NotFound
  }

  /** `WP_Theme::errors()` is non-empty. */
  predicate HasErrors(t: Theme) {
    t.health != Healthy
  }

  /** The installed themes, by stylesheet directory name. */
  type Catalogue = map<string, Theme>

  /** Every installed theme is filed under its own directory name. */
  ghost predicate WellFormed(cat: Catalogue) {
    forall n | n in cat :: cat[n].stylesheet == n
  }

  /** `wp_get_theme($stylesheet)`: the installed theme, or a theme object
      for a directory that does not exist. */
  function WpGetTheme(cat: Catalogue, stylesheet: string): (t: Theme)
    ensures stylesheet !in cat ==> !Exists(t) && HasErrors(t)
    ensures WellFormed(cat) ==> t.stylesheet == stylesheet
  {
    if stylesheet in cat then cat[stylesheet]
    else Theme(stylesheet, stylesheet, stylesheet, NotFound, false)
  }

  /** `get_theme_mod('sidebars_widgets', array())` read from the theme mods
      `mods` of the theme `stylesheet`. */
  function SidebarsModOf(mods: map<string, map<string, Value>>, stylesheet: string): (mod: map<string, Value>)
    ensures stylesheet !in mods ==> mod == map[]
  {
    if stylesheet in mods then mods[stylesheet] else map[]
  }

  /** One `add_filter($tag, [$this, $callback], $priority, $accepted_args)` call. */
  datatype Hook = Hook(tag: string, callback: string, priority: int, acceptedArgs: nat)

  /** `add_filter` with its default priority (10) and argument count (1). */
  function Filter(tag: string, callback: string): Hook {
    Hook(tag, callback, 10, 1)
  }

  /** The site the plugin runs in, as far as it can observe or change it. */
  class Host {
    const catalogue: Catalogue
    /** `get_raw_theme_root($name, true)`. */
    const rawThemeRoot: string -> string
    /** The `sidebars_widgets` theme mod of each theme (by stylesheet); a
        theme without one reads as the default `array()`. */
    var sidebarMods: map<string, map<string, Value>>
    /** The filters installed so far, in the order they were added. */
    var filters: seq<Hook>
    /** The stylesheets `switch_theme` was called with, in order. */
    var switches: seq<string>

    constructor (catalogue: Catalogue, rawThemeRoot: string -> string, sidebarMods: map<string, map<string, Value>>)
      ensures this.catalogue == catalogue && this.rawThemeRoot == rawThemeRoot
      ensures this.sidebarMods == sidebarMods && filters == [] && switches == []
    {
      this.catalogue := catalogue;
      this.rawThemeRoot := rawThemeRoot;
      this.sidebarMods := sidebarMods;
      filters := [];
      switches := [];
    }

    /** `get_theme_mod('sidebars_widgets', array())` for the theme `stylesheet`. */
    function SidebarsMod(stylesheet: string): (mod: map<string, Value>)
      reads this
      ensures mod == SidebarsModOf(sidebarMods, stylesheet)
    {
      SidebarsModOf(sidebarMods, stylesheet)
    }

    /** `set_theme_mod('sidebars_widgets', $mod)` for the theme `stylesheet`. */
    method SetSidebarsMod(stylesheet: string, mod: map<string, Value>)
      modifies this`sidebarMods
      ensures sidebarMods == old(sidebarMods)[stylesheet := mod]
    {
      sidebarMods := sidebarMods[stylesheet := mod];
    }

    method AddFilters(hooks: seq<Hook>)
      modifies this`filters
      ensures filters == old(filters) + hooks
    {
      filters := filters + hooks;
    }

    method SwitchTheme(stylesheet: string)
      modifies this`switches
      ensures switches == old(switches) + [stylesheet]
    {
      switches := switches + [stylesheet];
    }
  }
}
