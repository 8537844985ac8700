/** `Conditional_Themes_Switcher` (includes/class-conditional-themes-switcher.php):
    the per-request object that picks the theme once, then either switches
    to it for good or answers WordPress's theme lookups with it. */
module Switcher {
  import opened Php
  import opened Bindings
  import opened WordPress
  import opened Resolver
  import Manager

  /** The filters `setup_switched_theme` installs when it does not switch
      permanently, in the order it adds them. */
  const OverrideFilters: seq<Hook> := [
    Hook("template", "filter_template", 1, 1),
    Hook("stylesheet", "filter_stylesheet", 1, 1),
    Filter("pre_option_template", "filter_template"),
    Filter("pre_option_stylesheet", "filter_stylesheet"),
    Filter("pre_option_current_theme", "filter_current_theme"),
    Filter("pre_option_template_root", "filter_template_root"),
    Filter("pre_option_stylesheet_root", "filter_stylesheet_root"),
    Filter("pre_option_sidebars_widgets", "filter_sidebars_widgets"),
    Hook("pre_update_option_sidebars_widgets", "update_sidebars_widgets", 10, 2)
  ]

  class Switcher {
    /** The registry the switcher reads (`Conditional_Themes_Manager`). */
    const manager: Manager.Registry
    const host: Host
    /** `$this->original_theme`: the active theme when the switch was set up. */
    var originalTheme: Option<Theme>
    /** `$this->switched_theme`. */
    var switchedTheme: Decision

    /** The class invariant: the registry is well formed, and a decision,
        cached or fresh, is to a theme that exists and is allowed. */
    ghost predicate Valid()
      reads this, manager
    {
      && manager.Valid()
      && (switchedTheme.Switched? ==> Installable(switchedTheme.theme, MustExist))
    }

    constructor (manager: Manager.Registry, host: Host)
      requires manager.Valid()
      ensures Valid()
      ensures this.manager == manager && this.host == host
      ensures originalTheme == None && switchedTheme == Unresolved
    {
      this.manager := manager;
      this.host := host;
      originalTheme := None;
      switchedTheme := Unresolved;
    }

    /** The state after one `get_switched_theme` call, given the cached
        decision and the registry table before it. */
    ghost predicate ResolvedFrom(memo: Decision, table: seq<Binding>)
      reads this, manager
    {
      && manager.Valid()
      && (switchedTheme, manager.themes) == Resolve(memo, table, originalTheme, host.catalogue, MustExist)
    }

    /** `get_switched_theme`: return the cached decision, or scan the
        registry once in order, skipping the original theme, evaluating each
        condition (a callable's result overwrites it in the registry) and
        stopping at the first theme that exists and is allowed. */
    method GetSwitchedTheme() returns (d: Decision)
      requires Valid()
      modifies this`switchedTheme, manager`themes
      ensures Valid()
      ensures ResolvedFrom(old(switchedTheme), old(manager.themes))
      ensures d == switchedTheme
      ensures switchedTheme != Unresolved
      ensures old(switchedTheme) != Unresolved ==> switchedTheme == old(switchedTheme) && manager.themes == old(manager.themes)
      ensures switchedTheme.Switched? ==> Installable(switchedTheme.theme, MustExist)
    {
      if switchedTheme != Unresolved {
        return switchedTheme;
      }
      Scan();
      d := switchedTheme;
    }

    /** The `foreach` of `get_switched_theme` and the `false` it settles on
        when nothing matched. */
    method Scan()
      requires Valid() && switchedTheme == Unresolved
      modifies this`switchedTheme, manager`themes
      ensures ResolvedFrom(Unresolved, old(manager.themes))
    {
      var cts := manager.GetAll();
      ghost var first := FirstEligible(cts, 0, originalTheme, host.catalogue, MustExist);
      ghost var target := Resolve(Unresolved, cts, originalTheme, host.catalogue, MustExist);
      var i := 0;
      while i < |cts|
        invariant 0 <= i <= |cts|
        invariant switchedTheme == Unresolved
        invariant first == FirstEligible(cts, i, originalTheme, host.catalogue, MustExist)
        invariant manager.themes == EvaluatedUpTo(cts, i, originalTheme)
      {
        var ct := cts[i];
        EvaluatedStep(cts, i, originalTheme);
        if originalTheme.Some? && ct.theme == originalTheme.value.stylesheet {
          i := i + 1;
          continue;
        }
        if ct.condition.Callable? {
          ct := ct.(condition := Literal(ct.condition.outcome));
          manager.themes := manager.themes[i := ct];
        }
        assert ct == cts[i].(condition := Evaluated(cts[i].condition));
        if ct.condition == Literal(true) {
          var theme := WpGetTheme(host.catalogue, ct.theme);
          if Exists(theme) && theme.allowed {
            switchedTheme := Switched(theme);
            assert Eligible(cts[i], originalTheme, host.catalogue, MustExist);
            assert manager.themes == EvaluatedUpTo(cts, i + 1, originalTheme);
            assert target == (switchedTheme, manager.themes);
            ScanKeepsTableShape(cts, i + 1, originalTheme);
            break;
          }
        }
        i := i + 1;
      }
      if switchedTheme == Unresolved {
        switchedTheme := NoSwitch;
        assert target == (switchedTheme, manager.themes);
        ScanKeepsTableShape(cts, |cts|, originalTheme);
      }
    }

    /** `filter_template`: the switched theme's parent directory, or the input. */
    method FilterTemplate(template: string) returns (r: string)
      requires Valid()
      modifies this`switchedTheme, manager`themes
      ensures Valid()
      ensures ResolvedFrom(old(switchedTheme), old(manager.themes))
      ensures r == if switchedTheme.Switched? then switchedTheme.theme.template else template
    {
      var theme := GetSwitchedTheme();
      r := template;
      if theme.Switched? {
        r := theme.theme.template;
      }
    }

    /** `filter_stylesheet`: the switched theme's directory, or the input. */
    method FilterStylesheet(stylesheet: string) returns (r: string)
      requires Valid()
      modifies this`switchedTheme, manager`themes
      ensures Valid()
      ensures ResolvedFrom(old(switchedTheme), old(manager.themes))
      ensures r == if switchedTheme.Switched? then switchedTheme.theme.stylesheet else stylesheet
    {
      var theme := GetSwitchedTheme();
      r := stylesheet;
      if theme.Switched? {
        r := theme.theme.stylesheet;
      }
    }

    /** `filter_current_theme`: the switched theme's display name, or the input. */
    method FilterCurrentTheme(currentTheme: string) returns (r: string)
      requires Valid()
      modifies this`switchedTheme, manager`themes
      ensures Valid()
      ensures ResolvedFrom(old(switchedTheme), old(manager.themes))
      ensures r == if switchedTheme.Switched? then switchedTheme.theme.name else currentTheme
    {
      var theme := GetSwitchedTheme();
      r := currentTheme;
      if theme.Switched? {
        r := theme.theme.name;
      }
    }

    /** `filter_template_root`: the raw root of the switched theme's parent
        directory, unless there is no switched theme or that name is empty. */
    method FilterTemplateRoot(templateRoot: string) returns (r: string)
      requires Valid()
      modifies this`switchedTheme, manager`themes
      ensures Valid()
      ensures ResolvedFrom(old(switchedTheme), old(manager.themes))
      ensures r == if switchedTheme.Switched? && !EmptyString(switchedTheme.theme.template)
                   then host.rawThemeRoot(switchedTheme.theme.template) else templateRoot
    {
      var theme := GetSwitchedTheme();
      r := templateRoot;
      if theme.Switched? {
        var template := theme.theme.template;
        if !EmptyString(template) {
          r := host.rawThemeRoot(template);
        }
      }
    }

    /** `filter_stylesheet_root`: the raw root of the switched theme's
        directory, unless there is no switched theme or that name is empty. */
    method FilterStylesheetRoot(stylesheetRoot: string) returns (r: string)
      requires Valid()
      modifies this`switchedTheme, manager`themes
      ensures Valid()
      ensures ResolvedFrom(old(switchedTheme), old(manager.themes))
      ensures r == if switchedTheme.Switched? && !EmptyString(switchedTheme.theme.stylesheet)
                   then host.rawThemeRoot(switchedTheme.theme.stylesheet) else stylesheetRoot
    {
      var theme := GetSwitchedTheme();
      r := stylesheetRoot;
      if theme.Switched? {
        var stylesheet := theme.theme.stylesheet;
        if !EmptyString(stylesheet) {
          r := host.rawThemeRoot(stylesheet);
        }
      }
    }

    /** `filter_sidebars_widgets`: with a switched theme, the array stored
        under 'data' in that theme's `sidebars_widgets` theme mod, when there
        is one; otherwise the input. (The theme mod read is the switched
        theme's, because the stylesheet option is filtered to it.) */
    method FilterSidebarsWidgets(widgets: Value) returns (r: Value)
      requires Valid()
      modifies this`switchedTheme, manager`themes
      ensures Valid()
      ensures ResolvedFrom(old(switchedTheme), old(manager.themes))
      ensures r == if switchedTheme.Switched?
                      && "data" in host.SidebarsMod(switchedTheme.theme.stylesheet)
                      && host.SidebarsMod(switchedTheme.theme.stylesheet)["data"].Arr?
                   then host.SidebarsMod(switchedTheme.theme.stylesheet)["data"] else widgets
    {
      var theme := GetSwitchedTheme();
      r := widgets;
      if theme.Switched? {
        var mod := host.SidebarsMod(theme.theme.stylesheet);
        if "data" in mod && mod["data"].Arr? {
          r := mod["data"];
        }
      }
    }

    /** `update_sidebars_widgets`: with a switched theme, store the new value
        under 'data' in that theme's `sidebars_widgets` theme mod and return
        the old value, so that WordPress skips its own update; otherwise let
        the new value through. */
    method UpdateSidebarsWidgets(widgets: Value, oldValue: Value) returns (r: Value)
      requires Valid()
      modifies this`switchedTheme, manager`themes, host`sidebarMods
      ensures Valid()
      ensures ResolvedFrom(old(switchedTheme), old(manager.themes))
      ensures switchedTheme.Switched? ==>
        var st := switchedTheme.theme.stylesheet;
        && r == oldValue
        && host.sidebarMods == old(host.sidebarMods)[st := SidebarsModOf(old(host.sidebarMods), st)["data" := widgets]]
      ensures !switchedTheme.Switched? ==> r == widgets && host.sidebarMods == old(host.sidebarMods)
    {
      var theme := GetSwitchedTheme();
      r := widgets;
      if theme.Switched? {
        var mod := host.SidebarsMod(theme.theme.stylesheet);
        mod := mod["data" := widgets];
        host.SetSidebarsMod(theme.theme.stylesheet, mod);
        r := oldValue;
      }
    }

    /** `setup_switched_theme`: remember the active theme, resolve, and then
        do nothing (no match), call `switch_theme` once (the 'persistent'
        option is set), or install the nine override filters. */
    method SetupSwitchedTheme(active: Theme)
      requires Valid()
      modifies this`originalTheme, this`switchedTheme, manager`themes, host`filters, host`switches
      ensures Valid()
      ensures originalTheme == Some(active)
      ensures ResolvedFrom(old(switchedTheme), old(manager.themes))
      ensures !switchedTheme.Switched? ==> host.filters == old(host.filters) && host.switches == old(host.switches)
      ensures switchedTheme.Switched? && Truthy(manager.GetOption("persistent")) ==>
        host.switches == old(host.switches) + [switchedTheme.theme.stylesheet] && host.filters == old(host.filters)
      ensures switchedTheme.Switched? && !Truthy(manager.GetOption("persistent")) ==>
        host.filters == old(host.filters) + OverrideFilters && host.switches == old(host.switches)
    {
      originalTheme := Some(active);
      var theme := GetSwitchedTheme();
      if !theme.Switched? {
        return;
      }
      if Truthy(manager.GetOption("persistent")) {
        host.SwitchTheme(theme.theme.stylesheet);
      } else {
        host.AddFilters(OverrideFilters);
      }
    }
  }

  /** Writing the sidebars through the switcher and reading them back gives
      the written array, and the write never reaches the option itself. */
  method SidebarsRoundTrip(s: Switcher, widgets: Value, oldValue: Value) returns (stored: Value, read: Value)
    requires s.Valid() && s.switchedTheme.Switched? && widgets.Arr?
    modifies s`switchedTheme, s.manager`themes, s.host`sidebarMods
    ensures stored == oldValue && read == widgets
  {
    stored := s.UpdateSidebarsWidgets(widgets, oldValue);
    read := s.FilterSidebarsWidgets(Null);
  }
}
