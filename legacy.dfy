/** Version 0.1 of the plugin (conditional-themes/main.php), which keeps its
    own copies of `Conditional_Themes_Manager` and `Conditional_Themes_Switcher`.

    Its registry stores each binding under the PHP array key its theme name
    normalises to, as the current version does, but re-sorts with `usort`,
    which throws the keys away and renumbers the entries 0, 1, 2, ... So after
    the first registration the table is keyed by position, not by name. */
module Legacy {
  import opened Php
  import opened Bindings
  import opened WordPress
  import opened Resolver

  /** One entry of the `$themes` array: its key and the stored binding. */
  datatype Slot = Slot(key: Key, binding: Binding)

  /** The bindings of the array, in array order. */
  function Values(s: seq<Slot>): (r: seq<Binding>)
    ensures |r| == |s| && forall i | 0 <= i < |s| :: r[i] == s[i].binding
  {
    seq(|s|, i requires 0 <= i < |s| => s[i].binding)
  }

  /** The array with its bindings replaced, position by position, keys kept. */
  function WithValues(s: seq<Slot>, vals: seq<Binding>): (r: seq<Slot>)
    requires |vals| == |s|
    ensures |r| == |s| && forall i | 0 <= i < |s| :: r[i].key == s[i].key && r[i].binding == vals[i]
  {
    seq(|s|, i requires 0 <= i < |s| => Slot(s[i].key, vals[i]))
  }

  /** The position of the entry stored under `k`, if there is one. */
  function KeyIndex(s: seq<Slot>, k: Key): (r: Option<nat>)
    ensures r.Some? ==> r.value < |s| && s[r.value].key == k
    ensures r.None? ==> forall i | 0 <= i < |s| :: s[i].key != k
  {
    if s == [] then None
    else if s[|s| - 1].key == k then Some(|s| - 1)
    else KeyIndex(s[..|s| - 1], k)
  }

  /** `$themes[$k] = $b`: overwrite the entry stored under `k` where it
      stands, or append a new entry under `k`. */
  function Assigned(s: seq<Slot>, k: Key, b: Binding): (r: seq<Slot>)
    ensures KeyIndex(s, k).Some? ==> |r| == |s|
    ensures KeyIndex(s, k).None? ==> r == s + [Slot(k, b)]
    ensures forall i | 0 <= i < |s| :: r[i].key == s[i].key
    ensures KeyIndex(s, k).Some? ==> r[KeyIndex(s, k).value].binding == b
  {
    match KeyIndex(s, k)
    case Some(i) => s[i := Slot(k, b)]
    case None => s + [Slot(k, b)]
  }

  /** One more step of the scan, on the array with its keys: a callable at
      `i` is replaced by its result, anything else stays, and every key stays. */
  lemma EvaluatedSlotsStep(s: seq<Slot>, i: nat)
    requires i < |s|
    ensures var c := s[i].binding.condition;
      && (!c.Callable? ==> WithValues(s, EvaluatedUpTo(Values(s), i + 1, None)) == WithValues(s, EvaluatedUpTo(Values(s), i, None)))
      && (c.Callable? ==>
            WithValues(s, EvaluatedUpTo(Values(s), i + 1, None)) ==
            WithValues(s, EvaluatedUpTo(Values(s), i, None))[i := Slot(s[i].key, s[i].binding.(condition := Literal(c.outcome)))])
  {
    EvaluatedStep(Values(s), i, None);
  }

  /** Rewriting the bindings keeps the keys, and the new bindings are the
      array's values. */
  lemma WithValuesShape(s: seq<Slot>, vals: seq<Binding>)
    requires |vals| == |s|
    ensures Values(WithValues(s, vals)) == vals
    ensures IntKeysAscending(s) ==> IntKeysAscending(WithValues(s, vals))
  {
  }

  /** The keys `usort` gives its result: 0, 1, 2, ... */
  function Renumbered(vals: seq<Binding>): (r: seq<Slot>)
    ensures Values(r) == vals
    ensures forall i | 0 <= i < |r| :: r[i].key == IntKey(i)
  {
    seq(|vals|, i requires 0 <= i < |vals| => Slot(IntKey(i), vals[i]))
  }

  /** Keys of the array in strictly increasing integer order, as `usort`
      leaves them and `unset` keeps them. */
  ghost predicate IntKeysAscending(s: seq<Slot>) {
    && (forall i | 0 <= i < |s| :: s[i].key.IntKey?)
    && (forall i, j | 0 <= i < j < |s| && s[i].key.IntKey? && s[j].key.IntKey? :: s[i].key.n < s[j].key.n)
  }

  /** Renumbered keys ascend. */
  lemma RenumberedAscending(vals: seq<Binding>)
    ensures IntKeysAscending(Renumbered(vals))
  {
  }

  /** Sorting what an assignment left keeps every binding registration
      allowed: each is the new one or was there before. */
  lemma SortedAssignmentEntries(s: seq<Slot>, k: Key, b: Binding, sorted: seq<Binding>)
    requires multiset(sorted) == multiset(Values(Assigned(s, k, b)))
    requires forall x | x in Values(s) :: !EmptyString(x.theme) && Accepted(x.condition)
    requires !EmptyString(b.theme) && Accepted(b.condition)
    ensures forall x | x in sorted :: !EmptyString(x.theme) && Accepted(x.condition)
  {
    AssignedValues(s, k, b);
    forall x | x in sorted ensures x in Values(Assigned(s, k, b)) {
      assert x in multiset(sorted);
    }
  }

  /** Assignment stores `b` and otherwise only keeps bindings that were there:
      under a key already present it replaces exactly the binding stored
      there, under a new key it adds `b` to all the old bindings. */
  lemma AssignedValues(s: seq<Slot>, k: Key, b: Binding)
    ensures b in Values(Assigned(s, k, b))
    ensures forall x | x in Values(Assigned(s, k, b)) :: x == b || x in Values(s)
    ensures match KeyIndex(s, k)
      case Some(i) => multiset(Values(Assigned(s, k, b))) == multiset(Values(s)) - multiset{s[i].binding} + multiset{b}
      case None => multiset(Values(Assigned(s, k, b))) == multiset(Values(s)) + multiset{b}
  {
    var t := Assigned(s, k, b);
    match KeyIndex(s, k)
    case Some(i) =>
      assert Values(t) == Values(s)[i := b];
      forall x | x in Values(t) ensures x == b || x in Values(s) {
        var j :| 0 <= j < |t| && Values(t)[j] == x;
        if j != i {
          assert Values(s)[j] == x;
        }
      }
    case None =>
      assert Values(t) == Values(s) + [b];
  }

  /** `KeyIndex` finds the last slot holding the key. */
  lemma {:induction false} KeyIndexFindsLast(s: seq<Slot>, k: Key, i: nat)
    requires i < |s| && s[i].key == k
    requires forall j | i < j < |s| :: s[j].key != k
    ensures KeyIndex(s, k) == Some(i)
    decreases |s|
  {
    if i < |s| - 1 {
      KeyIndexFindsLast(s[..|s| - 1], k, i);
    }
  }

  /** After `usort`, a lookup under the integer key `i` finds position `i`
      for every `i` below the length, and every other key, every string key
      included, finds nothing. */
  lemma RenumberedLookup(vals: seq<Binding>, k: Key)
    ensures KeyIndex(Renumbered(vals), k) == if k.IntKey? && 0 <= k.n < |vals| then Some(k.n) else None
  {
    var r := Renumbered(vals);
    if k.IntKey? && 0 <= k.n < |vals| {
      KeyIndexFindsLast(r, k, k.n);
    }
  }

  /** `unset($themes[$k])` on the entry at `i` keeps the keys ascending and
      the bindings sorted, and only keeps bindings that were there. */
  lemma RemoveSlotKeepsShape(s: seq<Slot>, i: nat)
    requires i < |s| && IntKeysAscending(s) && SortedByPriority(Values(s))
    ensures IntKeysAscending(s[..i] + s[i + 1..]) && SortedByPriority(Values(s[..i] + s[i + 1..]))
    ensures forall x | x in Values(s[..i] + s[i + 1..]) :: x in Values(s)
  {
    var t := s[..i] + s[i + 1..];
    forall a | 0 <= a < |t| ensures t[a] == s[if a < i then a else a + 1] { }
    forall a, b | 0 <= a < b < |t|
      ensures t[a].key.n < t[b].key.n && Values(t)[a].priority <= Values(t)[b].priority
    {
      var a', b' := if a < i then a else a + 1, if b < i then b else b + 1;
      assert a' < b' && t[a] == s[a'] && t[b] == s[b'];
      assert Values(s)[a'].priority <= Values(s)[b'].priority;
    }
    forall x | x in Values(t) ensures x in Values(s) {
      var a :| 0 <= a < |t| && Values(t)[a] == x;
      assert Values(s)[if a < i then a else a + 1] == x;
    }
  }

  /** The v0.1 `Conditional_Themes_Manager`: the static `$themes` array. */
  class Registry {
    var themes: seq<Slot>

    ghost predicate Valid()
      reads this
    {
      && IntKeysAscending(themes)
      && SortedByPriority(Values(themes))
      && forall b | b in Values(themes) :: !EmptyString(b.theme) && Accepted(b.condition)
    }

    constructor ()
      ensures Valid() && themes == []
    {
      themes := [];
    }

    /** `get_list()`: `wp_list_filter` with no criteria, which is the whole
        array, keys included, in priority order. */
    function GetList(): (r: seq<Slot>)
      reads this
      requires Valid()
      ensures SortedByPriority(Values(r)) && IntKeysAscending(r)
      ensures r == themes
    {
      themes
    }

    /** `register`: refuse an empty name or a condition that is neither a
        boolean nor callable by syntax; otherwise assign the binding under
        the name's key, then `usort`, which keeps the bindings but renumbers
        the keys. A name that is not an integer string never finds its old
        entry, so registering it again adds a second binding; an integer
        string such as "1" overwrites whatever binding now sits at key 1. */
    method Register(name: string, condition: Condition, priority: int) returns (ok: bool)
      requires Valid()
      modifies this`themes
      ensures Valid()
      ensures ok == (!EmptyString(name) && Accepted(condition))
      ensures !ok ==> themes == old(themes)
      ensures ok ==> forall i | 0 <= i < |themes| :: themes[i].key == IntKey(i)
      ensures ok ==> multiset(Values(themes)) ==
                      multiset(Values(Assigned(old(themes), ToKey(name), Binding(condition, priority, name))))
      ensures ok && ToKey(name).StrKey? ==>
                multiset(Values(themes)) == multiset(Values(old(themes))) + multiset{Binding(condition, priority, name)}
      ensures ok ==> match KeyIndex(old(themes), ToKey(name))
                     case Some(i) => multiset(Values(themes)) == multiset(Values(old(themes))) - multiset{old(themes)[i].binding}
                                                                + multiset{Binding(condition, priority, name)}
                     case None => multiset(Values(themes)) == multiset(Values(old(themes))) + multiset{Binding(condition, priority, name)}
    {
      if EmptyString(name) {
        return false;
      }
      if !Accepted(condition) {
        return false;
      }
      var b := Binding(condition, priority, name);
      var placed := Assigned(themes, ToKey(name), b);
      var sorted := SortByPriority(Values(placed));
      SortedAssignmentEntries(themes, ToKey(name), b, sorted);
      AssignedValues(themes, ToKey(name), b);
      RenumberedAscending(sorted);
      themes := Renumbered(sorted);
      ok := true;
    }

    /** `deregister`: refuse an empty name; otherwise `unset` the entry under
        the name's key. Since the keys are positions, a name that is not an
        integer string removes nothing, and "0", "1", ... remove the entry at
        that key whatever theme it holds. */
    method Deregister(name: string) returns (ok: bool)
      requires Valid()
      modifies this`themes
      ensures Valid()
      ensures ok == !EmptyString(name)
      ensures !ok ==> themes == old(themes)
      ensures ok ==> match KeyIndex(old(themes), ToKey(name))
                     case None => themes == old(themes)
                     case Some(i) => themes == old(themes)[..i] + old(themes)[i + 1..]
      ensures ok && ToKey(name).StrKey? ==> themes == old(themes)
    {
      if EmptyString(name) {
        return false;
      }
      match KeyIndex(themes, ToKey(name)) {
        case None =>
        case Some(i) =>
          RemoveSlotKeepsShape(themes, i);
          themes := themes[..i] + themes[i + 1..];
      }
      ok := true;
    }
  }

  /** The seven filters the v0.1 `setup_switched_theme` installs, in order. */
  const LegacyFilters: seq<Hook> := [
    Filter("pre_option_stylesheet_root", "get_stylesheet_root"),
    Filter("pre_option_template_root", "get_template_root"),
    Filter("pre_option_current_theme", "current_theme"),
    Filter("pre_option_stylesheet", "get_stylesheet"),
    Filter("pre_option_template", "get_template"),
    Hook("stylesheet", "get_stylesheet", 1, 1),
    Hook("template", "get_template", 1, 1)
  ]

  /** The v0.1 `Conditional_Themes_Switcher`. It has no notion of the
      original theme, and accepts a theme only if it reports no errors. */
  class Switcher {
    const manager: Registry
    const host: Host
    var switchedTheme: Decision

    /** The class invariant: the list is well formed, and a decision,
        cached or fresh, is to a theme that has no errors and is allowed. */
    ghost predicate Valid()
      reads this, manager
    {
      && manager.Valid()
      && (switchedTheme.Switched? ==> Installable(switchedTheme.theme, MustBeErrorFree))
    }

    constructor (manager: Registry, host: Host)
      requires manager.Valid()
      ensures Valid()
      ensures this.manager == manager && this.host == host && switchedTheme == Unresolved
    {
      this.manager := manager;
      this.host := host;
      switchedTheme := Unresolved;
    }

    /** The state after one `get_switched_theme` call: the decision and the
        bindings are those of the shared resolver, and every key stays. */
    ghost predicate ResolvedFrom(memo: Decision, table: seq<Slot>)
      reads this, manager
    {
      var r := Resolve(memo, Values(table), None, host.catalogue, MustBeErrorFree);
      && manager.Valid()
      && switchedTheme == r.0
      && manager.themes == WithValues(table, r.1)
    }

    /** `get_switched_theme`: the cached decision, or one scan of the list in
        order that evaluates callables in place and stops at the first theme
        whose condition holds and that has no errors and is allowed. */
    method GetSwitchedTheme() returns (d: Decision)
      requires Valid()
      modifies this`switchedTheme, manager`themes
      ensures Valid()
      ensures ResolvedFrom(old(switchedTheme), old(manager.themes))
      ensures d == switchedTheme
      ensures switchedTheme != Unresolved
      ensures old(switchedTheme) != Unresolved ==> switchedTheme == old(switchedTheme) && manager.themes == old(manager.themes)
      ensures switchedTheme.Switched? ==> Installable(switchedTheme.theme, MustBeErrorFree)
    {
      if switchedTheme != Unresolved {
        assert WithValues(manager.themes, Values(manager.themes)) == manager.themes;
        return switchedTheme;
      }
      Scan();
      d := switchedTheme;
    }

    /** The `foreach` of `get_switched_theme` and the `false` it settles on
        when nothing matched. */
    method Scan()
      requires Valid() && switchedTheme == Unresolved
      modifies this`switchedTheme, manager`themes
      ensures ResolvedFrom(Unresolved, old(manager.themes))
    {
      var cts := manager.GetList();
      ghost var vals := Values(cts);
      ghost var first := FirstEligible(vals, 0, None, host.catalogue, MustBeErrorFree);
      ghost var target := Resolve(Unresolved, vals, None, host.catalogue, MustBeErrorFree);
      assert WithValues(cts, EvaluatedUpTo(vals, 0, None)) == cts;
      var i := 0;
      while i < |cts|
        invariant 0 <= i <= |cts|
        invariant switchedTheme == Unresolved
        invariant first == FirstEligible(vals, i, None, host.catalogue, MustBeErrorFree)
        invariant manager.themes == WithValues(cts, EvaluatedUpTo(vals, i, None))
      {
        var ct := cts[i].binding;
        FirstEligibleStep(vals, i, None, host.catalogue, MustBeErrorFree);
        EvaluatedSlotsStep(cts, i);
        if ct.condition.Callable? {
          ct := ct.(condition := Literal(ct.condition.outcome));
          manager.themes := manager.themes[i := Slot(cts[i].key, ct)];
        }
        if ct.condition == Literal(true) {
          var theme := WpGetTheme(host.catalogue, ct.theme);
          if !HasErrors(theme) && theme.allowed {
            switchedTheme := Switched(theme);
            assert target == (switchedTheme, EvaluatedUpTo(vals, i + 1, None));
            ScanKeepsTableShape(vals, i + 1, None);
            WithValuesShape(cts, EvaluatedUpTo(vals, i + 1, None));
            break;
          }
        }
        i := i + 1;
      }
      if switchedTheme == Unresolved {
        switchedTheme := NoSwitch;
        assert target == (switchedTheme, EvaluatedUpTo(vals, |cts|, None));
        ScanKeepsTableShape(vals, |cts|, None);
        WithValuesShape(cts, EvaluatedUpTo(vals, |cts|, None));
      }
    }

    /** `get_stylesheet`: the switched theme's directory, or the input. */
    method GetStylesheet(stylesheet: string) returns (r: string)
      requires Valid()
      modifies this`switchedTheme, manager`themes
      ensures Valid()
      ensures ResolvedFrom(old(switchedTheme), old(manager.themes))
      ensures r == if switchedTheme.Switched? then switchedTheme.theme.stylesheet else stylesheet
    {
      var theme := GetSwitchedTheme();
      r := stylesheet;
      if theme.Switched? {
        r := theme.theme.stylesheet;
      }
    }

    /** `get_template`: the switched theme's parent directory, or the input. */
    method GetTemplate(template: string) returns (r: string)
      requires Valid()
      modifies this`switchedTheme, manager`themes
      ensures Valid()
      ensures ResolvedFrom(old(switchedTheme), old(manager.themes))
      ensures r == if switchedTheme.Switched? then switchedTheme.theme.template else template
    {
      var theme := GetSwitchedTheme();
      r := template;
      if theme.Switched? {
        r := theme.theme.template;
      }
    }

    /** `current_theme`: the switched theme's display name, or the input. */
    method CurrentTheme(currentTheme: string) returns (r: string)
      requires Valid()
      modifies this`switchedTheme, manager`themes
      ensures Valid()
      ensures ResolvedFrom(old(switchedTheme), old(manager.themes))
      ensures r == if switchedTheme.Switched? then switchedTheme.theme.name else currentTheme
    {
      var theme := GetSwitchedTheme();
      r := currentTheme;
      if theme.Switched? {
        r := theme.theme.name;
      }
    }

    /** `get_stylesheet_root`: the raw root of `get_stylesheet()` (called with
        its default ""), unless that is empty. */
    method GetStylesheetRoot(stylesheetRoot: string) returns (r: string)
      requires Valid()
      modifies this`switchedTheme, manager`themes
      ensures Valid()
      ensures ResolvedFrom(old(switchedTheme), old(manager.themes))
      ensures r == if switchedTheme.Switched? && !EmptyString(switchedTheme.theme.stylesheet)
                   then host.rawThemeRoot(switchedTheme.theme.stylesheet) else stylesheetRoot
    {
      var stylesheet := GetStylesheet("");
      r := stylesheetRoot;
      if !EmptyString(stylesheet) {
        r := host.rawThemeRoot(stylesheet);
      }
    }

    /** `get_template_root`: the raw root of `get_template()` (called with its
        default ""), unless that is empty. */
    method GetTemplateRoot(templateRoot: string) returns (r: string)
      requires Valid()
      modifies this`switchedTheme, manager`themes
      ensures Valid()
      ensures ResolvedFrom(old(switchedTheme), old(manager.themes))
      ensures r == if switchedTheme.Switched? && !EmptyString(switchedTheme.theme.template)
                   then host.rawThemeRoot(switchedTheme.theme.template) else templateRoot
    {
      var template := GetTemplate("");
      r := templateRoot;
      if !EmptyString(template) {
        r := host.rawThemeRoot(template);
      }
    }

    /** `setup_switched_theme`: install the seven filters, without resolving
        anything and whether or not a theme will match. */
    method SetupSwitchedTheme()
      requires Valid()
      modifies host`filters
      ensures Valid()
      ensures host.filters == old(host.filters) + LegacyFilters
    {
      host.AddFilters(LegacyFilters);
    }
  }
}
