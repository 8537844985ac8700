# Conditional Themes, modelled in Dafny

Conditional Themes is a WordPress plugin. Code registers themes together
with a condition and a priority. On every request the plugin switches to the
first registered theme whose condition holds and which can be used. It either
switches for good (`switch_theme`) or answers WordPress's theme lookups
through a set of filters.

The model covers two pieces of code:

- The current plugin: `Conditional_Themes_Manager` and
  `Conditional_Themes_Switcher` under `includes/`.
- The v0.1 copy of both classes in `conditional-themes/main.php`.

Modules:

- `Php`: the PHP behaviour the plugin relies on.
  - `empty()` on strings, truthiness, a small `Value` type for options and
    theme mods.
  - The normalisation of a string array key (`"5"` is stored under the
    integer key 5).
- `Bindings`: the registry entry `(condition, priority, theme)`.
  - The `cmp_priorities` comparator.
  - The sort that `uasort`/`usort` perform with it, written as an insertion
    sort proved to give a sorted permutation.
- `WordPress`: the host, reduced to data.
  - A catalogue of installed themes (`wp_get_theme`, `exists()`, `errors()`,
    `is_allowed()`).
  - `get_raw_theme_root` as a function.
  - The per-theme `sidebars_widgets` theme mod.
  - The list of filters added and the list of `switch_theme` calls.
- `Manager`: the current registry, a class whose `themes` and `options`
  fields the methods update in place.
- `Resolver`: what `get_switched_theme` computes, as pure functions.
  - The first eligible binding.
  - The registry as the scan leaves it, with every callable it visited
    replaced by its boolean result.
  - The properties of that choice.
  - One definition serves both versions, parameterised by the skipped
    original theme and by the theme test (`exists()` or no `errors()`).
- `Switcher`: the current switcher class.
  - A class invariant: the registry is well formed, and the decision is
    either not made, `false`, or a theme that passes the gate and is allowed.
  - Its memoised scan loop, proved against `Resolver.Resolve`.
  - The filter callbacks.
  - The sidebar-widgets read/write pair.
  - `setup_switched_theme`.
- `Legacy`: the v0.1 registry and switcher.
  - The registry stores `(key, binding)` slots, because its `usort` renumbers
    the keys.
- `Scenarios`: concrete registration sequences contrasting the two registry
  versions.

A callable condition is modelled by the boolean its call yields on this
request (`Callable(outcome)`). A string or array that is callable by syntax
only is `NameOnly`. Any other value is `NotCallable`.

## Model

| member | source | states |
|---|---|---|
| Php.ToKey | includes/class-conditional-themes-manager.php:118 | a name gets a non-negative integer key exactly when it is a canonical unsigned decimal numeral no larger than PHP_INT_MAX, and the key is its value; it gets a negative key exactly when it is "-" followed by a canonical numeral other than "0" no larger than 2^63, and the key is minus that value; every other name is stored under itself |
| Php.ToKeyExamples | includes/class-conditional-themes-manager.php:118 | "5" and "-12" become the integer keys 5 and -12, while "05", "-0" and "5a" stay string keys |
| Php.ToKeyInjective | includes/class-conditional-themes-manager.php:118 | distinct names never share an array key, so the `$themes` array is a table keyed by theme name |
| Php.NumeralInjective | includes/class-conditional-themes-manager.php:118 | two canonical numerals with the same value are the same string |
| Bindings.CmpPriorities | includes/class-conditional-themes-manager.php:129-139 | returns 0, -1 or +1 exactly when the first priority is equal to, below or above the second |
| Bindings.CmpPrioritiesConsistent | includes/class-conditional-themes-manager.php:129-139 | the comparator is antisymmetric and transitive |
| Bindings.IndexOf | includes/class-conditional-themes-manager.php:118 | finds a position holding the name, and finds none exactly when the name is not in the table |
| Bindings.InsertByPriority | includes/class-conditional-themes-manager.php:124 | inserting into a sorted list gives a sorted list with exactly one more element |
| Bindings.SortByPriority | includes/class-conditional-themes-manager.php:124 | the `uasort` result is sorted by non-decreasing priority and is a permutation of its input |
| Bindings.PermutationKeepsUniqueNames | includes/class-conditional-themes-manager.php:124 | a permutation keeps names unique and keeps the set of names, so each key stays with its binding |
| Bindings.UniqueNamesCountOnce | includes/class-conditional-themes-manager.php:118-124 | in a table with unique names every binding occurs at most once |
| Manager.UpsertEntries | includes/class-conditional-themes-manager.php:118-122 | assignment under a name keeps names unique, stores the new binding, keeps every binding under another name, and grows the table only for a new name |
| Manager.SortedUpsertEntries | includes/class-conditional-themes-manager.php:118-124 | the same facts hold for any reordering of the assigned table, with the new name set being the old set plus the name |
| Manager.RemoveAtKeepsOrder | includes/class-conditional-themes-manager.php:157 | `unset` keeps the remaining entries unique and in priority order |
| Manager.RemoveAtEntries | includes/class-conditional-themes-manager.php:157 | `unset` removes exactly the binding under that name |
| Manager.Registry.constructor | includes/class-conditional-themes-manager.php:16-22 | the table and the option store start empty |
| Manager.Registry.GetAll | includes/class-conditional-themes-manager.php:45-48 | returns the live table, which is sorted by priority and has one entry per name |
| Manager.Registry.GetOptions | includes/class-conditional-themes-manager.php:56-59 | returns the option map as stored |
| Manager.Registry.GetOption | includes/class-conditional-themes-manager.php:67-72 | returns the stored value of a set key, and null for a key that is not set |
| Manager.Registry.SetOption | includes/class-conditional-themes-manager.php:80-83 | after the call the key reads back as the value and every other key is unchanged |
| Manager.Registry.SetOptions | includes/class-conditional-themes-manager.php:91-94 | replaces the whole map, which `GetOptions` then returns |
| Manager.Registry.Register | includes/class-conditional-themes-manager.php:102-127 | refuses an empty name or a rejected condition and then leaves the table unchanged; otherwise stores the binding under its name, replacing the old one, keeps every other binding, adds the name to the name set and leaves the table sorted with unique names |
| Manager.Registry.Deregister | includes/class-conditional-themes-manager.php:147-160 | refuses an empty name; otherwise removes the entry under the name (a no-op if absent) and keeps the other entries in their order |
| WordPress.WpGetTheme | includes/class-conditional-themes-switcher.php:233-235 | a name that is not installed gives a theme that does not exist and reports errors; in a well-formed catalogue the theme's stylesheet is the name asked for |
| WordPress.SidebarsModOf | includes/class-conditional-themes-switcher.php:170 | a theme without a `sidebars_widgets` mod reads the default empty array |
| WordPress.Host.SetSidebarsMod | includes/class-conditional-themes-switcher.php:196 | `set_theme_mod` replaces that theme's mod only |
| WordPress.Host.AddFilters | includes/class-conditional-themes-switcher.php:269-280 | `add_filter` calls append to the filter list in order |
| WordPress.Host.SwitchTheme | includes/class-conditional-themes-switcher.php:267 | `switch_theme` is recorded once per call |
| Resolver.FirstEligible | includes/class-conditional-themes-switcher.php:220-239 | the position found lies in the unscanned part of the table |
| Resolver.FirstEligibleIsFirst | includes/class-conditional-themes-switcher.php:220-239 | the position found is eligible and none before it is; nothing is found only if no position is eligible |
| Resolver.FirstEligibleFinds | includes/class-conditional-themes-switcher.php:220-239 | an eligible position with no eligible one before it is the position found |
| Resolver.Resolve | includes/class-conditional-themes-switcher.php:211-248 | the result is never "not yet computed"; a cached decision is returned with the table untouched; a fresh switch is to a theme that passes the gate and is allowed; names and priorities of the table never change |
| Resolver.ChoosesFirstEligible | includes/class-conditional-themes-switcher.php:220-239 | the first eligible binding is chosen, and bindings after it are never evaluated |
| Resolver.NoSwitchIffNoneEligible | includes/class-conditional-themes-switcher.php:243-245 | the decision is `false` if and only if no binding is eligible |
| Resolver.NeverSwitchesToOriginal | includes/class-conditional-themes-switcher.php:221-225 | the theme active before the switch is never chosen |
| Resolver.LowestPriorityWins | includes/class-conditional-themes-switcher.php:217-239 | on the priority-sorted table, the chosen binding has the lowest priority among all eligible bindings |
| Resolver.FirstEligibleAgrees | includes/class-conditional-themes-switcher.php:220-239 | the position found depends only on which positions are eligible |
| Resolver.ResolveStable | includes/class-conditional-themes-switcher.php:227-230 | overwriting callables with their results does not change the choice: a fresh scan of the table the scan left behind makes the same decision |
| Resolver.ScannedConditionsSettled | includes/class-conditional-themes-switcher.php:220-239 | every callable the scan visits (up to and including the chosen binding, or all when nothing is chosen) is replaced by its boolean result; skipped bindings and bindings after the chosen one are unchanged; nothing else changes |
| Resolver.ScanKeepsTableShape | includes/class-conditional-themes-switcher.php:228-229 | the write-back keeps the registry's unique names, priority order, non-empty names and accepted conditions |
| Resolver.EvaluatedStep | includes/class-conditional-themes-switcher.php:220-230 | visiting one position evaluates that binding's condition in place unless it names the original theme |
| Switcher.Switcher.constructor | includes/class-conditional-themes-switcher.php:16-36 | no original theme and no decision yet, which satisfies the class invariant |
| Switcher.Switcher.GetSwitchedTheme | includes/class-conditional-themes-switcher.php:211-248 | the new decision and registry are `Resolve` of the old ones; afterwards a decision exists; a cached decision changes nothing; the decision, cached or fresh, is `false` or an existing, allowed theme, and the class invariant is kept |
| Switcher.Switcher.Scan | includes/class-conditional-themes-switcher.php:217-245 | the loop leaves exactly the decision and the registry `Resolve` describes, and keeps the registry valid |
| Switcher.Switcher.FilterTemplate | includes/class-conditional-themes-switcher.php:67-76 | returns the switched theme's template, or the input when there is no switch |
| Switcher.Switcher.FilterStylesheet | includes/class-conditional-themes-switcher.php:85-94 | returns the switched theme's stylesheet, or the input |
| Switcher.Switcher.FilterCurrentTheme | includes/class-conditional-themes-switcher.php:103-112 | returns the switched theme's display name, or the input |
| Switcher.Switcher.FilterTemplateRoot | includes/class-conditional-themes-switcher.php:121-134 | returns the raw root of a non-empty switched template, otherwise the input |
| Switcher.Switcher.FilterStylesheetRoot | includes/class-conditional-themes-switcher.php:143-156 | returns the raw root of a non-empty switched stylesheet, otherwise the input |
| Switcher.Switcher.FilterSidebarsWidgets | includes/class-conditional-themes-switcher.php:165-178 | substitutes the theme mod's `'data'` only when a theme is switched and `'data'` is set and is an array |
| Switcher.Switcher.UpdateSidebarsWidgets | includes/class-conditional-themes-switcher.php:188-203 | with a switch, writes the new value to the switched theme's mod under `'data'` and returns the old value; without one, returns the new value and writes nothing |
| Switcher.Switcher.SetupSwitchedTheme | includes/class-conditional-themes-switcher.php:256-282 | records the active theme; no match changes nothing; a match with `persistent` set calls `switch_theme` once and adds no filter; otherwise adds the nine filters and does not switch |
| Switcher.SidebarsRoundTrip | includes/class-conditional-themes-switcher.php:165-203 | with a switch, a write through the update filter returns the old value and the read filter then returns the written array |
| Legacy.KeyIndex | conditional-themes/main.php:299 | finds a slot with the key, and finds none only when no slot has it |
| Legacy.KeyIndexFindsLast | conditional-themes/main.php:299 | a lookup finds the last slot holding the key |
| Legacy.Assigned | conditional-themes/main.php:299-303 | assignment keeps every existing key; under a key already present it stores the binding in that slot and keeps the length; under a missing key it appends a slot with that key |
| Legacy.AssignedValues | conditional-themes/main.php:299-303 | under a key already present, the bindings are the old ones with exactly the binding stored under that key replaced by the new one; under a new key, they are all the old ones plus the new one |
| Legacy.RenumberedLookup | conditional-themes/main.php:305 | after `usort`, a lookup under the integer key i finds position i for every i below the length, and any other key, every string key included, finds nothing |
| Legacy.RenumberedAscending | conditional-themes/main.php:305 | renumbered keys are ascending integers |
| Legacy.SortedAssignmentEntries | conditional-themes/main.php:296-305 | after sorting, every binding has a non-empty name and an accepted condition |
| Legacy.RemoveSlotKeepsShape | conditional-themes/main.php:337 | `unset` keeps the keys ascending and the bindings sorted |
| Legacy.WithValuesShape | conditional-themes/main.php:156-178 | the scan's write-back keeps the keys and gives the evaluated bindings |
| Legacy.EvaluatedSlotsStep | conditional-themes/main.php:158-163 | one scan step replaces a callable by its result, leaves anything else alone and keeps every key |
| Legacy.Registry.constructor | conditional-themes/main.php:255 | the list starts empty |
| Legacy.Registry.GetList | conditional-themes/main.php:276-278 | with no criteria, the whole array, keys included, in priority order |
| Legacy.Registry.Register | conditional-themes/main.php:286-309 | refuses an empty name or a rejected condition, leaving the list unchanged; otherwise the bindings are those of the assignment, sorted by priority and renumbered 0..n-1: when the name's key is present, the binding under it is replaced and every other binding is kept; otherwise, and always for a non-numeric name, the new binding is added to all the old ones |
| Legacy.Registry.Deregister | conditional-themes/main.php:329-341 | refuses an empty name; otherwise removes only a slot under exactly the name's key, which for a non-numeric name is none |
| Legacy.Switcher.constructor | conditional-themes/main.php:30-40 | no decision yet, which satisfies the class invariant |
| Legacy.Switcher.GetSwitchedTheme | conditional-themes/main.php:151-185 | the decision and bindings are `Resolve` with no skipped theme and the no-errors test, and every key stays; a cached decision changes nothing; the decision, cached or fresh, is `false` or a theme without errors that is allowed, and the class invariant is kept |
| Legacy.Switcher.Scan | conditional-themes/main.php:156-181 | the loop leaves exactly what `Resolve` describes, with every key kept |
| Legacy.Switcher.GetStylesheet | conditional-themes/main.php:117-126 | the switched theme's stylesheet, or the input |
| Legacy.Switcher.GetTemplate | conditional-themes/main.php:134-143 | the switched theme's template, or the input |
| Legacy.Switcher.CurrentTheme | conditional-themes/main.php:100-109 | the switched theme's display name, or the input |
| Legacy.Switcher.GetStylesheetRoot | conditional-themes/main.php:66-75 | the raw root of a non-empty switched stylesheet, otherwise the input |
| Legacy.Switcher.GetTemplateRoot | conditional-themes/main.php:83-92 | the raw root of a non-empty switched template, otherwise the input |
| Legacy.Switcher.SetupSwitchedTheme | conditional-themes/main.php:193-206 | adds the seven filters in order, without resolving anything |
| Scenarios.TwentytenIsStringKey | conditional-themes/main.php:299 | a non-numeric theme name is a string key |
| Scenarios.LegacyReRegisterDuplicates | conditional-themes/main.php:299-305 | registering "twentyten" twice leaves two identical bindings |
| Scenarios.LegacyDeregisterKeepsTheme | conditional-themes/main.php:329-341 | deregistering "twentyten" right after registering it leaves it registered |
| Scenarios.LegacyNumericNameOverwrites | conditional-themes/main.php:299-305 | after "a" and "b" are registered, registering a theme named "1" replaces the binding for "b" |
| Scenarios.ReRegisterReplaces | includes/class-conditional-themes-manager.php:118-124 | registering "twentyten" twice leaves one binding |
| Scenarios.DeregisterRemoves | includes/class-conditional-themes-manager.php:147-160 | deregistering "twentyten" right after registering it empties the table |

## Left out

- `(int) $priority` in both versions: priorities are integers in the model. The cast of a float, string or other value to an integer is not modelled.
- `WP_Theme` objects passed to `register`/`deregister` are not modelled. The plugin converts them to their stylesheet name, and names are taken as strings.
- Not modelled: the singleton (`instance`, the private constructors, the `__clone`/`__wakeup` guards), `maybe_switch` and its `add_action('setup_theme', …)`, and the bootstrap file `main.php`. They decide when the code runs, not what it does.
- Calling a PHP callable is modelled by its boolean outcome on this request. Not modelled: side effects of the call, exceptions it throws (the plugin does not catch them), and a callable that reads or changes the registry while the scan runs.
- Bindings.SortByPriority: the order among equal priorities is not promised. `uasort`/`usort` are stable only from PHP 8.0. The model proves sortedness and permutation only.
- The shared binding objects are modelled as a write-back by position. `foreach` hands out the registry's own objects, so a condition overwritten during the scan is seen by every later reader of the registry.
- `Php.Value` arrays are maps from string keys. Their order and their integer keys are not modelled, and neither is a `sidebars_widgets` theme mod that is not an array.
- `wp_list_filter` with criteria is not modelled: `get_list` is only ever called with none.
- `get_theme_mod`/`set_theme_mod` act on the theme named by the (filtered) stylesheet option. The model addresses the switched theme's mod directly.
- The v0.1 filters are installed unconditionally. Without a switch, WordPress calls the `pre_option_*` ones with `false`. The model passes strings, so `false` is not modelled; it is returned unchanged either way.
- Manager.Registry.GetAll, Manager.Registry.GetOptions, Legacy.Registry.GetList: these getters also ensure equality with the stored field, because the field is what they return.

## Findings

| source | as written | input that shows it | evidently intended | confidence | as-written member | corrected member |
|---|---|---|---|---|---|---|
| conditional-themes/main.php:299-305 | `usort` renumbers the keys, so a later assignment under a non-numeric name never finds the earlier entry | `register('twentyten', true)` twice | the second registration replaces the first (one entry per name) | high, not executed | Scenarios.LegacyReRegisterDuplicates | Manager.Registry.Register |
| conditional-themes/main.php:329-341 | `unset($themes[$name])` looks for a name key that `usort` has removed | `register('twentyten', true)` then `deregister('twentyten')` | the theme is no longer registered | high, not executed | Scenarios.LegacyDeregisterKeepsTheme | Manager.Registry.Deregister |
| conditional-themes/main.php:299-305 | after renumbering, an integer-string name addresses a position | register `'a'` (priority 1), `'b'` (priority 2), then `'1'` (priority 3) | `'b'` stays registered beside `'1'` | high, not executed | Scenarios.LegacyNumericNameOverwrites | Manager.Registry.Register |

The current version sorts with `uasort`, which keeps the keys. `Manager.Registry.Register` proves that every binding under another name is kept. `Manager.Registry.Deregister` proves that the name is removed. `Php.ToKeyInjective` shows that numeric names cannot collide there.
