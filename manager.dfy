/** `Conditional_Themes_Manager` (includes/class-conditional-themes-manager.php):
    the process-wide table of conditional themes, keyed by theme name and
    kept in priority order, and the plugin's option store. */
module Manager {
  import opened Php
  import opened Bindings

  /** `$themes[$b->theme] = $b` on an array keyed by theme name: an entry
      already stored under the name is overwritten where it stands, a new
      name is appended. */
  function Upsert(s: seq<Binding>, b: Binding): seq<Binding> {
    match IndexOf(s, b.theme)
    case Some(i) => s[i := b]
    case None => s + [b]
  }

  /** Upserting keeps names unique, stores `b`, and keeps every entry under
      another name; it adds one entry exactly when the name is new. */
  lemma UpsertEntries(s: seq<Binding>, b: Binding)
    requires UniqueNames(s)
    ensures UniqueNames(Upsert(s, b))
    ensures forall x :: x in Upsert(s, b) <==> x == b || (x in s && x.theme != b.theme)
    ensures |Upsert(s, b)| == if b.theme in Names(s) then |s| else |s| + 1
  {
    var t := Upsert(s, b);
    match IndexOf(s, b.theme)
    case Some(i) =>
      assert forall k | 0 <= k < |s| :: t[k].theme == s[k].theme;
      forall x ensures x in t <==> x == b || (x in s && x.theme != b.theme) {
        if x in s && x.theme != b.theme {
          var k :| 0 <= k < |s| && s[k] == x;
          assert k != i && t[k] == x;
        }
        if x in t && x != b {
          var k :| 0 <= k < |t| && t[k] == x;
          assert k != i && s[k] == x;
          assert s[k].theme != s[i].theme by {
            if k < i { } else { }
          }
        }
      }
    case None =>
      assert t == s + [b];
      forall x | x in s ensures x.theme != b.theme {
        assert x.theme in Names(s);
      }
  }

  /** Any reordering of the upserted table (the sort) keeps what upserting
      promised: unique names, `b` stored, every entry under another name kept,
      and one entry more exactly when the name is new. */
  lemma SortedUpsertEntries(s: seq<Binding>, b: Binding, t: seq<Binding>)
    requires UniqueNames(s) && multiset(t) == multiset(Upsert(s, b))
    ensures UniqueNames(t)
    ensures forall x :: x in t <==> x == b || (x in s && x.theme != b.theme)
    ensures Names(t) == Names(s) + {b.theme}
    ensures |t| == if b.theme in Names(s) then |s| else |s| + 1
  {
    var placed := Upsert(s, b);
    UpsertEntries(s, b);
    PermutationKeepsUniqueNames(placed, t);
    assert |t| == |placed| by {
      assert |multiset(t)| == |multiset(placed)|;
    }
    forall x ensures x in t <==> x in placed {
      assert x in t <==> x in multiset(t);
      assert x in placed <==> x in multiset(placed);
    }
  }

  /** Dropping one entry keeps the others in their relative order, so the
      table stays sorted and its names stay unique. */
  lemma RemoveAtKeepsOrder(s: seq<Binding>, i: nat)
    requires i < |s| && UniqueNames(s) && SortedByPriority(s)
    ensures UniqueNames(s[..i] + s[i + 1..]) && SortedByPriority(s[..i] + s[i + 1..])
  {
    var t := s[..i] + s[i + 1..];
    forall a, b | 0 <= a < b < |t|
      ensures t[a].theme != t[b].theme && t[a].priority <= t[b].priority
    {
      var a', b' := if a < i then a else a + 1, if b < i then b else b + 1;
      assert a' < b' && t[a] == s[a'] && t[b] == s[b'];
    }
  }

  /** `unset($themes[$s[i]->theme])`: dropping the entry at `i` removes
      exactly the binding under that name. */
  lemma RemoveAtEntries(s: seq<Binding>, i: nat)
    requires i < |s| && UniqueNames(s)
    ensures forall x :: x in s[..i] + s[i + 1..] <==> x in s && x.theme != s[i].theme
    ensures Names(s[..i] + s[i + 1..]) == Names(s) - {s[i].theme}
  {
    var t := s[..i] + s[i + 1..];
    forall x ensures x in t <==> x in s && x.theme != s[i].theme {
      if x in s && x.theme != s[i].theme {
        var k :| 0 <= k < |s| && s[k] == x;
        assert k != i;
        assert t[if k < i then k else k - 1] == x;
      }
      if x in t {
        var k :| 0 <= k < |t| && t[k] == x;
        var at := if k < i then k else k + 1;
        assert s[at] == x && at != i;
        assert s[at].theme != s[i].theme by {
          if at < i { } else { }
        }
      }
    }
  }

  /** The registry. `themes` is the static `$themes` array (each entry's key
      is its `theme` field) and `options` the static `$options` array. */
  class Registry {
    var themes: seq<Binding>
    var options: map<string, Value>

    /** What registration guarantees of the table: one entry per name, none
        under an empty name or with a rejected condition, in priority order. */
    ghost predicate Valid()
      reads this
    {
      && UniqueNames(themes)
      && SortedByPriority(themes)
      && forall b | b in themes :: !EmptyString(b.theme) && Accepted(b.condition)
    }

    constructor ()
      ensures Valid() && themes == [] && options == map[]
    {
      themes := [];
      options := map[];
    }

    /** `get_all`: the live table, in priority order with one entry per name. */
    function GetAll(): (r: seq<Binding>)
      reads this
      requires Valid()
      ensures SortedByPriority(r) && UniqueNames(r)
      ensures r == themes
    {
      themes
    }

    /** `get_options`: the whole option map, as stored. */
    function GetOptions(): (r: map<string, Value>)
      reads this
      ensures r == options
    {
      options
    }

    /** `get_option`: the stored value, or null for a key that is not set.
        `isset` also fails for a stored null, which returns null all the same. */
    function GetOption(key: string): (r: Value)
      reads this
      ensures key in options ==> r == options[key]
      ensures key !in options ==> r == Null
    {
      if key in options && options[key] != Null then options[key] else Null
    }

    /** `set_option`: one key is (re)assigned, the others stay. */
    method SetOption(key: string, value: Value)
      modifies this`options
      ensures options == old(options)[key := value]
      ensures GetOption(key) == value
      ensures forall k | k != key :: GetOption(k) == old(GetOption(k))
    {
      options := options[key := value];
    }

    /** `set_options`: the whole map is replaced. */
    method SetOptions(newOptions: map<string, Value>)
      modifies this`options
      ensures options == newOptions
      ensures GetOptions() == newOptions
    {
      options := newOptions;
    }

    /** `register`: refuse an empty name or a condition that is neither a
        boolean nor callable by syntax; otherwise store the binding under its
        name, replacing any earlier one, and re-sort by priority (`uasort`,
        which keeps every key with its binding). */
    method Register(name: string, condition: Condition, priority: int) returns (ok: bool)
      requires Valid()
      modifies this`themes
      ensures Valid()
      ensures ok == (!EmptyString(name) && Accepted(condition))
      ensures !ok ==> themes == old(themes)
      ensures ok ==> Binding(condition, priority, name) in themes
      ensures ok ==> forall x :: x in themes <==>
                      x == Binding(condition, priority, name) || (x in old(themes) && x.theme != name)
      ensures ok ==> Names(themes) == Names(old(themes)) + {name}
      ensures ok ==> |themes| == |old(themes)| + (if name in Names(old(themes)) then 0 else 1)
    {
      if EmptyString(name) {
        return false;
      }
      if !Accepted(condition) {
        return false;
      }
      var b := Binding(condition, priority, name);
      var sorted := SortByPriority(Upsert(themes, b));
      SortedUpsertEntries(themes, b, sorted);
      themes := sorted;
      ok := true;
    }

    /** `deregister`: refuse an empty name; otherwise drop the entry stored
        under the name, if any, and leave the rest in their order. */
    method Deregister(name: string) returns (ok: bool)
      requires Valid()
      modifies this`themes
      ensures Valid()
      ensures ok == !EmptyString(name)
      ensures !ok ==> themes == old(themes)
      ensures ok ==> Names(themes) == Names(old(themes)) - {name}
      ensures ok ==> forall x :: x in themes <==> x in old(themes) && x.theme != name
      ensures ok && name !in Names(old(themes)) ==> themes == old(themes)
      ensures ok && name in Names(old(themes)) ==>
                exists i | 0 <= i < |old(themes)| && old(themes)[i].theme == name ::
                  themes == old(themes)[..i] + old(themes)[i + 1..]
    {
      if EmptyString(name) {
        return false;
      }
      match IndexOf(themes, name) {
        case None =>
        case Some(i) =>
          RemoveAtKeepsOrder(themes, i);
          RemoveAtEntries(themes, i);
          themes := themes[..i] + themes[i + 1..];
      }
      ok := true;
    }
  }
}
