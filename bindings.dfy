/** The entries of the conditional-themes registry, the priority comparator
    both plugin versions hand to PHP's sort, and the sort itself. */
module Bindings {
  import opened Php

  /** The condition a theme is registered with, as the plugin sees it. */
  datatype Condition =
    | Literal(value: bool)     // a boolean
    | Callable(outcome: bool)  // a callable that resolves; `outcome` is `(bool)` of what calling it returns this request
    | NameOnly                 // callable by syntax only: a string or pair naming nothing callable, or an empty string
    | NotCallable              // any other value: an integer, null, an array of the wrong shape, ...

  /** `is_bool($condition) || is_callable($condition, true)`: the test
      registration applies. Only the syntax of a callable is checked. */
  predicate Accepted(c: Condition) {
    !c.NotCallable?
  }

  /** The object `(object) ['condition' => ..., 'priority' => ..., 'theme' => ...]`
      stored per registered theme. */
  datatype Binding = Binding(condition: Condition, priority: int, theme: string)

  /** `cmp_priorities`: the three-way comparison of two bindings' priorities. */
  function CmpPriorities(a: Binding, b: Binding): (r: int)
    ensures r == 0 <==> a.priority == b.priority
    ensures r == -1 <==> a.priority < b.priority
    ensures r == 1 <==> a.priority > b.priority
  {
    var p1, p2 := a.priority, b.priority;
    if p1 == p2 then 0
    else if p1 > p2 then 1
    else -1
  }

  /** The comparator is antisymmetric and transitive, so it orders the
      bindings consistently whatever pairs the sort compares. */
  lemma CmpPrioritiesConsistent(a: Binding, b: Binding, c: Binding)
    ensures CmpPriorities(a, b) == -CmpPriorities(b, a)
    ensures CmpPriorities(a, b) <= 0 && CmpPriorities(b, c) <= 0 ==> CmpPriorities(a, c) <= 0
  {
  }

  /** Non-decreasing priority along the list: no pair the comparator
      would put the other way round. */
  ghost predicate SortedByPriority(s: seq<Binding>) {
    forall i, j | 0 <= i < j < |s| :: s[i].priority <= s[j].priority
  }

  ghost function Names(s: seq<Binding>): set<string> {
    set b | b in s :: b.theme
  }

  /** No two entries carry the same theme name. */
  ghost predicate UniqueNames(s: seq<Binding>) {
    forall i, j | 0 <= i < j < |s| :: s[i].theme != s[j].theme
  }

  /** The position of the entry stored under `name`: the lookup
      `$themes[$name]` performs. The last match is reported, which is the
      only one when the names are unique. */
  function IndexOf(s: seq<Binding>, name: string): (r: Option<nat>)
    ensures r.Some? ==> r.value < |s| && s[r.value].theme == name
    ensures r.None? <==> name !in Names(s)
  {
    if s == [] then None
    else if s[|s| - 1].theme == name then Some(|s| - 1)
    else
      var r := IndexOf(s[..|s| - 1], name);
      assert Names(s) == Names(s[..|s| - 1]) + {s[|s| - 1].theme} by {
        assert s == s[..|s| - 1] + [s[|s| - 1]];
      }
      r
  }

  /** Insert `x` after every entry whose priority does not exceed its own. */
  method InsertByPriority(s: seq<Binding>, x: Binding) returns (t: seq<Binding>)
    requires SortedByPriority(s)
    ensures SortedByPriority(t)
    ensures multiset(t) == multiset(s) + multiset{x}
  {
    var j := 0;
    while j < |s| && CmpPriorities(s[j], x) <= 0
      invariant 0 <= j <= |s|
      invariant forall k | 0 <= k < j :: s[k].priority <= x.priority
    {
      j := j + 1;
    }
    assert forall k | j <= k < |s| :: s[k].priority > x.priority by {
      forall k | j <= k < |s| ensures s[k].priority > x.priority {
        assert s[j].priority <= s[k].priority;
      }
    }
    t := s[..j] + [x] + s[j..];
    InsertionSorted(s, x, j);
    assert s == s[..j] + s[j..];
  }

  /** Putting `x` between the entries not above it and those above it keeps
      the list sorted. */
  lemma InsertionSorted(s: seq<Binding>, x: Binding, j: nat)
    requires SortedByPriority(s) && j <= |s|
    requires forall k | 0 <= k < j :: s[k].priority <= x.priority
    requires forall k | j <= k < |s| :: s[k].priority > x.priority
    ensures SortedByPriority(s[..j] + [x] + s[j..])
  {
    var t := s[..j] + [x] + s[j..];
    forall a, b | 0 <= a < b < |t|
      ensures t[a].priority <= t[b].priority
    {
      if b < j {
        assert t[a] == s[a] && t[b] == s[b];
      } else if b == j {
        assert t[a] == s[a];
      } else if a < j {
        assert t[a] == s[a] && t[b] == s[b - 1];
      } else if a == j {
        assert t[b] == s[b - 1];
      } else {
        assert t[a] == s[a - 1] && t[b] == s[b - 1];
      }
    }
  }

  /** PHP's `uasort`/`usort` with `cmp_priorities`: any sorted permutation
      of the input (the order among equal priorities is not promised). */
  method SortByPriority(s: seq<Binding>) returns (r: seq<Binding>)
    ensures SortedByPriority(r)
    ensures multiset(r) == multiset(s)
  {
    r := [];
    var i := 0;
    while i < |s|
      invariant 0 <= i <= |s|
      invariant SortedByPriority(r)
      invariant multiset(r) == multiset(s[..i])
    {
      assert s[..i + 1] == s[..i] + [s[i]];
      r := InsertByPriority(r, s[i]);
      i := i + 1;
    }
    assert s[..i] == s;
  }

  /** A binding occurring twice would put its name at two positions. */
  lemma {:induction false} UniqueNamesCountOnce(s: seq<Binding>, x: Binding)
    requires UniqueNames(s)
    ensures multiset(s)[x] <= 1
  {
    if s != [] {
      var p, last := s[..|s| - 1], s[|s| - 1];
      assert s == p + [last];
      assert UniqueNames(p) by {
        forall i, j | 0 <= i < j < |p| ensures p[i].theme != p[j].theme {
          assert p[i] == s[i] && p[j] == s[j];
        }
      }
      UniqueNamesCountOnce(p, x);
      if x == last {
        assert x !in p by {
          forall k | 0 <= k < |p| ensures p[k] != x {
            assert s[k].theme != s[|s| - 1].theme;
          }
        }
      }
    }
  }

  /** Two positions holding the same binding count it twice. */
  lemma TwoPositionsCountTwice(t: seq<Binding>, i: nat, j: nat)
    requires i < j < |t| && t[i] == t[j]
    ensures multiset(t)[t[i]] >= 2
  {
    assert t == t[..j] + t[j..];
    assert t[i] in t[..j] && t[j] in t[j..];
  }

  /** A member of the multiset of a list sits at some position of it. */
  lemma PositionOf(s: seq<Binding>, x: Binding) returns (p: nat)
    requires x in multiset(s)
    ensures p < |s| && s[p] == x
  {
    assert x in s;
    p :| 0 <= p < |s| && s[p] == x;
  }

  /** Sorting moves entries but cannot make two of them share a name. */
  lemma PermutationKeepsUniqueNames(s: seq<Binding>, t: seq<Binding>)
    requires UniqueNames(s) && multiset(s) == multiset(t)
    ensures UniqueNames(t) && Names(t) == Names(s)
  {
    forall i, j | 0 <= i < j < |t|
      ensures t[i].theme != t[j].theme
    {
      if t[i] == t[j] {
        TwoPositionsCountTwice(t, i, j);
        UniqueNamesCountOnce(s, t[i]);
        assert false;
      } else {
        var p := PositionOf(s, t[i]);
        var q := PositionOf(s, t[j]);
        assert p != q;
        assert s[p].theme != s[q].theme;
      }
    }
    assert forall b :: b in t <==> b in s by {
      forall b ensures b in t <==> b in s {
        assert b in t <==> b in multiset(t);
        assert b in s <==> b in multiset(s);
      }
    }
  }
}
