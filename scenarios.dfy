/** Concrete registration sequences that show how the two registry versions
    differ: version 0.1 re-sorts with `usort` and so loses the name keys,
    the current version re-sorts with `uasort` and keeps them. */
module Scenarios {
  import opened Php
  import opened Bindings
  import Manager
  import Legacy

  const Twentyten := Binding(Literal(true), 10, "twentyten")

  /** "twentyten" is an ordinary string key. */
  lemma TwentytenIsStringKey()
    ensures ToKey("twentyten") == StrKey("twentyten")
  {
    assert !IsDigit("twentyten"[0]);
  }

  /** A two-element list holding `x` twice in its multiset is `[x, x]`. */
  lemma TwiceListed(s: seq<Binding>, x: Binding)
    requires multiset(s) == multiset{x, x}
    ensures s == [x, x]
  {
    assert |s| == |multiset(s)| == 2;
    assert s[0] in multiset(s) && s[1] in multiset(s);
  }

  /** v0.1: registering the same theme twice stores it twice. */
  method LegacyReRegisterDuplicates() returns (list: seq<Binding>)
    ensures list == [Twentyten, Twentyten]
  {
    var r := new Legacy.Registry();
    TwentytenIsStringKey();
    var ok := r.Register("twentyten", Literal(true), 10);
    ok := r.Register("twentyten", Literal(true), 10);
    list := Legacy.Values(r.themes);
    TwiceListed(list, Twentyten);
  }

  /** v0.1: deregistering a theme by its name leaves it registered. */
  method LegacyDeregisterKeepsTheme() returns (list: seq<Binding>)
    ensures list == [Twentyten]
  {
    var r := new Legacy.Registry();
    TwentytenIsStringKey();
    var ok := r.Register("twentyten", Literal(true), 10);
    ok := r.Deregister("twentyten");
    list := Legacy.Values(r.themes);
    assert |multiset(list)| == 1 && list[0] in multiset(list);
  }

  /** v0.1: on the array `usort` leaves after registering "a" (priority 1)
      and "b" (priority 2), registering a theme named "1" assigns under the
      key 1 and so replaces the binding for "b"; re-sorting then keeps only
      the bindings for "a" and "1". */
  lemma LegacyNumericNameOverwrites(a: Binding, b: Binding, c: Binding)
    ensures var table := [Legacy.Slot(IntKey(0), a), Legacy.Slot(IntKey(1), b)];
      Legacy.Values(Legacy.Assigned(table, ToKey("1"), c)) == [a, c]
  {
    var table := [Legacy.Slot(IntKey(0), a), Legacy.Slot(IntKey(1), b)];
    assert NumeralValue("1") == 1;
    assert Legacy.KeyIndex(table, IntKey(1)) == Some(1);
  }

  /** Current version: registering the same theme twice keeps one entry. */
  method ReRegisterReplaces() returns (list: seq<Binding>)
    ensures list == [Twentyten]
  {
    var r := new Manager.Registry();
    var ok := r.Register("twentyten", Literal(true), 10);
    ok := r.Register("twentyten", Literal(true), 10);
    list := r.themes;
    assert list[0] in list;
  }

  /** Current version: deregistering a theme by its name removes it. */
  method DeregisterRemoves() returns (list: seq<Binding>)
    ensures list == []
  {
    var r := new Manager.Registry();
    var ok := r.Register("twentyten", Literal(true), 10);
    ok := r.Deregister("twentyten");
    list := r.themes;
  }
}
