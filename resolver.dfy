/** What `get_switched_theme` computes, as functions of the registry and the
    installed themes: the first binding, in registry order, whose condition
    holds and whose theme can be used, and the registry as the scan leaves
    it (every callable it looked at replaced by its boolean result).

    Both plugin versions are covered: the current one skips the theme that
    was active before the switch and accepts a theme that `exists()`; version
    0.1 skips nothing (`original` is `None`) and accepts a theme without
    `errors()`. */
module Resolver {
  import opened Php
  import opened Bindings
  import opened WordPress

  /** `$this->switched_theme`: null until the first lookup, then `false`
      (no switch) or the chosen theme. */
  datatype Decision = Unresolved | NoSwitch | Switched(theme: Theme)

  /** Which test a theme must pass besides `is_allowed()`. */
  datatype Gate = MustExist | MustBeErrorFree

  predicate Installable(t: Theme, gate: Gate) {
    && (match gate
        case MustExist => Exists(t)
        case MustBeErrorFree => !HasErrors(t))
    && t.allowed
  }

  /** The binding names the theme that was active before the switch. */
  predicate Skipped(b: Binding, original: Option<Theme>) {
    original.Some? && b.theme == original.value.stylesheet
  }

  /** The condition as stored once the scan has looked at it: a callable is
      called and replaced by `(bool)` of its result; a boolean, or a value
      that only looks callable, stays as it is. */
  function Evaluated(c: Condition): Condition {
    match c
    case Callable(outcome) => Literal(outcome)
    case _ => c
  }

  /** `is_bool($ct->condition) && $ct->condition` once evaluated. */
  predicate Holds(c: Condition) {
    Evaluated(c) == Literal(true)
  }

  /** The binding would be chosen if the scan reached it. */
  predicate Eligible(b: Binding, original: Option<Theme>, cat: Catalogue, gate: Gate) {
    && !Skipped(b, original)
    && Holds(b.condition)
    && Installable(WpGetTheme(cat, b.theme), gate)
  }

  /** The first eligible position at or after `from`. */
  function FirstEligible(s: seq<Binding>, from: nat, original: Option<Theme>, cat: Catalogue, gate: Gate): (r: Option<nat>)
    requires from <= |s|
    decreases |s| - from
    ensures r.Some? ==> from <= r.value < |s|
  {
    if from == |s| then None
    else if Eligible(s[from], original, cat, gate) then Some(from)
    else FirstEligible(s, from + 1, original, cat, gate)
  }

  /** `FirstEligible` finds an eligible position with none before it, and
      finds nothing only when no position is eligible. */
  lemma {:induction false} FirstEligibleIsFirst(s: seq<Binding>, from: nat, original: Option<Theme>, cat: Catalogue, gate: Gate)
    requires from <= |s|
    decreases |s| - from
    ensures var r := FirstEligible(s, from, original, cat, gate);
      && (r.Some? ==> Eligible(s[r.value], original, cat, gate))
      && (r.Some? ==> forall j | from <= j < r.value :: !Eligible(s[j], original, cat, gate))
      && (r.None? ==> forall j | from <= j < |s| :: !Eligible(s[j], original, cat, gate))
  {
    if from < |s| && !Eligible(s[from], original, cat, gate) {
      FirstEligibleIsFirst(s, from + 1, original, cat, gate);
    }
  }

  /** Conversely, an eligible position with none before it is the one
      `FirstEligible` finds. */
  lemma {:induction false} FirstEligibleFinds(s: seq<Binding>, from: nat, k: nat, original: Option<Theme>, cat: Catalogue, gate: Gate)
    requires from <= k < |s| && Eligible(s[k], original, cat, gate)
    requires forall j | from <= j < k :: !Eligible(s[j], original, cat, gate)
    decreases k - from
    ensures FirstEligible(s, from, original, cat, gate) == Some(k)
  {
    if from < k {
      FirstEligibleFinds(s, from + 1, k, original, cat, gate);
    }
  }

  /** The table after the scan has visited the positions below `n`. */
  function EvaluatedUpTo(s: seq<Binding>, n: nat, original: Option<Theme>): (r: seq<Binding>)
  {
    seq(|s|, i requires 0 <= i < |s| =>
      if i < n && !Skipped(s[i], original) then s[i].(condition := Evaluated(s[i].condition)) else s[i])
  }

  /** The scan either stops at position `i` or moves on to the next one. */
  lemma FirstEligibleStep(s: seq<Binding>, i: nat, original: Option<Theme>, cat: Catalogue, gate: Gate)
    requires i < |s|
    ensures FirstEligible(s, i, original, cat, gate) ==
      if Eligible(s[i], original, cat, gate) then Some(i) else FirstEligible(s, i + 1, original, cat, gate)
  {
  }

  /** Visiting one more position evaluates that binding's condition in place,
      unless it names the original theme. */
  lemma EvaluatedStep(s: seq<Binding>, i: nat, original: Option<Theme>)
    requires i < |s|
    ensures EvaluatedUpTo(s, i + 1, original) ==
      if Skipped(s[i], original) then EvaluatedUpTo(s, i, original)
      else EvaluatedUpTo(s, i, original)[i := s[i].(condition := Evaluated(s[i].condition))]
  {
  }

  /** One call of `get_switched_theme`, from the cached decision `memo` and
      the table `s`: the new decision and the table as left behind. */
  function Resolve(memo: Decision, s: seq<Binding>, original: Option<Theme>, cat: Catalogue, gate: Gate): (r: (Decision, seq<Binding>))
    ensures r.0 != Unresolved
    ensures memo != Unresolved ==> r == (memo, s)
    ensures memo == Unresolved && r.0.Switched? ==> Installable(r.0.theme, gate)
    ensures |r.1| == |s|
    ensures forall i | 0 <= i < |s| :: r.1[i].theme == s[i].theme && r.1[i].priority == s[i].priority
  {
    if memo != Unresolved then (memo, s)
    else
      FirstEligibleIsFirst(s, 0, original, cat, gate);
      match FirstEligible(s, 0, original, cat, gate)
      case None => (NoSwitch, EvaluatedUpTo(s, |s|, original))
      case Some(k) => (Switched(WpGetTheme(cat, s[k].theme)), EvaluatedUpTo(s, k + 1, original))
  }

  /** The scan picks the first eligible binding and leaves every binding
      after it untouched: their conditions are never evaluated. */
  lemma ChoosesFirstEligible(s: seq<Binding>, original: Option<Theme>, cat: Catalogue, gate: Gate, k: nat)
    requires k < |s| && Eligible(s[k], original, cat, gate)
    requires forall j | 0 <= j < k :: !Eligible(s[j], original, cat, gate)
    ensures Resolve(Unresolved, s, original, cat, gate).0 == Switched(WpGetTheme(cat, s[k].theme))
    ensures forall j | k < j < |s| :: Resolve(Unresolved, s, original, cat, gate).1[j] == s[j]
  {
    FirstEligibleFinds(s, 0, k, original, cat, gate);
  }

  /** No switch happens exactly when no binding is eligible. */
  lemma NoSwitchIffNoneEligible(s: seq<Binding>, original: Option<Theme>, cat: Catalogue, gate: Gate)
    ensures Resolve(Unresolved, s, original, cat, gate).0 == NoSwitch
        <==> forall j | 0 <= j < |s| :: !Eligible(s[j], original, cat, gate)
  {
    FirstEligibleIsFirst(s, 0, original, cat, gate);
  }

  /** The theme that was active before the switch is never switched to
      (every installed theme is filed under its own stylesheet). */
  lemma NeverSwitchesToOriginal(s: seq<Binding>, original: Theme, cat: Catalogue, gate: Gate)
    requires WellFormed(cat)
    ensures var d := Resolve(Unresolved, s, Some(original), cat, gate).0;
      d.Switched? ==> d.theme.stylesheet != original.stylesheet
  {
    var f := FirstEligible(s, 0, Some(original), cat, gate);
    FirstEligibleIsFirst(s, 0, Some(original), cat, gate);
    if f.Some? {
      assert !Skipped(s[f.value], Some(original));
    }
  }

  /** On a table sorted by priority, the chosen binding has the lowest
      priority among all eligible bindings. */
  lemma LowestPriorityWins(s: seq<Binding>, original: Option<Theme>, cat: Catalogue, gate: Gate)
    requires SortedByPriority(s)
    ensures var d := Resolve(Unresolved, s, original, cat, gate).0;
      d.Switched? ==> exists k | 0 <= k < |s| ::
        && Eligible(s[k], original, cat, gate)
        && d.theme == WpGetTheme(cat, s[k].theme)
        && forall j | 0 <= j < |s| && Eligible(s[j], original, cat, gate) :: s[k].priority <= s[j].priority
  {
    var f := FirstEligible(s, 0, original, cat, gate);
    FirstEligibleIsFirst(s, 0, original, cat, gate);
    if f.Some? {
      var k := f.value;
      forall j | 0 <= j < |s| && Eligible(s[j], original, cat, gate)
        ensures s[k].priority <= s[j].priority
      {
        assert k <= j;
      }
    }
  }

  /** The first eligible position depends only on which positions are eligible. */
  lemma {:induction false} FirstEligibleAgrees(s: seq<Binding>, t: seq<Binding>, from: nat, original: Option<Theme>, cat: Catalogue, gate: Gate)
    requires |s| == |t| && from <= |s|
    requires forall i | 0 <= i < |s| :: Eligible(s[i], original, cat, gate) == Eligible(t[i], original, cat, gate)
    ensures FirstEligible(s, from, original, cat, gate) == FirstEligible(t, from, original, cat, gate)
    decreases |s| - from
  {
    if from < |s| {
      FirstEligibleAgrees(s, t, from + 1, original, cat, gate);
    }
  }

  /** Overwriting callables with their results does not change the outcome:
      a fresh scan of the table the scan left behind makes the same choice. */
  lemma ResolveStable(s: seq<Binding>, original: Option<Theme>, cat: Catalogue, gate: Gate)
    ensures var r := Resolve(Unresolved, s, original, cat, gate);
      Resolve(Unresolved, r.1, original, cat, gate).0 == r.0
  {
    var r := Resolve(Unresolved, s, original, cat, gate);
    forall i | 0 <= i < |s|
      ensures Eligible(s[i], original, cat, gate) == Eligible(r.1[i], original, cat, gate)
    {
      assert Evaluated(Evaluated(s[i].condition)) == Evaluated(s[i].condition);
    }
    FirstEligibleAgrees(s, r.1, 0, original, cat, gate);
  }

  /** The scan visits the positions up to the chosen one (all of them when
      nothing is chosen). It replaces every callable it visits by its result
      and changes nothing else: not the skipped original theme and no
      binding after the chosen one. */
  lemma ScannedConditionsSettled(s: seq<Binding>, original: Option<Theme>, cat: Catalogue, gate: Gate)
    ensures var r := Resolve(Unresolved, s, original, cat, gate);
      forall i | 0 <= i < |s| :: r.1[i] != s[i] ==> s[i].condition.Callable? && r.1[i].condition == Literal(s[i].condition.outcome)
    ensures var r := Resolve(Unresolved, s, original, cat, gate);
      var f := FirstEligible(s, 0, original, cat, gate);
      var visited := if f.Some? then f.value + 1 else |s|;
      && (forall i | 0 <= i < visited && !Skipped(s[i], original) && s[i].condition.Callable? ::
            r.1[i] == s[i].(condition := Literal(s[i].condition.outcome)))
      && (forall i | 0 <= i < |s| && Skipped(s[i], original) :: r.1[i] == s[i])
      && (forall i | visited <= i < |s| :: r.1[i] == s[i])
  {
  }

  /** The table keeps what registration guaranteed: unique names, priority
      order, non-empty names and accepted conditions. */
  lemma ScanKeepsTableShape(s: seq<Binding>, n: nat, original: Option<Theme>)
    ensures var t := EvaluatedUpTo(s, n, original);
      && (UniqueNames(s) ==> UniqueNames(t))
      && (SortedByPriority(s) ==> SortedByPriority(t))
      && ((forall b | b in s :: !EmptyString(b.theme) && Accepted(b.condition)) ==>
          (forall b | b in t :: !EmptyString(b.theme) && Accepted(b.condition)))
  {
    var t := EvaluatedUpTo(s, n, original);
    forall b | b in t ensures exists i | 0 <= i < |s| :: b.theme == s[i].theme && (Accepted(s[i].condition) ==> Accepted(b.condition)) {
      var i :| 0 <= i < |t| && t[i] == b;
    }
  }
}
