/**
 * The viewport filter of the todo section: which tasks the list shows,
 * given the filter settings kept in the section's cache.
 */
module Filters {
  import opened Options
  import opened Tokens
  import opened TaskSpec

  /**
   * `FUZZ.fuzzy_search_v1(pattern, text)`: a score, or null when the pattern
   * does not match.  The scorer lives in a file that is not part of this
   * model, so it is a parameter.
   */
  type Scorer = (string, string) -> Option<int>

  /**
   * `cache.filters`.  The default object written by the section sets a key
   * `defer`, while the filter test and `has_active_filters` read `deferred`;
   * both keys are kept, and only `deferred` has an effect.
   */
  datatype Filters = Filters(
    invertFilters: bool,
    defer: bool,
    deferred: bool,
    recurring: bool,
    hidden: bool,
    completed: bool,
    noPriority: bool,
    priorities: seq<string>,
    contexts: seq<string>,
    projects: seq<string>,
    custom: seq<string>,
    customActive: seq<string>)

  /** The filters of a fresh cache: `deferred` is absent there, so it reads as false. */
  function DefaultFilters(): (flt: Filters)
    ensures !HasActiveFilters(flt) && !flt.invertFilters
  {
    Filters(false, false, false, false, false, false, false, [], [], [], [], [])
  }

  /** `has_active_filters()`: a flag that narrows the view is set, or a list is non-empty. */
  predicate HasActiveFilters(flt: Filters)
  {
    flt.deferred || flt.recurring || flt.hidden || flt.completed || flt.noPriority
    || |flt.priorities| > 0 || |flt.contexts| > 0 || |flt.projects| > 0
    || |flt.customActive| > 0
  }

  /**
   * `_filter_test(task)`: a pinned task always shows; the hidden, deferred
   * and recurring flags each select one kind of task alone; otherwise
   * hidden, completed recurring and deferred tasks are dropped, and the rest
   * are matched against the categories.
   */
  function FilterTest(flt: Filters, t: Fields, fuzzy: Scorer): (r: bool)
    ensures t.pinned ==> r
    ensures !t.pinned && flt.hidden ==> (r <==> t.hidden)
    ensures (!t.pinned && !flt.hidden && !flt.deferred && !flt.recurring
             && (t.hidden || (t.recStr != "" && t.completed) || t.isDeferred)) ==> !r
    ensures ReachesCategories(flt, t) && !HasActiveFilters(flt) ==> r
  {
    if t.pinned then true
    else if flt.hidden then t.hidden
    else if t.hidden then false
    else if flt.deferred then t.isDeferred
    else if flt.recurring then t.recStr != ""
    else if t.recStr != "" && t.completed then false
    else if t.isDeferred then false
    else if !HasActiveFilters(flt) then true
    else CategoryTest(flt, t, fuzzy)
  }

  /**
   * The last stage of `_filter_test`: the first category that matches
   * returns `!invert_filters`; when none does, `invert_filters` is returned.
   */
  predicate CategoryTest(flt: Filters, t: Fields, fuzzy: Scorer)
  {
    if t.completed && flt.completed then !flt.invertFilters
    else if !t.completed && t.priority == NoPriority && flt.noPriority then !flt.invertFilters
    else if t.priority in flt.priorities then !flt.invertFilters
    else if exists it :: it in flt.contexts && it in t.contexts then !flt.invertFilters
    else if exists it :: it in flt.projects && it in t.projects then !flt.invertFilters
    else if exists it :: it in flt.customActive && fuzzy(it, t.text).Some? then !flt.invertFilters
    else flt.invertFilters
  }

  /** A task gets past the early exits of `_filter_test` to the category stage. */
  predicate ReachesCategories(flt: Filters, t: Fields)
  {
    !t.pinned && !flt.hidden && !t.hidden && !flt.deferred && !flt.recurring
    && !(t.recStr != "" && t.completed) && !t.isDeferred
  }

  /** Some category filter matches the task. */
  predicate Matches(flt: Filters, t: Fields, fuzzy: Scorer)
  {
    (flt.completed && t.completed)
    || (flt.noPriority && !t.completed && t.priority == NoPriority)
    || (exists it :: it in flt.priorities && it == t.priority)
    || (exists it :: it in flt.contexts && it in t.contexts)
    || (exists it :: it in flt.projects && it in t.projects)
    || (exists it :: it in flt.customActive && fuzzy(it, t.text).Some?)
  }

  /**
   * Match any, then invert: past the early exits the task shows iff no
   * filter is active, or some category matches and the filters are not
   * inverted, or none matches and they are.
   */
  lemma FilterMatchAny(flt: Filters, t: Fields, fuzzy: Scorer)
    requires ReachesCategories(flt, t)
    ensures FilterTest(flt, t, fuzzy)
            <==> !HasActiveFilters(flt) || (Matches(flt, t, fuzzy) != flt.invertFilters)
  {
    if HasActiveFilters(flt) {
      if t.priority in flt.priorities {
        assert exists it :: it in flt.priorities && it == t.priority;
      }
      if exists it :: it in flt.priorities && it == t.priority {
        var it :| it in flt.priorities && it == t.priority;
      }
    }
  }

  /** Flipping `invert_filters` flips the result for every task that reaches the categories. */
  lemma FilterInvert(flt: Filters, t: Fields, fuzzy: Scorer)
    requires ReachesCategories(flt, t) && HasActiveFilters(flt)
    ensures FilterTest(flt.(invertFilters := !flt.invertFilters), t, fuzzy)
            == !FilterTest(flt, t, fuzzy)
  {
    FilterMatchAny(flt, t, fuzzy);
    FilterMatchAny(flt.(invertFilters := !flt.invertFilters), t, fuzzy);
  }

  /** The first position of `x` in `s` (`indexOf`), or -1. */
  function Find<T(==)>(s: seq<T>, x: T): (i: int)
    ensures -1 <= i < |s|
    ensures i == -1 <==> x !in s
    ensures i >= 0 ==> s[i] == x && x !in s[..i]
  {
    if |s| == 0 then -1
    else if s[0] == x then 0
    else
      var j := Find(s[1..], x);
      assert j >= 0 ==> s[..j + 1] == [s[0]] + s[1..][..j];
      if j < 0 then -1 else j + 1
  }

  /** The keyword classes `toggle_filter` accepts: a priority, a context or a project. */
  predicate FilterKeyword(kw: string)
  {
    IsPrio(kw) || IsContext(kw) || IsProject(kw)
  }

  /**
   * The filter list after `toggle_filter`: the keyword is pushed when it is
   * absent, and its first occurrence is spliced out when it is present.
   */
  function Toggle(arr: seq<string>, kw: string): (r: seq<string>)
    ensures kw !in arr ==> r == arr + [kw]
    ensures kw in arr ==> exists i :: 0 <= i < |arr| && arr[i] == kw && kw !in arr[..i] && r == arr[..i] + arr[i + 1..]
    ensures kw in arr ==> |r| == |arr| - 1 && multiset(r) == multiset(arr) - multiset{kw}
    ensures kw !in arr ==> |r| == |arr| + 1 && multiset(r) == multiset(arr) + multiset{kw}
  {
    var idx := Find(arr, kw);
    if idx == -1 then arr + [kw]
    else
      assert arr == arr[..idx] + [kw] + arr[idx + 1..];
      arr[..idx] + arr[idx + 1..]
  }

  /** Toggling an absent keyword twice gives the list back. */
  lemma ToggleTwice(arr: seq<string>, kw: string)
    requires kw !in arr
    ensures Toggle(Toggle(arr, kw), kw) == arr
  {
    var once := arr + [kw];
    assert Find(once, kw) == |arr| by {
      assert once[..|arr|] == arr;
    }
    assert once[..|arr|] == arr;
  }

  /** On a list holding the keyword at most once, a toggle flips its presence. */
  lemma ToggleFlips(arr: seq<string>, kw: string)
    requires multiset(arr)[kw] <= 1
    ensures kw in Toggle(arr, kw) <==> kw !in arr
  {
    var r := Toggle(arr, kw);
    assert kw in r <==> multiset(r)[kw] > 0;
  }
}
