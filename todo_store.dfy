/**
 * The task store of the todo section (`SectionMain` of the todo section): the
 * task list, the viewport the menu shows, the cached filters and sort keys,
 * the stats and the search dictionary; and the operations that keep them in
 * step when tasks are loaded, added, edited, deleted, archived and when a new
 * day begins.  Widgets, the cache file, the todo and done files themselves
 * and the main-loop chunking of long loops are not modelled: the file
 * contents are returned as strings, and each chunked loop is one loop.
 */
module TodoStore {
  import opened Options
  import opened Text
  import opened Dates
  import opened TaskSpec
  import opened TaskText
  import opened TaskItems
  import opened Filters
  import opened Sorting
  import opened Stats
  import opened TodoFile
  import opened Search
  import opened Tokens

  /** The fields of the tasks, in order. */
  function SnapsOf(ts: seq<TaskItem>): (r: seq<Fields>)
    reads ts
    ensures |r| == |ts| && forall k :: 0 <= k < |ts| ==> r[k] == ts[k].Snap()
  {
    if |ts| == 0 then [] else SnapsOf(ts[..|ts| - 1]) + [ts[|ts| - 1].Snap()]
  }

  /** No task object is in the list twice. */
  predicate Distinct(ts: seq<TaskItem>)
  {
    forall i, j :: 0 <= i < j < |ts| ==> ts[i] != ts[j]
  }

  /** A list without repeats holds each object at most once. */
  lemma {:induction false} DistinctCount(ts: seq<TaskItem>, x: TaskItem)
    requires Distinct(ts)
    ensures multiset(ts)[x] <= 1
    decreases |ts|
  {
    if |ts| > 0 {
      var init := ts[..|ts| - 1];
      assert ts == init + [ts[|ts| - 1]];
      DistinctCount(init, x);
      if ts[|ts| - 1] == x {
        forall i | 0 <= i < |init|
          ensures init[i] != x
        {
          assert ts[i] != ts[|ts| - 1];
        }
      }
    }
  }

  /** An object at two positions of a list is counted at least twice. */
  lemma TwiceCount(ts: seq<TaskItem>, i: nat, j: nat)
    requires i < j < |ts| && ts[i] == ts[j]
    ensures multiset(ts)[ts[i]] >= 2
  {
    assert ts == ts[..i] + [ts[i]] + ts[i + 1..j] + [ts[j]] + ts[j + 1..];
  }

  /** Reordering a list without repeats gives a list without repeats. */
  lemma DistinctPermutation(a: seq<TaskItem>, b: seq<TaskItem>)
    requires Distinct(a) && multiset(a) == multiset(b)
    ensures Distinct(b)
  {
    forall i, j | 0 <= i < j < |b|
      ensures b[i] != b[j]
    {
      if b[i] == b[j] {
        TwiceCount(b, i, j);
        DistinctCount(a, b[i]);
      }
    }
  }

  /** `splice(i, 1)`: the list without its element at `i`. */
  function Without<T>(s: seq<T>, i: nat): (r: seq<T>)
    requires i < |s|
    ensures |r| == |s| - 1
    ensures multiset(r) == multiset(s) - multiset{s[i]}
  {
    assert s == s[..i] + [s[i]] + s[i + 1..];
    s[..i] + s[i + 1..]
  }

  /** Putting an object that is not in a list without repeats in front leaves no repeats. */
  lemma DistinctCons(t: TaskItem, ts: seq<TaskItem>)
    requires Distinct(ts) && t !in ts
    ensures Distinct([t] + ts)
  {
    var r := [t] + ts;
    forall i, j | 0 <= i < j < |r|
      ensures r[i] != r[j]
    {
      assert r[j] == ts[j - 1];
      if i > 0 {
        assert r[i] == ts[i - 1];
      }
    }
  }

  /** Splicing an element out of a list without repeats leaves no repeats and no trace of it. */
  lemma DistinctWithout(ts: seq<TaskItem>, i: nat)
    requires Distinct(ts) && i < |ts|
    ensures Distinct(Without(ts, i)) && ts[i] !in Without(ts, i)
  {
    var r := Without(ts, i);
    assert r == ts[..i] + ts[i + 1..];
    forall a, b | 0 <= a < b < |r|
      ensures r[a] != r[b]
    {
      var a', b' := if a < i then a else a + 1, if b < i then b else b + 1;
      assert r[a] == ts[a'] && r[b] == ts[b'];
    }
    forall k | 0 <= k < |r|
      ensures r[k] != ts[i]
    {
      var k' := if k < i then k else k + 1;
      assert r[k] == ts[k'];
    }
  }

  /** The elements picked from a list without repeats are without repeats. */
  lemma {:induction false} DistinctPick(ts: seq<TaskItem>, keep: seq<bool>, b: bool)
    requires |keep| == |ts| && Distinct(ts)
    ensures Distinct(Pick(ts, keep, b))
  {
    if |ts| > 0 {
      var n := |ts| - 1;
      var init := Pick(ts[..n], keep[..n], b);
      assert Distinct(ts[..n]);
      DistinctPick(ts[..n], keep[..n], b);
      PickMembers(ts[..n], keep[..n], b);
      if keep[n] == b {
        forall a, c | 0 <= a < c < |init| + 1
          ensures (init + [ts[n]])[a] != (init + [ts[n]])[c]
        {
          if c == |init| {
            assert init[a] in init;
            var k :| 0 <= k < n && keep[..n][k] == b && ts[..n][k] == init[a];
          }
        }
      }
    }
  }

  /** A task is picked by `Keeps` flag `b` exactly when it is in the list and `Keeps` it as `b`. */
  lemma PickKept(ts: seq<TaskItem>, b: bool)
    ensures forall u :: u in Pick(ts, KeepFlags(SnapsOf(ts)), b) <==> u in ts && Keeps(u.Snap()) == b
  {
    var flags := KeepFlags(SnapsOf(ts));
    PickMembers(ts, flags, b);
    forall u | u in ts && Keeps(u.Snap()) == b
      ensures u in Pick(ts, flags, b)
    {
      var k :| 0 <= k < |ts| && ts[k] == u;
    }
  }

  /** The fields the day check left each task with. */
  function Results(c: DayChecks): seq<Fields>
  {
    seq(|c|, k requires 0 <= k < |c| => c[k].2)
  }

  /** The fields of tasks loaded from the lines and then checked for the day. */
  function SettleAll(ls: seq<string>, today: Date): seq<Fields>
    requires ValidToday(today)
  {
    seq(|ls|, k requires 0 <= k < |ls| => Settle(ls[k], today))
  }

  /** Whether the day check changes a task just loaded from the line: it recurs or its deferral ends. */
  function Changes(l: string, today: Date): bool
    requires ValidToday(today)
  {
    ParsedSettled(l);
    var c := DayCheck(Parse(l), today);
    c.0 || c.1
  }

  /** Every task is settled: its fields agree with its line, as `reset(true)` leaves them. */
  ghost predicate AllSettled(s: seq<Fields>)
  {
    forall f :: f in s ==> Settled(f)
  }

  /** Reordering settled tasks leaves them settled. */
  lemma AllSettledPermutation(a: seq<Fields>, b: seq<Fields>)
    requires AllSettled(a) && multiset(a) == multiset(b)
    ensures AllSettled(b)
  {
    forall f | f in b
      ensures Settled(f)
    {
      assert f in multiset(b);
    }
  }

  /** The elements of `s` whose flag in `keep` is `b`, in order. */
  function Pick<T>(s: seq<T>, keep: seq<bool>, b: bool): seq<T>
    requires |keep| == |s|
  {
    if |s| == 0 then []
    else
      var init := Pick(s[..|s| - 1], keep[..|s| - 1], b);
      if keep[|s| - 1] == b then init + [s[|s| - 1]] else init
  }

  /** Picking from no element picks nothing. */
  lemma PickNone<T>(s: seq<T>, keep: seq<bool>, b: bool)
    requires |keep| == |s|
    ensures Pick(s[..0], keep[..0], b) == []
  {
  }

  /** Picking from one more element adds it when its flag is `b`. */
  lemma PickSnoc<T>(s: seq<T>, keep: seq<bool>, b: bool, i: nat)
    requires |keep| == |s| && i < |s|
    ensures Pick(s[..i + 1], keep[..i + 1], b) == Pick(s[..i], keep[..i], b) + (if keep[i] == b then [s[i]] else [])
  {
    assert s[..i + 1][..i] == s[..i] && keep[..i + 1][..i] == keep[..i];
  }

  /** An element is picked exactly when it sits at a position whose flag is `b`. */
  lemma {:induction false} PickMembers<T>(s: seq<T>, keep: seq<bool>, b: bool)
    requires |keep| == |s|
    ensures forall k :: 0 <= k < |s| && keep[k] == b ==> s[k] in Pick(s, keep, b)
    ensures forall x :: x in Pick(s, keep, b) ==> exists k :: 0 <= k < |s| && keep[k] == b && s[k] == x
  {
    if |s| > 0 {
      var n := |s| - 1;
      PickMembers(s[..n], keep[..n], b);
      forall k | 0 <= k < n && keep[k] == b
        ensures s[k] in Pick(s, keep, b)
      {
        assert s[..n][k] == s[k] && keep[..n][k] == keep[k];
      }
      forall x | x in Pick(s[..n], keep[..n], b)
        ensures exists k :: 0 <= k < |s| && keep[k] == b && s[k] == x
      {
        var k :| 0 <= k < n && keep[..n][k] == b && s[..n][k] == x;
        assert keep[k] == b && s[k] == x;
      }
    }
  }

  /** Every element is picked under exactly one flag value. */
  lemma {:induction false} PickSizes<T>(s: seq<T>, keep: seq<bool>)
    requires |keep| == |s|
    ensures |Pick(s, keep, true)| + |Pick(s, keep, false)| == |s|
  {
    if |s| > 0 {
      PickSizes(s[..|s| - 1], keep[..|s| - 1]);
    }
  }

  /** Whether each task passes `_filter_test`. */
  function ShowFlags(flt: Filters, s: seq<Fields>, fuzzy: Scorer): (r: seq<bool>)
    ensures |r| == |s| && forall k :: 0 <= k < |s| ==> r[k] == FilterTest(flt, s[k], fuzzy)
  {
    if |s| == 0 then [] else ShowFlags(flt, s[..|s| - 1], fuzzy) + [FilterTest(flt, s[|s| - 1], fuzzy)]
  }

  /** Whether "delete all" and "archive all" keep each task. */
  function KeepFlags(s: seq<Fields>): (r: seq<bool>)
    ensures |r| == |s| && forall k :: 0 <= k < |s| ==> r[k] == Keeps(s[k])
  {
    if |s| == 0 then [] else KeepFlags(s[..|s| - 1]) + [Keeps(s[|s| - 1])]
  }

  /** What the day check did to each task: whether it recurred, whether it was opened, its new fields. */
  type DayChecks = seq<(bool, bool, Fields)>

  /** How many tasks recurred. */
  function Recurred(c: DayChecks): nat
  {
    if |c| == 0 then 0 else Recurred(c[..|c| - 1]) + (if c[|c| - 1].0 then 1 else 0)
  }

  /** How many deferred tasks were opened. */
  function Opened(c: DayChecks): nat
  {
    if |c| == 0 then 0 else Opened(c[..|c| - 1]) + (if c[|c| - 1].1 then 1 else 0)
  }

  /** Some task recurred or was opened exactly when one of the counts is positive. */
  lemma {:induction false} ChecksCounted(c: DayChecks)
    ensures Recurred(c) + Opened(c) > 0 <==> exists k :: 0 <= k < |c| && (c[k].0 || c[k].1)
  {
    if |c| > 0 {
      var init := c[..|c| - 1];
      ChecksCounted(init);
      if exists k :: 0 <= k < |init| && (init[k].0 || init[k].1) {
        var k :| 0 <= k < |init| && (init[k].0 || init[k].1);
        assert c[k] == init[k];
      }
      if exists k :: 0 <= k < |c| && (c[k].0 || c[k].1) {
        var k :| 0 <= k < |c| && (c[k].0 || c[k].1);
        if k < |init| {
          assert init[k] == c[k];
        }
      }
    }
  }

  /** The loop of the `on_tasks_changed` filter clean-up: `splice(i, 1); len--; i--` on every entry the stats lack. */
  method DropUnknown(arr: seq<string>, c: Counts) returns (a: seq<string>)
    ensures a == KeepKnown(arr, c)
  {
    a := arr;
    var i: int := 0;
    var len := |a|;
    ghost var j := 0;
    while i < len
      invariant 0 <= i <= len == |a| && j <= |arr| && i <= j
      invariant a[..i] == KeepKnown(arr[..j], c) && a[i..] == arr[j..]
      decreases len - i
    {
      assert arr[..j + 1][..j] == arr[..j] && arr[j] == a[i];
      assert arr[j + 1..] == a[i + 1..];
      if !Has(c, a[i]) {
        ghost var rest := a[i + 1..];
        a := a[..i] + a[i + 1..];
        assert a[..i] == KeepKnown(arr[..j + 1], c) && a[i..] == rest;
        len := len - 1;
        i := i - 1;
      } else {
        assert a[..i + 1] == a[..i] + [a[i]];
      }
      i := i + 1;
      j := j + 1;
    }
    assert arr[..j] == arr;
  }

  /** `for (w of ws) { n = map.get(w); map.set(w, n ? ++n : 1); }`. */
  method BumpEach(c: Counts, ws: seq<string>) returns (r: Counts)
    ensures r == BumpAll(c, ws)
  {
    r := c;
    var i := 0;
    while i < |ws|
      invariant i <= |ws| && BumpAll(r, ws[i..]) == BumpAll(c, ws)
    {
      assert ws[i..][1..] == ws[i + 1..];
      r := Bump(r, ws[i]);
      i := i + 1;
    }
  }

  /**
   * The stats loop of `on_tasks_changed`: each task is counted in one
   * bucket, and an open task's projects and contexts are counted.
   */
  method CountStats(s: seq<Fields>) returns (st: Stats)
    ensures st == StatsOf(s)
  {
    st := EmptyStats;
    var i := 0;
    while i < |s|
      invariant i <= |s| && st == StatsOf(s[..i])
    {
      assert s[..i + 1] == s[..i] + [s[i]];
      StatsSnoc(s[..i], s[i]);
      st := CountTask(st, s[i]);
      i := i + 1;
    }
    assert s[..i] == s;
  }

  /** One pass of the stats loop; `continue` ends the pass early. */
  method CountTask(st0: Stats, f: Fields) returns (st: Stats)
    ensures st == StatsStep(st0, f)
  {
    st := st0;
    if f.isDeferred {
      st := st.(deferredTasks := st.deferredTasks + 1);
      return;
    }
    if f.completed {
      if f.recStr != "" {
        st := st.(recurringCompleted := st.recurringCompleted + 1);
      } else {
        st := st.(completed := st.completed + 1);
      }
      return;
    }
    var projects := BumpEach(st.projects, f.projects);
    st := st.(projects := projects);
    var contexts := BumpEach(st.contexts, f.contexts);
    st := st.(contexts := contexts);
    if f.hidden {
      st := st.(hidden := st.hidden + 1);
      return;
    }
    if f.priority == NoPriority {
      st := st.(noPriority := st.noPriority + 1);
    } else {
      st := st.(priorities := Bump(st.priorities, f.priority));
    }
    if f.recStr != "" {
      st := st.(recurringIncompleted := st.recurringIncompleted + 1);
    }
  }

  /**
   * A task taking its turn in `_check_dates`: `check_recurrence`, then
   * `check_deferred_tasks`; the task stays settled.
   */
  method DayCheckTask(t: TaskItem, today: Date) returns (c: (bool, bool, Fields))
    requires ValidToday(today) && Settled(t.Snap())
    modifies t
    ensures c == DayCheck(old(t.Snap()), today) && t.Snap() == c.2 && Settled(c.2)
  {
    hide Parse, Settle, Renewed;
    DayCheckSettled(t.Snap(), today);
    var recurred := t.CheckRecurrence(today);
    var due := t.CheckDeferredTasks(today);
    c := (recurred, due, t.Snap());
  }

  /**
   * Where a task goes in tasks already sorted: after the leading run of
   * tasks that the comparator does not put after it.
   */
  method SortSlot(spec: SortSpec, rs: seq<Fields>, f: Fields) returns (p: nat)
    ensures p <= |rs| && forall i :: 0 <= i < p ==> Compare(spec, rs[i], f) <= 0
    ensures p < |rs| ==> Compare(spec, rs[p], f) > 0
  {
    p := 0;
    while p < |rs|
      invariant p <= |rs| && forall i :: 0 <= i < p ==> Compare(spec, rs[i], f) <= 0
    {
      var c := CompareBy(spec, rs[p], f);
      if c > 0 {
        return;
      }
      p := p + 1;
    }
  }

  /** `new TaskItem(s, true)`: a new task settled as of today. */
  method NewSettled(s: string, today: Date) returns (t: TaskItem)
    requires ValidToday(today)
    ensures fresh(t) && t.Snap() == Settle(s, today) && Settled(t.Snap())
  {
    t := new TaskItem(s, true, today);
    SettleSettled(s, today);
  }

  /** Inserting a task and its fields at the same place keeps the fields in step with the tasks. */
  lemma SnapsInsert(r: seq<TaskItem>, rs: seq<Fields>, t: TaskItem, p: nat)
    requires |r| == |rs| && p <= |r| && forall i :: 0 <= i < |r| ==> rs[i] == r[i].Snap()
    ensures var r' := r[..p] + [t] + r[p..]; var rs' := rs[..p] + [t.Snap()] + rs[p..];
            |r'| == |rs'| && forall i :: 0 <= i < |r'| ==> rs'[i] == r'[i].Snap()
  {
    var r' := r[..p] + [t] + r[p..];
    var rs' := rs[..p] + [t.Snap()] + rs[p..];
    forall i | 0 <= i < |r'|
      ensures rs'[i] == r'[i].Snap()
    {
      if i < p {
        assert r'[i] == r[i] && rs'[i] == rs[i];
      } else if i > p {
        assert r'[i] == r[i - 1] && rs'[i] == rs[i - 1];
      }
    }
  }

  /** Fields kept in step with the tasks are the tasks' fields. */
  lemma SnapsInStep(r: seq<TaskItem>, rs: seq<Fields>)
    requires |r| == |rs| && forall i :: 0 <= i < |r| ==> rs[i] == r[i].Snap()
    ensures SnapsOf(r) == rs
  {
  }

  /** The todo section's task store. */
  class SectionMain {
    /** All task objects. */
    var tasks: seq<TaskItem>
    /** The tasks that passed the filters, or the search results: the ones the menu may show. */
    var viewport: seq<TaskItem>
    /** `cache.filters`. */
    var filters: Filters
    /** `cache.sort`. */
    var sortSpec: SortSpec
    /** `this.stats`. */
    var stats: Stats
    /** The number on the panel label. */
    var panelCount: int
    /** Each search query of the current search and its results. */
    var searchDictionary: map<string, seq<TaskItem>>
    /** The last string searched for. */
    var lastSearchPattern: string
    /** The fuzzy scorer the filters and the search use. */
    const fuzzy: Scorer

    /** No task is held twice, and every task's fields agree with its line. */
    ghost predicate Valid()
      reads this`tasks, tasks
    {
      Distinct(tasks) && forall t :: t in tasks ==> Settled(t.Snap())
    }

    /** A store over a fresh cache: no tasks, the default sort and filters, reset stats. */
    constructor (fuzzy: Scorer)
      ensures tasks == [] && viewport == [] && searchDictionary == map[] && lastSearchPattern == ""
      ensures filters == DefaultFilters() && sortSpec == DefaultSort && stats == EmptyStats
      ensures this.fuzzy == fuzzy && Valid()
    {
      this.fuzzy := fuzzy;
      tasks, viewport, searchDictionary, lastSearchPattern := [], [], map[], "";
      filters, sortSpec, stats, panelCount := DefaultFilters(), DefaultSort, EmptyStats, 0;
    }

    /** `while (this.tasks.length > len) this.tasks.pop()`. */
    method DropExcess(len: nat)
      modifies this`tasks
      ensures tasks == if |old(tasks)| > len then old(tasks)[..len] else old(tasks)
    {
      while |tasks| > len
        invariant tasks == if |old(tasks)| > len then old(tasks)[..|tasks|] else old(tasks)
        invariant |tasks| >= len || |old(tasks)| <= len
      {
        tasks := tasks[..|tasks| - 1];
      }
    }

    /** One step of `_create_tasks__finish`: the task at `i` is reset to the line, or a new one is pushed. */
    method FillSlot(i: nat, line: string, today: Date)
      requires i <= |tasks| && Distinct(tasks) && line != ""
      modifies this`tasks, if i < |tasks| then {tasks[i]} else {}
      ensures Distinct(tasks) && i < |tasks| && tasks[i].Snap() == Parse(line)
      ensures i < |old(tasks)| ==> tasks == old(tasks)
      ensures forall k :: 0 <= k < i ==> tasks[k].Snap() == old(tasks[k].Snap())
      ensures i == |old(tasks)| ==> tasks[..i] == old(tasks) && |tasks| == i + 1 && fresh(tasks[i])
    {
      hide Parse, Settle;
      if i < |tasks| {
        tasks[i].Reset(false, line, today);
      } else {
        var t := new TaskItem(line, false, today);
        tasks := tasks + [t];
      }
    }

    /**
     * `create_tasks(todo_strings)`: excess task objects are dropped from the
     * end, the remaining ones are reset (without the self update) to the
     * lines in order, and new objects are made for the lines left over.
     */
    method CreateTasks(lines: seq<string>, today: Date)
      requires Distinct(tasks) && forall l :: l in lines ==> l != ""
      modifies this`tasks, tasks
      ensures |tasks| == |lines| && Distinct(tasks)
      ensures forall k :: 0 <= k < |lines| ==> tasks[k].Snap() == Parse(lines[k])
      ensures forall t :: t in tasks ==> t in old(tasks) || fresh(t)
    {
      hide Parse, TaskItem.Snap;
      DropExcess(|lines|);
      var i := 0;
      while i < |lines|
        invariant i <= |tasks| <= |lines| && Distinct(tasks)
        invariant forall t :: t in tasks ==> t in old(tasks) || fresh(t)
        invariant forall k :: 0 <= k < i ==> tasks[k].Snap() == Parse(lines[k])
      {
        assert lines[i] in lines;
        assert i < |tasks| ==> tasks[i] in old(tasks) || fresh(tasks[i]);
        FillSlot(i, lines[i], today);
        i := i + 1;
      }
    }

    /** The day check on the task at `i`; the other tasks are left alone. */
    method CheckTaskAt(i: nat, today: Date) returns (c: (bool, bool, Fields))
      requires i < |tasks| && Distinct(tasks) && ValidToday(today) && Settled(tasks[i].Snap())
      modifies tasks[i]
      ensures c == DayCheck(old(tasks[i].Snap()), today) && tasks[i].Snap() == c.2 && Settled(c.2)
      ensures forall k :: 0 <= k < |tasks| && k != i ==> tasks[k].Snap() == old(tasks[k].Snap())
    {
      hide Parse, Settle, Renewed, DayCheck, Settled;
      c := DayCheckTask(tasks[i], today);
    }

    /**
     * `_check_dates()`: every task takes its turn in the day check; the
     * result says whether any task recurred or was opened, and the counts
     * are the numbers the notifications show.  `checks` records each turn.
     */
    method CheckDates(today: Date) returns (updated: bool, recurrences: nat, openings: nat, ghost checks: DayChecks)
      requires Valid() && ValidToday(today)
      modifies tasks
      ensures Valid() && |checks| == |tasks|
      ensures forall k :: 0 <= k < |tasks| ==> checks[k] == DayCheck(old(tasks[k].Snap()), today)
      ensures forall k :: 0 <= k < |tasks| ==> tasks[k].Snap() == checks[k].2
      ensures recurrences == Recurred(checks) && openings == Opened(checks)
      ensures updated <==> exists k :: 0 <= k < |checks| && (checks[k].0 || checks[k].1)
    {
      hide Parse, Settle, Renewed, TaskItem.Snap, DayCheck, Settled, SnapsOf;
      ghost var s0 := SnapsOf(tasks);
      updated, recurrences, openings, checks := false, 0, 0, [];
      var i := 0;
      while i < |tasks|
        invariant i <= |tasks| && |checks| == i
        invariant forall k :: 0 <= k < i ==> checks[k] == DayCheck(s0[k], today) && tasks[k].Snap() == checks[k].2 && Settled(checks[k].2)
        invariant forall k :: i <= k < |tasks| ==> tasks[k].Snap() == s0[k]
        invariant recurrences == Recurred(checks) && openings == Opened(checks)
        invariant updated <==> recurrences + openings > 0
      {
        assert tasks[i] in tasks;
        var c := CheckTaskAt(i, today);
        assert (checks + [c])[..i] == checks;
        checks := checks + [c];
        if c.0 {
          updated := true;
          recurrences := recurrences + 1;
        }
        if c.1 {
          updated := true;
          openings := openings + 1;
        }
        i := i + 1;
      }
      ChecksCounted(checks);
      forall t | t in tasks
        ensures Settled(t.Snap())
      {
        var k :| 0 <= k < |tasks| && tasks[k] == t;
      }
    }

    /**
     * `sort_tasks()`: the tasks reordered so that the configured keys
     * compare them in order; `Array.prototype.sort` is modelled by a stable
     * insertion sort.
     */
    method SortTasks()
      modifies this`tasks
      ensures multiset(tasks) == multiset(old(tasks))
      ensures multiset(SnapsOf(tasks)) == multiset(old(SnapsOf(tasks)))
      ensures SortedBy(sortSpec, SnapsOf(tasks))
    {
      hide Compare, KeyOf, SortedBy, SnapsOf, TaskItem.Snap;
      var ts := tasks;
      ghost var s := SnapsOf(ts);
      var r: seq<TaskItem> := [];
      var rs: seq<Fields> := [];
      SortedEmpty(sortSpec);
      var k := 0;
      while k < |ts|
        invariant k <= |ts| && |r| == |rs| && forall i :: 0 <= i < |r| ==> rs[i] == r[i].Snap()
        invariant multiset(r) == multiset(ts[..k]) && multiset(rs) == multiset(s[..k])
        invariant SortedBy(sortSpec, rs)
      {
        var t := ts[k];
        var f := t.Snap();
        var p := SortSlot(sortSpec, rs, f);
        InsertSorted(sortSpec, rs, f, p);
        InsertMultiset(r, t, p);
        InsertMultiset(rs, f, p);
        SnapsInsert(r, rs, t, p);
        assert ts[..k + 1] == ts[..k] + [t] && s[..k + 1] == s[..k] + [f];
        r := r[..p] + [t] + r[p..];
        rs := rs[..p] + [f] + rs[p..];
        k := k + 1;
      }
      assert ts[..k] == ts && s[..k] == s;
      tasks := r;
      SnapsInStep(r, rs);
    }

    /**
     * `add_tasks_to_menu(true, ignoreFilters)`: the viewport rebuilt from the
     * tasks, keeping every task or those passing the filter test, in order.
     */
    method RebuildViewport(ignoreFilters: bool)
      modifies this`viewport
      ensures ignoreFilters ==> viewport == tasks
      ensures !ignoreFilters ==> viewport == Pick(tasks, ShowFlags(filters, SnapsOf(tasks), fuzzy), true)
    {
      hide Parse, FilterTest, SnapsOf, TaskItem.Snap, Pick;
      if ignoreFilters {
        viewport := tasks;
        return;
      }
      ghost var flags := ShowFlags(filters, SnapsOf(tasks), fuzzy);
      var vp: seq<TaskItem> := [];
      PickNone(tasks, flags, true);
      var i := 0;
      while i < |tasks|
        invariant i <= |tasks| && vp == Pick(tasks[..i], flags[..i], true)
      {
        var t := tasks[i];
        PickSnoc(tasks, flags, true, i);
        if FilterTest(filters, t.Snap(), fuzzy) {
          vp := vp + [t];
        }
        i := i + 1;
      }
      assert tasks[..i] == tasks && flags[..i] == flags;
      viewport := vp;
    }

    /**
     * `write_tasks_to_file()`: the file content, one task line per task, each
     * ended by a newline; the file reads back as the same lines.
     */
    method WriteTasksToFile() returns (res: string)
      ensures res == FileContent(TextsOf(SnapsOf(tasks)))
      ensures (forall k :: 0 <= k < |tasks| ==> StorableLine(tasks[k].Snap().text)) ==>
                ReadLines(res) == TextsOf(SnapsOf(tasks))
    {
      hide Parse, SnapsOf, TaskItem.Snap, TextsOf;
      ghost var ls := TextsOf(SnapsOf(tasks));
      res := "";
      var i := 0;
      while i < |tasks|
        invariant i <= |tasks| && res == FileContent(ls[..i])
      {
        assert ls[..i + 1][..i] == ls[..i];
        res := res + tasks[i].Snap().text + "\n";
        i := i + 1;
      }
      assert ls[..i] == ls;
      if forall k :: 0 <= k < |tasks| ==> StorableLine(tasks[k].Snap().text) {
        forall l | l in ls
          ensures StorableLine(l)
        {
          var k :| 0 <= k < |ls| && ls[k] == l;
        }
        ReadWritten(ls);
      }
    }

    /**
     * `archive_tasks(tasks)`: the text appended to done.txt, in order: a
     * completed task's own line, otherwise `x <today> ` and the line, with a
     * priority cut off the front and put back last as `pri:X` after the
     * continued template line's indentation.
     */
    method ArchiveTasks(ts: seq<TaskItem>, today: Date) returns (content: string)
      requires ValidToday(today)
      requires forall k :: 0 <= k < |ts| ==> |ts[k].Snap().priority| == 3
      ensures content == ArchiveContent(SnapsOf(ts), Fmt(today))
    {
      hide Parse, SnapsOf, TaskItem.Snap, ArchiveContent, Fmt;
      ghost var s := SnapsOf(ts);
      var t := Fmt(today);
      content := "";
      ArchiveNone(s, t);
      var i := 0;
      while i < |ts|
        invariant i <= |ts| && content == ArchiveContent(s[..i], t)
      {
        var f := ts[i].Snap();
        ArchiveSnoc(s, i, t);
        var line;
        if f.completed {
          line := f.text + "\n";
        } else if f.priority == NoPriority {
          line := "x " + t + " " + f.text + "\n";
        } else {
          line := "x " + t + " " + Drop(f.text, 3) + " " + ContinuationIndent + "pri:" + [f.priority[1]] + "\n";
        }
        content := content + line;
        i := i + 1;
      }
      assert s[..i] == s;
    }

    /**
     * The loop of "delete all" and "archive all": the tasks split, in order,
     * into those kept (open or recurring) and the completed ones.
     */
    method Partition() returns (kept: seq<TaskItem>, done: seq<TaskItem>)
      ensures kept == Pick(tasks, KeepFlags(SnapsOf(tasks)), true)
      ensures done == Pick(tasks, KeepFlags(SnapsOf(tasks)), false)
    {
      hide Parse, SnapsOf, TaskItem.Snap, Keeps;
      ghost var flags := KeepFlags(SnapsOf(tasks));
      kept, done := [], [];
      var i := 0;
      while i < |tasks|
        invariant i <= |tasks| && kept == Pick(tasks[..i], flags[..i], true) && done == Pick(tasks[..i], flags[..i], false)
      {
        var t := tasks[i];
        assert tasks[..i + 1][..i] == tasks[..i] && flags[..i + 1][..i] == flags[..i];
        if Keeps(t.Snap()) {
          kept := kept + [t];
        } else {
          done := done + [t];
        }
        i := i + 1;
      }
      assert tasks[..i] == tasks && flags[..i] == flags;
    }

    /**
     * The first part of `on_tasks_changed()`: the stats recounted, the panel
     * count set and the priority, context and project filters no task
     * carries any more dropped.
     */
    method RefreshStats()
      modifies this`stats, this`panelCount, this`filters
      ensures stats == StatsOf(SnapsOf(tasks)) && panelCount == PanelCount(SnapsOf(tasks))
      ensures filters == old(filters).(priorities := KeepKnown(old(filters.priorities), stats.priorities),
                                       contexts := KeepKnown(old(filters.contexts), stats.contexts),
                                       projects := KeepKnown(old(filters.projects), stats.projects))
    {
      hide Parse, Settle, Renewed, StatsOf, KeepKnown, Settled, SnapsOf, TaskItem.Snap;
      var s0 := SnapsOf(tasks);
      var st := CountStats(s0);
      stats := st;
      panelCount := |tasks| - st.completed - st.hidden - st.recurringCompleted - st.deferredTasks;
      var pr := DropUnknown(filters.priorities, st.priorities);
      var cx := DropUnknown(filters.contexts, st.contexts);
      var pj := DropUnknown(filters.projects, st.projects);
      filters := filters.(priorities := pr, contexts := cx, projects := pj);
      assert SnapsOf(tasks) == s0;
    }

    /**
     * `on_tasks_changed()`: the stats refreshed, the tasks sorted and the
     * viewport rebuilt through the filters.
     */
    method OnTasksChanged()
      requires Valid()
      modifies this`stats, this`panelCount, this`filters, this`tasks, this`viewport
      ensures stats == StatsOf(old(SnapsOf(tasks))) && panelCount == PanelCount(old(SnapsOf(tasks)))
      ensures filters == old(filters).(priorities := KeepKnown(old(filters.priorities), stats.priorities),
                                       contexts := KeepKnown(old(filters.contexts), stats.contexts),
                                       projects := KeepKnown(old(filters.projects), stats.projects))
      ensures multiset(tasks) == multiset(old(tasks)) && multiset(SnapsOf(tasks)) == multiset(old(SnapsOf(tasks)))
      ensures SortedBy(sortSpec, SnapsOf(tasks))
      ensures viewport == Pick(tasks, ShowFlags(filters, SnapsOf(tasks), fuzzy), true)
      ensures Valid()
    {
      hide Parse, Settle, Renewed, StatsOf, KeepKnown, Settled, SnapsOf, TaskItem.Snap;
      hide FilterTest, ShowFlags, Pick, SortedBy, Compare, PanelCount;
      ghost var s0 := SnapsOf(tasks);
      RefreshStats();
      assert SnapsOf(tasks) == s0;
      ghost var before := tasks;
      SortTasks();
      DistinctPermutation(before, tasks);
      forall t | t in tasks
        ensures Settled(t.Snap())
      {
        assert t in multiset(before);
      }
      ghost var s1 := SnapsOf(tasks);
      RebuildViewport(false);
      assert SnapsOf(tasks) == s1;
    }

    /**
     * What every editing action ends with: `on_tasks_changed()`, then
     * `write_tasks_to_file()` of the sorted tasks.
     */
    method Commit() returns (written: string)
      requires Valid()
      modifies this`stats, this`panelCount, this`filters, this`tasks, this`viewport
      ensures multiset(tasks) == multiset(old(tasks)) && multiset(SnapsOf(tasks)) == multiset(old(SnapsOf(tasks)))
      ensures Valid() && SortedBy(sortSpec, SnapsOf(tasks))
      ensures written == FileContent(TextsOf(SnapsOf(tasks)))
    {
      hide Parse, Settle, Settled, Renewed, StatsOf, KeepKnown, Pick, ShowFlags, FilterTest, SortedBy, Compare, TaskItem.Snap;
      hide SnapsOf, ReadLines, StorableLine, FileContent, TextsOf, PanelCount;
      OnTasksChanged();
      ghost var s1 := SnapsOf(tasks);
      written := WriteTasksToFile();
      assert SnapsOf(tasks) == s1;
    }

    /** The loop of "delete-task": the first occurrence of `t` spliced out, if there is one. */
    method RemoveTask(t: TaskItem) returns (ghost at: nat)
      modifies this`tasks
      ensures t !in old(tasks) ==> tasks == old(tasks)
      ensures t in old(tasks) ==> at < |old(tasks)| && old(tasks)[at] == t && t !in old(tasks)[..at]
                                  && tasks == Without(old(tasks), at)
    {
      at := 0;
      var i := 0;
      while i < |tasks|
        invariant i <= |tasks| && tasks == old(tasks) && t !in tasks[..i]
      {
        if tasks[i] == t {
          at := i;
          tasks := Without(tasks, i);
          return;
        }
        assert tasks[..i + 1] == tasks[..i] + [tasks[i]];
        i := i + 1;
      }
      assert tasks[..i] == tasks;
    }

    /** `tasks.unshift(new TaskItem(s, true))`: a new task settled as of today, in front. */
    method Prepend(s: string, today: Date) returns (t: TaskItem)
      requires Valid() && ValidToday(today)
      modifies this`tasks
      ensures fresh(t) && t.Snap() == Settle(s, today)
      ensures tasks == [t] + old(tasks) && Valid()
    {
      hide Parse, Settle, Renewed, StatsOf, SnapsOf, Settled, ValidToday;
      t := NewSettled(s, today);
      DistinctCons(t, tasks);
      tasks := [t] + tasks;
    }

    /**
     * The editor's "add-task": a new task settled as of today put in front,
     * then `on_tasks_changed()` and the file written.
     */
    method AddTask(s: string, today: Date) returns (t: TaskItem, written: string)
      requires Valid() && ValidToday(today)
      modifies this`stats, this`panelCount, this`filters, this`tasks, this`viewport
      ensures fresh(t) && t.Snap() == Settle(s, today)
      ensures multiset(tasks) == multiset(old(tasks)) + multiset{t}
      ensures Valid() && SortedBy(sortSpec, SnapsOf(tasks))
      ensures written == FileContent(TextsOf(SnapsOf(tasks)))
    {
      hide Parse, Settle, Settled, Renewed, StatsOf, KeepKnown, SnapsOf, Pick, ShowFlags, FilterTest, SortedBy, Compare, TaskItem.Snap, Valid;
      t := Prepend(s, today);
      ghost var f := t.Snap();
      written := Commit();
      assert t.Snap() == f;
    }

    /** `archive_tasks([task])` for a task of the list. */
    method ArchiveOne(t: TaskItem, today: Date) returns (c: string)
      requires Valid() && ValidToday(today) && t in tasks
      ensures c == ArchiveContent([t.Snap()], Fmt(today))
    {
      hide Parse, Settle, Renewed, ArchiveContent, Fmt;
      assert SnapsOf([t]) == [t.Snap()];
      c := ArchiveTasks([t], today);
    }

    /** The task spliced out of the list, which then holds it nowhere. */
    method Unlink(t: TaskItem)
      requires Valid() && t in tasks
      modifies this`tasks
      ensures multiset(tasks) == multiset(old(tasks)) - multiset{t} && t !in tasks && Valid()
    {
      hide Parse, Settle, Renewed, SnapsOf, TaskItem.Snap, Settled;
      ghost var before := tasks;
      ghost var at := RemoveTask(t);
      DistinctWithout(before, at);
      forall u | u in tasks
        ensures Settled(u.Snap())
      {
        assert u in multiset(before);
      }
    }

    /**
     * The editor's "delete-task": the task archived first when asked, then
     * spliced out of the list, then `on_tasks_changed()` and the file written.
     */
    method DeleteTask(t: TaskItem, doArchive: bool, today: Date) returns (archived: Option<string>, written: string)
      requires Valid() && ValidToday(today) && t in tasks
      modifies this`stats, this`panelCount, this`filters, this`tasks, this`viewport
      ensures doArchive ==> archived == Some(ArchiveContent([t.Snap()], Fmt(today)))
      ensures !doArchive ==> archived == None
      ensures multiset(tasks) == multiset(old(tasks)) - multiset{t} && t !in tasks
      ensures Valid() && SortedBy(sortSpec, SnapsOf(tasks))
      ensures written == FileContent(TextsOf(SnapsOf(tasks)))
    {
      hide Parse, Settle, Renewed, StatsOf, KeepKnown, Pick, ShowFlags, FilterTest, SortedBy, Compare;
      hide Settled, ArchiveContent, Fmt, Valid, SnapsOf, TaskItem.Snap;
      archived := None;
      if doArchive {
        var c := ArchiveOne(t, today);
        archived := Some(c);
      }
      ghost var f := t.Snap();
      Unlink(t);
      assert t !in multiset(tasks);
      written := Commit();
      assert t !in multiset(tasks);
      assert t.Snap() == f;
    }

    /**
     * The editor's "edit-task": the task reset to the new line settled as of
     * today, then `on_tasks_changed()` and the file written.
     */
    method EditTask(t: TaskItem, s: string, today: Date) returns (written: string)
      requires Valid() && ValidToday(today) && t in tasks
      modifies this`stats, this`panelCount, this`filters, this`tasks, this`viewport, t
      ensures t.Snap() == Settle(Effective(s, old(t.text)), today)
      ensures multiset(tasks) == multiset(old(tasks))
      ensures Valid() && SortedBy(sortSpec, SnapsOf(tasks))
      ensures written == FileContent(TextsOf(SnapsOf(tasks)))
    {
      hide Parse, Renewed, StatsOf, KeepKnown, SnapsOf, Pick, ShowFlags, FilterTest, SortedBy, Compare;
      SettleSettled(Effective(s, t.text), today);
      t.Reset(true, s, today);
      written := Commit();
    }

    /**
     * The loop of "delete all" and "archive all" and the assignment after it:
     * the list keeps its open and its recurring tasks, in order, and the
     * other tasks are handed back.
     */
    method Retain() returns (dropped: seq<TaskItem>)
      requires Valid()
      modifies this`tasks
      ensures tasks == Pick(old(tasks), KeepFlags(old(SnapsOf(tasks))), true)
      ensures dropped == Pick(old(tasks), KeepFlags(old(SnapsOf(tasks))), false)
      ensures forall u :: u in tasks <==> u in old(tasks) && Keeps(u.Snap())
      ensures forall u :: u in dropped <==> u in old(tasks) && !Keeps(u.Snap())
      ensures forall k :: 0 <= k < |dropped| ==> |dropped[k].Snap().priority| == 3
      ensures Valid()
    {
      hide Parse, Settle, Renewed, TaskItem.Snap, Keeps, KeepFlags, Pick;
      ghost var before := tasks;
      var kept;
      kept, dropped := Partition();
      PickKept(tasks, true);
      PickKept(tasks, false);
      DistinctPick(tasks, KeepFlags(SnapsOf(tasks)), true);
      assert forall k :: 0 <= k < |dropped| ==> dropped[k] in dropped;
      tasks := kept;
    }

    /** "delete-all": the completed tasks that do not recur dropped, then the list committed. */
    method DeleteAll() returns (written: string)
      requires Valid()
      modifies this`stats, this`panelCount, this`filters, this`tasks, this`viewport
      ensures multiset(tasks) == multiset(Pick(old(tasks), KeepFlags(old(SnapsOf(tasks))), true))
      ensures forall u :: u in tasks <==> u in old(tasks) && Keeps(u.Snap())
      ensures Valid() && SortedBy(sortSpec, SnapsOf(tasks))
      ensures written == FileContent(TextsOf(SnapsOf(tasks)))
    {
      hide Parse, Settle, Settled, Renewed, StatsOf, KeepKnown, Pick, ShowFlags, FilterTest, SortedBy, Compare, TaskItem.Snap;
      hide SnapsOf, ReadLines, StorableLine, FileContent, TextsOf, PanelCount, Keeps, KeepFlags, Valid;
      var dropped := Retain();
      ghost var kept := tasks;
      written := Commit();
      forall u
        ensures u in tasks <==> u in kept
      {
        assert u in tasks <==> u in multiset(tasks);
        assert u in kept <==> u in multiset(kept);
      }
    }

    /**
     * "archive-all": the completed tasks that do not recur archived, in
     * order, then dropped, then the list committed.
     */
    method ArchiveAll(today: Date) returns (done: seq<TaskItem>, archived: string, written: string)
      requires Valid() && ValidToday(today)
      modifies this`stats, this`panelCount, this`filters, this`tasks, this`viewport
      ensures done == Pick(old(tasks), KeepFlags(old(SnapsOf(tasks))), false)
      ensures forall k :: 0 <= k < |done| ==> |done[k].Snap().priority| == 3
      ensures archived == ArchiveContent(SnapsOf(done), Fmt(today))
      ensures forall u :: u in tasks <==> u in old(tasks) && Keeps(u.Snap())
      ensures Valid() && SortedBy(sortSpec, SnapsOf(tasks))
      ensures written == FileContent(TextsOf(SnapsOf(tasks)))
    {
      hide Parse, Settle, Settled, Renewed, StatsOf, KeepKnown, Pick, ShowFlags, FilterTest, SortedBy, Compare, TaskItem.Snap;
      hide SnapsOf, ReadLines, StorableLine, FileContent, TextsOf, PanelCount, Keeps, KeepFlags, Valid, ArchiveContent, Fmt;
      done := Retain();
      ghost var sd := SnapsOf(done);
      archived := ArchiveTasks(done, today);
      ghost var kept := tasks;
      written := Commit();
      assert SnapsOf(done) == sd;
      forall u
        ensures u in tasks <==> u in kept
      {
        assert u in tasks <==> u in multiset(tasks);
        assert u in kept <==> u in multiset(kept);
      }
    }

    /**
     * `_on_new_day_started()`: the day check on every task; when it changed
     * any, the file is written (in the list's order) and then
     * `on_tasks_changed()`.
     */
    method NewDay(today: Date) returns (written: Option<string>, recurrences: nat, openings: nat, ghost checks: DayChecks)
      requires Valid() && ValidToday(today)
      modifies tasks, this`stats, this`panelCount, this`filters, this`tasks, this`viewport
      ensures |checks| == |old(tasks)| && forall k :: 0 <= k < |checks| ==> checks[k] == DayCheck(old(tasks[k].Snap()), today)
      ensures recurrences == Recurred(checks) && openings == Opened(checks)
      ensures written.Some? <==> exists k :: 0 <= k < |checks| && (checks[k].0 || checks[k].1)
      ensures written.Some? ==> written.value == FileContent(TextsOf(Results(checks)))
                                && multiset(SnapsOf(tasks)) == multiset(Results(checks)) && SortedBy(sortSpec, SnapsOf(tasks))
      ensures written.None? ==> tasks == old(tasks) && SnapsOf(tasks) == Results(checks)
      ensures Valid()
    {
      hide Parse, Settle, Settled, Renewed, StatsOf, KeepKnown, Pick, ShowFlags, FilterTest, SortedBy, Compare, TaskItem.Snap;
      hide ReadLines, StorableLine, FileContent, TextsOf, PanelCount, DayCheck, Recurred, Opened, SnapsOf, Valid;
      var updated;
      updated, recurrences, openings, checks := CheckDates(today);
      assert SnapsOf(tasks) == Results(checks);
      if updated {
        var w := WriteTasksToFile();
        assert SnapsOf(tasks) == Results(checks);
        written := Some(w);
        OnTasksChanged();
      } else {
        written := None;
      }
    }

    /** `create_tasks(lines)`: every task then agrees with its line. */
    method Load(lines: seq<string>, today: Date)
      requires Distinct(tasks) && forall l :: l in lines ==> NonBlank(l)
      modifies this`tasks, tasks
      ensures |tasks| == |lines| && forall k :: 0 <= k < |lines| ==> tasks[k].Snap() == Parse(lines[k])
      ensures Valid() && forall t :: t in tasks ==> t in old(tasks) || fresh(t)
    {
      hide Parse, Settle, Renewed, TaskItem.Snap, Settled;
      forall l | l in lines
        ensures l != ""
      {
        assert NonBlank(l);
      }
      CreateTasks(lines, today);
      forall t | t in tasks
        ensures Settled(t.Snap())
      {
        var k :| 0 <= k < |tasks| && tasks[k] == t;
        assert lines[k] in lines;
        ParsedSettled(lines[k]);
      }
    }

    /** The day check on tasks just loaded from lines: each is left settled from its line. */
    method CheckLoaded(lines: seq<string>, today: Date) returns (updated: bool)
      requires Valid() && ValidToday(today)
      requires |tasks| == |lines| && forall k :: 0 <= k < |lines| ==> tasks[k].Snap() == Parse(lines[k])
      modifies tasks
      ensures SnapsOf(tasks) == SettleAll(lines, today) && Valid()
      ensures updated <==> exists k :: 0 <= k < |lines| && Changes(lines[k], today)
    {
      hide Parse, Settle, Renewed, TaskItem.Snap, Settled, Recurred, Opened;
      var r, o;
      ghost var checks;
      updated, r, o, checks := CheckDates(today);
      forall k | 0 <= k < |lines|
        ensures checks[k].2 == Settle(lines[k], today) && (checks[k].0 || checks[k].1 <==> Changes(lines[k], today))
      {
        assert lines[k] in lines;
        DayCheckOfParse(lines[k], today);
      }
    }

    /**
     * `_init_todo_file()` once the file is read: the task objects reset from
     * its non-blank lines, the day check, the file written back when the
     * check changed a task, then `on_tasks_changed()`.
     */
    method InitTodoFile(content: string, today: Date) returns (written: Option<string>)
      requires Distinct(tasks) && ValidToday(today)
      modifies this`stats, this`panelCount, this`filters, this`tasks, this`viewport, tasks
      ensures written.Some? <==> exists k :: 0 <= k < |ReadLines(content)| && Changes(ReadLines(content)[k], today)
      ensures written.Some? ==> written.value == FileContent(TextsOf(SettleAll(ReadLines(content), today)))
      ensures multiset(SnapsOf(tasks)) == multiset(SettleAll(ReadLines(content), today))
      ensures Valid() && SortedBy(sortSpec, SnapsOf(tasks))
    {
      hide Parse, Settle, Settled, Renewed, StatsOf, KeepKnown, Pick, ShowFlags, FilterTest, SortedBy, Compare, TaskItem.Snap;
      hide StorableLine, FileContent, TextsOf, PanelCount, DayCheck, Recurred, Opened, Changes, SettleAll, SnapsOf, Valid;
      var lines := ReadLines(content);
      forall l | l in lines
        ensures NonBlank(l)
      {
        var k :| 0 <= k < |lines| && lines[k] == l;
      }
      Load(lines, today);
      assert forall k :: 0 <= k < |tasks| ==> tasks[k] in tasks;
      var updated := CheckLoaded(lines, today);
      ghost var settled := SnapsOf(tasks);
      if updated {
        var w := WriteTasksToFile();
        assert SnapsOf(tasks) == settled;
        written := Some(w);
      } else {
        written := None;
      }
      OnTasksChanged();
    }

    /**
     * `toggle_filter(keyword)`: the keyword toggled in the list of its kind
     * (priority, context, project); in the default view the viewport is
     * rebuilt.
     */
    method ToggleFilter(kw: string, defaultView: bool)
      requires FilterKeyword(kw)
      modifies this`filters, this`viewport
      ensures IsPrio(kw) ==> filters == old(filters).(priorities := Toggle(old(filters.priorities), kw))
      ensures !IsPrio(kw) && IsContext(kw) ==> filters == old(filters).(contexts := Toggle(old(filters.contexts), kw))
      ensures !IsPrio(kw) && !IsContext(kw) ==> filters == old(filters).(projects := Toggle(old(filters.projects), kw))
      ensures defaultView ==> viewport == Pick(tasks, ShowFlags(filters, SnapsOf(tasks), fuzzy), true)
      ensures !defaultView ==> viewport == old(viewport)
    {
      hide Parse, FilterTest, SnapsOf, TaskItem.Snap, ShowFlags, Pick;
      if IsPrio(kw) {
        filters := filters.(priorities := Toggle(filters.priorities, kw));
      } else if IsContext(kw) {
        filters := filters.(contexts := Toggle(filters.contexts, kw));
      } else {
        filters := filters.(projects := Toggle(filters.projects, kw));
      }
      if defaultView {
        RebuildViewport(false);
      }
    }

    /** `toggle_invert_filters()`: the inversion flag flipped, then `on_tasks_changed()`. */
    method ToggleInvertFilters()
      requires Valid()
      modifies this`stats, this`panelCount, this`filters, this`tasks, this`viewport
      ensures filters.invertFilters == !old(filters.invertFilters)
      ensures multiset(tasks) == multiset(old(tasks)) && Valid()
      ensures viewport == Pick(tasks, ShowFlags(filters, SnapsOf(tasks), fuzzy), true)
    {
      hide Parse, Settle, Settled, Renewed, StatsOf, KeepKnown, Pick, ShowFlags, FilterTest, SortedBy, Compare, TaskItem.Snap;
      hide SnapsOf, PanelCount, Valid;
      filters := filters.(invertFilters := !filters.invertFilters);
      OnTasksChanged();
    }

    /** `show_view__search()`: every task is shown, whatever the filters. */
    method OpenSearch()
      modifies this`viewport
      ensures viewport == tasks
    {
      RebuildViewport(true);
    }

    /** Closing the search view: the cached queries cleared, the viewport rebuilt through the filters. */
    method CloseSearch()
      modifies this`searchDictionary, this`viewport
      ensures searchDictionary == map[]
      ensures viewport == Pick(tasks, ShowFlags(filters, SnapsOf(tasks), fuzzy), true)
    {
      hide Parse, FilterTest, SnapsOf, TaskItem.Snap, ShowFlags, Pick;
      searchDictionary := map[];
      RebuildViewport(false);
    }

    /**
     * `_find_prev_search_results(pattern)`: the longest cached query that
     * starts the pattern; its results are the space to search, or all the
     * tasks when there is none, and no search is needed when it is the
     * pattern itself.
     */
    method FindPrevSearchResults(pattern: string) returns (needed: bool, space: seq<TaskItem>, ghost res: string)
      requires pattern != ""
      ensures LongestPrefix(searchDictionary.Keys, pattern, res)
      ensures needed <==> pattern !in searchDictionary
      ensures !needed ==> res == pattern
      ensures res != "" ==> res in searchDictionary && space == searchDictionary[res]
      ensures res == "" ==> space == tasks
    {
      var r := "";
      var keys := searchDictionary.Keys;
      while keys != {}
        invariant keys <= searchDictionary.Keys
        invariant LongestPrefix(searchDictionary.Keys - keys, pattern, r)
        decreases keys
      {
        var k :| k in keys;
        if StartsWith(pattern, k) && |k| > |r| {
          r := k;
        }
        keys := keys - {k};
      }
      assert searchDictionary.Keys - keys == searchDictionary.Keys;
      res := r;
      LongestPrefixExact(searchDictionary.Keys, pattern, r);
      if pattern == r {
        needed, space := false, searchDictionary[r];
      } else if r != "" {
        needed, space := true, searchDictionary[r];
      } else {
        needed, space := true, tasks;
      }
    }

    /**
     * `found` is what a search for `pattern` over `space` shows: the tasks
     * whose lower-cased line the scorer matches, each once, by score and
     * then by place in the space.
     */
    ghost predicate SearchResult(pattern: string, space: seq<TaskItem>, ranked: seq<Hit>, found: seq<TaskItem>)
      reads space
    {
      Ranked(ranked) && |found| == |ranked|
      && (forall i :: 0 <= i < |ranked| ==> ranked[i].0 < |space| && found[i] == space[ranked[i].0]
                                            && fuzzy(pattern, Lower(space[ranked[i].0].text)) == Some(ranked[i].1))
      && (forall j :: 0 <= j < |space| && fuzzy(pattern, Lower(space[j].text)).Some? ==>
                        exists i :: 0 <= i < |ranked| && ranked[i].0 == j)
    }

    /** The first loop of `_do_search`: each task of the space the scorer matches, with its score, in order. */
    method ScoreSpace(pattern: string, space: seq<TaskItem>) returns (hits: seq<Hit>)
      ensures InSpaceOrder(hits)
      ensures forall h :: h in hits ==> h.0 < |space| && fuzzy(pattern, Lower(space[h.0].text)) == Some(h.1)
      ensures forall j :: 0 <= j < |space| && fuzzy(pattern, Lower(space[j].text)).Some? ==> exists h :: h in hits && h.0 == j
    {
      hide Lower;
      hits := [];
      var i := 0;
      while i < |space|
        invariant i <= |space| && InSpaceOrder(hits)
        invariant forall h :: h in hits ==> h.0 < i && fuzzy(pattern, Lower(space[h.0].text)) == Some(h.1)
        invariant forall j :: 0 <= j < i && fuzzy(pattern, Lower(space[j].text)).Some? ==> exists h :: h in hits && h.0 == j
      {
        var score := fuzzy(pattern, Lower(space[i].text));
        if score.Some? {
          hits := hits + [(i, score.value)];
        }
        i := i + 1;
      }
    }

    /** The second loop of `_do_search`: the tasks at the ranked positions, in rank order. */
    static method TasksAt(space: seq<TaskItem>, r: seq<Hit>) returns (found: seq<TaskItem>)
      requires forall m :: 0 <= m < |r| ==> r[m].0 < |space|
      ensures |found| == |r| && forall m :: 0 <= m < |r| ==> found[m] == space[r[m].0]
    {
      found := [];
      var k := 0;
      while k < |r|
        invariant k <= |r| && |found| == k
        invariant forall m :: 0 <= m < k ==> found[m] == space[r[m].0]
      {
        found := found + [space[r[k].0]];
        k := k + 1;
      }
    }

    /**
     * `_do_search(pattern, space)`: every task of the space scored against
     * the pattern, the matches ranked, the viewport set to them and cached
     * under the pattern.
     */
    method DoSearch(pattern: string, space: seq<TaskItem>) returns (ghost ranked: seq<Hit>)
      modifies this`viewport, this`searchDictionary
      ensures SearchResult(pattern, space, ranked, viewport)
      ensures searchDictionary == old(searchDictionary)[pattern := viewport]
    {
      hide Lower;
      var hits := ScoreSpace(pattern, space);
      var r := RankHits(hits);
      forall h
        ensures h in r <==> h in hits
      {
        assert h in r <==> h in multiset(r);
        assert h in hits <==> h in multiset(hits);
      }
      forall m | 0 <= m < |r|
        ensures r[m].0 < |space| && fuzzy(pattern, Lower(space[r[m].0].text)) == Some(r[m].1)
      {
        assert r[m] in hits;
      }
      forall j | 0 <= j < |space| && fuzzy(pattern, Lower(space[j].text)).Some?
        ensures exists i :: 0 <= i < |r| && r[i].0 == j
      {
        var h :| h in hits && h.0 == j;
        var i :| 0 <= i < |r| && r[i] == h;
      }
      var found := TasksAt(space, r);
      viewport := found;
      searchDictionary := searchDictionary[pattern := found];
      ranked := r;
    }

    /**
     * `_search()` in the search view: the query is the entry trimmed and
     * lower-cased; an empty query shows every task, a cached one its
     * results, and any other is searched for over the results of its
     * longest cached prefix, or over all the tasks.
     */
    method Search(entry: string) returns (ghost space: seq<TaskItem>, ghost ranked: seq<Hit>)
      modifies this`lastSearchPattern, this`viewport, this`searchDictionary
      ensures lastSearchPattern == Lower(Trim(entry))
      ensures lastSearchPattern == "" ==> viewport == tasks && searchDictionary == old(searchDictionary)
      ensures lastSearchPattern != "" && lastSearchPattern in old(searchDictionary) ==>
                viewport == old(searchDictionary)[lastSearchPattern] && searchDictionary == old(searchDictionary)
      ensures lastSearchPattern != "" && lastSearchPattern !in old(searchDictionary) ==>
                (exists res :: LongestPrefix(old(searchDictionary).Keys, lastSearchPattern, res)
                               && space == (if res == "" then tasks else old(searchDictionary)[res]))
                && SearchResult(lastSearchPattern, space, ranked, viewport)
                && searchDictionary == old(searchDictionary)[lastSearchPattern := viewport]
    {
      hide Lower, Trim, LongestPrefix, SearchResult;
      var pattern := Lower(Trim(entry));
      space, ranked := [], [];
      if pattern == "" {
        lastSearchPattern := "";
        viewport := tasks;
        return;
      }
      lastSearchPattern := pattern;
      var needed, sp, res := FindPrevSearchResults(pattern);
      space := sp;
      if !needed {
        viewport := sp;
        return;
      }
      ranked := DoSearch(pattern, sp);
    }
  }
}
