/**
 * The statistics `on_tasks_changed` gathers over the task list: how many
 * tasks are deferred, completed, hidden, without a priority, and how many
 * carry each priority, context and project; and the clean-up of the filter
 * lists against those counts.
 */
module Stats {
  import opened TaskSpec

  /**
   * A JavaScript `Map` from a string to a count, as entries in insertion
   * order; `set` on a present key updates its entry where it stands.
   */
  type Counts = seq<(string, nat)>

  /** `map.has(k)`. */
  predicate Has(c: Counts, k: string)
  {
    |c| > 0 && (c[0].0 == k || Has(c[1..], k))
  }

  /** `map.get(k)`, with an absent key read as 0. */
  function Get(c: Counts, k: string): nat
  {
    if |c| == 0 then 0 else if c[0].0 == k then c[0].1 else Get(c[1..], k)
  }

  /** The sum of the counts. */
  function Total(c: Counts): nat
  {
    if |c| == 0 then 0 else c[0].1 + Total(c[1..])
  }

  /** `n = map.get(k); map.set(k, n ? ++n : 1)`. */
  function Bump(c: Counts, k: string): Counts
  {
    if |c| == 0 then [(k, 1)]
    else if c[0].0 == k then [(k, if c[0].1 != 0 then c[0].1 + 1 else 1)] + c[1..]
    else [c[0]] + Bump(c[1..], k)
  }

  /** Bumping a key adds one to its count and to the total, and leaves every other count alone. */
  lemma {:induction false} BumpCounts(c: Counts, k: string, j: string)
    ensures Get(Bump(c, k), j) == Get(c, j) + (if j == k then 1 else 0)
    ensures Has(Bump(c, k), j) <==> Has(c, j) || j == k
    ensures Total(Bump(c, k)) == Total(c) + 1
  {
    if |c| > 0 && c[0].0 != k {
      BumpCounts(c[1..], k, j);
      assert Bump(c, k)[1..] == Bump(c[1..], k);
    }
  }

  /** `for (w of ws) bump(w)`. */
  function BumpAll(c: Counts, ws: seq<string>): Counts
    decreases |ws|
  {
    if |ws| == 0 then c else BumpAll(Bump(c, ws[0]), ws[1..])
  }

  /** After counting the words `ws`, exactly the keys already present and the words are present. */
  lemma {:induction false} BumpAllHas(c: Counts, ws: seq<string>, j: string)
    ensures Has(BumpAll(c, ws), j) <==> Has(c, j) || j in ws
    decreases |ws|
  {
    if |ws| > 0 {
      BumpCounts(c, ws[0], j);
      BumpAllHas(Bump(c, ws[0]), ws[1..], j);
      assert j in ws <==> j == ws[0] || j in ws[1..];
    }
  }

  /** `this.stats`. */
  datatype Stats = Stats(
    deferredTasks: nat,
    recurringCompleted: nat,
    recurringIncompleted: nat,
    hidden: nat,
    completed: nat,
    noPriority: nat,
    priorities: Counts,
    contexts: Counts,
    projects: Counts)

  /** `_reset_stats_obj()`. */
  const EmptyStats := Stats(0, 0, 0, 0, 0, 0, [], [], [])

  /**
   * One pass of the stats loop: a deferred task is counted as deferred, a
   * completed one as (recurring) completed; otherwise its projects and
   * contexts are counted, and then it is counted as hidden, or by priority,
   * and as recurring when it has a recurrence.
   */
  function StatsStep(st: Stats, f: Fields): Stats
  {
    if f.isDeferred then st.(deferredTasks := st.deferredTasks + 1)
    else if f.completed then
      if f.recStr != "" then st.(recurringCompleted := st.recurringCompleted + 1)
      else st.(completed := st.completed + 1)
    else
      var st1 := st.(projects := BumpAll(st.projects, f.projects));
      var st2 := st1.(contexts := BumpAll(st1.contexts, f.contexts));
      if f.hidden then st2.(hidden := st2.hidden + 1)
      else
        var st3 := if f.priority == NoPriority then st2.(noPriority := st2.noPriority + 1)
                   else st2.(priorities := Bump(st2.priorities, f.priority));
        if f.recStr != "" then st3.(recurringIncompleted := st3.recurringIncompleted + 1) else st3
  }

  /** The stats after the loop has passed over the tasks `s`, from a reset object. */
  function StatsOf(s: seq<Fields>): Stats
  {
    if |s| == 0 then EmptyStats else StatsStep(StatsOf(s[..|s| - 1]), s[|s| - 1])
  }

  /** The stats of one more task. */
  lemma StatsSnoc(s: seq<Fields>, f: Fields)
    ensures StatsOf(s + [f]) == StatsStep(StatsOf(s), f)
  {
    assert (s + [f])[..|s|] == s;
  }

  /** The tasks whose projects and contexts are counted: neither deferred nor completed. */
  predicate Open(f: Fields)
  {
    !f.isDeferred && !f.completed
  }

  /** The tasks counted by priority: open and not hidden, with a priority. */
  predicate Prioritised(f: Fields)
  {
    Open(f) && !f.hidden && f.priority != NoPriority
  }

  /** How many of the tasks are counted under priority `p`. */
  function CountPriority(s: seq<Fields>, p: string): nat
  {
    if |s| == 0 then 0
    else CountPriority(s[..|s| - 1], p) + (if Prioritised(s[|s| - 1]) && s[|s| - 1].priority == p then 1 else 0)
  }

  /** How many of the tasks are counted under some priority. */
  function CountPrioritised(s: seq<Fields>): nat
  {
    if |s| == 0 then 0
    else CountPrioritised(s[..|s| - 1]) + (if Prioritised(s[|s| - 1]) then 1 else 0)
  }

  /** One pass of the loop puts the task in exactly one bucket. */
  lemma StepPartition(st: Stats, f: Fields)
    ensures var n := StatsStep(st, f);
            n.deferredTasks + n.recurringCompleted + n.completed + n.hidden + n.noPriority
              + Total(n.priorities)
            == st.deferredTasks + st.recurringCompleted + st.completed + st.hidden + st.noPriority
              + Total(st.priorities) + 1
            && Total(n.priorities) == Total(st.priorities) + (if Prioritised(f) then 1 else 0)
  {
    if Prioritised(f) {
      BumpCounts(st.priorities, f.priority, f.priority);
    }
  }

  /** One pass of the loop counts the task under its priority, and under no other. */
  lemma StepPriority(st: Stats, f: Fields, p: string)
    ensures Get(StatsStep(st, f).priorities, p)
            == Get(st.priorities, p) + (if Prioritised(f) && f.priority == p then 1 else 0)
    ensures Has(StatsStep(st, f).priorities, p)
            <==> Has(st.priorities, p) || (Prioritised(f) && f.priority == p)
  {
    if Prioritised(f) {
      BumpCounts(st.priorities, f.priority, p);
    }
  }

  /** One pass of the loop adds the contexts and projects of an open task. */
  lemma StepWords(st: Stats, f: Fields, c: string)
    ensures Has(StatsStep(st, f).contexts, c) <==> Has(st.contexts, c) || (Open(f) && c in f.contexts)
    ensures Has(StatsStep(st, f).projects, c) <==> Has(st.projects, c) || (Open(f) && c in f.projects)
  {
    if Open(f) {
      BumpAllHas(st.projects, f.projects, c);
      BumpAllHas(st.contexts, f.contexts, c);
    }
  }

  /**
   * Every task is counted in exactly one bucket: deferred, recurring
   * completed, completed, hidden, no priority, or one priority.
   */
  lemma {:induction false} StatsPartition(s: seq<Fields>)
    ensures var st := StatsOf(s);
            |s| == st.deferredTasks + st.recurringCompleted + st.completed + st.hidden
                   + st.noPriority + Total(st.priorities)
            && Total(st.priorities) == CountPrioritised(s)
  {
    if |s| > 0 {
      StatsPartition(s[..|s| - 1]);
      StepPartition(StatsOf(s[..|s| - 1]), s[|s| - 1]);
    }
  }

  /** The number on the panel label: the tasks neither completed, hidden nor deferred. */
  function PanelCount(s: seq<Fields>): int
  {
    var st := StatsOf(s);
    |s| - st.completed - st.hidden - st.recurringCompleted - st.deferredTasks
  }

  /** The panel count is the tasks without a priority plus those with one, so it is never negative. */
  lemma PanelCountOpen(s: seq<Fields>)
    ensures PanelCount(s) == StatsOf(s).noPriority + Total(StatsOf(s).priorities)
    ensures PanelCount(s) >= 0
  {
    StatsPartition(s);
  }

  /** Each priority's count is the number of open, shown tasks with that priority. */
  lemma {:induction false} StatsPriorityCount(s: seq<Fields>, p: string)
    ensures Get(StatsOf(s).priorities, p) == CountPriority(s, p)
  {
    if |s| > 0 {
      StatsPriorityCount(s[..|s| - 1], p);
      StepPriority(StatsOf(s[..|s| - 1]), s[|s| - 1], p);
    }
  }

  /** Some task of `s` satisfies `P`, split at the last task; `t` is the tasks before it. */
  lemma ExistsLast(s: seq<Fields>, t: seq<Fields>, P: Fields -> bool)
    requires |s| > 0 && t == s[..|s| - 1]
    ensures (exists i :: 0 <= i < |s| && P(s[i]))
            <==> (exists i :: 0 <= i < |t| && P(t[i])) || P(s[|s| - 1])
  {
    if exists i :: 0 <= i < |s| && P(s[i]) {
      var i :| 0 <= i < |s| && P(s[i]);
      if i < |s| - 1 {
        assert P(t[i]);
      }
    }
    if exists i :: 0 <= i < |t| && P(t[i]) {
      var i :| 0 <= i < |t| && P(t[i]);
      assert P(s[i]);
    }
  }

  /** A context is in the stats iff some open task (hidden or not) names it. */
  lemma {:induction false} StatsContexts(s: seq<Fields>, c: string)
    ensures Has(StatsOf(s).contexts, c) <==> exists i :: 0 <= i < |s| && Open(s[i]) && c in s[i].contexts
  {
    if |s| > 0 {
      StatsContexts(s[..|s| - 1], c);
      StepWords(StatsOf(s[..|s| - 1]), s[|s| - 1], c);
      ExistsLast(s, s[..|s| - 1], f => Open(f) && c in f.contexts);
    }
  }

  /** A project is in the stats iff some open task (hidden or not) names it. */
  lemma {:induction false} StatsProjects(s: seq<Fields>, c: string)
    ensures Has(StatsOf(s).projects, c) <==> exists i :: 0 <= i < |s| && Open(s[i]) && c in s[i].projects
  {
    if |s| > 0 {
      StatsProjects(s[..|s| - 1], c);
      StepWords(StatsOf(s[..|s| - 1]), s[|s| - 1], c);
      ExistsLast(s, s[..|s| - 1], f => Open(f) && c in f.projects);
    }
  }

  /** A priority is in the stats iff some open, shown task has it. */
  lemma {:induction false} StatsPriorities(s: seq<Fields>, p: string)
    ensures Has(StatsOf(s).priorities, p) <==> exists i :: 0 <= i < |s| && Prioritised(s[i]) && s[i].priority == p
  {
    if |s| > 0 {
      StatsPriorities(s[..|s| - 1], p);
      StepPriority(StatsOf(s[..|s| - 1]), s[|s| - 1], p);
      ExistsLast(s, s[..|s| - 1], f => Prioritised(f) && f.priority == p);
    }
  }

  /** The filter entries the clean-up keeps: those the stats still count, in order. */
  function KeepKnown(arr: seq<string>, c: Counts): seq<string>
  {
    if |arr| == 0 then []
    else
      var init := KeepKnown(arr[..|arr| - 1], c);
      if Has(c, arr[|arr| - 1]) then init + [arr[|arr| - 1]] else init
  }

  /** The clean-up keeps exactly the entries the stats count, and never lengthens the list. */
  lemma {:induction false} KeepKnownMembers(arr: seq<string>, c: Counts)
    ensures |KeepKnown(arr, c)| <= |arr|
    ensures forall x :: x in KeepKnown(arr, c) <==> x in arr && Has(c, x)
  {
    if |arr| > 0 {
      var init := arr[..|arr| - 1];
      KeepKnownMembers(init, c);
      assert arr == init + [arr[|arr| - 1]];
    }
  }
}
