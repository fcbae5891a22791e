/**
 * A task item: one line of the todo file and the fields parsed from it.  The
 * methods update the fields in place, as the item's methods do; each one is
 * proved against the functions of TaskSpec and TaskText, so the properties
 * proved there (what the parse guarantees, the completion round trip, a
 * recurrence firing at most once per day) carry over to the object.
 * `today` stands for `G.date_yyyymmdd()`, which reads the clock.
 */
module TaskItems {
  import opened Options
  import opened Text
  import opened Dates
  import opened Tokens
  import opened TaskSpec
  import opened TaskText

  /** The header fields: the completion mark, the priority and the two dates. */
  datatype Head = Head(completed: bool, priority: string, creationDate: Date, completionDate: Date)

  /** The fields set by extension tokens: tracker id, pin, hide, due and defer dates. */
  datatype Ext = Ext(trackerId: string, pinned: bool, hidden: bool, dueDate: Date,
                     deferDate: Option<Date>, isDeferred: bool)

  /** The recurrence: its kind, its token and the date of the next recurrence. */
  datatype Rec = Rec(recType: int, recStr: string, recNext: Date)

  /** What the description walk collects for sorting and rendering. */
  datatype Marks = Marks(projects: seq<string>, contexts: seq<string>,
                         firstContext: string, firstProject: string,
                         description: seq<string>, contextIndices: seq<nat>,
                         projectIndices: seq<nat>, linkIndices: seq<nat>)

  const DefaultHead := Head(false, NoPriority, NoDate, NoDate)
  const DefaultExt := Ext("", false, false, NoDue, None, false)
  const DefaultRec := Rec(1, "", NoDue)
  const DefaultMarks := Marks([], [], "", "", [], [], [], [])

  /**
   * A task item.  The item's parsed fields are kept in four records, grouped
   * as above; `Snap` reads them back as one `Fields` value.
   */
  class TaskItem {
    var text: string
    var head: Head
    var ext: Ext
    var rec: Rec
    var marks: Marks

    /** The fields of the item as a value. */
    function Snap(): Fields
      reads this
    {
      Fields(text, ext.trackerId, ext.pinned, head.priority, marks.projects, marks.contexts,
             head.creationDate, head.completionDate, ext.dueDate, head.completed, ext.hidden,
             ext.deferDate, ext.isDeferred, rec.recType, rec.recStr, rec.recNext,
             marks.firstContext, marks.firstProject, marks.description,
             marks.contextIndices, marks.projectIndices, marks.linkIndices)
    }

    /**
     * `new TaskItem(ext, delegate, task_str, self_update)`: the line is
     * parsed, and with `selfUpdate` its recurrence and deferral are settled.
     */
    constructor (s: string, selfUpdate: bool, today: Date)
      requires selfUpdate ==> ValidToday(today)
      ensures !selfUpdate ==> Snap() == Parse(s)
      ensures selfUpdate ==> Snap() == Settle(s, today)
    {
      text, head, ext, rec, marks := s, DefaultHead, DefaultExt, DefaultRec, DefaultMarks;
      new;
      Reset(selfUpdate, "", today);
    }

    /** `reset_props`: every parsed field back to its default; the line is kept. */
    method ResetProps()
      modifies this
      ensures Snap() == Defaults(old(text))
    {
      head := DefaultHead;
      ext := DefaultExt;
      rec := DefaultRec;
      marks := DefaultMarks;
    }

    /**
     * One pass of the description loop on word `w` at index `i`: the fields
     * change as `Step` says, and `keep` tells whether the word stays in the
     * description (otherwise it is spliced out).
     */
    method ParseWord(ghost st: WalkState, i: nat, w: string) returns (keep: bool)
      requires Snap() == st.f && i == |st.words|
      modifies this
      ensures Snap() == Step(st, w).f
      ensures Step(st, w).words == if keep then st.words + [w] else st.words
    {
      keep := true;
      if IsContext(w) {
        marks := marks.(contextIndices := marks.contextIndices + [i],
                        contexts := if w in marks.contexts then marks.contexts else marks.contexts + [w]);
      } else if IsProject(w) {
        marks := marks.(projectIndices := marks.projectIndices + [i],
                        projects := if w in marks.projects then marks.projects else marks.projects + [w]);
      } else if IsLink(w) {
        marks := marks.(linkIndices := marks.linkIndices + [i]);
      } else if !IsExt(w) || ext.hidden {
      } else {
        keep := ParseExt(st, w);
      }
    }

    /** The extension branch of the description loop: a `key:value` word on a task not hidden. */
    method ParseExt(ghost st: WalkState, w: string) returns (keep: bool)
      requires Snap() == st.f && IsExt(w) && !ext.hidden
      requires !IsContext(w) && !IsProject(w) && !IsLink(w)
      modifies this
      ensures Snap() == Step(st, w).f
      ensures Step(st, w).words == if keep then st.words + [w] else st.words
    {
      keep := false;
      if IsTrackerId(w) {
        ext := ext.(trackerId := w[11..]);
      } else if IsDue(w) {
        if rec.recStr != "" {
          keep := true;
        } else {
          ext := ext.(dueDate := DateOf(w[4..]));
        }
      } else if IsDefer(w) {
        if rec.recStr != "" {
          keep := true;
        } else {
          ext := ext.(deferDate := Some(DateOf(w[2..])));
        }
      } else if IsRec1(w) || IsRec2(w) || IsRec3(w) {
        keep := ParseRec(st, w);
      } else if IsPin(w) {
        ext := ext.(pinned := true);
      } else if IsHide(w) {
        ResetProps();
        ext := ext.(hidden := true);
      } else if IsPriExt(w) {
      } else {
        keep := true;
      }
    }

    /** A recurrence word: accepted when its guard holds, otherwise left in the description. */
    method ParseRec(ghost st: WalkState, w: string) returns (keep: bool)
      requires Snap() == st.f && IsExt(w) && !ext.hidden
      requires !IsContext(w) && !IsProject(w) && !IsLink(w)
      requires !IsTrackerId(w) && !IsDue(w) && !IsDefer(w) && (IsRec1(w) || IsRec2(w) || IsRec3(w))
      modifies this
      ensures Snap() == Step(st, w).f
      ensures Step(st, w).words == if keep then st.words + [w] else st.words
    {
      keep := false;
      if IsRec1(w) {
        if ext.dueDate != NoDue || head.creationDate == NoDate {
          keep := true;
        } else {
          rec := rec.(recStr := w, recType := 1);
        }
      } else if IsRec2(w) {
        if ext.dueDate != NoDue || (head.completed && head.completionDate == NoDate) {
          keep := true;
        } else {
          rec := rec.(recStr := w, recType := 2);
        }
      } else {
        if ext.dueDate != NoDue || head.creationDate == NoDate {
          keep := true;
        } else {
          rec := rec.(recStr := w, recType := 3);
        }
      }
    }

    /** The header of `_parse_task_str`: `x`, a priority and the dates at the front. */
    method ParseHeader(ws: seq<string>) returns (descPos: nat)
      modifies this
      ensures (Snap(), descPos) == Header(old(Snap()), ws)
    {
      descPos := 0;
      if |ws| > 0 && ws[0] == "x" {
        head := head.(completed := true);
        if |ws| > 1 && DateParses(ws[1]) {
          head := head.(completionDate := DateOf(ws[1]));
          if |ws| > 2 && DateParses(ws[2]) {
            head := head.(creationDate := DateOf(ws[2]));
            descPos := 3;
          } else {
            descPos := 2;
          }
        } else {
          descPos := 1;
        }
      } else if |ws| > 0 && IsPrio(ws[0]) {
        head := head.(priority := ws[0]);
        if |ws| > 1 && DateParses(ws[1]) {
          head := head.(creationDate := DateOf(ws[1]));
          descPos := 2;
        } else {
          descPos := 1;
        }
      } else if |ws| > 0 && DateParses(ws[0]) {
        head := head.(creationDate := DateOf(ws[0]));
        descPos := 1;
      }
    }

    /**
     * `_parse_task_str`: the header, then the description loop, which splices
     * consumed words out of the word list while it walks it.
     */
    method ParseTaskStr()
      modifies this
      ensures Snap() == ParseFrom(old(Snap()))
    {
      var ws := SplitWords(text);
      var descPos := ParseHeader(ws);
      ghost var h := Snap();
      var words := ws[descPos..];
      ghost var desc := words;
      ghost var st := WalkState(h, []);
      ghost var done := 0;
      var i := 0;
      while i < |words|
        invariant done <= |desc| && st == Walk(WalkState(h, []), desc[..done])
        invariant Snap() == st.f && words == st.words + desc[done..] && i == |st.words|
        decreases |words| - i
      {
        WalkStep(h, desc, done);
        words, i := WalkWord(st, desc, done, words, i);
        st := Step(st, desc[done]);
        done := done + 1;
      }
      WalkDone(h, desc, done);
      FinishMarks(words);
    }

    /**
     * One pass of the description loop: word `i` is parsed, and spliced out
     * (`words.splice(i, 1); i--; len--`) unless it stays in the description.
     */
    method WalkWord(ghost st: WalkState, ghost desc: seq<string>, ghost done: nat, words: seq<string>, i: nat)
        returns (words': seq<string>, i': nat)
      requires done < |desc| && Snap() == st.f && words == st.words + desc[done..] && i == |st.words|
      modifies this
      ensures Snap() == Step(st, desc[done]).f
      ensures words' == Step(st, desc[done]).words + desc[done + 1..] && i' == |Step(st, desc[done]).words|
    {
      var w := words[i];
      SpliceStep(words, st.words, desc, done, true);
      var keep := ParseWord(st, i, w);
      SpliceStep(words, st.words, desc, done, keep);
      if keep {
        words', i' := words, i + 1;
      } else {
        words', i' := words[..i] + words[i + 1..], i;
      }
    }

    /** After the loop: the first context and project, and the words left as the description. */
    method FinishMarks(words: seq<string>)
      modifies this
      ensures Snap() == Finish(WalkState(old(Snap()), words))
    {
      if |marks.contexts| > 0 {
        marks := marks.(firstContext := marks.contexts[0]);
      }
      if |marks.projects| > 0 {
        marks := marks.(firstProject := marks.projects[0]);
      }
      marks := marks.(description := words);
    }

    /**
     * `check_deferred_tasks(today)`: returns whether a deferred task has just
     * become due; the creation date becomes the defer date.
     */
    method CheckDeferredTasks(today: Date) returns (r: bool)
      modifies this
      ensures (r, Snap()) == CheckDeferred(old(Snap()), today)
    {
      if ext.deferDate.None? {
        return false;
      }
      head := head.(creationDate := ext.deferDate.value);
      if Before(today, ext.deferDate.value) {
        ext := ext.(isDeferred := true);
        return false;
      }
      r := ext.isDeferred;
      ext := ext.(isDeferred := false);
    }

    /**
     * The type-3 loops: from the creation month, months forward (`month +=
     * increment` with the carry into the year) until the date is not before
     * today, then the day down to one that exists.
     */
    static method MonthlyIter(created: Date, inc: nat, day: int, today: Date) returns (year: int, month: int, d: int)
      requires Valid(created) && inc >= 1 && 1 <= day <= 99 && ValidToday(today)
      ensures var ym := AdvanceMonths(created.year, created.month, day, inc, today);
              year == ym.0 && month == ym.1 && d == LastValidDay(ym.0, ym.1, day)
    {
      year, month := created.year, created.month;
      ghost var target := AdvanceMonths(year, month, day, inc, today);
      while Before(Date(year, month, day), today)
        invariant 1 <= month <= 12 && AdvanceMonths(year, month, day, inc, today) == target
        decreases Key(today) - Key(Date(year, month, day))
      {
        BeforeKey(Date(year, month, day), today);
        MonthStepAdvances(year, month, inc, day);
        year, month := MonthStep(year, month, inc).0, MonthStep(year, month, inc).1;
      }
      d := DayDown(year, month, day);
    }

    /** `while (!Date.parse(iter)) --day`. */
    static method DayDown(year: int, month: int, day: int) returns (d: int)
      requires year >= 0 && 1 <= month <= 12 && day >= 1
      ensures d == LastValidDay(year, month, day)
    {
      d := day;
      while !Valid(Date(year, month, d))
        invariant 1 <= d <= day && LastValidDay(year, month, d) == LastValidDay(year, month, day)
        decreases d
      {
        d := d - 1;
      }
    }

    /** `while (iter < today) iter.setDate(iter.getDate() + increment)`. */
    static method DailyIter(start: Date, inc: nat, today: Date) returns (iter: Date)
      requires Valid(start) && Valid(today) && inc >= 1
      ensures iter == AdvanceDays(start, inc, today)
    {
      iter := start;
      while Before(iter, today)
        invariant Valid(iter) && AdvanceDays(iter, inc, today) == AdvanceDays(start, inc, today)
        decreases DayNumber(today) - DayNumber(iter)
      {
        BeforeDayNumber(iter, today);
        iter := AddDays(iter, inc);
      }
    }

    /**
     * `_get_recurrence_date()`: whether the task recurs today and the date of
     * its next recurrence.  As its comment says, it relies on the parse having
     * left valid dates and the reference date its kind needs.
     */
    method GetRecurrenceDate(today: Date) returns (doRecur: bool, next: Date)
      requires rec.recStr != "" && RecAssumed(Snap()) && ValidToday(today)
      ensures (doRecur, next) == RecurrenceDate(Snap(), today)
    {
      var recStr, created, done := rec.recStr, head.creationDate, head.completionDate;
      if rec.recType == 3 {
        var inc := Rec3Months(recStr);
        var day := Rec3Day(recStr);
        var year, month, d := MonthlyIter(created, inc, day, today);
        var iter := Date(year, month, d);
        doRecur := iter == today && created != today;
        if doRecur || iter == created {
          var ym := MonthStep(year, month, inc);
          d := DayDown(ym.0, ym.1, d);
          iter := Date(ym.0, ym.1, d);
        }
        next := iter;
      } else {
        if rec.recType == 2 && done == NoDate {
          return false, UnknownNext;
        }
        var ref := if rec.recType == 2 then done else created;
        var inc := if rec.recType == 2 then Rec2Days(recStr) else Rec1Days(recStr);
        var iter := DailyIter(ref, inc, today);
        doRecur := iter == today && ref != today;
        if doRecur || iter == ref {
          iter := AddDays(iter, inc);
        }
        next := iter;
      }
    }

    /**
     * `reset(self_update, task_str)`: a non-empty `s` replaces the line; the
     * line is parsed, and with `selfUpdate` the recurrence and the deferral
     * are checked.  The item ends up in the state `Settle` describes.
     */
    method Reset(selfUpdate: bool, s: string, today: Date)
      requires selfUpdate ==> ValidToday(today)
      modifies this
      decreases if selfUpdate then 8 * Rank(Effective(s, text), today) + 6 else 6
      ensures !selfUpdate ==> Snap() == Parse(Effective(s, old(text)))
      ensures selfUpdate ==> Snap() == Settle(Effective(s, old(text)), today)
    {
      if s != "" {
        text := s;
      }
      ghost var line := text;
      ResetProps();
      ParseTaskStr();
      ParseText(line);
      assert Snap() == Parse(line);
      if selfUpdate {
        SelfUpdate(today);
      }
    }

    /** The `self_update` half of `reset`: the recurrence check, then the deferral check. */
    method SelfUpdate(today: Date)
      requires ValidToday(today) && Snap() == Parse(text)
      modifies this
      decreases 8 * Rank(text, today) + 5
      ensures Snap() == Settle(old(text), today)
    {
      ParsedSettled(text);
      if Fires(Snap(), today) {
        SettleRecurred(text, today);
      } else {
        SettleQuiet(text, today);
      }
      var _ := CheckRecurrence(today);
      var _ := CheckDeferredTasks(today);
    }

    /**
     * `check_recurrence()` on a settled item (after `reset`, or in the daily
     * sweep): when the task recurs today its creation date is set to today in
     * the line and the line is re-read (reopening a completed task);
     * otherwise the next recurrence date is recorded.
     */
    method CheckRecurrence(today: Date) returns (doRecur: bool)
      requires ValidToday(today) && Settled(Snap())
      modifies this
      decreases 8 * (if Fires(Snap(), today) then Bound(text) else 0) + 4
      ensures doRecur == Fires(old(Snap()), today)
      ensures doRecur ==> Snap() == Renewed(old(text), today)
      ensures !doRecur ==> Snap() == RecordNext(old(Snap()), today)
    {
      if rec.recStr == "" {
        return false;
      }
      doRecur := CheckRecurring(today);
    }

    /** `check_recurrence()` past its first line: the task has a recurrence. */
    method CheckRecurring(today: Date) returns (doRecur: bool)
      requires ValidToday(today) && Settled(Snap()) && rec.recStr != ""
      modifies this
      decreases 8 * (if Fires(Snap(), today) then Bound(text) else 0) + 3
      ensures doRecur == Fires(old(Snap()), today)
      ensures doRecur ==> Snap() == Renewed(old(text), today)
      ensures !doRecur ==> Snap() == RecordNext(old(Snap()), today)
    {
      var next;
      doRecur, next := GetRecurrenceDate(today);
      if !doRecur {
        rec := rec.(recNext := next);
        return;
      }
      Recur(today);
    }

    /** The recurring half of `check_recurrence` on a settled item. */
    method Recur(today: Date)
      requires ValidToday(today) && Settled(Snap()) && Fires(Snap(), today)
      modifies this
      decreases 8 * Bound(text) + 2
      ensures Snap() == Renewed(old(text), today)
    {
      ghost var n := NextStr(text, Snap(), Fmt(today));
      SettledRecurs(Snap(), today);
      RecurLine(today, n, Bound(text));
    }

    /** The creation date of the line set to today, then the line toggled or reset. */
    method RecurLine(today: Date, ghost n: string, ghost b: nat)
      requires ValidToday(today) && |head.priority| == 3
      requires n == NextStr(text, Snap(), Fmt(today)) && Rank(n, today) < b
      modifies this
      decreases 8 * b + 1
      ensures Snap() == Settle(n, today)
    {
      NextStrToggle(Snap(), Fmt(today));
      text := InsertCreation(text, head.completed, head.priority != NoPriority, Fmt(today));
      if head.completed {
        ToggleTask(today);
      } else {
        Reset(true, "", today);
      }
    }

    /** The creation-date rewrite of `check_recurrence`, on the words of the line. */
    static method InsertCreation(s: string, completed: bool, prio: bool, t: string) returns (r: string)
      ensures r == Rewrite(s, completed, prio, t)
    {
      var words := SplitSpaces(s);
      var idx := if completed then 2 else if prio then 1 else 0;
      if idx < |words| && IsoShape(words[idx]) {
        words := words[idx := t];
      } else {
        var at := if idx <= |words| then idx else |words|;
        words := words[..at] + [t] + words[at..];
      }
      r := Join(words);
    }

    /**
     * `toggle_task()`: a completed task is reopened (its `pri:A` becomes a
     * leading `(A)`, the `x` and completion date go); an open one is completed
     * (`x <today>` in front, its priority kept as `pri:A`).  The new line is
     * then reset with `self_update`.
     */
    method ToggleTask(today: Date)
      requires ValidToday(today) && |head.priority| == 3
      modifies this
      decreases 8 * Rank(ToggleTarget(Snap(), Fmt(today)), today) + 7
      ensures Snap() == Settle(ToggleTarget(old(Snap()), Fmt(today)), today)
    {
      var s;
      if head.completed {
        s := ReopenLine(text);
      } else {
        s := CompleteLine(text, head.priority, Fmt(today));
      }
      Reset(true, s, today);
    }

    /** The completed branch of `toggle_task`: the `pri:A` word back to `(A)`, the mark dropped. */
    static method ReopenLine(text: string) returns (s: string)
      ensures s == Reopen(text)
    {
      var words := SplitSpaces(text);
      var prio := "";
      var i := 0;
      while i < |words|
        invariant i <= |words| && forall j :: 0 <= j < i ==> !IsPriExt(words[j])
      {
        if IsPriExt(words[i]) {
          break;
        }
        i := i + 1;
      }
      FirstIndexIs(words, IsPriExt, i);
      if i < |words| {
        prio := ['(', words[i][4], ')'] + " ";
        words := words[..i] + words[i + 1..];
      }
      if |words| > 1 && DateParseTruthy(words[1]) {
        words := words[2..];
      } else if |words| > 0 {
        words := words[1..];
      }
      s := prio + Join(words);
    }

    /** The open branch of `toggle_task`: `x <today>` in front, the priority kept as `pri:A`. */
    static method CompleteLine(text: string, priority: string, t: string) returns (s: string)
      requires |priority| == 3
      ensures s == CompleteStr(text, priority, t)
    {
      if priority == NoPriority {
        s := "x" + " " + t + " " + text;
      } else {
        s := "x" + " " + t + " " + (if |text| >= 3 then text[3..] else "") + " " + PriWord(priority[1]);
      }
    }

    /**
     * `_on_pin_icon_clicked()`: the pinned flag flips; pinning appends
     * ` pin:1` to the line, unpinning removes the first `pin:1` word.  The
     * line is not re-parsed.
     */
    method TogglePin()
      modifies this
      ensures Snap() == TogglePinFields(old(Snap()))
    {
      var pinned := !ext.pinned;
      var s;
      if pinned {
        s := text + " " + "pin:1";
      } else {
        s := UnpinLine(text);
      }
      text, ext := s, ext.(pinned := pinned);
    }

    /** Unpinning: the first `pin:1` word removed. */
    static method UnpinLine(text: string) returns (s: string)
      ensures s == UnpinStr(text)
    {
      var words := SplitSpaces(text);
      var i := 0;
      while i < |words|
        invariant i <= |words| && forall j :: 0 <= j < i ==> !IsPin(words[j])
      {
        if IsPin(words[i]) {
          words := words[..i] + words[i + 1..];
          break;
        }
        i := i + 1;
      }
      FirstIndexIs(SplitSpaces(text), IsPin, i);
      s := Join(words);
    }
  }

  /** One more word of the description walked. */
  lemma WalkStep(h: Fields, desc: seq<string>, done: nat)
    requires done < |desc|
    ensures Walk(WalkState(h, []), desc[..done + 1])
            == Step(Walk(WalkState(h, []), desc[..done]), desc[done])
  {
    assert desc[..done + 1] == desc[..done] + [desc[done]];
    WalkAppend(WalkState(h, []), desc[..done], desc[done]);
  }

  /** The whole description walked. */
  lemma WalkDone(h: Fields, desc: seq<string>, done: nat)
    requires done == |desc|
    ensures Walk(WalkState(h, []), desc[..done]) == Walk(WalkState(h, []), desc)
  {
    assert desc[..done] == desc;
  }

  /**
   * The word list after one pass: the kept words, then the words still to
   * walk; a consumed word is spliced out at the position of the pass.
   */
  lemma SpliceStep(words: seq<string>, kept: seq<string>, desc: seq<string>, done: nat, keep: bool)
    requires done < |desc| && words == kept + desc[done..]
    ensures |kept| < |words| && words[|kept|] == desc[done]
    ensures keep ==> words == (kept + [desc[done]]) + desc[done + 1..]
    ensures !keep ==> words[..|kept|] + words[|kept| + 1..] == kept + desc[done + 1..]
  {
    assert desc[done..] == [desc[done]] + desc[done + 1..];
  }

}
