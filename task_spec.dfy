/**
 * The meaning of one todo.txt line, as the task item computes it: the fields
 * `reset_props` clears, the header and description parse, the deferral check
 * and the recurrence date.  Everything here is a function of its inputs; the
 * class in task_item.dfy is proved against these functions.
 */
module TaskSpec {
  import opened Options
  import opened Text
  import opened Dates
  import opened Tokens

  /** The priority of a task without one; it sorts after '(Z)'. */
  const NoPriority: string := "(_)"

  /** The parsed state of a task item (widget state left out). */
  datatype Fields = Fields(
    text: string,
    trackerId: string,
    pinned: bool,
    priority: string,
    projects: seq<string>,
    contexts: seq<string>,
    creationDate: Date,
    completionDate: Date,
    dueDate: Date,
    completed: bool,
    hidden: bool,
    deferDate: Option<Date>,
    isDeferred: bool,
    recType: int,
    recStr: string,
    recNext: Date,
    firstContext: string,
    firstProject: string,
    description: seq<string>,
    contextIndices: seq<nat>,
    projectIndices: seq<nat>,
    linkIndices: seq<nat>)

  /** `reset_props`: every parsed field back to its default; the line itself is kept. */
  function Defaults(text: string): (f: Fields)
    ensures f.text == text && !f.completed && !f.hidden && f.recStr == ""
    ensures f.creationDate == NoDate && f.completionDate == NoDate && f.dueDate == NoDue
  {
    Fields(text, "", false, NoPriority, [], [], NoDate, NoDate, NoDue, false, false,
           None, false, 1, "", NoDue, "", "", [], [], [], [])
  }

  /**
   * The header of a line: `x` [completion date [creation date]], or
   * `(A)` [creation date], or a creation date.  Returns the fields with the
   * header applied and the position where the description starts.
   */
  function Header(f: Fields, ws: seq<string>): (r: (Fields, nat))
    ensures r.1 <= |ws|
  {
    if |ws| > 0 && ws[0] == "x" then
      var f1 := f.(completed := true);
      if |ws| > 1 && DateParses(ws[1]) then
        var f2 := f1.(completionDate := DateOf(ws[1]));
        if |ws| > 2 && DateParses(ws[2]) then (f2.(creationDate := DateOf(ws[2])), 3)
        else (f2, 2)
      else (f1, 1)
    else if |ws| > 0 && IsPrio(ws[0]) then
      var f1 := f.(priority := ws[0]);
      if |ws| > 1 && DateParses(ws[1]) then (f1.(creationDate := DateOf(ws[1])), 2)
      else (f1, 1)
    else if |ws| > 0 && DateParses(ws[0]) then
      (f.(creationDate := DateOf(ws[0])), 1)
    else
      (f, 0)
  }

  /** The description walk so far: the fields and the words kept in the description. */
  datatype WalkState = WalkState(f: Fields, words: seq<string>)

  /** The word stays in the description. */
  function Keep(st: WalkState, w: string): WalkState
  {
    WalkState(st.f, st.words + [w])
  }

  /** The word is consumed: `words.splice(i, 1); i--; len--`. */
  function Consume(st: WalkState, f: Fields): WalkState
  {
    WalkState(f, st.words)
  }

  /** One iteration of the description loop, on word `w`. */
  function Step(st: WalkState, w: string): WalkState
  {
    var f := st.f;
    var i := |st.words|;
    if IsContext(w) then
      Keep(WalkState(f.(contextIndices := f.contextIndices + [i],
                        contexts := if w in f.contexts then f.contexts else f.contexts + [w]), st.words), w)
    else if IsProject(w) then
      Keep(WalkState(f.(projectIndices := f.projectIndices + [i],
                        projects := if w in f.projects then f.projects else f.projects + [w]), st.words), w)
    else if IsLink(w) then
      Keep(WalkState(f.(linkIndices := f.linkIndices + [i]), st.words), w)
    else if !IsExt(w) || f.hidden then
      Keep(st, w)
    else if IsTrackerId(w) then
      Consume(st, f.(trackerId := w[11..]))
    else if IsDue(w) then
      if f.recStr != "" then Keep(st, w) else Consume(st, f.(dueDate := DateOf(w[4..])))
    else if IsDefer(w) then
      if f.recStr != "" then Keep(st, w) else Consume(st, f.(deferDate := Some(DateOf(w[2..]))))
    else if IsRec1(w) then
      if f.dueDate != NoDue || f.creationDate == NoDate then Keep(st, w)
      else Consume(st, f.(recStr := w, recType := 1))
    else if IsRec2(w) then
      if f.dueDate != NoDue || (f.completed && f.completionDate == NoDate) then Keep(st, w)
      else Consume(st, f.(recStr := w, recType := 2))
    else if IsRec3(w) then
      if f.dueDate != NoDue || f.creationDate == NoDate then Keep(st, w)
      else Consume(st, f.(recStr := w, recType := 3))
    else if IsPin(w) then
      Consume(st, f.(pinned := true))
    else if IsHide(w) then
      Consume(st, Defaults(f.text).(hidden := true))
    else if IsPriExt(w) then
      Consume(st, f)
    else
      Keep(st, w)
  }

  /** The description loop over the remaining words. */
  function Walk(st: WalkState, ws: seq<string>): WalkState
    decreases |ws|
  {
    if |ws| == 0 then st else Walk(Step(st, ws[0]), ws[1..])
  }

  lemma {:induction false} WalkAppend(st: WalkState, ws: seq<string>, w: string)
    ensures Walk(st, ws + [w]) == Step(Walk(st, ws), w)
    decreases |ws|
  {
    if |ws| == 0 {
      assert ws + [w] == [w];
    } else {
      assert (ws + [w])[1..] == ws[1..] + [w];
      WalkAppend(Step(st, ws[0]), ws[1..], w);
    }
  }

  /** After the loop: the first context and project, and the description words. */
  function Finish(st: WalkState): Fields
  {
    var f := st.f;
    f.(firstContext := if |f.contexts| > 0 then f.contexts[0] else f.firstContext,
       firstProject := if |f.projects| > 0 then f.projects[0] else f.firstProject,
       description := st.words)
  }

  /** `_parse_task_str` applied to fields `f` (which hold the line in `f.text`). */
  function ParseFrom(f: Fields): Fields
  {
    var ws := SplitWords(f.text);
    var h := Header(f, ws);
    Finish(Walk(WalkState(h.0, []), ws[h.1..]))
  }

  /** `reset_props(); _parse_task_str()` on a line. */
  function Parse(text: string): Fields
  {
    ParseFrom(Defaults(text))
  }

  // ---------------------------------------------------------------------
  // What the parse guarantees

  /** Creation and completion dates are valid or absent ('0000-00-00'). */
  predicate DatesOk(f: Fields)
  {
    (f.creationDate == NoDate || Valid(f.creationDate))
    && (f.completionDate == NoDate || Valid(f.completionDate))
  }

  /**
   * What the recurrence code assumes of a task with a recurrence: a token of
   * its kind, and the reference date its kind counts from.
   */
  predicate RecAssumed(f: Fields)
  {
    DatesOk(f)
    && (f.recType == 1 ==> IsRec1(f.recStr) && Valid(f.creationDate))
    && (f.recType == 2 ==> IsRec2(f.recStr))
    && (f.recType == 3 ==> IsRec3(f.recStr) && Valid(f.creationDate))
    && 1 <= f.recType <= 3
  }

  /** Invariant of the description walk. */
  predicate WalkInv(f: Fields)
  {
    DatesOk(f) && |f.priority| == 3
    && (f.deferDate.Some? ==> ValidToday(f.deferDate.value))
    && (f.hidden ==> f.recStr == "")
    && (f.recStr != "" ==> RecAssumed(f) && (f.recType == 2 ==> !(f.completed && f.completionDate == NoDate)))
  }

  /** The header fields a walk step never touches unless it hides the task. */
  predicate SameHeader(a: Fields, b: Fields)
  {
    a.completed == b.completed && a.priority == b.priority
    && a.creationDate == b.creationDate && a.completionDate == b.completionDate
  }

  /** `WalkInv` reads only the header, the hidden flag and the recurrence. */
  lemma WalkInvFrame(a: Fields, b: Fields)
    requires WalkInv(a) && SameHeader(a, b) && a.hidden == b.hidden
    requires b.deferDate.Some? ==> ValidToday(b.deferDate.value)
    requires a.recStr == b.recStr && a.recType == b.recType
    ensures WalkInv(b)
  {
  }

  /** Words that leave the header, the hidden flag and the recurrence alone. */
  predicate Neutral(st: WalkState, w: string)
  {
    IsContext(w) || IsProject(w) || IsLink(w) || !IsExt(w) || st.f.hidden
    || IsTrackerId(w) || IsDue(w) || IsDefer(w)
  }

  lemma StepNeutral(st: WalkState, w: string)
    requires Neutral(st, w)
    ensures var r := Step(st, w).f;
            SameHeader(r, st.f) && r.hidden == st.f.hidden && r.recStr == st.f.recStr && r.recType == st.f.recType
    ensures Step(st, w).f.text == st.f.text
    ensures WalkInv(st.f) && Step(st, w).f.deferDate.Some? ==> ValidToday(Step(st, w).f.deferDate.value)
  {
  }

  lemma StepRecurrence(st: WalkState, w: string)
    requires WalkInv(st.f) && !Neutral(st, w) && (IsRec1(w) || IsRec2(w) || IsRec3(w))
    ensures WalkInv(Step(st, w).f) && SameHeader(Step(st, w).f, st.f) && !Step(st, w).f.hidden
  {
    var f := st.f;
    var r := Step(st, w).f;
    if r != f {
      assert r.recStr == w && SameHeader(r, f) && !r.hidden;
    }
  }

  lemma StepOther(st: WalkState, w: string)
    requires !Neutral(st, w) && !(IsRec1(w) || IsRec2(w) || IsRec3(w))
    ensures var r := Step(st, w).f;
            r == st.f.(pinned := true) || r == Defaults(st.f.text).(hidden := true) || r == st.f
  {
  }

  lemma StepKeeps(st: WalkState, w: string)
    requires WalkInv(st.f)
    ensures WalkInv(Step(st, w).f)
    ensures st.f.hidden ==> Step(st, w).f.hidden
    ensures !Step(st, w).f.hidden ==> SameHeader(Step(st, w).f, st.f)
  {
    var f := st.f;
    var r := Step(st, w).f;
    if Neutral(st, w) {
      StepNeutral(st, w);
      WalkInvFrame(f, r);
    } else if IsRec1(w) || IsRec2(w) || IsRec3(w) {
      StepRecurrence(st, w);
    } else {
      StepOther(st, w);
      if r == f.(pinned := true) {
        WalkInvFrame(f, r);
      }
    }
  }

  /**
   * The walk keeps the invariant; a hidden task stays hidden, and a task that
   * ends up not hidden has the header fields the header gave it.
   */
  lemma {:induction false} WalkKeeps(st: WalkState, ws: seq<string>)
    requires WalkInv(st.f)
    ensures WalkInv(Walk(st, ws).f)
    ensures st.f.hidden ==> Walk(st, ws).f.hidden
    ensures !Walk(st, ws).f.hidden ==> SameHeader(Walk(st, ws).f, st.f)
    decreases |ws|
  {
    if |ws| > 0 {
      StepKeeps(st, ws[0]);
      WalkKeeps(Step(st, ws[0]), ws[1..]);
    }
  }

  /** Neither the header nor the walk touches the line itself. */
  lemma StepText(st: WalkState, w: string)
    ensures Step(st, w).f.text == st.f.text
  {
    if Neutral(st, w) {
      StepNeutral(st, w);
    } else if !(IsRec1(w) || IsRec2(w) || IsRec3(w)) {
      StepOther(st, w);
    }
  }

  lemma {:induction false} WalkText(st: WalkState, ws: seq<string>)
    ensures Walk(st, ws).f.text == st.f.text
    decreases |ws|
  {
    if |ws| > 0 {
      StepText(st, ws[0]);
      WalkText(Step(st, ws[0]), ws[1..]);
    }
  }

  lemma ParseText(text: string)
    ensures Parse(text).text == text
  {
    var ws := SplitWords(text);
    var h := Header(Defaults(text), ws);
    assert h.0.text == text;
    WalkText(WalkState(h.0, []), ws[h.1..]);
  }

  lemma HeaderKeeps(f: Fields, ws: seq<string>)
    requires DatesOk(f) && |f.priority| == 3 && f.recStr == "" && !f.hidden && f.deferDate.None?
    ensures WalkInv(Header(f, ws).0)
  {
    if |ws| > 0 && ws[0] == "x" {
      HeaderCompleted(f, ws);
    } else if |ws| > 0 && IsPrio(ws[0]) {
      HeaderPrio(f, ws);
    } else {
      HeaderPlain(f, ws);
    }
  }

  lemma HeaderCompleted(f: Fields, ws: seq<string>)
    requires DatesOk(f) && |f.priority| == 3 && f.recStr == "" && !f.hidden && f.deferDate.None?
    requires |ws| > 0 && ws[0] == "x"
    ensures WalkInv(Header(f, ws).0)
  {
  }

  lemma HeaderPrio(f: Fields, ws: seq<string>)
    requires DatesOk(f) && |f.priority| == 3 && f.recStr == "" && !f.hidden && f.deferDate.None?
    requires |ws| > 0 && ws[0] != "x" && IsPrio(ws[0])
    ensures WalkInv(Header(f, ws).0)
  {
  }

  lemma HeaderPlain(f: Fields, ws: seq<string>)
    requires DatesOk(f) && |f.priority| == 3 && f.recStr == "" && !f.hidden && f.deferDate.None?
    requires !(|ws| > 0 && (ws[0] == "x" || IsPrio(ws[0])))
    ensures WalkInv(Header(f, ws).0)
  {
  }

  /** A walk step copies the line's text and reads nothing else of it. */
  lemma StepRetext(st: WalkState, w: string, b: string)
    ensures var r := Step(st, w);
            Step(WalkState(st.f.(text := b), st.words), w) == WalkState(r.f.(text := b), r.words)
  {
    hide Step;
    if IsContext(w) || IsProject(w) || IsLink(w) || !IsExt(w) || st.f.hidden {
      StepRetextKept(st, w, b);
    } else if IsTrackerId(w) || IsDue(w) || IsDefer(w) {
      StepRetextValue(st, w, b);
    } else {
      StepRetextRest(st, w, b);
    }
  }

  lemma StepRetextKept(st: WalkState, w: string, b: string)
    requires IsContext(w) || IsProject(w) || IsLink(w) || !IsExt(w) || st.f.hidden
    ensures var r := Step(st, w);
            Step(WalkState(st.f.(text := b), st.words), w) == WalkState(r.f.(text := b), r.words)
  {
  }

  lemma StepRetextValue(st: WalkState, w: string, b: string)
    requires !(IsContext(w) || IsProject(w) || IsLink(w) || !IsExt(w) || st.f.hidden)
    requires IsTrackerId(w) || IsDue(w) || IsDefer(w)
    ensures var r := Step(st, w);
            Step(WalkState(st.f.(text := b), st.words), w) == WalkState(r.f.(text := b), r.words)
  {
  }

  lemma StepRetextRest(st: WalkState, w: string, b: string)
    requires !(IsContext(w) || IsProject(w) || IsLink(w) || !IsExt(w) || st.f.hidden)
    requires !(IsTrackerId(w) || IsDue(w) || IsDefer(w))
    ensures var r := Step(st, w);
            Step(WalkState(st.f.(text := b), st.words), w) == WalkState(r.f.(text := b), r.words)
  {
    hide IsContext, IsProject, IsLink, IsExt, IsTrackerId, IsDue, IsDefer, IsRec1, IsRec2, IsRec3, IsPin, IsHide, IsPriExt;
    var f := st.f;
    var g := f.(text := b);
    var st2 := WalkState(g, st.words);
    if IsRec1(w) {
      assert Step(st2, w) == if f.dueDate != NoDue || f.creationDate == NoDate then Keep(st2, w) else Consume(st2, g.(recStr := w, recType := 1));
    } else if IsRec2(w) {
    } else if IsRec3(w) {
    } else if IsPin(w) || IsHide(w) {
    } else {
    }
  }

  lemma StepPriority(st: WalkState, w: string)
    ensures var p := Step(st, w).f.priority;
            p == st.f.priority || p == NoPriority
  {
    if Neutral(st, w) {
      StepNeutral(st, w);
    } else if IsRec1(w) || IsRec2(w) || IsRec3(w) {
    } else {
      StepOther(st, w);
    }
  }

  /** The walk copies the line's text and reads nothing else of it. */
  lemma {:induction false} WalkRetext(st: WalkState, ws: seq<string>, b: string)
    ensures var r := Walk(st, ws);
            Walk(WalkState(st.f.(text := b), st.words), ws) == WalkState(r.f.(text := b), r.words)
    decreases |ws|
  {
    if |ws| > 0 {
      StepRetext(st, ws[0], b);
      WalkRetext(Step(st, ws[0]), ws[1..], b);
    }
  }

  /** Two lines with the same words parse to the same fields. */
  lemma ParseRetext(a: string, b: string)
    requires SplitWords(a) == SplitWords(b)
    ensures Parse(b) == Parse(a).(text := b)
  {
    hide Walk, Step, SplitWords;
    var ws := SplitWords(a);
    var h := Header(Defaults(a), ws);
    assert Header(Defaults(b), ws) == (h.0.(text := b), h.1);
    WalkRetext(WalkState(h.0, []), ws[h.1..], b);
  }

  /** A walk step keeps the priority, or clears it when it hides the task. */
  lemma {:induction false} WalkPriority(st: WalkState, ws: seq<string>)
    ensures var p := Walk(st, ws).f.priority;
            p == st.f.priority || p == NoPriority
    decreases |ws|
  {
    if |ws| > 0 {
      StepPriority(st, ws[0]);
      WalkPriority(Step(st, ws[0]), ws[1..]);
    }
  }

  /**
   * A parsed line satisfies what the recurrence code assumes; and a task that
   * kept a recurrence is not hidden, so its header fields are those of its
   * first words.
   */
  lemma ParseInv(text: string)
    ensures WalkInv(Parse(text))
    ensures Parse(text).recStr != "" ==> RecAssumed(Parse(text)) && !Parse(text).hidden
    ensures !Parse(text).hidden ==>
              SameHeader(Parse(text), Header(Defaults(text), SplitWords(text)).0)
  {
    var ws := SplitWords(text);
    var h := Header(Defaults(text), ws);
    HeaderKeeps(Defaults(text), ws);
    WalkKeeps(WalkState(h.0, []), ws[h.1..]);
  }

  // ---------------------------------------------------------------------
  // Deferral

  /**
   * `check_deferred_tasks(today)`: a task with a defer date takes it as its
   * creation date; it is deferred while that date is after today.  Returns
   * whether a deferred task has just become due, and the new fields.
   */
  function CheckDeferred(f: Fields, today: Date): (r: (bool, Fields))
  {
    match f.deferDate
    case None => (false, f)
    case Some(d) =>
      var f1 := f.(creationDate := d);
      if Before(today, d) then (false, f1.(isDeferred := true))
      else (f.isDeferred, f1.(isDeferred := false))
  }

  // ---------------------------------------------------------------------
  // Recurrence

  /**
   * The type-3 loop `while (iter < today)`: months are added to (year, month)
   * until the date with the recurrence day is not before today.
   */
  function AdvanceMonths(year: int, month: int, day: int, inc: nat, today: Date): (r: (int, int))
    requires 1 <= month <= 12 && 1 <= day <= 99 && inc >= 1 && InRange(today)
    ensures 1 <= r.1 <= 12 && r.0 >= year
    ensures !Before(Date(r.0, r.1, day), today)
    ensures r != (year, month) ==> Before(Date(MonthBack(r.0, r.1, inc).0, MonthBack(r.0, r.1, inc).1, day), today)
    decreases Key(today) - Key(Date(year, month, day))
  {
    BeforeKey(Date(year, month, day), today);
    if Before(Date(year, month, day), today) then
      var s := MonthStep(year, month, inc);
      MonthStepAdvances(year, month, inc, day);
      var r := AdvanceMonths(s.0, s.1, day, inc, today);
      assert r == s ==> MonthBack(r.0, r.1, inc) == (year, month);
      r
    else
      (year, month)
  }

  /** `AdvanceMonths` stays on the series: `k` whole increments past the start month. */
  lemma {:induction false} AdvanceMonthsSteps(year: int, month: int, day: int, inc: nat, today: Date) returns (k: nat)
    requires 1 <= month <= 12 && 1 <= day <= 99 && inc >= 1 && InRange(today)
    ensures var r := AdvanceMonths(year, month, day, inc, today);
            12 * r.0 + r.1 == 12 * year + month + k * inc
    decreases Key(today) - Key(Date(year, month, day))
  {
    BeforeKey(Date(year, month, day), today);
    if Before(Date(year, month, day), today) {
      var s := MonthStep(year, month, inc);
      MonthStepAdvances(year, month, inc, day);
      var j := AdvanceMonthsSteps(s.0, s.1, day, inc, today);
      k := j + 1;
      assert k * inc == j * inc + inc;
    } else {
      k := 0;
    }
  }

  /** The date a recurrence counts from: completion for kind 2, creation otherwise. */
  function Reference(f: Fields): Date
  {
    if f.recType == 2 then f.completionDate else f.creationDate
  }

  /**
   * `_get_recurrence_date()`: whether the task recurs today, and the date of
   * its next recurrence.
   */
  function RecurrenceDate(f: Fields, today: Date): (r: (bool, Date))
    requires f.recStr != "" && RecAssumed(f) && ValidToday(today)
  {
    if f.recType == 3 then
      var inc := Rec3Months(f.recStr);
      var day := Rec3Day(f.recStr);
      var ym := AdvanceMonths(f.creationDate.year, f.creationDate.month, day, inc, today);
      var d1 := LastValidDay(ym.0, ym.1, day);
      var iter := Date(ym.0, ym.1, d1);
      var fires := iter == today && f.creationDate != today;
      if fires || iter == f.creationDate then
        var ym2 := MonthStep(ym.0, ym.1, inc);
        (fires, Date(ym2.0, ym2.1, LastValidDay(ym2.0, ym2.1, d1)))
      else
        (fires, iter)
    else if f.recType == 2 && f.completionDate == NoDate then
      (false, UnknownNext)
    else
      var ref := Reference(f);
      var inc := if f.recType == 2 then Rec2Days(f.recStr) else Rec1Days(f.recStr);
      var iter := AdvanceDays(ref, inc, today);
      var fires := iter == today && ref != today;
      (fires, if fires || iter == ref then AddDays(iter, inc) else iter)
  }

  /** The task recurs today (`check_recurrence` would rewrite it). */
  predicate Fires(f: Fields, today: Date)
  {
    f.recStr != "" && RecAssumed(f) && ValidToday(today) && RecurrenceDate(f, today).0
  }

  /**
   * What `_get_recurrence_date` promises: no recurrence on the reference date;
   * kind 2 without a completion date has no known next date; otherwise the
   * next date is a valid date, never the reference date, not before today,
   * and after today whenever the task recurs today.
   */
  lemma RecurrenceBounds(f: Fields, today: Date)
    requires f.recStr != "" && RecAssumed(f) && ValidToday(today)
    ensures RecurrenceDate(f, today).0 ==> Reference(f) != today
    ensures f.recType == 2 && f.completionDate == NoDate ==>
              RecurrenceDate(f, today) == (false, UnknownNext)
    ensures !(f.recType == 2 && f.completionDate == NoDate) ==>
              var (fires, next) := RecurrenceDate(f, today);
              Valid(next) && next != Reference(f) && !Before(next, today)
              && (fires ==> Before(today, next))
  {
    if f.recType == 3 {
      MonthlyBounds(f, today);
    } else if !(f.recType == 2 && f.completionDate == NoDate) {
      DailyBounds(f, today);
    }
  }

  lemma MonthlyBounds(f: Fields, today: Date)
    requires f.recStr != "" && RecAssumed(f) && ValidToday(today) && f.recType == 3
    ensures var (fires, next) := RecurrenceDate(f, today);
            (fires ==> Reference(f) != today)
            && Valid(next) && next != Reference(f) && !Before(next, today)
            && (fires ==> Before(today, next))
  {
    var (fires, next) := RecurrenceDate(f, today);
    var inc := Rec3Months(f.recStr);
    var day := Rec3Day(f.recStr);
    var ym := AdvanceMonths(f.creationDate.year, f.creationDate.month, day, inc, today);
    var d1 := LastValidDay(ym.0, ym.1, day);
    var iter := Date(ym.0, ym.1, d1);
    assert !Before(iter, today);
    if fires || iter == f.creationDate {
      var ym2 := MonthStep(ym.0, ym.1, inc);
      MonthStepAdvances(ym.0, ym.1, inc, 1);
      assert Before(iter, next);
    }
  }

  lemma DailyBounds(f: Fields, today: Date)
    requires f.recStr != "" && RecAssumed(f) && ValidToday(today) && f.recType != 3
    requires !(f.recType == 2 && f.completionDate == NoDate)
    ensures var (fires, next) := RecurrenceDate(f, today);
            (fires ==> Reference(f) != today)
            && Valid(next) && next != Reference(f) && !Before(next, today)
            && (fires ==> Before(today, next))
  {
    var (fires, next) := RecurrenceDate(f, today);
    var ref := Reference(f);
    var inc := if f.recType == 2 then Rec2Days(f.recStr) else Rec1Days(f.recStr);
    var iter := AdvanceDays(ref, inc, today);
    BeforeDayNumber(iter, today);
    BeforeDayNumber(ref, next);
    BeforeDayNumber(today, next);
  }

  /** The next date of a kind-1 or kind-2 recurrence: the series date reached, or one step past it. */
  lemma DailyNext(f: Fields, today: Date)
    requires f.recStr != "" && RecAssumed(f) && ValidToday(today)
    requires f.recType != 3 && Valid(Reference(f))
    ensures var inc := if f.recType == 2 then Rec2Days(f.recStr) else Rec1Days(f.recStr);
            var iter := AdvanceDays(Reference(f), inc, today);
            var next := RecurrenceDate(f, today).1;
            (next == iter && iter != Reference(f)) || DayNumber(next) == DayNumber(iter) + inc
  {
  }

  /** A kind-1 or kind-2 recurrence lands on the series reference + k * interval. */
  lemma RecurrenceOnSeries(f: Fields, today: Date)
    requires f.recStr != "" && RecAssumed(f) && ValidToday(today)
    requires f.recType != 3 && Valid(Reference(f))
    ensures var inc := if f.recType == 2 then Rec2Days(f.recStr) else Rec1Days(f.recStr);
            exists k: nat :: k >= 1 && DayNumber(RecurrenceDate(f, today).1) == DayNumber(Reference(f)) + k * inc
  {
    var ref := Reference(f);
    var inc := if f.recType == 2 then Rec2Days(f.recStr) else Rec1Days(f.recStr);
    var iter := AdvanceDays(ref, inc, today);
    var k := AdvanceDaysSteps(ref, inc, today);
    var next := RecurrenceDate(f, today).1;
    DailyNext(f, today);
    var steps := if next == iter && iter != ref then k else k + 1;
    SeriesStep(DayNumber(ref), DayNumber(iter), DayNumber(next), k, inc, next == iter && iter != ref);
    assert DayNumber(next) == DayNumber(ref) + steps * inc;
  }

  /** The arithmetic of one more step on the series. */
  lemma SeriesStep(r: int, i: int, n: int, k: nat, inc: nat, same: bool)
    requires i == r + k * inc && inc >= 1
    requires same ==> n == i && i != r
    requires !same ==> n == i + inc
    ensures var steps := if same then k else k + 1;
            steps >= 1 && n == r + steps * inc
  {
    if !same {
      assert (k + 1) * inc == k * inc + inc;
    }
  }

}