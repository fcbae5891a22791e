/**
 * What the parse of one line promises: the header is read back exactly, the
 * extension guards, and the effect of the hide token.
 */
module ParseProps {
  import opened Options
  import opened Text
  import opened Dates
  import opened Tokens
  import opened TaskSpec

  /** A date the header can hold: absent, or a date written with four digits. */
  predicate HeaderDate(d: Date)
  {
    d == NoDate || ValidToday(d)
  }

  /** The words a header with these fields is written as. */
  function HeaderWords(completed: bool, priority: string, completion: Date, creation: Date): seq<string>
    requires HeaderDate(completion) && HeaderDate(creation)
  {
    if completed then
      ["x"] + (if completion == NoDate then []
               else [Fmt(completion)] + (if creation == NoDate then [] else [Fmt(creation)]))
    else
      (if priority == NoPriority then [] else [priority])
      + (if creation == NoDate then [] else [Fmt(creation)])
  }

  /** A word the header could take for itself. */
  predicate HeaderLike(w: string)
  {
    w == "x" || IsPrio(w) || DateParses(w)
  }

  lemma FmtParses(d: Date)
    requires ValidToday(d)
    ensures DateParses(Fmt(d)) && Fmt(d) != "x" && !IsPrio(Fmt(d))
  {
  }

  /**
   * Header parsing: `x` [completion [creation]], `(A)` [creation], or a bare
   * creation date is read back as written, and the description starts right
   * after it; a line whose first word is none of these keeps every header
   * field at its default.
   */
  lemma HeaderRoundTrip(text: string, completed: bool, priority: string,
                        completion: Date, creation: Date, ds: seq<string>)
    requires HeaderDate(completion) && HeaderDate(creation)
    requires priority == NoPriority || IsPrio(priority)
    requires completed ==> priority == NoPriority && (completion == NoDate ==> creation == NoDate)
    requires !completed ==> completion == NoDate
    requires |ds| > 0 ==> !HeaderLike(ds[0])
    ensures var hw := HeaderWords(completed, priority, completion, creation);
            Header(Defaults(text), hw + ds)
            == (Defaults(text).(completed := completed, priority := priority,
                                completionDate := completion, creationDate := creation), |hw|)
  {
    if completed {
      CompletedHeaderRoundTrip(text, completion, creation, ds);
    } else if priority != NoPriority {
      PrioHeaderRoundTrip(text, priority, creation, ds);
    } else {
      PlainHeaderRoundTrip(text, creation, ds);
    }
  }

  lemma CompletedHeaderRoundTrip(text: string, completion: Date, creation: Date, ds: seq<string>)
    requires HeaderDate(completion) && HeaderDate(creation)
    requires completion == NoDate ==> creation == NoDate
    requires |ds| > 0 ==> !HeaderLike(ds[0])
    ensures var hw := HeaderWords(true, NoPriority, completion, creation);
            Header(Defaults(text), hw + ds)
            == (Defaults(text).(completed := true, priority := NoPriority,
                                completionDate := completion, creationDate := creation), |hw|)
  {
    var hw := HeaderWords(true, NoPriority, completion, creation);
    var ws := hw + ds;
    assert ws[0] == "x";
    if completion != NoDate {
      FmtParses(completion);
      assert ws[1] == Fmt(completion);
      if creation != NoDate {
        FmtParses(creation);
        assert ws[2] == Fmt(creation);
      } else if |ds| > 0 {
        assert ws[2] == ds[0];
      }
    } else if |ds| > 0 {
      assert ws[1] == ds[0];
    }
  }

  lemma PrioHeaderRoundTrip(text: string, priority: string, creation: Date, ds: seq<string>)
    requires HeaderDate(creation) && IsPrio(priority)
    requires |ds| > 0 ==> !HeaderLike(ds[0])
    ensures var hw := HeaderWords(false, priority, NoDate, creation);
            Header(Defaults(text), hw + ds)
            == (Defaults(text).(completed := false, priority := priority,
                                completionDate := NoDate, creationDate := creation), |hw|)
  {
    var hw := HeaderWords(false, priority, NoDate, creation);
    var ws := hw + ds;
    assert ws[0] == priority;
    if creation != NoDate {
      FmtParses(creation);
      assert ws[1] == Fmt(creation);
    } else if |ds| > 0 {
      assert ws[1] == ds[0];
    }
  }

  lemma PlainHeaderRoundTrip(text: string, creation: Date, ds: seq<string>)
    requires HeaderDate(creation)
    requires |ds| > 0 ==> !HeaderLike(ds[0])
    ensures var hw := HeaderWords(false, NoPriority, NoDate, creation);
            Header(Defaults(text), hw + ds)
            == (Defaults(text).(completed := false, priority := NoPriority,
                                completionDate := NoDate, creationDate := creation), |hw|)
  {
    var hw := HeaderWords(false, NoPriority, NoDate, creation);
    var ws := hw + ds;
    if creation != NoDate {
      FmtParses(creation);
      assert ws[0] == Fmt(creation);
    } else {
      assert ws == ds;
    }
  }

  /** The kind a recurrence word has, in the order the walk tests them. */
  function RecKind(w: string): int
  {
    if IsRec1(w) then 1 else if IsRec2(w) then 2 else 3
  }

  /** The guard of a recurrence word of kind `kind` in fields `f`. */
  predicate RecGuard(f: Fields, kind: int)
  {
    f.dueDate == NoDue
    && (if kind == 2 then !(f.completed && f.completionDate == NoDate) else f.creationDate != NoDate)
  }

  lemma PrefixHead(p: string, w: string)
    requires |p| > 0 && p <= w
    ensures w[0] == p[0]
  {
  }

  lemma RecWordClass(w: string)
    requires IsRec1(w) || IsRec2(w) || IsRec3(w)
    ensures !IsContext(w) && !IsProject(w) && !IsLink(w) && IsExt(w)
    ensures !IsTrackerId(w) && !IsDue(w) && !IsDefer(w)
  {
    assert "rec:" <= w by {
      if IsRec2(w) {
        assert w[..4] == "rec:x-"[..4];
      }
    }
    assert w[0] == 'r' && w[3] == ':';
    assert |w| >= 5 by {
      if IsRec1(w) {
        assert |w[4..]| >= 2;
      } else if IsRec2(w) {
        assert |w[6..]| >= 2;
      }
    }
    assert w[1..|w| - 1][2] == ':';
    assert forall p: string :: |p| > 0 && p <= w ==> p[0] == w[0];
  }

  /**
   * Recurrence guards: kinds 1 and 3 are accepted only with a creation date and
   * no due date, kind 2 only with no due date and, on a completed task, a
   * completion date.  An accepted word is consumed; a rejected one stays in
   * the description and changes nothing.
   */
  lemma RecurrenceGuards(st: WalkState, w: string)
    requires !st.f.hidden && (IsRec1(w) || IsRec2(w) || IsRec3(w))
    ensures RecGuard(st.f, RecKind(w)) ==>
              Step(st, w) == WalkState(st.f.(recStr := w, recType := RecKind(w)), st.words)
    ensures !RecGuard(st.f, RecKind(w)) ==> Step(st, w) == WalkState(st.f, st.words + [w])
  {
    RecWordClass(w);
  }

  lemma DateWordClass(w: string)
    requires IsDue(w) || IsDefer(w)
    ensures !IsContext(w) && !IsProject(w) && !IsLink(w) && IsExt(w) && !IsTrackerId(w)
    ensures IsDefer(w) ==> !IsDue(w)
  {
    if IsDue(w) {
      DueWordClass(w);
    } else {
      DeferWordClass(w);
    }
  }

  lemma DueWordClass(w: string)
    requires IsDue(w)
    ensures !IsContext(w) && !IsProject(w) && !IsLink(w) && IsExt(w) && !IsTrackerId(w) && !IsDefer(w)
  {
    assert forall p: string :: |p| > 0 && p <= w ==> p[0] == w[0];
    assert w[..4] == "due:";
    assert w[1..|w| - 1][2] == ':';
  }

  lemma DeferWordClass(w: string)
    requires IsDefer(w)
    ensures !IsContext(w) && !IsProject(w) && !IsLink(w) && IsExt(w) && !IsTrackerId(w)
  {
    assert forall p: string :: |p| > 0 && p <= w ==> p[0] == w[0];
    assert w[..2] == "t:";
    assert w[1..|w| - 1][0] == ':';
  }

  /** Once a recurrence was accepted, a `due:` or `t:` word is left in the description. */
  lemma DueDeferIgnoredAfterRecurrence(st: WalkState, w: string)
    requires !st.f.hidden && st.f.recStr != "" && (IsDue(w) || IsDefer(w))
    ensures Step(st, w) == WalkState(st.f, st.words + [w])
  {
    DateWordClass(w);
  }

  /**
   * The same over a whole walk: from the moment a recurrence is accepted the
   * due and defer dates no longer change, unless a later `h:1` hides the task.
   */
  lemma {:induction false} RecurrenceFreezesDueDefer(st: WalkState, ws: seq<string>)
    requires !st.f.hidden && st.f.recStr != ""
    ensures var e := Walk(st, ws).f;
            e.hidden || (e.dueDate == st.f.dueDate && e.deferDate == st.f.deferDate && e.recStr != "")
    decreases |ws|
  {
    if |ws| > 0 {
      var st1 := Step(st, ws[0]);
      StepFreezesDueDefer(st, ws[0]);
      if !st1.f.hidden {
        RecurrenceFreezesDueDefer(st1, ws[1..]);
      } else {
        HiddenStaysHidden(st1, ws[1..]);
      }
    }
  }

  lemma StepFreezesDueDefer(st: WalkState, w: string)
    requires !st.f.hidden && st.f.recStr != ""
    ensures var e := Step(st, w).f;
            e.hidden || (e.dueDate == st.f.dueDate && e.deferDate == st.f.deferDate && e.recStr != "")
  {
    if IsDue(w) || IsDefer(w) {
      DueDeferIgnoredAfterRecurrence(st, w);
    } else if IsContext(w) || IsProject(w) || IsLink(w) || !IsExt(w) || IsTrackerId(w) {
      MarkupKeepsDates(st, w);
    } else if IsRec1(w) || IsRec2(w) || IsRec3(w) {
      RecurrenceGuards(st, w);
    } else {
      StepOther(st, w);
    }
  }

  /** Contexts, projects, links, plain words and tracker ids leave the dates and the recurrence alone. */
  lemma MarkupKeepsDates(st: WalkState, w: string)
    requires IsContext(w) || IsProject(w) || IsLink(w) || !IsExt(w) || IsTrackerId(w)
    ensures var e := Step(st, w).f;
            e.dueDate == st.f.dueDate && e.deferDate == st.f.deferDate && e.recStr == st.f.recStr
            && e.hidden == st.f.hidden
  {
  }

  lemma {:induction false} HiddenStaysHidden(st: WalkState, ws: seq<string>)
    requires st.f.hidden
    ensures Walk(st, ws).f.hidden
    decreases |ws|
  {
    if |ws| > 0 {
      HiddenStaysHidden(Step(st, ws[0]), ws[1..]);
    }
  }

  /**
   * A walk step that does not hide the task reads the completion date only
   * through whether there is one (the `rec:x-` guard), and copies it and the
   * line's text: replacing one completion date by another commutes with it.
   */
  lemma StepRedate(st: WalkState, w: string, b: string, c: Date)
    requires st.f.completionDate != NoDate && c != NoDate
    ensures var r := Step(st, w);
            !r.f.hidden ==>
              r.f.completionDate == st.f.completionDate
              && Step(WalkState(st.f.(text := b, completionDate := c), st.words), w)
                 == WalkState(r.f.(text := b, completionDate := c), r.words)
  {
    hide Step;
    if IsContext(w) || IsProject(w) || IsLink(w) || !IsExt(w) || st.f.hidden {
      StepRedateKept(st, w, b, c);
    } else if IsTrackerId(w) || IsDue(w) || IsDefer(w) {
      StepRedateValue(st, w, b, c);
    } else {
      StepRedateRest(st, w, b, c);
    }
  }

  lemma StepRedateKept(st: WalkState, w: string, b: string, c: Date)
    requires IsContext(w) || IsProject(w) || IsLink(w) || !IsExt(w) || st.f.hidden
    ensures var r := Step(st, w);
            r.f.completionDate == st.f.completionDate
            && Step(WalkState(st.f.(text := b, completionDate := c), st.words), w)
               == WalkState(r.f.(text := b, completionDate := c), r.words)
  {
  }

  lemma StepRedateValue(st: WalkState, w: string, b: string, c: Date)
    requires !(IsContext(w) || IsProject(w) || IsLink(w) || !IsExt(w) || st.f.hidden)
    requires IsTrackerId(w) || IsDue(w) || IsDefer(w)
    ensures var r := Step(st, w);
            r.f.completionDate == st.f.completionDate
            && Step(WalkState(st.f.(text := b, completionDate := c), st.words), w)
               == WalkState(r.f.(text := b, completionDate := c), r.words)
  {
  }

  lemma StepRedateRest(st: WalkState, w: string, b: string, c: Date)
    requires !(IsContext(w) || IsProject(w) || IsLink(w) || !IsExt(w) || st.f.hidden)
    requires !(IsTrackerId(w) || IsDue(w) || IsDefer(w))
    requires st.f.completionDate != NoDate && c != NoDate
    ensures var r := Step(st, w);
            !r.f.hidden ==>
              r.f.completionDate == st.f.completionDate
              && Step(WalkState(st.f.(text := b, completionDate := c), st.words), w)
                 == WalkState(r.f.(text := b, completionDate := c), r.words)
  {
    hide IsContext, IsProject, IsLink, IsExt, IsTrackerId, IsDue, IsDefer, IsRec1, IsRec2, IsRec3, IsPin, IsHide, IsPriExt;
    var f := st.f;
    var g := f.(text := b, completionDate := c);
    var st2 := WalkState(g, st.words);
    if IsRec1(w) {
      assert Step(st2, w) == if f.dueDate != NoDue || f.creationDate == NoDate then Keep(st2, w) else Consume(st2, g.(recStr := w, recType := 1));
    } else if IsRec2(w) {
      assert Step(st2, w) == if f.dueDate != NoDue then Keep(st2, w) else Consume(st2, g.(recStr := w, recType := 2));
    } else if IsRec3(w) {
    } else if IsPin(w) || IsHide(w) {
    } else {
    }
  }

  /**
   * The walk of a task that ends up not hidden reads the completion date only
   * through whether there is one: two lines whose header differ only in a
   * (present) completion date walk alike.
   */
  lemma {:induction false} WalkRedate(st: WalkState, ws: seq<string>, b: string, c: Date)
    requires st.f.completionDate != NoDate && c != NoDate
    ensures var r := Walk(st, ws);
            !r.f.hidden ==>
              Walk(WalkState(st.f.(text := b, completionDate := c), st.words), ws)
              == WalkState(r.f.(text := b, completionDate := c), r.words)
    decreases |ws|
  {
    if |ws| > 0 {
      var st1 := Step(st, ws[0]);
      StepRedate(st, ws[0], b, c);
      if st1.f.hidden {
        HiddenStaysHidden(st1, ws[1..]);
      } else {
        WalkRedate(st1, ws[1..], b, c);
      }
    }
  }

  /**
   * A completed line `x <completion> <creation> ...` that is not hidden:
   * another line with the same words but another completion date parses to
   * the same fields except for that date.
   */
  lemma ParseRedate(a: string, b: string, t: string)
    requires var ws := SplitWords(a);
             |ws| > 2 && ws[0] == "x" && DateParses(ws[1]) && DateParses(ws[2])
    requires DateParses(t) && SplitWords(b) == ["x", t] + SplitWords(a)[2..]
    requires !Parse(a).hidden
    ensures Parse(b) == Parse(a).(text := b, completionDate := DateOf(t))
  {
    hide Walk, Step, SplitWords;
    var ws := SplitWords(a);
    var vs := SplitWords(b);
    var h := Header(Defaults(a), ws);
    assert h.1 == 3 && h.0.completionDate == DateOf(ws[1]);
    assert Header(Defaults(b), vs) == (h.0.(text := b, completionDate := DateOf(t)), 3);
    assert vs[3..] == ws[3..];
    WalkRedate(WalkState(h.0, []), ws[3..], b, DateOf(t));
  }

  /** Fields equal up to the context, project and link bookkeeping. */
  predicate SameButMarkup(a: Fields, b: Fields)
  {
    a == b.(contexts := a.contexts, projects := a.projects, contextIndices := a.contextIndices,
            projectIndices := a.projectIndices, linkIndices := a.linkIndices)
  }

  /**
   * After `h:1` every later word is kept in the description and no extension
   * changes a field: only contexts, projects and links are still collected.
   */
  lemma {:induction false} HiddenKeepsWords(st: WalkState, ws: seq<string>)
    requires st.f.hidden
    ensures Walk(st, ws).words == st.words + ws
    ensures SameButMarkup(Walk(st, ws).f, st.f)
    decreases |ws|
  {
    if |ws| > 0 {
      var st1 := Step(st, ws[0]);
      assert st1.words == st.words + [ws[0]];
      assert SameButMarkup(st1.f, st.f);
      HiddenKeepsWords(st1, ws[1..]);
      assert st.words + [ws[0]] + ws[1..] == st.words + ws;
    } else {
      assert st.words + ws == st.words;
    }
  }

  /**
   * The hide token: reaching `h:1` throws away every field parsed so far
   * (header included), sets `hidden`, keeps the description words seen so far,
   * and leaves every later word in the description.
   */
  lemma HideToken(st: WalkState, ws: seq<string>)
    requires !st.f.hidden
    ensures var h := Defaults(st.f.text).(hidden := true);
            var e := Walk(st, ["h:1"] + ws);
            e.words == st.words + ws && SameButMarkup(e.f, h)
  {
    var h := Defaults(st.f.text).(hidden := true);
    assert "h:1"[1..2] == ":";
    assert !IsContext("h:1") && !IsProject("h:1") && IsExt("h:1");
    assert !IsLink("h:1") by {
      assert forall p: string :: |p| > 0 && p <= "h:1" ==> p[0] == 'h';
    }
    assert Step(st, "h:1") == WalkState(h, st.words);
    assert (["h:1"] + ws)[1..] == ws;
    HiddenKeepsWords(WalkState(h, st.words), ws);
  }

  /**
   * The deferral transition: a task that is deferred and whose defer date has
   * come is reported exactly once; a second check reports nothing and changes
   * nothing.
   */
  lemma DeferralOnce(f: Fields, today: Date)
    ensures var (r1, f1) := CheckDeferred(f, today);
            CheckDeferred(f1, today) == (false, f1)
            && (r1 <==> f.deferDate.Some? && f.isDeferred && !Before(today, f.deferDate.value))
  {
  }

  /**
   * What a deferral check leaves behind: no defer date, nothing changes;
   * otherwise the creation date is the defer date and the task is deferred
   * exactly while that date is after today.
   */
  lemma DeferralState(f: Fields, today: Date)
    ensures f.deferDate.None? ==> CheckDeferred(f, today) == (false, f)
    ensures f.deferDate.Some? ==>
              var f1 := CheckDeferred(f, today).1;
              f1 == f.(creationDate := f.deferDate.value, isDeferred := f1.isDeferred)
              && (f1.isDeferred <==> Before(today, f.deferDate.value))
  {
  }

}
