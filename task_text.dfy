/**
 * The rewrites a task item applies to its own line: completing and reopening
 * (`toggle_task`), pinning and unpinning, and the creation-date update of a
 * recurring task (`check_recurrence`), together with the state `reset(true)`
 * settles in.
 */
module TaskText {
  import opened Options
  import opened Text
  import opened Dates
  import opened Tokens
  import opened TaskSpec
  import ParseProps

  /** The index of the first word satisfying `p`, or `|ws|` when there is none. */
  function FirstIndex(ws: seq<string>, p: string -> bool): (k: nat)
    ensures k <= |ws|
    ensures k < |ws| ==> p(ws[k])
    ensures forall j :: 0 <= j < k ==> !p(ws[j])
  {
    if |ws| == 0 then 0
    else if p(ws[0]) then 0
    else 1 + FirstIndex(ws[1..], p)
  }

  /** `words.splice(k, 1)` for the first word satisfying `p`, if any. */
  function RemoveFirst(ws: seq<string>, p: string -> bool): (r: seq<string>)
  {
    var k := FirstIndex(ws, p);
    if k < |ws| then ws[..k] + ws[k + 1..] else ws
  }

  /** `reset(.., s)` replaces the line only when `s` is not empty. */
  function Effective(s: string, current: string): string
  {
    if s != "" then s else current
  }

  /** The word `pri:X` that keeps the priority `(X)` of a completed task. */
  function PriWord(c: char): string
  {
    ['p', 'r', 'i', ':', c]
  }

  /**
   * Completing a task: `x <today> ` is put in front; a priority `(A)` is cut
   * off the front (three characters) and kept as a trailing `pri:A`.  `t` is
   * today's date as `G.date_yyyymmdd()` writes it.
   */
  function CompleteStr(text: string, priority: string, t: string): string
    requires |priority| == 3
  {
    if priority == NoPriority then "x" + " " + t + " " + text
    else "x" + " " + t + " " + (if |text| >= 3 then text[3..] else "") + " " + PriWord(priority[1])
  }

  /** `'(' + w[4] + ') '` for the first `pri:A` word `w`, or nothing. */
  function PriPrefix(ws: seq<string>): string
  {
    var k := FirstIndex(ws, IsPriExt);
    if k < |ws| then ['(', ws[k][4], ')'] + " " else ""
  }

  /** The `x` is removed, and with it the next word when `Date.parse` accepts that word. */
  function DropMark(ws: seq<string>): seq<string>
  {
    if |ws| > 1 && DateParseTruthy(ws[1]) then ws[2..]
    else if |ws| > 0 then ws[1..]
    else ws
  }

  /**
   * Reopening a completed task: the first `pri:A` word is removed and `(A) `
   * put in front; the `x` is removed, and with it the next word when that is
   * a date.
   */
  function Reopen(s: string): string
  {
    ReopenWords(SplitSpaces(s))
  }

  /** `Reopen` on the pieces of the line. */
  function ReopenWords(ws: seq<string>): string
  {
    PriPrefix(ws) + Join(DropMark(RemoveFirst(ws, IsPriExt)))
  }

  /** The line `toggle_task` hands to `reset(true, ..)`. */
  function Toggled(f: Fields, t: string): string
    requires |f.priority| == 3
  {
    if f.completed then Reopen(f.text) else CompleteStr(f.text, f.priority, t)
  }

  /** The line the task has after `toggle_task`'s reset. */
  function ToggleTarget(f: Fields, t: string): string
    requires |f.priority| == 3
  {
    Effective(Toggled(f, t), f.text)
  }

  /** `task_str += ' pin:1'`. */
  function PinStr(s: string): string
  {
    s + " " + "pin:1"
  }

  /** The line with its first `pin:1` word removed. */
  function UnpinStr(s: string): string
  {
    Join(RemoveFirst(SplitSpaces(s), IsPin))
  }

  /** `_on_pin_icon_clicked` on the fields: the flag flips and the line follows; nothing is re-parsed. */
  function TogglePinFields(f: Fields): Fields
  {
    if !f.pinned then f.(pinned := true, text := PinStr(f.text))
    else f.(pinned := false, text := UnpinStr(f.text))
  }

  /**
   * The creation-date update of a recurring task: the word at index 2
   * (completed), 1 (with priority) or 0 becomes today when it has the date
   * shape, and otherwise today is inserted there.  `t` is today's date as
   * `G.date_yyyymmdd()` writes it.
   */
  function Rewrite(s: string, completed: bool, hasPrio: bool, t: string): string
  {
    var ws := SplitSpaces(s);
    var idx := if completed then 2 else if hasPrio then 1 else 0;
    if idx < |ws| && IsoShape(ws[idx]) then Join(ws[idx := t])
    else
      var at := if idx <= |ws| then idx else |ws|;
      Join(ws[..at] + [t] + ws[at..])
  }

  /** The line a task that recurs today is re-read from. */
  function NextStr(s: string, f: Fields, t: string): string
  {
    var s2 := Rewrite(s, f.completed, f.priority != NoPriority, t);
    if f.completed then Effective(Reopen(s2), s2) else s2
  }

  /**
   * The non-recurring half of `check_recurrence` followed by
   * `check_deferred_tasks`: the next recurrence date is recorded, then the
   * deferral is applied.
   */
  function AfterChecks(f: Fields, today: Date): Fields
    requires ValidToday(today) && (f.recStr != "" ==> RecAssumed(f))
  {
    CheckDeferred(RecordNext(f, today), today).1
  }

  /** `check_recurrence` on a task that does not recur today: the next recurrence date is recorded. */
  function RecordNext(f: Fields, today: Date): Fields
    requires ValidToday(today) && (f.recStr != "" ==> RecAssumed(f))
  {
    if f.recStr != "" then f.(recNext := RecurrenceDate(f, today).1) else f
  }

  // ---------------------------------------------------------------------
  // Join and split facts

  lemma {:induction false} FirstIndexIs(ws: seq<string>, p: string -> bool, k: nat)
    requires k <= |ws| && (k < |ws| ==> p(ws[k]))
    requires forall j :: 0 <= j < k ==> !p(ws[j])
    ensures FirstIndex(ws, p) == k
    decreases k
  {
    if k > 0 {
      assert forall j :: 0 <= j < k - 1 ==> ws[1..][j] == ws[j + 1];
      FirstIndexIs(ws[1..], p, k - 1);
    }
  }

  lemma {:induction false} JoinSnoc(ws: seq<string>, b: string)
    requires |ws| >= 1
    ensures Join(ws + [b]) == Join(ws) + " " + b
    decreases |ws|
  {
    if |ws| == 1 {
      assert ws + [b] == [ws[0]] + [b];
      JoinCons(ws[0], [b]);
    } else {
      assert ws + [b] == [ws[0]] + (ws[1..] + [b]);
      JoinCons(ws[0], ws[1..] + [b]);
      JoinSnoc(ws[1..], b);
      JoinCons(ws[0], ws[1..]);
      assert ws == [ws[0]] + ws[1..];
    }
  }

  lemma HeadOfJoin(ws: seq<string>)
    requires |ws| >= 1 && |ws[0]| >= 1
    ensures |Join(ws)| >= 1 && Join(ws)[0] == ws[0][0]
  {
    if |ws| > 1 {
      JoinCons(ws[0], ws[1..]);
      assert ws == [ws[0]] + ws[1..];
    }
  }

  /** A `yyyy-mm-dd` word is a single word of no other header or extension class. */
  lemma DateWord(t: string)
    requires IsoShape(t)
    ensures t != "" && t != "x" && !IsPrio(t) && !IsPriExt(t) && !IsPin(t)
    ensures ' ' !in t && t[0] != ' ' && t[0] != '('
  {
    HeaderWordsAreNotTokens(t);
    assert t[0] == t[..4][0];
    forall k | 0 <= k < |t|
      ensures t[k] != ' '
    {
      if k < 4 {
        assert t[k] == t[..4][k];
      } else if 4 < k < 7 {
        assert t[k] == t[5..7][k - 5];
      } else if 7 < k {
        assert t[k] == t[8..][k - 8];
      }
    }
  }

  // ---------------------------------------------------------------------
  // First-match facts

  /** The first match in `front + tl` is the first match in `tl` when `front` has none. */
  lemma FirstIndexAfter(front: seq<string>, tl: seq<string>, p: string -> bool)
    requires forall j :: 0 <= j < |front| ==> !p(front[j])
    ensures FirstIndex(front + tl, p) == |front| + FirstIndex(tl, p)
    ensures RemoveFirst(front + tl, p) == front + RemoveFirst(tl, p)
  {
    FirstIndexShift(front, tl, p);
    var k := FirstIndex(tl, p);
    if k < |tl| {
      SpliceShift(front, tl, k);
    }
  }

  lemma FirstIndexShift(front: seq<string>, tl: seq<string>, p: string -> bool)
    requires forall j :: 0 <= j < |front| ==> !p(front[j])
    ensures FirstIndex(front + tl, p) == |front| + FirstIndex(tl, p)
  {
    var all := front + tl;
    var k := FirstIndex(tl, p);
    forall j | 0 <= j < |front| + k
      ensures !p(all[j])
    {
      if j < |front| {
        assert all[j] == front[j];
      } else {
        assert all[j] == tl[j - |front|];
      }
    }
    if k < |tl| {
      assert all[|front| + k] == tl[k];
    }
    FirstIndexIs(all, p, |front| + k);
  }

  lemma SpliceShift<T>(front: seq<T>, tl: seq<T>, k: nat)
    requires k < |tl|
    ensures (front + tl)[..|front| + k] + (front + tl)[|front| + k + 1..] == front + (tl[..k] + tl[k + 1..])
  {
    assert (front + tl)[..|front| + k] == front + tl[..k];
    assert (front + tl)[|front| + k + 1..] == tl[k + 1..];
  }

  /** Without a match nothing is removed. */
  lemma FirstIndexNone(ws: seq<string>, p: string -> bool)
    requires forall j :: 0 <= j < |ws| ==> !p(ws[j])
    ensures FirstIndex(ws, p) == |ws| && RemoveFirst(ws, p) == ws
  {
    FirstIndexIs(ws, p, |ws|);
  }

  lemma RemoveFirstSpaceFree(ws: seq<string>, p: string -> bool)
    requires SpaceFree(ws)
    ensures SpaceFree(RemoveFirst(ws, p))
  {
    var k := FirstIndex(ws, p);
    if k < |ws| {
      var r := RemoveFirst(ws, p);
      forall i | 0 <= i < |r|
        ensures ' ' !in r[i]
      {
        if i < k {
          assert r[i] == ws[i];
        } else {
          assert r[i] == ws[i + 1];
        }
      }
    }
  }

  /** The priority prefix is empty or a priority word and a space. */
  lemma PriPrefixWord(ws: seq<string>) returns (h: seq<string>)
    ensures (h == [] && PriPrefix(ws) == "")
            || (|h| == 1 && IsPrio(h[0]) && PriPrefix(ws) == h[0] + " ")
  {
    var k := FirstIndex(ws, IsPriExt);
    if k < |ws| {
      h := [['(', ws[k][4], ')']];
    } else {
      h := [];
    }
  }

  // ---------------------------------------------------------------------
  // Complete / reopen

  /** Without a `pri:` word reopening only drops the mark. */
  lemma ReopenNoPri(ws: seq<string>)
    requires forall j :: 0 <= j < |ws| ==> !IsPriExt(ws[j])
    ensures ReopenWords(ws) == Join(DropMark(ws))
  {
    FirstIndexNone(ws, IsPriExt);
  }

  /** A `pri:A` word after the last one moves to the front as `(A) `. */
  lemma ReopenLastPri(ws: seq<string>, pri: string)
    requires forall j :: 0 <= j < |ws| ==> !IsPriExt(ws[j])
    requires IsPriExt(pri)
    ensures ReopenWords(ws + [pri]) == ['(', pri[4], ')'] + " " + Join(DropMark(ws))
  {
    var all := ws + [pri];
    assert forall j :: 0 <= j < |ws| ==> all[j] == ws[j];
    assert all[|ws|] == pri;
    FirstIndexIs(all, IsPriExt, |ws|);
    assert all[..|ws|] == ws && all[|ws| + 1..] == [];
    assert RemoveFirst(all, IsPriExt) == ws;
  }

  /** The mark `x` and the completion date are dropped together. */
  lemma DropMarkDated(d: string, rest: seq<string>)
    requires DateParses(d)
    ensures DropMark(["x", d] + rest) == rest
  {
    var ws := ["x", d] + rest;
    assert ws[1] == d;
    assert ws[2..] == rest;
  }

  /** The words `x` and a date are not `pri:` words. */
  lemma MarkNoPri(d: string, rest: seq<string>)
    requires DateParses(d)
    requires forall j :: 0 <= j < |rest| ==> !IsPriExt(rest[j])
    ensures forall j :: 0 <= j < |["x", d] + rest| ==> !IsPriExt((["x", d] + rest)[j])
  {
    DateWord(d);
    var ws := ["x", d] + rest;
    forall j | 0 <= j < |ws|
      ensures !IsPriExt(ws[j])
    {
      if j >= 2 {
        assert ws[j] == rest[j - 2];
      }
    }
  }

  /** Reopening `x`, a date, then `rest` with no `pri:` word leaves `rest`. */
  lemma ReopenPlain(d: string, rest: seq<string>)
    requires DateParses(d)
    requires forall j :: 0 <= j < |rest| ==> !IsPriExt(rest[j])
    ensures ReopenWords(["x", d] + rest) == Join(rest)
  {
    MarkNoPri(d, rest);
    ReopenNoPri(["x", d] + rest);
    DropMarkDated(d, rest);
  }

  /** Reopening `x`, a date, `rest` and a final `pri:A` word gives `(A) ` and `rest`. */
  lemma ReopenPrioritised(d: string, rest: seq<string>, pri: string)
    requires DateParses(d) && IsPriExt(pri)
    requires forall j :: 0 <= j < |rest| ==> !IsPriExt(rest[j])
    ensures ReopenWords(["x", d] + rest + [pri]) == ['(', pri[4], ')'] + " " + Join(rest)
  {
    MarkNoPri(d, rest);
    ReopenLastPri(["x", d] + rest, pri);
    DropMarkDated(d, rest);
  }

  /** Completing a line without priority prepends `x` and today's date as two words. */
  lemma CompletedPlain(ws: seq<string>, t: string)
    requires Words(ws) && ws != [] && IsoShape(t)
    ensures SplitSpaces(CompleteStr(Join(ws), NoPriority, t)) == ["x", t] + ws
  {
    DateWord(t);
    var all := ["x", t] + ws;
    JoinCons(t, ws);
    JoinCons("x", [t] + ws);
    assert all == ["x"] + ([t] + ws);
    assert CompleteStr(Join(ws), NoPriority, t) == Join(all);
    assert Words(["x", t]);
    WordsAppend(["x", t], ws);
    SplitSpacesOfJoin(all, []);
    assert all + [] == all;
  }

  /** Regrouping of the completed line of a prioritised task. */
  lemma PrioLineShape(t: string, a: string, pri: string)
    ensures "x" + " " + (t + " " + ("" + " " + (a + " " + pri)))
            == "x" + " " + t + " " + (" " + a) + " " + pri
  {
  }

  /** `task_str.slice(3)` of a line that starts with a priority word. */
  lemma TextAfterPrio(ws: seq<string>)
    requires |ws| >= 2 && IsPrio(ws[0])
    ensures Join(ws)[3..] == " " + Join(ws[1..])
  {
    assert ws == [ws[0]] + ws[1..];
    JoinCons(ws[0], ws[1..]);
  }

  /** The completed line of a prioritised task, as a join of pieces (the priority's place leaves an empty one). */
  lemma CompletedPrioJoin(ws: seq<string>, t: string)
    requires Words(ws) && |ws| >= 2 && IsPrio(ws[0])
    ensures var pri := PriWord(ws[0][1]);
            CompleteStr(Join(ws), ws[0], t) == Join(["x", t, ""] + ws[1..] + [pri])
  {
    TextAfterPrio(ws);
    CompleteStrPrio(Join(ws), ws[0], t);
    JoinPrioPieces(t, ws[1..], PriWord(ws[0][1]));
  }

  /** Completing a line that has a priority. */
  lemma CompleteStrPrio(text: string, priority: string, t: string)
    requires IsPrio(priority) && |text| >= 3
    ensures CompleteStr(text, priority, t) == "x" + " " + t + " " + text[3..] + " " + PriWord(priority[1])
  {
    assert priority[1] != NoPriority[1];
  }

  /** The join of the pieces of a completed prioritised line. */
  lemma JoinPrioPieces(t: string, rest: seq<string>, pri: string)
    requires |rest| >= 1
    ensures Join(["x", t, ""] + rest + [pri]) == "x" + " " + t + " " + (" " + Join(rest)) + " " + pri
  {
    JoinSnoc(rest, pri);
    JoinCons("", rest + [pri]);
    JoinCons(t, [""] + (rest + [pri]));
    JoinCons("x", [t] + ([""] + (rest + [pri])));
    Regroup3("x", t, "", rest, pri);
    PrioLineShape(t, Join(rest), pri);
  }

  lemma Regroup3<T>(a: T, b: T, c: T, rest: seq<T>, last: T)
    ensures [a, b, c] + rest + [last] == [a] + ([b] + ([c] + (rest + [last])))
  {
  }

  /** The pieces of the completed line of a prioritised task, the empty one dropped. */
  lemma PrioPieces(rest: seq<string>, t: string, pri: string)
    requires Words(rest) && IsoShape(t) && pri != "" && ' ' !in pri
    ensures SplitSpaces(Join(["x", t, ""] + rest + [pri])) == ["x", t] + rest + [pri]
  {
    DateWord(t);
    var a := ["x", t];
    var b := rest + [pri];
    assert Words(a);
    WordsAppend(rest, [pri]);
    assert ["x", t, ""] + rest + [pri] == a + [""] + b;
    SplitSpacesSkipsEmpty(a, b);
    assert a + b == ["x", t] + rest + [pri];
  }

  /** Completing a prioritised line: `x`, today, the description and `pri:A`. */
  lemma CompletedPrio(ws: seq<string>, t: string)
    requires Words(ws) && |ws| >= 2 && IsPrio(ws[0]) && IsoShape(t)
    ensures SplitSpaces(CompleteStr(Join(ws), ws[0], t)) == ["x", t] + ws[1..] + [PriWord(ws[0][1])]
  {
    CompletedPrioJoin(ws, t);
    assert Words(ws[1..]) by {
      assert forall k :: 0 <= k < |ws| - 1 ==> ws[1..][k] == ws[k + 1];
    }
    PrioPieces(ws[1..], t, PriWord(ws[0][1]));
  }

  lemma CompleteThenReopenPlain(ws: seq<string>, t: string)
    requires Words(ws) && |ws| >= 1 && !IsPrio(ws[0]) && DateParses(t)
    requires forall k :: 0 <= k < |ws| ==> !IsPriExt(ws[k])
    ensures Reopen(CompleteStr(Join(ws), NoPriority, t)) == Join(ws)
  {
    CompletedPlain(ws, t);
    ReopenPlain(t, ws);
  }

  /** Reopening the pieces of a completed prioritised line gives the original line back. */
  lemma ReopenPrioritisedWords(w0: string, rest: seq<string>, t: string)
    requires IsPrio(w0) && |rest| >= 1 && DateParses(t)
    requires forall k :: 0 <= k < |rest| ==> !IsPriExt(rest[k])
    ensures ReopenWords(["x", t] + rest + [PriWord(w0[1])]) == Join([w0] + rest)
  {
    var pri := PriWord(w0[1]);
    assert pri[4] == w0[1];
    PrioFromChar(w0);
    ReopenPrioritised(t, rest, pri);
    JoinCons(w0, rest);
  }

  lemma CompleteThenReopenPrio(ws: seq<string>, t: string)
    requires Words(ws) && |ws| >= 2 && IsPrio(ws[0]) && DateParses(t)
    requires forall k :: 0 <= k < |ws| ==> !IsPriExt(ws[k])
    ensures Reopen(CompleteStr(Join(ws), ws[0], t)) == Join(ws)
  {
    var c := CompleteStr(Join(ws), ws[0], t);
    var rest := ws[1..];
    CompletedPrio(ws, t);
    assert SplitSpaces(c) == ["x", t] + rest + [PriWord(ws[0][1])];
    NoPriExtTail(ws);
    ReopenPrioritisedWords(ws[0], rest, t);
    HeadTail(ws);
  }

  lemma NoPriExtTail(ws: seq<string>)
    requires |ws| >= 1
    requires forall k :: 0 <= k < |ws| ==> !IsPriExt(ws[k])
    ensures forall k :: 0 <= k < |ws[1..]| ==> !IsPriExt(ws[1..][k])
  {
    forall k | 0 <= k < |ws[1..]|
      ensures !IsPriExt(ws[1..][k])
    {
      assert ws[1..][k] == ws[k + 1];
    }
  }

  /**
   * Completing then reopening a single-space-separated task gives back its
   * line, when it holds no `pri:` word (and a task with a priority has a
   * description).
   */
  lemma CompleteThenReopen(ws: seq<string>, t: string)
    requires Words(ws) && |ws| >= 1 && DateParses(t)
    requires forall k :: 0 <= k < |ws| ==> !IsPriExt(ws[k])
    requires IsPrio(ws[0]) ==> |ws| >= 2
    ensures var prio := if IsPrio(ws[0]) then ws[0] else NoPriority;
            Reopen(CompleteStr(Join(ws), prio, t)) == Join(ws)
  {
    if IsPrio(ws[0]) {
      CompleteThenReopenPrio(ws, t);
    } else {
      CompleteThenReopenPlain(ws, t);
    }
  }

  // ---------------------------------------------------------------------
  // Pin / unpin

  /** Splitting a pinned line of words gives the words and `pin:1`. */
  lemma PinnedWords(ws: seq<string>)
    requires Words(ws) && ws != []
    ensures SplitSpaces(PinStr(Join(ws))) == ws + ["pin:1"]
  {
    var all := ws + ["pin:1"];
    JoinSnoc(ws, "pin:1");
    WordsAppend(ws, ["pin:1"]);
    SplitSpacesOfJoin(all, []);
    assert all + [] == all;
  }

  /** The `pin:1` appended last is the one the unpinning removes. */
  lemma RemoveAppendedPin(ws: seq<string>)
    requires forall k :: 0 <= k < |ws| ==> !IsPin(ws[k])
    ensures RemoveFirst(ws + ["pin:1"], IsPin) == ws
  {
    FirstIndexAfter(ws, ["pin:1"], IsPin);
    FirstIndexIs(["pin:1"], IsPin, 0);
    assert ws + [] == ws;
  }

  /** Pinning then unpinning a single-space-separated line without `pin:1` gives it back. */
  lemma PinThenUnpin(ws: seq<string>)
    requires Words(ws) && ws != []
    requires forall k :: 0 <= k < |ws| ==> !IsPin(ws[k])
    ensures UnpinStr(PinStr(Join(ws))) == Join(ws)
  {
    PinnedWords(ws);
    RemoveAppendedPin(ws);
  }

  /** Clicking the pin icon twice restores the task, for a normalised line without `pin:1`. */
  lemma TogglePinTwice(f: Fields, ws: seq<string>)
    requires !f.pinned && f.text == Join(ws) && Words(ws) && ws != []
    requires forall k :: 0 <= k < |ws| ==> !IsPin(ws[k])
    ensures TogglePinFields(f).pinned && TogglePinFields(TogglePinFields(f)) == f
  {
    PinThenUnpin(ws);
  }


  // ---------------------------------------------------------------------
  // Recurrence fires once

  /** The words of a line that starts with an optional priority and then the date `t`. */
  lemma FreshWords(h: seq<string>, t: string, rest: seq<string>)
    requires DateParses(t) && SpaceFree(rest)
    requires h == [] || (|h| == 1 && IsPrio(h[0]))
    ensures var ws := SplitWords(Join(h + [t] + rest));
            |ws| > |h| && ws[|h|] == t && (h != [] ==> ws[0] == h[0])
  {
    hide Join, Pieces, SplitWords, NonEmpty;
    DateWord(t);
    var front := h + [t];
    assert Words(front) by {
      if h != [] {
        assert front == [h[0], t];
      }
    }
    SpaceFreeAppend(front, rest);
    SplitWordsOfJoin(front + rest);
    NonEmptyAppend(front, rest);
    NonEmptyOfWords(front);
    assert h + [t] + rest == front + rest;
  }

  /** Such a line is not empty and does not start with a space. */
  lemma FreshLead(h: seq<string>, t: string, rest: seq<string>)
    requires DateParses(t)
    requires h == [] || (|h| == 1 && IsPrio(h[0]))
    ensures var n := Join(h + [t] + rest);
            n != "" && !LeadingSpace(n)
  {
    DateWord(t);
    var all := h + [t] + rest;
    assert all[0] == if h == [] then t else h[0];
    HeadOfJoin(all);
  }

  /** The header of a line that opens with a creation date. */
  lemma HeaderDated(f: Fields, ws: seq<string>)
    requires |ws| >= 1 && DateParses(ws[0])
    ensures var hd := Header(f, ws).0;
            hd.creationDate == DateOf(ws[0]) && hd.completed == f.completed
            && hd.completionDate == f.completionDate
  {
    DateWord(ws[0]);
  }

  /** The header of a line that opens with a priority and a creation date. */
  lemma HeaderPrioDated(f: Fields, ws: seq<string>)
    requires |ws| >= 2 && IsPrio(ws[0]) && DateParses(ws[1])
    ensures var hd := Header(f, ws).0;
            hd.creationDate == DateOf(ws[1]) && hd.completed == f.completed
            && hd.completionDate == f.completionDate
  {
    assert ws[0] != "x";
  }

  /**
   * A line that starts with an optional priority and then the date `t` is
   * read back as created on `t` and not completed.
   */
  lemma FreshHeader(h: seq<string>, t: string, rest: seq<string>)
    requires DateParses(t) && SpaceFree(rest)
    requires h == [] || (|h| == 1 && IsPrio(h[0]))
    ensures var n := Join(h + [t] + rest);
            var hd := Header(Defaults(n), SplitWords(n)).0;
            hd.creationDate == DateOf(t) && !hd.completed && hd.completionDate == NoDate
            && n != "" && !LeadingSpace(n)
  {
    var n := Join(h + [t] + rest);
    var ws := SplitWords(n);
    FreshWords(h, t, rest);
    FreshLead(h, t, rest);
    if h == [] {
      HeaderDated(Defaults(n), ws);
    } else {
      HeaderPrioDated(Defaults(n), ws);
    }
  }

  /** A task whose header reads creation today and not completed does not recur today. */
  lemma FreshNeverFires(n: string, today: Date)
    requires ValidToday(today)
    requires var hd := Header(Defaults(n), SplitWords(n)).0;
             hd.creationDate == today && !hd.completed && hd.completionDate == NoDate
    ensures !Fires(Parse(n), today)
  {
    var p := Parse(n);
    ParseInv(n);
    if p.recStr != "" {
      RecurrenceBounds(p, today);
    }
  }

  /**
   * The header of a parsed line that kept a recurrence: `x` and a date when
   * completed, `(A)` when prioritised.
   */
  lemma RecurringHeader(s: string)
    requires Parse(s).recStr != ""
    ensures var p := Parse(s);
            var ws := SplitWords(s);
            (p.completed <==> |ws| > 0 && ws[0] == "x")
            && (p.completed ==> |ws| > 1 && DateParses(ws[1]))
            && (!p.completed && p.priority != NoPriority ==> |ws| > 0 && IsPrio(ws[0]) && ws[0] != "x")
  {
    ParseInv(s);
    var ws := SplitWords(s);
    if |ws| > 1 && DateParses(ws[1]) {
      assert DateOf(ws[1]) != NoDate;
    }
  }

  /**
   * Where `Rewrite` puts the date `t`: at position `at` (the header index, or
   * the end of a shorter line), replacing the word there when it has the date
   * shape.
   */
  lemma RewriteAt(s: string, completed: bool, hasPrio: bool, t: string) returns (at: nat, j: nat)
    ensures var ss := SplitSpaces(s);
            var idx := if completed then 2 else if hasPrio then 1 else 0;
            at == (if idx <= |ss| then idx else |ss|) && at <= j <= |ss| && (j == at || j == at + 1)
            && (j == at + 1 ==> IsoShape(ss[at]))
            && Rewrite(s, completed, hasPrio, t) == Join(ss[..at] + [t] + ss[j..])
  {
    var ss := SplitSpaces(s);
    var idx := if completed then 2 else if hasPrio then 1 else 0;
    at := if idx <= |ss| then idx else |ss|;
    if idx < |ss| && IsoShape(ss[idx]) {
      j := at + 1;
      UpdateAsSplice(ss, idx, t);
    } else {
      j := at;
    }
  }

  /** The pieces of a completed recurring line: `x`, a date, and the rest. */
  lemma CompletedSplit(s: string) returns (ws: seq<string>, tail: seq<string>)
    requires !LeadingSpace(s) && Parse(s).recStr != "" && Parse(s).completed
    ensures ws == SplitWords(s) && SplitSpaces(s) == ws + tail && (tail == [] || tail == [""])
    ensures |ws| >= 2 && ws[0] == "x" && DateParses(ws[1])
  {
    ws := SplitWords(s);
    SplitSpacesShape(s);
    RecurringHeader(s);
    tail := if SplitSpaces(s) == ws then [] else [""];
    assert ws + [] == ws;
  }

  /** Where the rewrite of a completed line cuts: the date-shaped third piece is a word. */
  lemma CompletedCut(ws: seq<string>, tail: seq<string>, j: nat)
    requires |ws| >= 2 && (tail == [] || tail == [""])
    requires (j == 2 || j == 3) && j <= |ws + tail|
    requires j == 3 ==> IsoShape((ws + tail)[2])
    ensures j <= |ws| && (ws + tail)[..2] == ws[..2] && (ws + tail)[j..] == ws[j..] + tail
  {
  }

  lemma Regroup<T>(x: T, d: T, t: T, mid: seq<T>, tail: seq<T>)
    ensures [x, d] + [t] + (mid + tail) == [x, d, t] + mid + tail
    ensures [x, d] + ([t] + (mid + tail)) == [x, d, t] + mid + tail
  {
  }

  lemma Regroup1<T>(h: seq<T>, t: T, rest: seq<T>)
    requires |h| <= 1
    ensures h == [] ==> h + [t] + rest == [t] + rest
    ensures |h| == 1 ==> h + [t] + rest == [h[0]] + ([t] + rest)
  {
  }

  /** The pieces of `x`, a date, `t`, words and an optional empty end. */
  lemma RewrittenPieces(d: string, t: string, mid: seq<string>, tail: seq<string>)
    requires DateParses(d) && DateParses(t) && Words(mid) && (tail == [] || tail == [""])
    ensures SpaceFree(mid + tail)
    ensures SplitSpaces(Join(["x", d] + [t] + (mid + tail))) == ["x", d] + ([t] + (mid + tail))
  {
    DateWord(d);
    DateWord(t);
    var front := ["x", d, t];
    assert Words(front);
    WordsAppend(front, mid);
    SplitSpacesOfJoin(front + mid, tail);
    Regroup("x", d, t, mid, tail);
    SpaceFreeAppend(mid, tail);
  }

  /** Rewriting a completed recurring line: `x`, its date, `t`, then the rest. */
  lemma CompletedRewrite(s: string, hasPrio: bool, t: string) returns (d: string, tl: seq<string>)
    requires !LeadingSpace(s) && Parse(s).recStr != "" && Parse(s).completed && DateParses(t)
    ensures DateParses(d) && SpaceFree(tl)
    ensures SplitSpaces(Rewrite(s, true, hasPrio, t)) == ["x", d] + ([t] + tl)
  {
    var ws, tail := CompletedSplit(s);
    var at, j := RewriteAt(s, true, hasPrio, t);
    CompletedCut(ws, tail, j);
    d := ws[1];
    var mid := ws[j..];
    tl := mid + tail;
    assert ws[..2] == ["x", d];
    WordsSlice(ws, j, |ws|);
    RewrittenPieces(d, t, mid, tail);
  }

  /**
   * Reopening `x`, a date, `t` and more: the `x` and the date go, the first
   * `pri:A` word (if any) goes and `(A)` leads.
   */
  lemma ReopenFresh(d: string, t: string, tl: seq<string>) returns (h: seq<string>, rest: seq<string>)
    requires DateParses(d) && DateParses(t) && SpaceFree(tl)
    ensures SpaceFree(rest) && (h == [] || (|h| == 1 && IsPrio(h[0])))
    ensures ReopenWords(["x", d] + ([t] + tl)) == Join(h + [t] + rest)
  {
    DateWord(d);
    DateWord(t);
    var front := ["x", d, t];
    var r := front + tl;
    assert ["x", d] + ([t] + tl) == r;
    FirstIndexAfter(front, tl, IsPriExt);
    rest := RemoveFirst(tl, IsPriExt);
    RemoveFirstSpaceFree(tl, IsPriExt);
    assert front + rest == ["x", d] + ([t] + rest);
    DropMarkDated(d, [t] + rest);
    h := PriPrefixWord(r);
    Regroup1(h, t, rest);
    if h != [] {
      JoinCons(h[0], [t] + rest);
    }
  }

  /** A completed recurring task is rewritten to `[(A)] t ...`. */
  lemma NextCompleted(s: string, t: string) returns (h: seq<string>, rest: seq<string>)
    requires !LeadingSpace(s) && DateParses(t) && Parse(s).recStr != "" && Parse(s).completed
    ensures SpaceFree(rest) && (h == [] || (|h| == 1 && IsPrio(h[0])))
    ensures NextStr(s, Parse(s), t) == Join(h + [t] + rest)
  {
    var p := Parse(s);
    var s2 := Rewrite(s, true, p.priority != NoPriority, t);
    var d, tl := CompletedRewrite(s, p.priority != NoPriority, t);
    h, rest := ReopenFresh(d, t, tl);
    FreshLead(h, t, rest);
    assert Reopen(s2) == Join(h + [t] + rest);
  }

  /** A recurring task that is not completed is rewritten to `[(A)] t ...`. */
  lemma NextOpen(s: string, t: string) returns (h: seq<string>, rest: seq<string>)
    requires !LeadingSpace(s) && Parse(s).recStr != "" && !Parse(s).completed
    ensures SpaceFree(rest) && (h == [] || (|h| == 1 && IsPrio(h[0])))
    ensures NextStr(s, Parse(s), t) == Join(h + [t] + rest)
    ensures h == (if Parse(s).priority == NoPriority then [] else [Parse(s).priority])
  {
    var p := Parse(s);
    var ws := SplitWords(s);
    var ss := SplitSpaces(s);
    SplitSpacesShape(s);
    RecurringHeader(s);
    var at, j := RewriteAt(s, false, p.priority != NoPriority, t);
    h := ss[..at];
    rest := ss[j..];
    SpaceFreeSlice(ss, j, |ss|);
    ParseInv(s);
    if p.priority != NoPriority {
      assert ss[0] == ws[0];
    }
  }

  /** The line a recurring task is re-read from starts with `t` after an optional priority. */
  lemma NextFresh(s: string, t: string) returns (h: seq<string>, rest: seq<string>)
    requires !LeadingSpace(s) && DateParses(t) && Parse(s).recStr != ""
    ensures SpaceFree(rest) && (h == [] || (|h| == 1 && IsPrio(h[0])))
    ensures NextStr(s, Parse(s), t) == Join(h + [t] + rest)
  {
    if Parse(s).completed {
      h, rest := NextCompleted(s, t);
    } else {
      h, rest := NextOpen(s, t);
    }
  }

  /**
   * The line a recurring task is re-read from starts with today's date
   * (after its priority, if any), so the re-check does not recur again.
   */
  lemma NoRefire(s: string, today: Date)
    requires !LeadingSpace(s) && ValidToday(today) && Parse(s).recStr != ""
    ensures var n := NextStr(s, Parse(s), Fmt(today));
            var hd := Header(Defaults(n), SplitWords(n)).0;
            !LeadingSpace(n) && !Fires(Parse(n), today)
            && hd.creationDate == today && !hd.completed
  {
    var t := Fmt(today);
    var h, rest := NextFresh(s, t);
    FreshHeader(h, t, rest);
    FreshNeverFires(NextStr(s, Parse(s), t), today);
  }

  /** A priority word does not have the date shape. */
  lemma PrioNotDate(w: string)
    requires IsPrio(w)
    ensures !IsoShape(w)
  {
  }

  /**
   * An open recurring line that starts with a blank: its first piece under
   * `split(/ +/)` is empty, so today goes in at index 0 or 1 in front of the
   * line's first word, and the rewritten line's words are today and then the
   * line's words.
   */
  lemma LeadOpenNext(s: string, t: string)
    requires LeadingSpace(s) && Parse(s).recStr != "" && !Parse(s).completed && DateParses(t)
    ensures SplitWords(NextStr(s, Parse(s), t)) == [t] + SplitWords(s)
  {
    hide Parse, Rewrite, Join, Pieces, SplitSpaces, SplitWords, Header, Walk;
    var p := Parse(s);
    var ws := SplitWords(s);
    var tail := SplitSpacesLead(s);
    var ss := SplitSpaces(s);
    RecurringHeader(s);
    DateWord(t);
    assert Words([t]);
    var at, j := RewriteAt(s, false, p.priority != NoPriority, t);
    if p.priority != NoPriority {
      assert ss[1] == ws[0];
      PrioNotDate(ws[0]);
      assert ss[..1] + [t] + ss[1..] == [] + [""] + ([t] + ws) + tail;
      WordsAppend([t], ws);
      SplitWordsOfPadded([], [t] + ws, tail);
    } else {
      assert ss[..0] + [t] + ss[0..] == [t] + [""] + ws + tail;
      SplitWordsOfPadded([t], ws, tail);
    }
  }

  /**
   * Reopening an empty piece, `x`, the date `t` and more: the empty piece
   * goes with the `x` (`Date.parse('x')` is not a date), and the line left
   * starts with `x` or with the priority taken from a `pri:A` word.
   */
  lemma LeadReopen(t: string, tl: seq<string>)
    requires DateParses(t) && SpaceFree(tl)
    ensures var r := ReopenWords(["", "x", t] + tl);
            r != "" && r[0] != ' '
  {
    hide Pieces, SplitSpaces, SplitWords, Header, Walk;
    DateWord(t);
    var front := ["", "x", t];
    FirstIndexAfter(front, tl, IsPriExt);
    var rest := RemoveFirst(tl, IsPriExt);
    var rm := front + rest;
    assert rm[1] == "x" && !DateParseTruthy("x");
    assert DropMark(rm) == ["x", t] + rest;
    HeadOfJoin(["x", t] + rest);
    var h := PriPrefixWord(front + tl);
  }

  /** The rewrite of a completed line that starts with a blank replaces its completion date. */
  lemma LeadCompletedRewrite(s: string, t: string) returns (rest: seq<string>, tail: seq<string>)
    requires LeadingSpace(s) && Parse(s).recStr != "" && Parse(s).completed
    ensures |SplitWords(s)| >= 2 && rest == SplitWords(s)[2..] && Words(rest) && (tail == [] || tail == [""])
    ensures Rewrite(s, true, Parse(s).priority != NoPriority, t) == Join([""] + (["x", t] + rest) + tail)
  {
    hide Parse, Join, Pieces, SplitSpaces, SplitWords, Header, Walk;
    var ws := SplitWords(s);
    tail := SplitSpacesLead(s);
    var ss := SplitSpaces(s);
    RecurringHeader(s);
    DateWord(ws[1]);
    assert ss[2] == ws[1] && IsoShape(ss[2]);
    UpdateAsSplice(ss, 2, t);
    rest := ws[2..];
    assert ss[..2] == ["", "x"] && ss[3..] == rest + tail;
    assert ss[..2] + [t] + ss[3..] == [""] + (["x", t] + rest) + tail;
    WordsSlice(ws, 2, |ws|);
  }

  /**
   * A completed recurring line that starts with a blank: the rewrite replaces
   * its completion date, and the reopening branch of `toggle_task` removes
   * only the empty first piece (`Date.parse('x')` fails), so the line it is
   * re-read from starts with `x`, not with a blank.
   */
  lemma LeadCompletedNext(s: string, t: string)
    requires LeadingSpace(s) && Parse(s).recStr != "" && Parse(s).completed && DateParses(t)
    ensures var n := NextStr(s, Parse(s), t);
            n != "" && !LeadingSpace(n)
  {
    hide Parse, Rewrite, Join, Pieces, SplitSpaces, SplitWords, Header, Walk, ReopenWords;
    var rest, tail := LeadCompletedRewrite(s, t);
    var s2 := Rewrite(s, true, Parse(s).priority != NoPriority, t);
    DateWord(t);
    var mid := ["x", t] + rest;
    assert Words(["x", t]);
    WordsAppend(["x", t], rest);
    SplitSpacesOfJoinLead(mid, tail);
    assert [""] + mid + tail == ["", "x", t] + (rest + tail);
    assert SpaceFree(rest) && SpaceFree(tail);
    SpaceFreeAppend(rest, tail);
    LeadReopen(t, rest + tail);
  }

  /**
   * The line a recurring task is re-read from is open and created today, so
   * it does not recur again today, unless the task was completed and its
   * line starts with a blank.
   */
  lemma FreshRenewal(s: string, today: Date)
    requires ValidToday(today) && Parse(s).recStr != "" && !(LeadingSpace(s) && Parse(s).completed)
    ensures var n := NextStr(s, Parse(s), Fmt(today));
            var hd := Header(Defaults(n), SplitWords(n)).0;
            !Fires(Parse(n), today) && hd.creationDate == today && !hd.completed
  {
    var t := Fmt(today);
    var n := NextStr(s, Parse(s), t);
    if !LeadingSpace(s) {
      NoRefire(s, today);
    } else {
      LeadOpenNext(s, t);
      DateWord(t);
      HeaderDated(Defaults(n), SplitWords(n));
      FreshNeverFires(n, today);
    }
  }

  /**
   * As written: an open recurring line that starts with a blank gets today
   * in front of its priority, so the renewed line is read without one.
   */
  lemma LeadPriorityLost(s: string, today: Date)
    requires ValidToday(today) && LeadingSpace(s) && Parse(s).recStr != "" && !Parse(s).completed
    ensures Parse(NextStr(s, Parse(s), Fmt(today))).priority == NoPriority
  {
    var t := Fmt(today);
    var n := NextStr(s, Parse(s), t);
    LeadOpenNext(s, t);
    DateWord(t);
    var ws := SplitWords(n);
    var h := Header(Defaults(n), ws);
    assert h.0.priority == NoPriority;
    WalkPriority(WalkState(h.0, []), ws[h.1..]);
  }

  /**
   * The renewal the recurrence code evidently intends: the line is rewritten
   * with its leading blanks removed, so the date goes after the priority.
   */
  function RenewedLine(s: string, t: string): string
  {
    NextStr(Unindented(s), Parse(s), t)
  }

  /** A line that starts with an optional priority and then a date is read with that priority. */
  lemma FreshPriority(h: seq<string>, t: string, rest: seq<string>)
    requires DateParses(t) && SpaceFree(rest)
    requires h == [] || (|h| == 1 && IsPrio(h[0]))
    ensures var n := Join(h + [t] + rest);
            Header(Defaults(n), SplitWords(n)).0.priority == if h == [] then NoPriority else h[0]
  {
    DateWord(t);
    FreshWords(h, t, rest);
    if h != [] {
      assert h[0] != "x";
    }
  }

  /**
   * The intended renewal is read back created today and open, so it does not
   * recur again today, and an open task keeps its priority.
   */
  lemma RenewedLineKeepsPriority(s: string, today: Date)
    requires ValidToday(today) && Parse(s).recStr != ""
    ensures var n := RenewedLine(s, Fmt(today));
            var hd := Header(Defaults(n), SplitWords(n)).0;
            !Fires(Parse(n), today) && hd.creationDate == today && !hd.completed
            && (!Parse(s).completed ==> hd.priority == Parse(s).priority)
            && (!Parse(s).completed && !Parse(n).hidden ==> Parse(n).priority == Parse(s).priority)
  {
    var t := Fmt(today);
    var u := Unindented(s);
    ParseRetext(s, u);
    assert Parse(u).completed == Parse(s).completed && Parse(u).priority == Parse(s).priority;
    var n := NextStr(u, Parse(u), t);
    assert RenewedLine(s, t) == n;
    NoRefire(u, today);
    ParseInv(n);
    if !Parse(s).completed {
      var h, rest := NextOpen(u, t);
      FreshPriority(h, t, rest);
    }
  }

  /** How often `reset(true)` may recur a line that fires today: once, or twice when the line starts with a blank. */
  function Bound(s: string): nat
  {
    if LeadingSpace(s) then 2 else 1
  }

  /** The recurrences `reset(true)` may still make on a line: none when it does not fire today. */
  function Rank(s: string, today: Date): nat
  {
    if Fires(Parse(s), today) then Bound(s) else 0
  }

  /**
   * The line a recurring task is re-read from recurs fewer times than the
   * line itself may: without a leading blank it does not recur again; with
   * one, an open line is re-read as created today and does not recur, and a
   * completed one loses its blank.
   */
  lemma Refire(s: string, today: Date)
    requires ValidToday(today) && Parse(s).recStr != ""
    ensures Rank(NextStr(s, Parse(s), Fmt(today)), today) < Bound(s)
  {
    var t := Fmt(today);
    var n := NextStr(s, Parse(s), t);
    if LeadingSpace(s) && Parse(s).completed {
      LeadCompletedNext(s, t);
    } else {
      FreshRenewal(s, today);
    }
  }

  /** A line that does not recur: parsed, then checked. */
  function Checked(s: string, today: Date): Fields
    requires ValidToday(today)
  {
    ParseInv(s);
    AfterChecks(Parse(s), today)
  }

  /**
   * `reset(true)` on a line: parse it; when it recurs today, rewrite it and
   * settle the rewritten line (through `toggle_task` for a completed task),
   * then re-apply the deferral check; otherwise record the next recurrence
   * and apply the deferral check.
   */
  function Settle(s: string, today: Date): Fields
    requires ValidToday(today)
    decreases Rank(s, today)
  {
    var f := Parse(s);
    ParseInv(s);
    if Fires(f, today) then
      var n := NextStr(s, f, Fmt(today));
      Refire(s, today);
      CheckDeferred(Settle(n, today), today).1
    else
      Checked(s, today)
  }

  /**
   * What a recurring line settles to once `check_recurrence` has rewritten
   * it (before the deferral check that follows): its rewritten line, settled.
   */
  function Renewed(s: string, today: Date): Fields
    requires ValidToday(today) && Parse(s).recStr != ""
  {
    ParseInv(s);
    Settle(NextStr(s, Parse(s), Fmt(today)), today)
  }

  /**
   * The line `check_recurrence` re-reads: a completed task is toggled from
   * the rewritten line, an open one is reset on it.
   */
  lemma NextStrToggle(f: Fields, t: string)
    requires |f.priority| == 3
    ensures var g := f.(text := Rewrite(f.text, f.completed, f.priority != NoPriority, t));
            NextStr(f.text, f, t) == if f.completed then ToggleTarget(g, t) else Effective("", g.text)
  {
  }

  /** What `check_recurrence` relies on when a line recurs today. */
  lemma RecurSteps(s: string, today: Date)
    requires ValidToday(today) && Parse(s).recStr != ""
    ensures var f := Parse(s);
            var t := Fmt(today);
            var n := NextStr(s, f, t);
            var g := f.(text := Rewrite(s, f.completed, f.priority != NoPriority, t));
            |f.priority| == 3 && Rank(n, today) < Bound(s)
            && Renewed(s, today) == Settle(n, today)
            && (f.completed ==> ToggleTarget(g, t) == n)
            && (!f.completed ==> g.text == n)
  {
    ParseInv(s);
    Refire(s, today);
    ParseText(s);
    NextStrToggle(Parse(s), Fmt(today));
  }

  /** `reset(true)` on a line that recurs today is the deferral check after the recurrence. */
  lemma SettleRecurred(s: string, today: Date)
    requires ValidToday(today) && Fires(Parse(s), today)
    ensures Settle(s, today) == CheckDeferred(Renewed(s, today), today).1
  {
  }

  /** The deferral check keeps the hidden flag and the defer date, and the creation date when there is no defer date. */
  lemma DeferredKeeps(f: Fields, today: Date)
    ensures var r := CheckDeferred(f, today).1;
            r.hidden == f.hidden && r.deferDate == f.deferDate
            && (f.deferDate.None? ==> r.creationDate == f.creationDate)
  {
  }

  /** Recording the next recurrence and checking the deferral change no header field. */
  lemma AfterChecksKeeps(f: Fields, today: Date)
    requires ValidToday(today) && (f.recStr != "" ==> RecAssumed(f))
    ensures var r := AfterChecks(f, today);
            r.hidden == f.hidden && r.deferDate == f.deferDate
            && (f.deferDate.None? ==> r.creationDate == f.creationDate)
  {
    DeferredKeeps(RecordNext(f, today), today);
  }

  /** The deferral check and the recurrence date leave the creation date alone unless a defer date is set. */
  lemma ChecksKeepCreation(s: string, today: Date)
    requires ValidToday(today)
    ensures var r := CheckDeferred(Checked(s, today), today).1;
            r.hidden == Parse(s).hidden && (r.deferDate.Some? || r.creationDate == Parse(s).creationDate)
  {
    ParseInv(s);
    AfterChecksKeeps(Parse(s), today);
    DeferredKeeps(Checked(s, today), today);
  }

  /** A line that does not recur today settles to its parse, checked. */
  lemma SettleQuiet(s: string, today: Date)
    requires ValidToday(today) && !Fires(Parse(s), today)
    ensures Settle(s, today) == Checked(s, today)
  {
  }

  /**
   * A line that recurs today, and is not a completed line with a leading
   * blank, settles to its rewritten line's parse, checked twice.
   */
  lemma SettleFires(s: string, today: Date)
    requires ValidToday(today) && Fires(Parse(s), today) && !(LeadingSpace(s) && Parse(s).completed)
    ensures var n := NextStr(s, Parse(s), Fmt(today));
            !Fires(Parse(n), today) && Settle(s, today) == CheckDeferred(Checked(n, today), today).1
  {
    var n := NextStr(s, Parse(s), Fmt(today));
    ParseInv(s);
    FreshRenewal(s, today);
    ParseInv(n);
    SettleQuiet(n, today);
  }

  /**
   * A task that recurs today is settled with its rewritten line, which does
   * not recur again: the result is that line parsed and checked, and its
   * creation date is today unless a defer date or a hide token overrides it.
   */
  lemma RecursOncePerDay(s: string, today: Date)
    requires ValidToday(today) && Fires(Parse(s), today) && !(LeadingSpace(s) && Parse(s).completed)
    ensures var n := NextStr(s, Parse(s), Fmt(today));
            !Fires(Parse(n), today)
            && Settle(s, today) == CheckDeferred(Checked(n, today), today).1
            && (Settle(s, today).hidden || Settle(s, today).deferDate.Some?
                || Settle(s, today).creationDate == today)
  {
    var n := NextStr(s, Parse(s), Fmt(today));
    SettleFires(s, today);
    ParseInv(s);
    FreshRenewal(s, today);
    ParseInv(n);
    ChecksKeepCreation(n, today);
  }


  /**
   * A completed recurring line that starts with a blank is settled through
   * its renewed line, which has no leading blank; that line may recur once
   * more, so such a task can recur twice in one reset.
   */
  lemma RecursAtMostTwice(s: string, today: Date)
    requires ValidToday(today) && Fires(Parse(s), today) && LeadingSpace(s) && Parse(s).completed
    ensures var n := NextStr(s, Parse(s), Fmt(today));
            !LeadingSpace(n) && Settle(s, today) == CheckDeferred(Settle(n, today), today).1
  {
    ParseInv(s);
    DateWord(Fmt(today));
    LeadCompletedNext(s, Fmt(today));
    SettleRecurred(s, today);
  }

  /**
   * A completed recurring line that starts with a blank and has no `pri:`
   * word: the line it is re-read from is `x <today>` followed by its words
   * from the creation date on, still completed.
   */
  lemma LeadCompletedReopened(s: string, t: string)
    requires LeadingSpace(s) && Parse(s).recStr != "" && Parse(s).completed && DateParses(t)
    requires forall w :: w in SplitWords(s) ==> !IsPriExt(w)
    ensures var n := NextStr(s, Parse(s), t);
            !LeadingSpace(n) && |SplitWords(s)| >= 2 && SplitWords(n) == ["x", t] + SplitWords(s)[2..]
  {
    hide Parse, Rewrite, Join, Pieces, SplitSpaces, SplitWords, Header, Walk;
    var rest, tail := LeadCompletedRewrite(s, t);
    var s2 := Rewrite(s, true, Parse(s).priority != NoPriority, t);
    DateWord(t);
    var mid := ["x", t] + rest;
    assert Words(["x", t]);
    WordsAppend(["x", t], rest);
    SplitSpacesOfJoinLead(mid, tail);
    var pieces := [""] + mid + tail;
    assert SplitSpaces(s2) == pieces;
    forall k | 0 <= k < |pieces|
      ensures !IsPriExt(pieces[k])
    {
      if 3 <= k < 3 + |rest| {
        var ws := SplitWords(s);
        assert pieces[k] == rest[k - 3] == ws[k - 1];
        assert ws[k - 1] in ws;
      }
    }
    FirstIndexIs(pieces, IsPriExt, |pieces|);
    assert PriPrefix(pieces) == "" && RemoveFirst(pieces, IsPriExt) == pieces;
    assert pieces[1] == "x" && !DateParseTruthy("x");
    assert DropMark(pieces) == mid + tail;
    var n := Join(mid + tail);
    assert Reopen(s2) == n;
    HeadOfJoin(mid + tail);
    assert NextStr(s, Parse(s), t) == n;
    SpaceFreeAppend(mid, tail);
    SplitWordsOfJoin(mid + tail);
    NonEmptyAppend(mid, tail);
    NonEmptyOfWords(mid);
    if tail == [""] {
      NonEmptyOfEmpty();
    }
    assert NonEmpty(mid + tail) == mid;
  }

  /**
   * The code as written on a completed recurring line that starts with a
   * blank, counts from its creation date and has no `pri:` word: the
   * renewal only replaces the completion date by today, so the line it is
   * re-read from is completed, keeps every other field, and recurs again
   * the same day.
   */
  lemma LeadCompletedRefires(s: string, today: Date)
    requires ValidToday(today) && LeadingSpace(s) && Fires(Parse(s), today)
    requires Parse(s).completed && Parse(s).recType != 2
    requires forall w :: w in SplitWords(s) ==> !IsPriExt(w)
    ensures var n := NextStr(s, Parse(s), Fmt(today));
            !LeadingSpace(n) && Parse(n) == Parse(s).(text := n, completionDate := today)
            && Fires(Parse(n), today)
  {
    hide Parse, SplitWords, NextStr, RecurrenceDate, Walk, Header, Pieces, Join, WalkInv;
    var t := Fmt(today);
    var p := Parse(s);
    ParseInv(s);
    assert !p.hidden && Valid(p.creationDate);
    CompletedDated(s);
    LeadCompletedReopened(s, t);
    var n := NextStr(s, p, t);
    ParseProps.ParseRedate(s, n, t);
    RecurrenceRedate(p, n, today, today);
  }

  /** A visible completed line with a creation date starts with `x` and both dates. */
  lemma CompletedDated(s: string)
    requires Parse(s).completed && !Parse(s).hidden && Parse(s).creationDate != NoDate
    ensures var ws := SplitWords(s);
            |ws| > 2 && ws[0] == "x" && DateParses(ws[1]) && DateParses(ws[2])
  {
    ParseInv(s);
  }

  /** A recurrence that does not count from the completion date does not read it. */
  lemma RecurrenceRedate(f: Fields, b: string, c: Date, today: Date)
    requires f.recStr != "" && RecAssumed(f) && ValidToday(today) && f.recType != 2 && Valid(c)
    ensures var g := f.(text := b, completionDate := c);
            RecAssumed(g) && RecurrenceDate(g, today) == RecurrenceDate(f, today)
  {
    hide AdvanceMonths, LastValidDay, MonthStep, AdvanceDays, AddDays, Rec1Days, Rec2Days, Rec3Months, Rec3Day;
    var g := f.(text := b, completionDate := c);
    assert Reference(g) == Reference(f);
  }

  // ---------------------------------------------------------------------
  // The state an item settles in

  /**
   * The state `reset(true)` and the daily checks leave an item in: a line
   * whose parse gives the item's header, recurrence,
   * hidden flag and defer date.  Only the creation date may have been
   * replaced by the defer date; the next recurrence date and the deferred
   * flag are whatever the checks recorded.
   */
  predicate Settled(f: Fields)
  {
    Agrees(f, Parse(f.text)) && Sound(f)
  }

  /** What the recurrence code and `toggle_task` assume of an item's fields. */
  predicate Sound(f: Fields)
  {
    |f.priority| == 3 && (f.deferDate.Some? ==> ValidToday(f.deferDate.value))
    && (f.recStr != "" ==> RecAssumed(f))
  }

  /** `f` carries the header, recurrence, hidden flag and defer date of the parse `p`. */
  predicate Agrees(f: Fields, p: Fields)
  {
    f.completed == p.completed && f.priority == p.priority && f.completionDate == p.completionDate
    && f.recStr == p.recStr && f.recType == p.recType && f.hidden == p.hidden
    && f.deferDate == p.deferDate
    && (f.creationDate == p.creationDate || (f.deferDate.Some? && f.creationDate == f.deferDate.value))
  }

  /** A freshly parsed line is settled. */
  lemma ParsedSettled(s: string)
    ensures Settled(Parse(s))
  {
    ParseText(s);
    ParseInv(s);
  }

  /** The deferral check keeps an item settled. */
  lemma DeferredSettled(f: Fields, today: Date)
    requires Settled(f)
    ensures Settled(CheckDeferred(f, today).1) && CheckDeferred(f, today).1.text == f.text
  {
    var r := CheckDeferred(f, today).1;
    assert r.text == f.text;
    AgreesDeferred(f, Parse(f.text), today);
    SoundDeferred(f, today);
  }

  lemma SoundDeferred(f: Fields, today: Date)
    requires Sound(f)
    ensures Sound(CheckDeferred(f, today).1)
  {
  }

  lemma AgreesDeferred(f: Fields, p: Fields, today: Date)
    requires Agrees(f, p)
    ensures Agrees(CheckDeferred(f, today).1, p) && CheckDeferred(f, today).1.text == f.text
  {
  }

  /** Recording the next recurrence date keeps an item settled. */
  lemma RecordNextSettled(f: Fields, today: Date)
    requires Settled(f) && ValidToday(today)
    ensures Settled(RecordNext(f, today)) && RecordNext(f, today).text == f.text
  {
    AgreesRecordNext(f, Parse(f.text), today);
  }

  lemma AgreesRecordNext(f: Fields, p: Fields, today: Date)
    requires Agrees(f, p) && Sound(f) && ValidToday(today)
    ensures var r := RecordNext(f, today);
            Agrees(r, p) && Sound(r) && r.text == f.text
  {
  }

  /** What `check_recurrence` relies on when a settled item recurs. */
  lemma SettledRecurs(f: Fields, today: Date)
    requires Settled(f) && ValidToday(today) && f.recStr != ""
    ensures var n := NextStr(f.text, f, Fmt(today));
            Rank(n, today) < Bound(f.text) && Renewed(f.text, today) == Settle(n, today)
  {
    RecurSteps(f.text, today);
    NextStrSettled(f, Fmt(today));
  }

  /** The line a settled item recurs with depends only on its line, mark and priority. */
  lemma NextStrSettled(f: Fields, t: string)
    requires Settled(f)
    ensures NextStr(f.text, f, t) == NextStr(f.text, Parse(f.text), t)
  {
  }

  /** A parsed and checked line is settled, on that line. */
  lemma CheckedSettled(s: string, today: Date)
    requires ValidToday(today)
    ensures Settled(Checked(s, today)) && Checked(s, today).text == s
  {
    var p := Parse(s);
    ParsedSettled(s);
    ParseText(s);
    RecordNextSettled(p, today);
    DeferredSettled(RecordNext(p, today), today);
  }

  /** `reset(true)` leaves an item settled, on the line it was given or the one it recurred to. */
  lemma {:induction false} SettleSettled(s: string, today: Date)
    requires ValidToday(today)
    ensures Settled(Settle(s, today))
    ensures !Fires(Parse(s), today) ==> Settle(s, today).text == s
    decreases Rank(s, today)
  {
    if Fires(Parse(s), today) {
      var n := NextStr(s, Parse(s), Fmt(today));
      ParseInv(s);
      Refire(s, today);
      SettleSettled(n, today);
      SettleRecurred(s, today);
      DeferredSettled(Settle(n, today), today);
    } else {
      SettleQuiet(s, today);
      CheckedSettled(s, today);
    }
  }

  /**
   * One task's turn in `_check_dates`: `check_recurrence` on the item as it
   * stands, then `check_deferred_tasks`.  Returns whether it recurred, whether
   * a deferred task opened, and the new fields.
   */
  function DayCheck(f: Fields, today: Date): (bool, bool, Fields)
    requires ValidToday(today) && Settled(f)
  {
    if Fires(f, today) then
      var r := CheckDeferred(Renewed(f.text, today), today);
      (true, r.0, r.1)
    else
      var r := CheckDeferred(RecordNext(f, today), today);
      (false, r.0, r.1)
  }

  /** The day check leaves an item settled. */
  lemma DayCheckSettled(f: Fields, today: Date)
    requires ValidToday(today) && Settled(f)
    ensures Settled(DayCheck(f, today).2)
  {
    if Fires(f, today) {
      var n := NextStr(f.text, Parse(f.text), Fmt(today));
      RecurSteps(f.text, today);
      SettleSettled(n, today);
      DeferredSettled(Renewed(f.text, today), today);
    } else {
      RecordNextSettled(f, today);
      DeferredSettled(RecordNext(f, today), today);
    }
  }

  /**
   * Loading a line (`reset(false)`) and then the day check gives what
   * `reset(true)` gives: the two ways into the store agree.
   */
  lemma DayCheckOfParse(s: string, today: Date)
    requires ValidToday(today)
    ensures Settled(Parse(s)) && DayCheck(Parse(s), today).2 == Settle(s, today)
    ensures DayCheck(Parse(s), today).0 == Fires(Parse(s), today)
  {
    ParsedSettled(s);
    ParseText(s);
    if Fires(Parse(s), today) {
      SettleRecurred(s, today);
    } else {
      SettleQuiet(s, today);
    }
  }

}
