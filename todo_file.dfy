/**
 * The strings the todo section writes and reads: the todo.txt content
 * (`write_tasks_to_file`), the line split of a loaded file, and the lines
 * `archive_tasks` appends to done.txt; and the partition of the task list
 * that "delete all" and "archive all" make.
 */
module TodoFile {
  import opened Text
  import opened Dates
  import opened Tokens
  import opened TaskSpec
  import opened TaskText

  /** The todo.txt content: every line followed by a newline. */
  function FileContent(lines: seq<string>): string
  {
    if |lines| == 0 then "" else FileContent(lines[..|lines| - 1]) + lines[|lines| - 1] + "\n"
  }

  /** The content split at its first line. */
  lemma {:induction false} FileContentCons(lines: seq<string>)
    requires |lines| > 0
    ensures FileContent(lines) == lines[0] + "\n" + FileContent(lines[1..])
    decreases |lines|
  {
    if |lines| > 1 {
      var init := lines[..|lines| - 1];
      FileContentCons(init);
      assert init[1..] == lines[1..][..|lines[1..]| - 1];
    } else {
      assert lines[..0] == [];
      assert lines[1..] == [];
    }
  }

  /** `.filter((l) => /\S/.test(l))`. */
  function KeepNonBlank(ls: seq<string>): (r: seq<string>)
    ensures forall k :: 0 <= k < |r| ==> NonBlank(r[k])
  {
    if |ls| == 0 then []
    else if NonBlank(ls[0]) then [ls[0]] + KeepNonBlank(ls[1..])
    else KeepNonBlank(ls[1..])
  }

  /** The task lines of a loaded file: `split(/\r?\n/)`, then the blank lines dropped. */
  function ReadLines(content: string): seq<string>
  {
    KeepNonBlank(Lines(content))
  }

  /** A line the todo file keeps as it is: one line, not blank, no carriage return at its end. */
  predicate StorableLine(l: string)
  {
    NonBlank(l) && OneLine(l)
  }

  /** No newline inside, no carriage return at the end. */
  predicate OneLine(l: string)
  {
    '\n' !in l && (|l| == 0 || l[|l| - 1] != '\r')
  }

  /** Splitting written content gives the lines back, with one empty piece after the last newline. */
  lemma {:induction false} LinesOfContent(lines: seq<string>)
    requires forall l :: l in lines ==> OneLine(l)
    ensures Lines(FileContent(lines)) == lines + [""]
    decreases |lines|
  {
    if |lines| == 0 {
      assert IndexOf("", '\n') == -1;
    } else {
      var rest := lines[1..];
      assert lines[0] in lines;
      FileContentCons(lines);
      LinesCons(lines[0], FileContent(rest));
      LinesOfContent(rest);
      assert lines == [lines[0]] + rest;
    }
  }

  /** The first line of a split, up to the first newline. */
  lemma LinesCons(a: string, rest: string)
    requires '\n' !in a
    ensures Lines(a + "\n" + rest) == [DropCR(a)] + Lines(rest)
  {
    var s := a + "\n" + rest;
    IndexOfAfter(a, '\n', rest);
    assert s == a + ['\n'] + rest;
    assert s[|a| + 1..] == rest;
    assert s[..|a|] == a;
  }

  /** Dropping the blank lines from stored lines and a final empty piece leaves the stored lines. */
  lemma {:induction false} KeepStored(lines: seq<string>)
    requires forall l :: l in lines ==> StorableLine(l)
    ensures KeepNonBlank(lines + [""]) == lines
    decreases |lines|
  {
    if |lines| == 0 {
      assert !NonBlank("");
      assert KeepNonBlank([""]) == KeepNonBlank([]);
    } else {
      assert (lines + [""])[1..] == lines[1..] + [""];
      assert (lines + [""])[0] == lines[0] && lines[0] in lines;
      KeepStored(lines[1..]);
      assert lines == [lines[0]] + lines[1..];
    }
  }

  /** Writing the task lines and loading the file again gives the same lines. */
  lemma ReadWritten(lines: seq<string>)
    requires forall l :: l in lines ==> StorableLine(l)
    ensures ReadLines(FileContent(lines)) == lines
  {
    LinesOfContent(lines);
    KeepStored(lines);
  }

  /** The task lines of the tasks. */
  function TextsOf(s: seq<Fields>): (r: seq<string>)
    ensures |r| == |s| && forall k :: 0 <= k < |s| ==> r[k] == s[k].text
  {
    if |s| == 0 then [] else TextsOf(s[..|s| - 1]) + [s[|s| - 1].text]
  }

  /** `s.slice(n)`. */
  function Drop(s: string, n: nat): string
  {
    if |s| >= n then s[n..] else ""
  }

  /** The indentation of the continued template line in `archive_tasks`: 32 spaces. */
  const ContinuationIndent: string := "                                "

  /**
   * The done.txt line `archive_tasks` builds for a task, as written: the
   * template literal for a task with a priority continues onto the next
   * source line with a backslash, so the indentation of that line ends up in
   * front of `pri:X`.
   */
  function ArchiveLineAsWritten(f: Fields, t: string): string
    requires |f.priority| == 3
  {
    if f.completed then f.text + "\n"
    else if f.priority == NoPriority then "x " + t + " " + f.text + "\n"
    else "x " + t + " " + Drop(f.text, 3) + " " + ContinuationIndent + "pri:" + [f.priority[1]] + "\n"
  }

  /**
   * The done.txt line for a task: a completed task's own line, otherwise the
   * line completing it would give (the line `toggle_task` writes).
   */
  function ArchiveLine(f: Fields, t: string): (r: string)
    requires |f.priority| == 3
    ensures f.completed ==> r == f.text + "\n"
    ensures !f.completed ==> r == Toggled(f, t) + "\n"
  {
    if f.completed then f.text + "\n" else CompleteStr(f.text, f.priority, t) + "\n"
  }

  /**
   * As written, the archived line of a task that is not completed and has a
   * priority is 32 characters longer than the completed line, all of them
   * spaces in front of `pri:X`.
   */
  lemma ArchiveSpacesAsWritten(f: Fields, t: string)
    requires |f.priority| == 3 && !f.completed && f.priority != NoPriority
    ensures |ArchiveLineAsWritten(f, t)| == |ArchiveLine(f, t)| + 32
    ensures ArchiveLineAsWritten(f, t) != ArchiveLine(f, t)
  {
  }

  /** The as-written and the corrected line agree on every other task. */
  lemma ArchiveAgreesOtherwise(f: Fields, t: string)
    requires |f.priority| == 3 && (f.completed || f.priority == NoPriority)
    ensures ArchiveLineAsWritten(f, t) == ArchiveLine(f, t)
  {
  }

  /**
   * The archived line of an open task with single-spaced words reopens to
   * the task's own line.
   */
  lemma ArchiveThenReopen(f: Fields, ws: seq<string>, t: string)
    requires Words(ws) && |ws| >= 1 && DateParses(t) && f.text == Join(ws) && !f.completed
    requires forall k :: 0 <= k < |ws| ==> !IsPriExt(ws[k])
    requires f.priority == (if IsPrio(ws[0]) then ws[0] else NoPriority)
    requires IsPrio(ws[0]) ==> |ws| >= 2
    ensures var r := ArchiveLine(f, t); Reopen(r[..|r| - 1]) == f.text
  {
    var r := ArchiveLine(f, t);
    assert r[..|r| - 1] == CompleteStr(f.text, f.priority, t);
    CompleteThenReopen(ws, t);
  }

  /** The done.txt content `archive_tasks` builds for the tasks, in order, each line as written. */
  function ArchiveContent(s: seq<Fields>, t: string): string
    requires forall k :: 0 <= k < |s| ==> |s[k].priority| == 3
  {
    if |s| == 0 then "" else ArchiveContent(s[..|s| - 1], t) + ArchiveLineAsWritten(s[|s| - 1], t)
  }

  /** Archiving no task appends nothing. */
  lemma ArchiveNone(s: seq<Fields>, t: string)
    ensures ArchiveContent(s[..0], t) == ""
  {
  }

  /** Archiving one more task appends its line. */
  lemma ArchiveSnoc(s: seq<Fields>, i: nat, t: string)
    requires i < |s| && forall k :: 0 <= k < |s| ==> |s[k].priority| == 3
    ensures ArchiveContent(s[..i + 1], t) == ArchiveContent(s[..i], t) + ArchiveLineAsWritten(s[i], t)
  {
    assert s[..i + 1][..i] == s[..i];
  }

  /** The tasks "delete all" and "archive all" keep: open ones and recurring ones. */
  predicate Keeps(f: Fields)
  {
    !f.completed || f.recStr != ""
  }
}
