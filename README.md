# todo.txt tasks and alarms of the timepp GNOME Shell extension, in Dafny

This project models three parts of the timepp extension:

- **Task items** (`sections/todo/task_item.js`). A task item is one line of a todo.txt file, plus the fields parsed from it:
  - the completion mark, the priority, and the creation and completion dates;
  - contexts and projects;
  - the `due:`, `t:` (defer), `rec:` (recurrence), `pin:1`, `h:1` (hide), `pri:X` and `tracker_id:` extensions.
  
  `TaskItems.TaskItem` is a class whose methods update the fields in place, as the item's methods do. Each method is proved against the pure specification in `TaskSpec` (the parse as a walk over the words, the recurrence date, the deferral) and in `TaskText` (the line rewrites made by completing, reopening, pinning and recurring).
- **The todo section** (`sections/todo/MAIN.js`). `TodoStore.SectionMain` is a class that holds:
  - the task objects, the viewport and the filter and sort settings;
  - the stats, the panel count and the search dictionary.
  
  Its methods model loading the file, the daily check, the stats refresh, the filter test, sorting, writing the file, archiving to done.txt, and searching. `Filters`, `Sorting`, `Stats`, `Search` and `TodoFile` hold the pure parts those methods are proved against.
- **The alarms section** (`sections/alarms.js`). `Alarms.AlarmSection` is a class holding:
  - the alarm list, the map of snoozed alarms, the last wall-clock minute and the panel state;
  - the full-screen alarm window, `Alarms.Fullscreen`.
  
  Its methods model the minute tick, snoozing, and adding, editing, toggling and deleting alarms.

The clock is never read. Today's date (`G.date_yyyymmdd()`) is a `Date` parameter that must be a valid calendar date. The current minute is a `Minute` (0..1439), the seconds are a `real`, and the weekday is an `int`. Two scorers live in files that are not part of this model: the fuzzy scorer `FUZZ.fuzzy_search_v1` and the regular expressions of `lib/regex.js`. The scorer is a function-valued parameter, and the regular expressions are the predicates of `Tokens`.

## Model

| member | source | states |
|---|---|---|
| Text.StrLessIrreflexive | sections/todo/MAIN.js:1351-1367 | JavaScript's `<` on strings never holds between a string and itself |
| Text.StrLessAsymmetric | sections/todo/MAIN.js:1351-1367 | string `<` never holds in both directions |
| Text.StrLessTransitive | sections/todo/MAIN.js:1351-1367 | string `<` is transitive, so the sort comparator built on it is consistent |
| Text.StrLessTotal | sections/todo/MAIN.js:1351-1367 | of two different strings, one is `<` the other |
| Text.IndexOf | sections/todo/task_item.js:335 | `indexOf(c)` is -1 exactly when `c` does not occur; otherwise it is the position of the first occurrence |
| Text.PiecesOfJoin | sections/todo/task_item.js:425-437 | splitting a single-space join of space-free words gives back the words |
| Text.JoinOfPieces | sections/todo/task_item.js:425-437 | joining the pieces of a line split at each space gives back the line |
| Text.SplitSpacesOfJoin | sections/todo/task_item.js:425-437 | `split(/ +/)` of a joined word list (with at most one empty trailing piece) gives back that list |
| Text.SplitSpacesSkipsEmpty | sections/todo/task_item.js:703-708 | a doubled space inside a line vanishes under `split(/ +/)` |
| Text.WordsOfJoin | sections/todo/task_item.js:237-238 | `split_on_whitespace` of a single-space join of non-empty words gives back the words |
| Text.SplitSpacesShape | sections/todo/task_item.js:425 | for a line without a leading blank, `split(/ +/)` is its whitespace split, possibly with one empty trailing piece |
| Text.SplitSpacesLead | sections/todo/task_item.js:425 | for a line with a leading blank, `split(/ +/)` is an empty piece, the line's words, and an empty piece when the line also ends with a blank |
| Text.Unindented | sections/todo/task_item.js:425 | the line with its leading blanks removed has no leading blank and the same words |
| Text.Trim | sections/todo/MAIN.js:1394 | `trim()` cuts exactly the white space (ECMAScript's white space and line terminators) off both ends: the result is a slice of the input, what is cut is all white, and neither end of the result is white |
| Text.Lower | sections/todo/MAIN.js:1394 | `toLowerCase()` keeps the length, turns each ASCII upper-case letter into its lower-case letter and keeps every other character |
| Text.Pad2 | sections/todo/task_item.js:477 | `%02d` of a number below 100 is two digits that read back as the number |
| Text.Pad4 | sections/todo/task_item.js:477 | the year of a date string is four digits that read back as the year |
| Dates.BeforeKey | sections/todo/task_item.js:479 | comparing `yyyy-mm-dd` strings orders dates as comparing (year, month, day) does |
| Dates.BeforeDayNumber | sections/todo/task_item.js:542 | on calendar dates, "earlier" is exactly "smaller day number" |
| Dates.BeforeTransitive | sections/todo/task_item.js:542 | the date order is transitive |
| Dates.NextDay | sections/todo/task_item.js:543 | the day after a calendar date is a calendar date one day number later |
| Dates.AddDays | sections/todo/task_item.js:543 | `setDate(getDate() + n)` gives a calendar date exactly `n` days later |
| Dates.AdvanceDays | sections/todo/task_item.js:542-544 | the daily loop ends on a date not before today, not before the start, and less than one step past today |
| Dates.AdvanceDaysSteps | sections/todo/task_item.js:542-544 | the daily loop ends a whole number of steps after its start |
| Dates.MonthStep | sections/todo/task_item.js:480-487 | the month step keeps the month in 1..12 and moves (year, month) forward by exactly the increment |
| Dates.MonthStepAdvances | sections/todo/task_item.js:479-490 | every month step moves the iterated date strictly forward, so the monthly loop ends |
| Dates.MonthBack | sections/todo/task_item.js:480-487 | going back `inc` months keeps the month in 1..12 and moves (year, month) back by exactly the increment, undoing one month step |
| Dates.LastValidDay | sections/todo/task_item.js:492-494 | decrementing the day until `Date.parse` accepts it ends on the month's last day when the day overflows, and keeps the day otherwise |
| Dates.DateOf | sections/todo/task_item.js:473-474 | the numbers read from a `yyyy-mm-dd` word are in range |
| Dates.Fmt | sections/todo/task_item.js:477 | a formatted date has the ISO shape and reads back as the same date |
| Dates.FmtOfDate | sections/todo/task_item.js:477 | a word of the ISO shape is the formatting of the date it names |
| Dates.Pad2OfDigits | sections/todo/task_item.js:477 | two digits re-padded are themselves |
| Tokens.Rec1Days | sections/todo/task_item.js:533-540 | a `rec:<n>d`/`rec:<n>w` interval is at least one day |
| Tokens.Rec2Days | sections/todo/task_item.js:527-540 | a `rec:x-<n>d`/`w` interval is at least one day |
| Tokens.Rec3Months | sections/todo/task_item.js:470-471 | a monthly recurrence advances at least one month |
| Tokens.Rec3Day | sections/todo/task_item.js:475-476 | a monthly recurrence's day is 1..99 |
| Tokens.ColonOfRec | sections/todo/task_item.js:475 | the first colon of a `rec:` word is at position 3 |
| Tokens.HeaderWordsAreNotTokens | sections/todo/task_item.js:246-280 | `x`, a priority and a date word are none of the description's word classes |
| TaskSpec.Defaults | sections/todo/task_item.js:159-229 | `reset_props` clears the fields: open, not hidden, no recurrence, the `0000-00-00` / `9999-99-99` sentinel dates, same line |
| TaskSpec.Header | sections/todo/task_item.js:246-280 | the header parse consumes at most the words there are |
| TaskSpec.WalkAppend | sections/todo/task_item.js:287-390 | the description loop over one more word is one more step |
| TaskSpec.StepKeeps | sections/todo/task_item.js:287-390 | each word keeps the parse invariant; hidden stays hidden; a visible task keeps its header |
| TaskSpec.WalkKeeps | sections/todo/task_item.js:287-390 | the whole description loop keeps the parse invariant and the header of a visible task |
| TaskSpec.ParseText | sections/todo/task_item.js:231-400 | parsing never changes the line itself |
| TaskSpec.HeaderKeeps | sections/todo/task_item.js:246-280 | the header parse only records valid dates and a three-character priority |
| TaskSpec.ParseInv | sections/todo/task_item.js:231-400 | every parse satisfies the invariant; a parsed recurrence has the dates it needs and the task is visible; a visible task's header fields are those of the header parse |
| TaskSpec.ParseRetext | sections/todo/task_item.js:231-400 | the parse reads only the words of the line: two lines with the same words parse to the same fields but the line itself |
| TaskSpec.WalkPriority | sections/todo/task_item.js:287-390 | the description loop keeps the header's priority, or clears it when `h:1` resets the fields |
| TaskSpec.AdvanceMonths | sections/todo/task_item.js:479-490 | the monthly loop ends on a month in 1..12, not before the start year, on a date not before today; when it moved at all, the month one step earlier gave a date before today, so it stops at the first month that is not |
| TaskSpec.AdvanceMonthsSteps | sections/todo/task_item.js:479-490 | the monthly loop ends a whole number of increments after the start month |
| TaskSpec.RecurrenceBounds | sections/todo/task_item.js:465-555 | `_get_recurrence_date`: never recurs on the reference date; a completion-based recurrence of an open task gives `[false, '8999-99-99']`; otherwise the next date is a calendar date, not the reference date, not before today, and after today when it recurs today |
| TaskSpec.MonthlyBounds | sections/todo/task_item.js:469-523 | the bounds above for the monthly kind |
| TaskSpec.DailyBounds | sections/todo/task_item.js:524-552 | the bounds above for the daily and weekly kinds |
| TaskSpec.DailyNext | sections/todo/task_item.js:542-551 | the next date is the loop's end, or one more step when that end is today or the reference date |
| TaskSpec.RecurrenceOnSeries | sections/todo/task_item.js:538-551 | the next daily/weekly recurrence is a positive whole number of intervals after the reference date |
| ParseProps.FmtParses | sections/todo/task_item.js:432-435 | today's date string parses as a date and is neither `x` nor a priority |
| ParseProps.HeaderRoundTrip | sections/todo/task_item.js:246-280 | the header words written for a completion mark, a priority and two dates parse back to exactly those fields and that word count |
| ParseProps.CompletedHeaderRoundTrip | sections/todo/task_item.js:246-260 | the round trip above for `x <completion> <creation>` |
| ParseProps.PrioHeaderRoundTrip | sections/todo/task_item.js:262-273 | the round trip above for `(A) <creation>` |
| ParseProps.PlainHeaderRoundTrip | sections/todo/task_item.js:274-277 | the round trip above for a bare creation date |
| ParseProps.RecWordClass | sections/todo/task_item.js:290-337 | a `rec:` word reaches the recurrence branches: it is an extension and no earlier class |
| ParseProps.RecurrenceGuards | sections/todo/task_item.js:338-364 | a recurrence is recorded exactly when its guard holds (no due date, and the date it counts from exists); otherwise the word stays in the description |
| ParseProps.DateWordClass | sections/todo/task_item.js:326-337 | a `due:`/`t:` word reaches its branch, and `t:` is not `due:` |
| ParseProps.DueDeferIgnoredAfterRecurrence | sections/todo/task_item.js:326-337 | after a recurrence, `due:` and `t:` are left in the description and change nothing |
| ParseProps.RecurrenceFreezesDueDefer | sections/todo/task_item.js:287-390 | once a recurrence is read, no later word changes the due or defer date (unless `h:1` hides the task) |
| ParseProps.MarkupKeepsDates | sections/todo/task_item.js:290-316 | a context, project, link or plain word changes no date, no recurrence and not the hidden flag |
| ParseProps.HiddenStaysHidden | sections/todo/task_item.js:317-321 | once hidden, the task stays hidden whatever follows |
| ParseProps.WalkRedate | sections/todo/task_item.js:287-390 | the description loop of a task that stays visible reads the completion date only through whether there is one (the `rec:x-` guard), so another present completion date walks alike |
| ParseProps.ParseRedate | sections/todo/task_item.js:231-400 | a visible completed line `x <completion> <creation> ...` and the same line with another completion date parse to the same fields but that date and the line |
| ParseProps.HiddenKeepsWords | sections/todo/task_item.js:317-321 | after `h:1` every remaining word stays in the description, and only markup fields change |
| ParseProps.HideToken | sections/todo/task_item.js:372-385 | `h:1` resets the fields and hides the task, and the rest of the line is kept as it is |
| ParseProps.DeferralOnce | sections/todo/task_item.js:402-415 | a second `check_deferred_tasks` on the same day reports nothing and changes nothing; the first reports true exactly when a deferred task's date has come |
| ParseProps.DeferralState | sections/todo/task_item.js:402-415 | without a defer date nothing changes; with one, the creation date becomes the defer date and the task is deferred exactly while that date is after today |
| TaskText.FirstIndex | sections/todo/task_item.js:685-691 | the loop with `break` stops at the first matching word, or past the end when none matches |
| TaskText.FirstIndexIs | sections/todo/task_item.js:685-691 | a position is the first match exactly when no earlier word matches |
| TaskText.ReopenPlain | sections/todo/task_item.js:681-698 | reopening `x <date> rest` without `pri:` gives `rest` |
| TaskText.ReopenPrioritised | sections/todo/task_item.js:681-698 | reopening `x <date> rest pri:A` gives `(A) rest` |
| TaskText.CompletedPlain | sections/todo/task_item.js:703-704 | completing a task without priority puts `x <today>` in front of its words |
| TaskText.CompletedPrio | sections/todo/task_item.js:705-706 | completing a prioritised task drops `(A)` and appends `pri:A`, the words in between kept |
| TaskText.CompleteThenReopen | sections/todo/task_item.js:680-711 | toggling an open task twice gives back its line |
| TaskText.PinnedWords | sections/todo/task_item.js:786-788 | pinning appends the word `pin:1` |
| TaskText.RemoveAppendedPin | sections/todo/task_item.js:792-798 | unpinning removes the `pin:1` that pinning appended |
| TaskText.PinThenUnpin | sections/todo/task_item.js:782-801 | pin then unpin gives back the line |
| TaskText.TogglePinTwice | sections/todo/task_item.js:782-801 | a pin click pins an unpinned task, and a second click restores its fields |
| TaskText.FreshHeader | sections/todo/task_item.js:424-437 | a line with today's date as creation date parses with that creation date, open, no completion date, no leading blank |
| TaskText.FreshNeverFires | sections/todo/task_item.js:501-503 | a task created today never recurs today |
| TaskText.RecurringHeader | sections/todo/task_item.js:428-430 | a recurring task's header is where `check_recurrence` looks for it: index 2 if completed, 1 if prioritised, else 0 |
| TaskText.RewriteAt | sections/todo/task_item.js:424-437 | the creation-date rewrite replaces the date at the header index, or inserts today's date there |
| TaskText.NextCompleted | sections/todo/task_item.js:424-440 | a completed recurring task becomes an open line dated today |
| TaskText.NextOpen | sections/todo/task_item.js:424-441 | an open recurring task becomes a line dated today |
| TaskText.NoRefire | sections/todo/task_item.js:417-448 | for a line without a leading blank, the renewed line has none either, is dated today, is open, and does not recur again today |
| TaskText.LeadOpenNext | sections/todo/task_item.js:425-436 | for an open line with a leading blank, the first piece of `split(/ +/)` is empty, so today's date goes in front of the line's first word, before its priority |
| TaskText.LeadReopen | sections/todo/task_item.js:683-698 | reopening pieces that start with an empty piece and `x`: `Date.parse('x')` fails, so only the empty piece goes, and the line left starts with `x` or the restored priority |
| TaskText.LeadCompletedRewrite | sections/todo/task_item.js:425-436 | for a completed line with a leading blank, index 2 of `split(/ +/)` is the completion date, and that is what today replaces |
| TaskText.LeadCompletedNext | sections/todo/task_item.js:424-441 | such a line is re-read from a line without a leading blank: the reopening branch removes only the empty first piece |
| TaskText.FreshRenewal | sections/todo/task_item.js:424-441 | unless the task was completed and its line starts with a blank, the renewed line reads as open, created today, and does not recur again today |
| TaskText.Refire | sections/todo/task_item.js:417-448 | the renewed line may recur fewer times than the line it came from: never, or once when that line was completed with a leading blank, so `reset(true)` ends |
| TaskText.LeadPriorityLost | sections/todo/task_item.js:425-436 | as written, an open recurring line with a leading blank is renewed without a priority |
| TaskText.FreshPriority | sections/todo/task_item.js:425-436 | a line that starts with an optional priority and then a date is read with that priority |
| TaskText.RenewedLineKeepsPriority | sections/todo/task_item.js:425-436 | renewing the line with its leading blanks removed gives a line read as open and created today, that does not recur again today and keeps an open task's priority |
| TaskText.NextStrToggle | sections/todo/task_item.js:440-441 | after the rewrite, a completed task is toggled and an open one is reset |
| TaskText.RecurSteps | sections/todo/task_item.js:422-443 | what the recurring branch leaves is the settled state of the renewed line, which may recur fewer times than the line |
| TaskText.SettleQuiet | sections/todo/task_item.js:150-156 | when the task does not recur today, `reset(true)` is the parse plus the two checks |
| TaskText.SettleFires | sections/todo/task_item.js:150-156 | when it recurs today, and its line is not a completed one with a leading blank, `reset(true)` ends on the renewed line, checked |
| TaskText.RecursOncePerDay | sections/todo/task_item.js:417-448 | a recurring task, unless its line is a completed one with a leading blank, recurs at most once per day, and afterwards is hidden, deferred or created today |
| TaskText.RecursAtMostTwice | sections/todo/task_item.js:417-448 | a completed recurring line with a leading blank is settled through its renewed line, which has no leading blank, so it recurs at most twice |
| TaskText.LeadCompletedReopened | sections/todo/task_item.js:424-441 | for such a line without a `pri:` word, the line it is re-read from has the words `x`, today, and the old words from the creation date on: it stays completed (the removal at task_item.js:695-696 takes only the empty piece) |
| TaskText.LeadCompletedRefires | sections/todo/task_item.js:417-448 | such a line that counts from its creation date is re-read with the same fields but today's completion date, so it recurs again the same day: the as-written half of the double-recurrence finding |
| TaskText.DeferredKeeps | sections/todo/task_item.js:402-415 | the deferral check keeps the hidden flag and the defer date, and touches the creation date only when there is a defer date |
| TaskText.AfterChecksKeeps | sections/todo/task_item.js:152-155 | the self-update checks keep the hidden flag, the defer date and (without a defer date) the creation date |
| TaskText.ChecksKeepCreation | sections/todo/task_item.js:152-155 | after the checks the creation date is the parsed one unless a defer date moved it |
| TaskText.ParsedSettled | sections/todo/task_item.js:231-400 | a freshly parsed line is settled: its fields agree with its parse |
| TaskText.DeferredSettled | sections/todo/task_item.js:402-415 | the deferral check keeps a settled item settled and its line unchanged |
| TaskText.RecordNextSettled | sections/todo/task_item.js:446 | recording the next recurrence keeps a settled item settled |
| TaskText.SettledRecurs | sections/todo/task_item.js:417-443 | a settled recurring item renews like its line does, and its renewed line may recur fewer times than its line |
| TaskText.CheckedSettled | sections/todo/task_item.js:140-157 | parse plus checks leaves a settled item with the same line |
| TaskText.SettleSettled | sections/todo/task_item.js:140-157 | `reset(true)` leaves the item settled, and keeps the line unless it recurred |
| TaskText.DayCheckSettled | sections/todo/MAIN.js:611-623 | the daily check keeps a settled item settled |
| TaskText.DayCheckOfParse | sections/todo/MAIN.js:611-623 | on a freshly parsed item, the daily check reports a recurrence exactly when it fires, and ends where `reset(true)` would |
| TaskItems.TaskItem.constructor | sections/todo/task_item.js:46-108 | a new item holds the parse of its line, or with `self_update` the settled state |
| TaskItems.TaskItem.ResetProps | sections/todo/task_item.js:159-229 | the fields become the defaults for the item's line |
| TaskItems.TaskItem.ParseHeader | sections/todo/task_item.js:246-280 | the header fields and the description's first index are those of the header parse |
| TaskItems.TaskItem.ParseWord | sections/todo/task_item.js:287-390 | one pass of the description loop is one walk step: the fields, and whether the word stays |
| TaskItems.TaskItem.ParseExt | sections/todo/task_item.js:317-390 | the extension branches are the walk step for an extension word |
| TaskItems.TaskItem.ParseRec | sections/todo/task_item.js:338-364 | the three recurrence branches are the walk step for a `rec:` word |
| TaskItems.TaskItem.WalkWord | sections/todo/task_item.js:287-390 | the `splice(i, 1); i--; len--` bookkeeping keeps the word array in step with the walk |
| TaskItems.TaskItem.FinishMarks | sections/todo/task_item.js:392-395 | the first context and project and the description words are those the finish step derives |
| TaskItems.TaskItem.ParseTaskStr | sections/todo/task_item.js:231-400 | `_parse_task_str` leaves the fields the parse of the line gives |
| TaskItems.TaskItem.CheckDeferredTasks | sections/todo/task_item.js:402-415 | result and new fields are those of the deferral check |
| TaskItems.TaskItem.GetRecurrenceDate | sections/todo/task_item.js:465-555 | `[do_recur, next]` is the recurrence date the specification defines |
| TaskItems.TaskItem.MonthlyIter | sections/todo/task_item.js:479-494 | the monthly loop stops on the month `AdvanceMonths` gives, and the day is then lowered to the last valid day of that month |
| TaskItems.TaskItem.DayDown | sections/todo/task_item.js:492-494 | decrementing the day while the date does not parse ends on the day `LastValidDay` gives |
| TaskItems.TaskItem.DailyIter | sections/todo/task_item.js:542-544 | the daily loop ends on the date `AdvanceDays` gives |
| TaskItems.TaskItem.Reset | sections/todo/task_item.js:140-157 | without self update the item holds the parse of the (new) line; with it, the settled state |
| TaskItems.TaskItem.SelfUpdate | sections/todo/task_item.js:152-156 | the checks after a parse end in the settled state |
| TaskItems.TaskItem.CheckRecurrence | sections/todo/task_item.js:417-448 | reports whether the task fires today; if so the item is renewed, otherwise the next date is recorded |
| TaskItems.TaskItem.CheckRecurring | sections/todo/task_item.js:419-448 | the same, past the empty-recurrence return |
| TaskItems.TaskItem.Recur | sections/todo/task_item.js:422-443 | the recurring branch renews the item |
| TaskItems.TaskItem.RecurLine | sections/todo/task_item.js:424-441 | the rewritten line, toggled or reset, ends settled |
| TaskItems.TaskItem.InsertCreation | sections/todo/task_item.js:425-436 | the in-place creation-date update of the split words gives the line `Rewrite` describes |
| TaskItems.TaskItem.ToggleTask | sections/todo/task_item.js:680-711 | the item settles on the completed or reopened line |
| TaskItems.TaskItem.ReopenLine | sections/todo/task_item.js:681-698 | the reopening loop gives the line `Reopen` describes |
| TaskItems.TaskItem.CompleteLine | sections/todo/task_item.js:702-708 | the completing branch gives the line `CompleteStr` describes |
| TaskItems.TaskItem.TogglePin | sections/todo/task_item.js:782-801 | the pin flag flips and the line gains or loses `pin:1` |
| Filters.DefaultFilters | sections/todo/MAIN.js:111-123 | a fresh cache has no active filter and no inversion |
| Filters.FilterTest | sections/todo/MAIN.js:1223-1263 | a pinned task always shows; the hidden filter shows exactly hidden tasks; hidden, completed-recurring and deferred tasks are dropped when no special flag is set; with no active filter every other task shows |
| Filters.FilterMatchAny | sections/todo/MAIN.js:1231-1262 | past the special cases, a task shows exactly when no filter is active or it matches some filter, with inversion flipping the answer |
| Filters.FilterInvert | sections/todo/MAIN.js:1231-1262 | flipping `invert_filters` flips the answer for every task reaching the category filters |
| Filters.Find | sections/todo/MAIN.js:1291 | `indexOf` is -1 exactly when absent, else the first occurrence |
| Filters.Toggle | sections/todo/MAIN.js:1291-1294 | an absent keyword is pushed at the end; a present one has its first occurrence spliced out and the rest kept in order |
| Filters.ToggleTwice | sections/todo/MAIN.js:1284-1300 | toggling a keyword twice restores the list |
| Filters.ToggleFlips | sections/todo/MAIN.js:1284-1300 | toggling flips whether the keyword is active |
| Sorting.FirstDiff | sections/todo/MAIN.js:1346 | the comparator's scan stops at the first key on which the tasks differ |
| Sorting.CompareBy | sections/todo/MAIN.js:1345-1369 | the comparator loop computes the comparison the specification defines |
| Sorting.GreaterIrreflexive | sections/todo/MAIN.js:1351-1367 | `>` on property values is irreflexive |
| Sorting.GreaterAsymmetric | sections/todo/MAIN.js:1351-1367 | `>` on property values is asymmetric |
| Sorting.GreaterTransitive | sections/todo/MAIN.js:1351-1367 | `>` on property values is transitive |
| Sorting.GreaterTotal | sections/todo/MAIN.js:1351-1367 | of two different values of one property, one is `>` the other |
| Sorting.DecideUp | sections/todo/MAIN.js:1351-1367 | on a differing key the comparator answers 1 or -1 according to the key's direction |
| Sorting.PriorityReversed | sections/todo/MAIN.js:1351-1367 | the priority key answers the opposite of any other key in the same direction |
| Sorting.CompareFirstDiff | sections/todo/MAIN.js:1346-1368 | the comparison is 0 when every key agrees, else decided (non-zero) by the first differing key |
| Sorting.CompareZero | sections/todo/MAIN.js:1346-1348 | the comparator returns 0 exactly when all configured keys agree |
| Sorting.CompareAntisymmetric | sections/todo/MAIN.js:1345-1369 | swapping the tasks negates the comparison |
| Sorting.CompareTransitive | sections/todo/MAIN.js:1345-1369 | "not after" is transitive, so the comparator is a consistent total preorder |
| Sorting.InsertSorted | sections/todo/MAIN.js:1345-1369 | inserting a task after the tasks that do not come after it keeps the list sorted |
| Search.LongestPrefixUnique | sections/todo/MAIN.js:1437-1449 | the longest stored query that prefixes the pattern is unique |
| Search.LongestPrefixExact | sections/todo/MAIN.js:1445 | it is the pattern itself exactly when the pattern is stored |
| Search.LongestPrefixNone | sections/todo/MAIN.js:1447 | it is empty exactly when no non-empty stored query prefixes the pattern |
| Search.RankHits | sections/todo/MAIN.js:1423 | the hits reordered by descending score, ties in search-space order, as a permutation |
| Search.Slot | sections/todo/MAIN.js:1423 | the insertion point comes after every hit scoring at least as high and before the first lower one |
| Stats.BumpCounts | sections/todo/MAIN.js:763-771 | `n ? ++n : 1` adds one to the key's count, makes it present and touches no other key |
| Stats.BumpAllHas | sections/todo/MAIN.js:761-771 | after counting a word list, a key is present exactly when it was or is in the list |
| Stats.StepPartition | sections/todo/MAIN.js:747-786 | each task is counted in exactly one bucket |
| Stats.StepPriority | sections/todo/MAIN.js:777-783 | a task adds one to its own priority's count exactly when it is open, visible and prioritised |
| Stats.StepWords | sections/todo/MAIN.js:759-771 | a task adds its contexts and projects exactly when it is neither deferred nor completed |
| Stats.StatsPartition | sections/todo/MAIN.js:747-786 | the buckets add up to the number of tasks, and the priorities' total is the number of prioritised tasks |
| Stats.PanelCountOpen | sections/todo/MAIN.js:791-797 | the panel number is the open, visible tasks: those without priority plus the prioritised ones |
| Stats.StatsPriorityCount | sections/todo/MAIN.js:777-783 | each priority's count is the number of open, visible tasks with that priority |
| Stats.StatsContexts | sections/todo/MAIN.js:767-771 | a context is counted exactly when an open task carries it |
| Stats.StatsProjects | sections/todo/MAIN.js:761-765 | a project is counted exactly when an open task carries it |
| Stats.StatsPriorities | sections/todo/MAIN.js:777-783 | a priority is counted exactly when an open, visible task has it |
| Stats.KeepKnownMembers | sections/todo/MAIN.js:813-835 | the filter clean-up keeps exactly the entries the stats still count |
| TodoFile.KeepNonBlank | sections/todo/MAIN.js:537 | `filter(/\S/)` keeps only lines with a non-blank character |
| TodoFile.LinesOfContent | sections/todo/MAIN.js:537 | splitting written content at newlines gives the lines and one empty tail |
| TodoFile.KeepStored | sections/todo/MAIN.js:537 | the blank-line filter drops exactly the empty tail of written content |
| TodoFile.ReadWritten | sections/todo/MAIN.js:555-561 | the file `write_tasks_to_file` writes reads back (split at newlines, blank lines dropped, line 537) as the same task lines |
| TodoFile.TextsOf | sections/todo/MAIN.js:560-561 | the written lines are the tasks' lines in order |
| TodoFile.ArchiveLine | sections/todo/MAIN.js:938-949 | a completed task archives its own line; another archives the line completing it would give |
| TodoFile.ArchiveSpacesAsWritten | sections/todo/MAIN.js:947-948 | as written, an open prioritised task's archive line has 32 extra spaces and differs from the completed line |
| TodoFile.ArchiveAgreesOtherwise | sections/todo/MAIN.js:941-946 | for other tasks the as-written and the corrected line agree |
| TodoFile.ArchiveThenReopen | sections/todo/MAIN.js:938-949 | an archived open task's line reopens to the task's own line |
| TodoFile.ArchiveSnoc | sections/todo/MAIN.js:938-949 | the archive content grows one task line at a time, in order, each line as the loop writes it |
| TodoStore.PickKept | sections/todo/MAIN.js:1016-1019 | "delete all" keeps exactly the tasks that are open or recurring |
| TodoStore.PickMembers | sections/todo/MAIN.js:1031-1036 | the partition loop puts each task in the list its flag selects, and nothing else |
| TodoStore.PickSizes | sections/todo/MAIN.js:1031-1036 | the two partitions together hold as many tasks as the list |
| TodoStore.ShowFlags | sections/todo/MAIN.js:874-879 | the viewport test of each task is the filter test |
| TodoStore.KeepFlags | sections/todo/MAIN.js:1017 | each task is kept when it is open or recurring |
| TodoStore.ChecksCounted | sections/todo/MAIN.js:611-625 | the counts are non-zero exactly when some task recurred or was opened |
| TodoStore.AllSettledPermutation | sections/todo/MAIN.js:1345 | reordering tasks keeps every one settled |
| TodoStore.DropUnknown | sections/todo/MAIN.js:813-835 | the `splice(i, 1); len--; i--` loop keeps exactly the entries the stats count, in order |
| TodoStore.BumpEach | sections/todo/MAIN.js:761-771 | the counting loop is the count specification |
| TodoStore.CountStats | sections/todo/MAIN.js:743-786 | the stats loop computes the stats of the task list |
| TodoStore.CountTask | sections/todo/MAIN.js:748-786 | one pass, with its `continue`s, is one stats step |
| TodoStore.DayCheckTask | sections/todo/MAIN.js:611-621 | one task's turn in `_check_dates` is the day check, and the task stays settled |
| TodoStore.SortSlot | sections/todo/MAIN.js:1345-1369 | the insertion point comes after every task the comparator does not put after the new one, and before the first it does |
| TodoStore.NewSettled | sections/todo/MAIN.js:1182 | `new TaskItem(s, true)` holds the settled state of its line |
| TodoStore.SectionMain.constructor | sections/todo/MAIN.js:95-124 | a fresh store: no tasks, the default sort and filters, empty search dictionary |
| TodoStore.SectionMain.DropExcess | sections/todo/MAIN.js:699-702 | excess task objects are popped from the end |
| TodoStore.SectionMain.FillSlot | sections/todo/MAIN.js:716-721 | the task at `i` is reset to the line, or a new one pushed; earlier tasks are untouched |
| TodoStore.SectionMain.CreateTasks | sections/todo/MAIN.js:684-726 | afterwards there is one distinct task per line, each holding the parse of its line, reusing the old objects |
| TodoStore.SectionMain.CheckTaskAt | sections/todo/MAIN.js:611-621 | the day check on one task, the others unchanged |
| TodoStore.SectionMain.CheckDates | sections/todo/MAIN.js:607-640 | every task takes the day check; the counts are the recurrences and openings; the result says whether any happened |
| TodoStore.SectionMain.SortTasks | sections/todo/MAIN.js:1324-1376 | the tasks are a permutation of the old ones, sorted by the configured keys |
| TodoStore.SectionMain.RebuildViewport | sections/todo/MAIN.js:858-930 | the viewport is every task, or those passing the filter test, in order |
| TodoStore.SectionMain.WriteTasksToFile | sections/todo/MAIN.js:555-568 | the content is one line per task in order, and it reads back as those lines |
| TodoStore.SectionMain.ArchiveTasks | sections/todo/MAIN.js:932-950 | the done.txt text is each task's line as the loop writes it (an open prioritised task with the 32-space continuation before `pri:X`), in order |
| TodoStore.SectionMain.Partition | sections/todo/MAIN.js:1031-1036 | the tasks split, in order, into the kept and the completed non-recurring |
| TodoStore.SectionMain.RefreshStats | sections/todo/MAIN.js:743-837 | stats and panel count are those of the tasks; filters lose the entries the stats lack |
| TodoStore.SectionMain.OnTasksChanged | sections/todo/MAIN.js:738-846 | stats refreshed, filters cleaned, tasks a sorted permutation, viewport rebuilt through the filters |
| TodoStore.SectionMain.Commit | sections/todo/MAIN.js:1183-1184 | after `on_tasks_changed` the written file holds the sorted tasks |
| TodoStore.SectionMain.RemoveTask | sections/todo/MAIN.js:1191-1196 | the first occurrence of the task is spliced out; an absent task leaves the list alone |
| TodoStore.SectionMain.Prepend | sections/todo/MAIN.js:1182 | a new settled task goes in front |
| TodoStore.SectionMain.AddTask | sections/todo/MAIN.js:1181-1186 | the list gains exactly the new settled task, is sorted and is written |
| TodoStore.SectionMain.ArchiveOne | sections/todo/MAIN.js:1189 | archiving one task gives its line as `archive_tasks` writes it |
| TodoStore.SectionMain.Unlink | sections/todo/MAIN.js:1191-1196 | the task is removed and held nowhere in the list |
| TodoStore.SectionMain.DeleteTask | sections/todo/MAIN.js:1188-1201 | archived only when asked, with its line as `archive_tasks` writes it; the list loses exactly that task, is sorted and is written |
| TodoStore.SectionMain.EditTask | sections/todo/MAIN.js:1203-1208 | the task settles on the new line; the list keeps its tasks, sorted, and is written |
| TodoStore.SectionMain.Retain | sections/todo/MAIN.js:1016-1021 | the list keeps exactly its open and recurring tasks in order, and the rest are returned |
| TodoStore.SectionMain.DeleteAll | sections/todo/MAIN.js:1013-1025 | the list keeps exactly its open and recurring tasks, sorted, and is written |
| TodoStore.SectionMain.ArchiveAll | sections/todo/MAIN.js:1027-1043 | the completed non-recurring tasks are archived in order and dropped; the rest is sorted and written |
| TodoStore.SectionMain.NewDay | sections/todo/MAIN.js:598-605 | the day check on every task; the file is written, in the checked order, exactly when something changed, and then the list is re-sorted |
| TodoStore.SectionMain.Load | sections/todo/MAIN.js:684-726 | one task per loaded line, each holding the parse of its line |
| TodoStore.SectionMain.CheckLoaded | sections/todo/MAIN.js:539 | after the day check every task is the settled state of its line; the result says whether any line changed |
| TodoStore.SectionMain.InitTodoFile | sections/todo/MAIN.js:533-544 | the tasks are the settled lines of the file (sorted); the file is rewritten exactly when the check changed a line, with the settled lines |
| TodoStore.SectionMain.ToggleFilter | sections/todo/MAIN.js:1284-1300 | the keyword is toggled in the list its class selects; the viewport is rebuilt only in the default view |
| TodoStore.SectionMain.ToggleInvertFilters | sections/todo/MAIN.js:1302-1306 | the inversion flips and the viewport is rebuilt through the filters |
| TodoStore.SectionMain.OpenSearch | sections/todo/MAIN.js:1097 | opening the search view shows all tasks |
| TodoStore.SectionMain.CloseSearch | sections/todo/MAIN.js:1086-1092 | closing it clears the dictionary and rebuilds the filtered viewport |
| TodoStore.SectionMain.FindPrevSearchResults | sections/todo/MAIN.js:1437-1449 | the longest stored prefix query is found; no search is needed exactly when the pattern itself is stored; the search space is that query's results, or all tasks |
| TodoStore.SectionMain.ScoreSpace | sections/todo/MAIN.js:1418-1421 | hits in order, each with the scorer's score, and every matching task has a hit |
| TodoStore.SectionMain.DoSearch | sections/todo/MAIN.js:1414-1434 | the viewport is the matching tasks ranked by score, and it is stored under the pattern |
| TodoStore.SectionMain.Search | sections/todo/MAIN.js:1384-1412 | an empty pattern shows all tasks; a stored one reuses its results; otherwise the search runs on the longest stored prefix's results |
| Alarms.TimeStr | sections/alarms.js:231-232 | `%H:%M` is five characters with a colon in the middle |
| Alarms.TimeStrRoundTrip | sections/alarms.js:494-496 | reading `HH:MM` back gives the minute it was written from |
| Alarms.ClockOfRoundTrip | sections/alarms.js:494-496 | a well-formed `HH:MM` string is the formatting of the minute it names |
| Alarms.TimeStrInjective | sections/alarms.js:234 | two minutes have the same time string exactly when they are equal |
| Alarms.SnoozeTime | sections/alarms.js:359-366 | the snooze time is the minute `snooze_dur` minutes later, wrapping at midnight |
| Alarms.SnoozeMatchesAt | sections/alarms.js:250-251 | a snoozed alarm's time string matches the tick of minute `now` exactly when `now` is the snooze duration after the snooze |
| Alarms.Alarm.constructor | sections/alarms.js:598-605 | a new alarm holds the editor's values and is switched on |
| Alarms.DueMembers | sections/alarms.js:239-247 | the alarms notified in the first loop are exactly the listed ones that are on, set to this minute and set for today |
| Alarms.Remove | sections/alarms.js:350 | `filter(a => a !== alarm)` keeps exactly the other alarms |
| Alarms.RemoveAt | sections/alarms.js:350 | in a list without repeats, filtering an alarm out removes its one position |
| Alarms.RemoveAbsent | sections/alarms.js:350 | filtering out an absent alarm changes nothing |
| Alarms.RemoveDistinct | sections/alarms.js:350 | filtering keeps the list free of repeats |
| Alarms.Put | sections/alarms.js:366 | `Map.set` keeps the key order, grows only for a new key, and puts a new key last |
| Alarms.LookupPut | sections/alarms.js:366 | after `set`, `get` of that alarm is the new time and of any other alarm is unchanged |
| Alarms.DeleteMembers | sections/alarms.js:253 | `Map.delete` drops exactly that alarm's entries |
| Alarms.LookupDelete | sections/alarms.js:351 | after `delete`, that alarm has no entry and the others keep theirs |
| Alarms.PutDistinct | sections/alarms.js:366 | `set` keeps one entry per alarm |
| Alarms.DeleteDistinct | sections/alarms.js:288 | `delete` keeps one entry per alarm |
| Alarms.SnoozeSplit | sections/alarms.js:250-257 | the snoozed alarms notified are exactly those with a firing entry; the entries left are exactly those not firing |
| Alarms.ScanStep | sections/alarms.js:250-257 | deleting the current entry while iterating the map leaves the visited non-firing entries followed by the rest |
| Alarms.SnoozeFiredGone | sections/alarms.js:253 | every snoozed alarm notified has no entry left |
| Alarms.SnoozedFiresAt | sections/alarms.js:250-257 | an alarm that is on and snoozed at minute `clock` is notified by the tick of minute `now` exactly when `now` is its snooze duration later |
| Alarms.SnoozedCleared | sections/alarms.js:250-257 | and the tick at that minute removes its snooze entry |
| Alarms.SnoozeLeftDistinct | sections/alarms.js:250-257 | the snooze scan keeps one entry per alarm |
| Alarms.DeleteAppend | sections/alarms.js:253 | deleting from a map split in two deletes from each part |
| Alarms.Fullscreen.constructor | sections/alarms.js:832 | the window starts empty and closed |
| Alarms.Fullscreen.FireAlarm | sections/alarms.js:901-931 | the alarm is queued, the banner shows exactly when it is the only one, and the window opens |
| Alarms.Fullscreen.Close | sections/alarms.js:894-899 | closing empties the queue and closes the window |
| Alarms.Fullscreen.SnoozeClicked | sections/alarms.js:879-884 | the first queued alarm, if any, is snoozed; the window closes |
| Alarms.AlarmSection.constructor | sections/alarms.js:82-204 | the section starts with the cached alarms, no snoozes, no wall-clock string, and the panel lit exactly when an alarm is on for today |
| Alarms.AlarmSection.UpdatePanel | sections/alarms.js:414-423 | the panel is lit exactly when some alarm is on and set for today |
| Alarms.AlarmSection.SnoozeAlarm | sections/alarms.js:359-371 | the alarm's snooze entry is set to the snooze time, and the map keeps one entry per alarm |
| Alarms.AlarmSection.SendNotif | sections/alarms.js:373-382 | in full-screen style the alarm is queued in the window; otherwise the window is untouched |
| Alarms.AlarmSection.Notify | sections/alarms.js:244-254 | sending the notified alarms one `_send_notif` at a time queues them all, in order, in full-screen style, and the last one sets the window's mode; otherwise the window is untouched |
| Alarms.AlarmSection.DueNow | sections/alarms.js:239-247 | the first loop picks exactly the alarms on, set to this minute and set for today, in list order |
| Alarms.AlarmSection.ScanSnoozed | sections/alarms.js:250-257 | the snooze loop picks the firing entries in map order and leaves the others; no picked alarm keeps an entry |
| Alarms.AlarmSection.Act | sections/alarms.js:236-258 | the alarms notified are the due ones then the firing snoozed ones; the snooze map keeps the rest; the panel is updated |
| Alarms.AlarmSection.Tic | sections/alarms.js:230-259 | a repeated minute or a late second does nothing; otherwise the minute is recorded, the due and snoozed alarms fire in that order, fired snoozes are dropped and the panel is updated |
| Alarms.AlarmSection.AddAlarm | sections/alarms.js:275-278 | a new alarm with the editor's values (lines 598-605), switched on, is appended and the panel updated (`_add_alarm`, lines 334-336) |
| Alarms.AlarmSection.EditAlarm | sections/alarms.js:287-306 | the alarm takes the edited values (lines 589-594), keeps its on/off state, loses its snooze, and the panel is updated |
| Alarms.AlarmSection.ToggleAlarm | sections/alarms.js:763-774 | the alarm flips on/off; the `alarm-toggled` handler (lines 342-346) drops its snooze and updates the panel |
| Alarms.AlarmSection.DeleteAlarm | sections/alarms.js:349-357 | the alarm leaves the list (exactly its position, in a list without repeats), loses its snooze, and the panel is updated |

## Left out

- Widgets, markup, icons, CSS classes, key bindings, the time tracker, sound and notification pop-ups are not modelled, and neither is the message-tray path of `_send_notif`. The cache and file I/O (`store_cache`, `_store_cache`, `load_contents`, `replace_contents`, `append_to`) become returned strings. `update_time_label` and `update_body_markup`/`update_dates_markup` only draw. `disable_section` only tears down widgets.
- The main-loop chunking of `create_tasks`, `add_tasks_to_menu` and `_add_tasks_to_menu__finish` is left out: each runs to completion in one call. The first-21-items batch only affects drawing.
- The regular expressions of `lib/regex.js`, `MISC_UTILS.split_on_whitespace`, `markdown_to_pango`, `GLib.markup_escape_text` and `FUZZ.fuzzy_search_v1` are not part of this model:
  - the regexes are stand-in predicates in `Tokens` with the shapes the code slices at, and recurrence counts are assumed to be at least 1 (a count of 0 would never end the source's loops);
  - splitting on whitespace splits on spaces only, and tabs are ordinary characters;
  - markup escaping is not modelled (it changes no word class for plain text);
  - the fuzzy scorer is a parameter.
- `Date.parse` is modelled as "a date of the Gregorian calendar". The source's `Date.parse('1970-01-01')` is 0, which is falsy, so the epoch date is rejected as a header date. The model accepts it.
- Tokens.IsDefer: accepts a `t:` word only when its date is a calendar date, where `REG.TODO_DEFER_EXT` checks the `yyyy-mm-dd` shape only, as `Tokens.IsDue` does for `due:`. The source copies any such date string into `creation_date` (task_item.js:405), which the recurrence then counts from. The model keeps a word with an impossible date, such as `t:2024-02-30`, in the description, so the dates it computes with are always calendar dates.
- TaskText.DropMark: `Date.parse(words[1])` at task_item.js:695 is modelled as accepting a calendar date `yyyy-mm-dd` and the date-only forms `yyyy` and `yyyy-mm`. The engine's other accepted forms (date-times, RFC 2822 dates, engine-specific formats) are not modelled. Also, the model treats `1970`, `1970-01` and `1970-01-01` as truthy, but `Date.parse` gives 0 for them, which is falsy.
- Dates.Fmt: writes the year with four digits, where the monthly recurrence's `"%d-%02d-%02d"` writes years below 1000 with fewer digits and compares the strings. The model compares dates as dates.
- Text.Lower: only lower-cases ASCII letters. JavaScript's `toLowerCase` also folds other scripts.
- Text.StrLess: compares strings character by character on Unicode code points. JavaScript's `<` compares UTF-16 code units. A character above U+FFFF is stored as a surrogate pair starting 0xD800-0xDBFF, so JavaScript puts it before the characters U+E000-U+FFFF, and the model puts it after them. The context and project sort keys of MAIN.js:1351-1367 order such tasks the other way round. The two orders agree on strings without characters above U+FFFF.
- TaskText.RecursOncePerDay: holds for every line except a completed recurring line with a leading blank. TaskText.SettleFires has the same restriction. Such a line is re-read without its blank and may recur once more in the same `reset(true)`; TaskText.RecursAtMostTwice states this, and TaskText.LeadCompletedRefires shows when it does. An example is ` x 2024-01-01 2023-12-01 buy rec:1d` on 2024-01-02. The first renewal replaces the completion date. The reopening branch of `toggle_task` then runs, but `Date.parse('x')` fails (task_item.js:695-696), so only the empty first piece is dropped. The line stays completed as `x 2024-01-02 2023-12-01 buy rec:1d`, which recurs again from 2023-12-01. The "## Findings" table records this.
- TodoStore.SectionMain.Load: requires non-blank lines, as the `filter(/\S/)` at MAIN.js:537 gives.
- TodoStore.SectionMain.DeleteTask: requires the task to be in the list, and EditTask does too; the editor only acts on a listed task. TodoStore.SectionMain.RemoveTask models the loop on an absent task.
- TodoStore.SectionMain.ToggleFilter: the check of the current view is a `defaultView` parameter. The `_search` check for the search view is left to the caller.
- TodoStore.SectionMain.SortTasks: `Array.prototype.sort` is modelled by a stable insertion sort. The ensures state a sorted permutation, not which of several sorted orders comes out.
- TodoStore.SectionMain.DoSearch: the dictionary stores the viewport value. In the source the dictionary and `tasks_viewport` alias one array.
- TodoStore.SectionMain.FindPrevSearchResults: iteration over the search `Map` is not ordered. The longest matching prefix is unique, so the order does not matter.
- Filters.DefaultFilters: the default cache writes the key `defer`, while the filter test reads `deferred`. The model keeps both, and only `deferred` has an effect.
- Alarms.AlarmSection.Tic:
  - the notifications are sent after each loop rather than inside it, which is equivalent because `_send_notif` touches neither the alarm list nor the snooze map;
  - `wallclock_str` is set after the loops;
  - `alarm_items` is iterated as the alarm list, which holds the same alarms in the same order;
  - the seconds are a `real`, and the weekday is a parameter.
- Alarms.SnoozeTime: `add_minutes` on a wall-clock date is modelled as minute arithmetic modulo a day. Daylight-saving changes are not modelled.
- Alarms.AlarmSection.EditAlarm: the alarm's time string is any string. The editor's number pickers are not part of this model.
- Alarms.Fullscreen.SnoozeClicked: the section the window reports to is a parameter.

## Findings

The task items and the store follow the code as written. The corrected members state the intended behaviour beside it.

| source | as written | input that shows it | evidently intended | confidence | as-written member | corrected member |
|---|---|---|---|---|---|---|
| sections/todo/MAIN.js:947-948 | the template literal for an open task with a priority continues onto the next line with a backslash, so the 32 spaces indenting that line end up in the archived line before `pri:X` | an open task `(A) call mum` archived on 2024-01-05 gives `x 2024-01-05  call mum`, then 33 spaces, then `pri:A` | the line `toggle_task` writes when completing the task, `x 2024-01-05  call mum pri:A` | high (not executed) | TodoFile.ArchiveSpacesAsWritten | TodoFile.ArchiveThenReopen |
| sections/todo/task_item.js:425-436 | `check_recurrence` splits the line with `split(/ +/)`, which gives an empty first piece when the line starts with a blank; the creation date then goes in at index 1 or 0 of the pieces, in front of the priority | the open task ` (A) 2024-01-01 buy rec:1d` on 2024-01-02 is renewed as ` 2024-01-02 (A) 2024-01-01 buy rec:1d`, which reads as created 2024-01-02 with no priority | the date goes after the priority, `(A) 2024-01-02 buy rec:1d`, as for a line without the blank | medium (not executed) | TaskText.LeadPriorityLost | TaskText.RenewedLineKeepsPriority |
| sections/todo/task_item.js:425-441 | for a completed line with a leading blank, the index 2 of the `split(/ +/)` pieces is the `x`'s completion date only because of the empty first piece, and the reopening at task_item.js:695-696 then removes only that empty piece, since `Date.parse('x')` fails; the line stays completed with today as its completion date, and the re-parse recurs again | the completed task ` x 2024-01-01 2023-12-01 buy rec:1d` on 2024-01-02 becomes `x 2024-01-02 2023-12-01 buy rec:1d`, which recurs again from 2023-12-01 in the same `reset(true)` and is then reopened as `2024-01-02 buy rec:1d` | one renewal per day: the renewed line is open, created today and does not recur again today, as for a line without the blank | medium (not executed) | TaskText.LeadCompletedRefires | TaskText.RenewedLineKeepsPriority |
