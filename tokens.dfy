/**
 * The word classes of a todo.txt line.  The regular expressions that decide
 * them live in a file that is not part of this model; the predicates below
 * are stand-ins with the shapes the parsing and recurrence code relies on
 * (the offsets it slices at and the characters it looks for).
 */
module Tokens {
  import opened Text
  import opened Dates

  /** `REG.TODO_PRIO`: a priority `(A)` .. `(Z)`. */
  predicate IsPrio(w: string)
  {
    |w| == 3 && w[0] == '(' && 'A' <= w[1] <= 'Z' && w[2] == ')'
  }

  /** `REG.TODO_CONTEXT`: `@name`. */
  predicate IsContext(w: string)
  {
    |w| >= 2 && w[0] == '@'
  }

  /** `REG.TODO_PROJ`: `+name`. */
  predicate IsProject(w: string)
  {
    |w| >= 2 && w[0] == '+'
  }

  /** `REG.URL || REG.FILE_PATH`: a web address or an absolute or home-relative path. */
  predicate IsLink(w: string)
  {
    "http://" <= w || "https://" <= w || "www." <= w || "file://" <= w
    || "/" <= w || "~/" <= w
  }

  /** `REG.TODO_EXT`: a `key:value` word, a colon with something on both sides. */
  predicate IsExt(w: string)
  {
    |w| >= 3 && ':' in w[1..|w| - 1]
  }

  /** `REG.TODO_TRACKER_ID_EXT`: `tracker_id:<id>`. */
  predicate IsTrackerId(w: string)
  {
    |w| > 11 && "tracker_id:" <= w
  }

  /** `REG.TODO_DUE_EXT`: `due:yyyy-mm-dd`. */
  predicate IsDue(w: string)
  {
    |w| == 14 && "due:" <= w && IsoShape(w[4..])
  }

  /** `REG.TODO_DEFER_EXT`: `t:yyyy-mm-dd`, a date of the calendar. */
  predicate IsDefer(w: string)
  {
    |w| == 12 && "t:" <= w && DateParses(w[2..])
  }

  /** A count followed by a unit letter, as in `3d` or `2w`: digits, at least one, not all zero. */
  predicate CountUnit(s: string)
  {
    |s| >= 2 && (s[|s| - 1] == 'd' || s[|s| - 1] == 'w')
    && AllDigits(s[..|s| - 1]) && NatOf(s[..|s| - 1]) >= 1
  }

  /** `REG.TODO_REC_EXT_1`: `rec:<n>d` or `rec:<n>w`, counted from the creation date. */
  predicate IsRec1(w: string)
  {
    |w| >= 4 && "rec:" <= w && CountUnit(w[4..])
  }

  /** `REG.TODO_REC_EXT_2`: `rec:x-<n>d` or `rec:x-<n>w`, counted from the completion date. */
  predicate IsRec2(w: string)
  {
    |w| >= 6 && "rec:x-" <= w && CountUnit(w[6..])
  }

  /**
   * `REG.TODO_REC_EXT_3`: `rec:<d>d-<n>m`, day `d` (one or two digits) of every
   * `n`-th month.  The positions are those the recurrence code slices at: the
   * first 'd' and the first '-'.
   */
  predicate IsRec3(w: string)
  {
    var di := IndexOf(w, 'd');
    var hi := IndexOf(w, '-');
    |w| >= 4 && "rec:" <= w && 5 <= di <= 6 && hi == di + 1 && hi + 1 < |w| - 1
    && w[|w| - 1] == 'm'
    && AllDigits(w[4..di]) && NatOf(w[4..di]) >= 1
    && AllDigits(w[hi + 1..|w| - 1]) && NatOf(w[hi + 1..|w| - 1]) >= 1
  }

  /** `REG.TODO_PIN_EXT`. */
  predicate IsPin(w: string)
  {
    |w| == 5 && w[0] == 'p' && w[1] == 'i' && w[2] == 'n' && w[3] == ':' && w[4] == '1'
  }

  /** `REG.TODO_HIDE_EXT`. */
  predicate IsHide(w: string)
  {
    w == "h:1"
  }

  /** `REG.TODO_PRIO_EXT`: `pri:A` .. `pri:Z`, the priority a completed task had. */
  predicate IsPriExt(w: string)
  {
    |w| == 5 && w[0] == 'p' && w[1] == 'r' && w[2] == 'i' && w[3] == ':' && 'A' <= w[4] <= 'Z'
  }

  /** `rec_str.slice(4, -1) * (unit is 'w' ? 7 : 1)`: the interval of a kind-1 recurrence in days. */
  function Rec1Days(w: string): (n: nat)
    requires IsRec1(w)
    ensures n >= 1
  {
    var s := w[4..];
    assert w[4..|w| - 1] == s[..|s| - 1];
    NatOf(w[4..|w| - 1]) * (if w[|w| - 1] == 'w' then 7 else 1)
  }

  /** `rec_str.slice(6, -1) * (unit is 'w' ? 7 : 1)`: the interval of a kind-2 recurrence in days. */
  function Rec2Days(w: string): (n: nat)
    requires IsRec2(w)
    ensures n >= 1
  {
    var s := w[6..];
    assert w[6..|w| - 1] == s[..|s| - 1];
    NatOf(w[6..|w| - 1]) * (if w[|w| - 1] == 'w' then 7 else 1)
  }

  lemma ColonOfRec(w: string)
    requires |w| >= 4 && "rec:" <= w
    ensures IndexOf(w, ':') == 3
  {
    assert w[..3] == "rec";
    assert w == w[..3] + [':'] + w[4..];
    IndexOfAfter(w[..3], ':', w[4..]);
  }

  /** `rec_str.slice(rec_str.indexOf('-') + 1, -1)`: the month interval of a kind-3 recurrence. */
  function Rec3Months(w: string): (n: nat)
    requires IsRec3(w)
    ensures n >= 1
  {
    NatOf(w[IndexOf(w, '-') + 1..|w| - 1])
  }

  /** `rec_str.slice(rec_str.indexOf(':') + 1, rec_str.indexOf('d'))`: the day of month of a kind-3 recurrence. */
  function Rec3Day(w: string): (n: nat)
    requires IsRec3(w)
    ensures 1 <= n <= 99
  {
    ColonOfRec(w);
    var s := w[IndexOf(w, ':') + 1..IndexOf(w, 'd')];
    NatOfDigits(s);
    NatOf(s)
  }

  /** The words that open a line (`x`, a priority, a date) belong to no other class. */
  lemma HeaderWordsAreNotTokens(w: string)
    requires w == "x" || IsPrio(w) || IsoShape(w)
    ensures !IsContext(w) && !IsProject(w) && !IsLink(w) && !IsExt(w)
    ensures !IsPin(w) && !IsHide(w) && !IsPriExt(w)
  {
    assert forall p: string :: |p| > 0 && p <= w ==> p[0] == w[0];
    if IsoShape(w) {
      assert IsDigit(w[..4][0]) && w[0] == w[..4][0];
      assert ':' !in w[1..|w| - 1] by {
        forall k | 1 <= k < |w| - 1
          ensures w[k] != ':'
        {
          if k < 4 {
            assert w[k] == w[..4][k];
          } else if 4 < k < 7 {
            assert w[k] == w[5..7][k - 5];
          } else if 7 < k {
            assert w[k] == w[8..][k - 8];
          }
        }
      }
    }
  }

  /** A priority word is rebuilt from its letter. */
  lemma PrioFromChar(w: string)
    requires IsPrio(w)
    ensures ['(', w[1], ')'] == w
  {
  }

  /** The word `(X)` rebuilt from `pri:X` is a priority. */
  lemma PriExtGivesPrio(w: string)
    requires IsPriExt(w)
    ensures IsPrio(['(', w[4], ')'])
  {
  }

}
