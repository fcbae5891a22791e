/**
 * Strings as the todo section handles them: JavaScript's string order, words
 * separated by single spaces, lines separated by newlines, trimming and
 * lower-casing.
 */
module Text {

  /**
   * JavaScript's `a < b` on two strings: lexicographic by character, on
   * Unicode code points rather than UTF-16 code units.
   */
  predicate StrLess(a: string, b: string)
    decreases |a|
  {
    if |a| == 0 then |b| > 0
    else if |b| == 0 then false
    else if a[0] != b[0] then a[0] < b[0]
    else StrLess(a[1..], b[1..])
  }

  lemma {:induction false} StrLessIrreflexive(a: string)
    ensures !StrLess(a, a)
    decreases |a|
  {
    if |a| > 0 {
      StrLessIrreflexive(a[1..]);
    }
  }

  lemma {:induction false} StrLessAsymmetric(a: string, b: string)
    requires StrLess(a, b)
    ensures !StrLess(b, a)
    decreases |a|
  {
    if |a| > 0 && |b| > 0 && a[0] == b[0] {
      StrLessAsymmetric(a[1..], b[1..]);
    }
  }

  lemma {:induction false} StrLessTransitive(a: string, b: string, c: string)
    requires StrLess(a, b) && StrLess(b, c)
    ensures StrLess(a, c)
    decreases |a|
  {
    if |a| > 0 && a[0] == b[0] && b[0] == c[0] {
      StrLessTransitive(a[1..], b[1..], c[1..]);
    }
  }

  lemma {:induction false} StrLessTotal(a: string, b: string)
    requires a != b
    ensures StrLess(a, b) || StrLess(b, a)
    decreases |a|
  {
    if |a| > 0 && |b| > 0 && a[0] == b[0] {
      assert a == [a[0]] + a[1..] && b == [b[0]] + b[1..];
      StrLessTotal(a[1..], b[1..]);
    }
  }

  /** `s.indexOf(c)`: the first position of `c` in `s`, or -1. */
  function IndexOf(s: string, c: char): (i: int)
    ensures -1 <= i < |s|
    ensures i == -1 <==> c !in s
    ensures i >= 0 ==> s[i] == c && c !in s[..i]
  {
    if |s| == 0 then -1
    else if s[0] == c then 0
    else
      var j := IndexOf(s[1..], c);
      assert j >= 0 ==> s[..j + 1] == [s[0]] + s[1..][..j];
      if j < 0 then -1 else j + 1
  }

  lemma IndexOfAfter(a: string, c: char, b: string)
    requires c !in a
    ensures IndexOf(a + [c] + b, c) == |a|
  {
    var s := a + [c] + b;
    var i := IndexOf(s, c);
    assert s[|a|] == c;
    assert forall k :: 0 <= k < |a| ==> s[k] == a[k];
  }

  /** No word holds a space. */
  predicate SpaceFree(ws: seq<string>)
  {
    forall k :: 0 <= k < |ws| ==> ' ' !in ws[k]
  }

  /** Non-empty words without spaces, as produced by splitting on whitespace. */
  predicate Words(ws: seq<string>)
  {
    forall k :: 0 <= k < |ws| ==> ws[k] != "" && ' ' !in ws[k]
  }

  /** `s.split(' ')`: the pieces between single spaces, empty ones included. */
  function Pieces(s: string): (r: seq<string>)
    ensures |r| >= 1
    ensures SpaceFree(r)
    decreases |s|
  {
    var i := IndexOf(s, ' ');
    if i < 0 then [s] else [s[..i]] + Pieces(s[i + 1..])
  }

  /** `ws.join(' ')`. */
  function Join(ws: seq<string>): string
  {
    if |ws| == 0 then ""
    else if |ws| == 1 then ws[0]
    else ws[0] + " " + Join(ws[1..])
  }

  lemma {:induction false} PiecesOfJoin(ws: seq<string>)
    requires |ws| >= 1 && SpaceFree(ws)
    ensures Pieces(Join(ws)) == ws
    decreases |ws|
  {
    if |ws| > 1 {
      IndexOfAfter(ws[0], ' ', Join(ws[1..]));
      var s := ws[0] + " " + Join(ws[1..]);
      assert s[..|ws[0]|] == ws[0];
      assert s[|ws[0]| + 1..] == Join(ws[1..]);
      PiecesOfJoin(ws[1..]);
    }
  }

  lemma {:induction false} JoinOfPieces(s: string)
    ensures Join(Pieces(s)) == s
    decreases |s|
  {
    var i := IndexOf(s, ' ');
    if i >= 0 {
      var rest := Pieces(s[i + 1..]);
      JoinOfPieces(s[i + 1..]);
      JoinCons(s[..i], rest);
      SplitAt(s, i);
    }
  }

  lemma JoinCons(a: string, ws: seq<string>)
    requires |ws| >= 1
    ensures Join([a] + ws) == a + " " + Join(ws)
  {
    assert ([a] + ws)[1..] == ws;
  }

  lemma SplitAt<T>(s: seq<T>, i: nat)
    requires i < |s|
    ensures s == s[..i] + [s[i]] + s[i + 1..]
  {
  }

  /** The list without its empty strings. */
  function NonEmpty(ws: seq<string>): (r: seq<string>)
    ensures |r| <= |ws|
    ensures SpaceFree(ws) ==> Words(r)
  {
    if |ws| == 0 then []
    else (if ws[0] == "" then [] else [ws[0]]) + NonEmpty(ws[1..])
  }

  lemma {:induction false} NonEmptyAppend(a: seq<string>, b: seq<string>)
    ensures NonEmpty(a + b) == NonEmpty(a) + NonEmpty(b)
    decreases |a|
  {
    if |a| > 0 {
      assert (a + b)[1..] == a[1..] + b;
      assert (a + b)[0] == a[0];
      NonEmptyAppend(a[1..], b);
      var h := if a[0] == "" then [] else [a[0]];
      assert NonEmpty(a + b) == h + NonEmpty(a[1..] + b);
      assert NonEmpty(a) == h + NonEmpty(a[1..]);
    } else {
      assert a + b == b;
    }
  }

  lemma {:induction false} NonEmptyOfWords(ws: seq<string>)
    requires forall k :: 0 <= k < |ws| ==> ws[k] != ""
    ensures NonEmpty(ws) == ws
    decreases |ws|
  {
    if |ws| > 0 {
      NonEmptyOfWords(ws[1..]);
    }
  }

  /** Splitting on whitespace with empty pieces dropped: the words of `s`. */
  function SplitWords(s: string): (r: seq<string>)
    ensures Words(r)
  {
    NonEmpty(Pieces(s))
  }

  /**
   * `s.split(/ +/)`: runs of spaces separate pieces; only a leading or a
   * trailing run leaves an empty piece behind.
   */
  function SplitSpaces(s: string): (r: seq<string>)
    ensures |r| >= 1 && SpaceFree(r)
  {
    var p := Pieces(s);
    if |p| == 1 then p else [p[0]] + NonEmpty(p[1..|p| - 1]) + [p[|p| - 1]]
  }

  predicate LeadingSpace(s: string)
  {
    |s| > 0 && s[0] == ' '
  }

  /**
   * When `s` starts with a space, `s.split(/ +/)` is one empty piece, the
   * words of `s`, and one more empty piece when `s` ends with a space.
   */
  lemma SplitSpacesLead(s: string) returns (tail: seq<string>)
    requires LeadingSpace(s)
    ensures tail == [] || tail == [""]
    ensures SplitSpaces(s) == [""] + SplitWords(s) + tail
  {
    hide Pieces, IndexOf, SplitSpaces, NonEmpty;
    var q := Pieces(s[1..]);
    var mid := q[..|q| - 1];
    var last := q[|q| - 1];
    assert SplitSpaces(s) == [""] + NonEmpty(mid) + [last] by {
      var p := [""] + q;
      PiecesLead(s);
      assert p[1..|p| - 1] == mid && p[|p| - 1] == last && p[0] == "";
      SplitSpacesOf(s, p);
    }
    assert SplitWords(s) == NonEmpty(mid) + NonEmpty([last]) by {
      PiecesLead(s);
      NonEmptyAppend([""], q);
      NonEmptySingle("");
      assert q == mid + [last];
      NonEmptyAppend(mid, [last]);
    }
    NonEmptySingle(last);
    tail := if last == "" then [""] else [];
    if last == "" {
      AppendEmpty(NonEmpty(mid));
    }
  }

  /** A leading space cuts off an empty first piece. */
  lemma PiecesLead(s: string)
    requires LeadingSpace(s)
    ensures Pieces(s) == [""] + Pieces(s[1..])
  {
    assert IndexOf(s, ' ') == 0;
  }

  /** `s.split(/ +/)` undoes a join of an empty piece, words, and an optional empty piece. */
  lemma SplitSpacesOfJoinLead(ws: seq<string>, tail: seq<string>)
    requires |ws| >= 1 && Words(ws) && (tail == [] || tail == [""])
    ensures SplitSpaces(Join([""] + ws + tail)) == [""] + ws + tail
  {
    hide Pieces, IndexOf, SplitSpaces, Join;
    var all := [""] + ws + tail;
    assert SpaceFree(all) by {
      SpaceFreeAppend([""], ws);
      SpaceFreeAppend([""] + ws, tail);
    }
    PiecesOfJoin(all);
    SplitSpacesOf(Join(all), all);
    var mid := all[1..|all| - 1];
    if tail == [] {
      assert mid == ws[..|ws| - 1];
      WordsSlice(ws, 0, |ws| - 1);
    } else {
      assert mid == ws;
    }
    NonEmptyOfWords(mid);
    Ends1(all);
  }

  /** A leading space is not part of any word. */
  lemma SplitWordsTail(s: string)
    requires LeadingSpace(s)
    ensures SplitWords(s[1..]) == SplitWords(s)
  {
    PiecesLead(s);
    NonEmptyAppend([""], Pieces(s[1..]));
    NonEmptySingle("");
  }

  /** The line with its leading spaces removed. */
  function Unindented(s: string): (r: string)
    ensures !LeadingSpace(r) && SplitWords(r) == SplitWords(s)
    decreases |s|
  {
    if LeadingSpace(s) then
      SplitWordsTail(s);
      Unindented(s[1..])
    else s
  }

  /** The words of a join of words with one empty piece in between and an optional empty piece at the end. */
  lemma SplitWordsOfPadded(a: seq<string>, b: seq<string>, tail: seq<string>)
    requires Words(a) && Words(b) && (tail == [] || tail == [""])
    ensures SplitWords(Join(a + [""] + b + tail)) == a + b
  {
    var all := a + [""] + b + tail;
    SpaceFreeAppend(a, [""]);
    SpaceFreeAppend(a + [""], b);
    SpaceFreeAppend(a + [""] + b, tail);
    SplitWordsOfJoin(all);
    NonEmptyAppend(a + [""] + b, tail);
    NonEmptyDropsOne(a, b);
    if tail == [""] {
      NonEmptyOfEmpty();
    }
    AppendEmpty(a + b);
  }

  lemma SplitWordsOfJoin(ws: seq<string>)
    requires SpaceFree(ws)
    ensures SplitWords(Join(ws)) == NonEmpty(ws)
  {
    if |ws| > 0 {
      PiecesOfJoin(ws);
    }
  }

  lemma WordsOfJoin(ws: seq<string>)
    requires Words(ws)
    ensures SplitWords(Join(ws)) == ws
  {
    SplitWordsOfJoin(ws);
    NonEmptyOfWords(ws);
  }

  lemma FirstPieceEmpty(s: string)
    ensures Pieces(s)[0] == "" <==> s == "" || s[0] == ' '
  {
    var i := IndexOf(s, ' ');
    if i > 0 {
      assert s[..i][0] == s[0];
    }
  }

  /**
   * Unless `s` starts with a space, `s.split(/ +/)` is the list of its words,
   * followed by one empty piece when `s` ends with a space or is empty.
   */
  lemma SplitSpacesShape(s: string)
    requires !LeadingSpace(s)
    ensures SplitSpaces(s) == SplitWords(s) || SplitSpaces(s) == SplitWords(s) + [""]
  {
    var p := Pieces(s);
    FirstPieceEmpty(s);
    if |p| > 1 {
      SplitSpacesShapeMany(s, p);
    } else {
      NonEmptySingle(p[0]);
      assert p == [p[0]];
    }
  }

  lemma NonEmptySingle(w: string)
    ensures NonEmpty([w]) == if w == "" then [] else [w]
  {
    assert [w][1..] == [];
  }

  lemma SplitSpacesShapeMany(s: string, p: seq<string>)
    requires Pieces(s) == p && |p| > 1 && p[0] != ""
    ensures SplitSpaces(s) == NonEmpty(p) || SplitSpaces(s) == NonEmpty(p) + [""]
  {
    var mid := NonEmpty(p[1..|p| - 1]);
    var last := p[|p| - 1];
    SplitSpacesOf(s, p);
    Ends1(p);
    NonEmptyAppend([p[0]] + p[1..|p| - 1], [last]);
    NonEmptyAppend([p[0]], p[1..|p| - 1]);
    NonEmptySingle(p[0]);
    NonEmptySingle(last);
    if last == "" {
      AppendEmpty([p[0]] + mid);
    }
  }

  /** `s.split(/ +/)` undoes a join of words that may end with one empty piece. */
  lemma SplitSpacesOfJoin(ws: seq<string>, tail: seq<string>)
    requires |ws| >= 1 && Words(ws) && (tail == [] || tail == [""])
    ensures SplitSpaces(Join(ws + tail)) == ws + tail
  {
    var all := ws + tail;
    SpaceFreeAppend(ws, tail);
    PiecesOfJoin(all);
    if |all| > 1 {
      SplitSpacesOf(Join(all), all);
      var mid := all[1..|all| - 1];
      if tail == [] {
        assert all == ws;
        WordsSlice(ws, 1, |ws| - 1);
      } else {
        assert mid == ws[1..];
        WordsSlice(ws, 1, |ws|);
      }
      NonEmptyOfWords(mid);
      Ends1(all);
    }
  }

  /** One empty piece between words is dropped. */
  lemma NonEmptyDropsOne(a: seq<string>, b: seq<string>)
    requires Words(a) && Words(b)
    ensures NonEmpty(a + [""] + b) == a + b
  {
    var l := a + [""];
    NonEmptyAppend(l, b);
    NonEmptyAppend(a, [""]);
    NonEmptyOfWords(a);
    NonEmptyOfWords(b);
    NonEmptyOfEmpty();
    AppendEmpty(a);
    assert NonEmpty(l) == a;
  }

  lemma AppendEmpty<T>(a: seq<T>)
    ensures a + [] == a
  {
  }

  lemma NonEmptyOfEmpty()
    ensures NonEmpty([""]) == []
  {
    assert [""][1..] == [];
  }

  lemma HeadTail<T>(s: seq<T>)
    requires |s| >= 1
    ensures [s[0]] + s[1..] == s
  {
  }

  lemma Ends1<T>(s: seq<T>)
    requires |s| >= 2
    ensures s == [s[0]] + s[1..|s| - 1] + [s[|s| - 1]]
  {
  }

  /** Replacing an element is splicing it out and the new one in. */
  lemma UpdateAsSplice<T>(s: seq<T>, i: nat, x: T)
    requires i < |s|
    ensures s[i := x] == s[..i] + [x] + s[i + 1..]
  {
  }

  /** A slice of space-free pieces is space-free. */
  lemma SpaceFreeSlice(ws: seq<string>, i: nat, j: nat)
    requires SpaceFree(ws) && i <= j <= |ws|
    ensures SpaceFree(ws[i..j])
  {
    forall k | 0 <= k < j - i
      ensures ' ' !in ws[i..j][k]
    {
      assert ws[i..j][k] == ws[i + k];
    }
  }

  /** `SplitSpaces` of a string with several pieces. */
  lemma SplitSpacesOf(s: string, p: seq<string>)
    requires Pieces(s) == p && |p| > 1
    ensures SplitSpaces(s) == [p[0]] + NonEmpty(p[1..|p| - 1]) + [p[|p| - 1]]
  {
  }

  /** `SplitSpaces` of a string with several pieces, from its parts. */
  lemma SplitSpacesParts(s: string, p: seq<string>, first: string, mid: seq<string>, last: string)
    requires Pieces(s) == p && |p| > 1
    requires p[0] == first && NonEmpty(p[1..|p| - 1]) == mid && p[|p| - 1] == last
    ensures SplitSpaces(s) == [first] + mid + [last]
  {
    SplitSpacesOf(s, p);
  }

  /** The inner part of `a + [e] + b`. */
  lemma InnerOf<T>(a: seq<T>, e: T, b: seq<T>)
    requires |a| >= 1 && |b| >= 1
    ensures var all := a + [e] + b;
            all[1..|all| - 1] == a[1..] + [e] + b[..|b| - 1]
            && all[0] == a[0] && all[|all| - 1] == b[|b| - 1]
  {
    var all := a + [e] + b;
    var m := all[1..|all| - 1];
    var r := a[1..] + [e] + b[..|b| - 1];
    forall k | 0 <= k < |m|
      ensures m[k] == r[k]
    {
      if k < |a| - 1 {
        assert m[k] == a[k + 1];
      } else if k > |a| - 1 {
        assert m[k] == b[k - |a|];
      }
    }
  }

  /** A sequence of at least two elements is its first, its inner part and its last. */
  lemma Ends<T>(a: seq<T>, b: seq<T>)
    requires |a| >= 1 && |b| >= 1
    ensures a + b == [a[0]] + (a[1..] + b[..|b| - 1]) + [b[|b| - 1]]
  {
    var r := [a[0]] + (a[1..] + b[..|b| - 1]) + [b[|b| - 1]];
    forall k | 0 <= k < |a + b|
      ensures (a + b)[k] == r[k]
    {
      if 0 < k < |a| {
        assert r[k] == a[1..][k - 1];
      } else if |a| <= k < |a + b| - 1 {
        assert r[k] == b[..|b| - 1][k - |a|];
      }
    }
  }

  /** `s.split(/ +/)` of words joined with one double space in between gives the words. */
  lemma SplitSpacesSkipsEmpty(a: seq<string>, b: seq<string>)
    requires Words(a) && Words(b) && |a| >= 1 && |b| >= 1
    ensures SplitSpaces(Join(a + [""] + b)) == a + b
  {
    hide Pieces, IndexOf, SplitSpaces, Join;
    var all := a + [""] + b;
    SpaceFreeAppend(a, [""]);
    SpaceFreeAppend(a + [""], b);
    PiecesOfJoin(all);
    var front := a[1..];
    var back := b[..|b| - 1];
    WordsSlice(a, 1, |a|);
    WordsSlice(b, 0, |b| - 1);
    InnerOf(a, "", b);
    NonEmptyDropsOne(front, back);
    SplitSpacesParts(Join(all), all, a[0], front + back, b[|b| - 1]);
    Ends(a, b);
  }

  lemma WordsSlice(ws: seq<string>, i: nat, j: nat)
    requires Words(ws) && i <= j <= |ws|
    ensures Words(ws[i..j])
  {
    forall k | 0 <= k < j - i
      ensures ws[i..j][k] != "" && ' ' !in ws[i..j][k]
    {
      assert ws[i..j][k] == ws[i + k];
    }
  }

  lemma SpaceFreeAppend(a: seq<string>, b: seq<string>)
    requires SpaceFree(a) && SpaceFree(b)
    ensures SpaceFree(a + b)
  {
    forall k | 0 <= k < |a + b|
      ensures ' ' !in (a + b)[k]
    {
      if k < |a| {
        assert (a + b)[k] == a[k];
      } else {
        assert (a + b)[k] == b[k - |a|];
      }
    }
  }

  lemma WordsAppend(a: seq<string>, b: seq<string>)
    requires Words(a) && Words(b)
    ensures Words(a + b)
  {
    forall k | 0 <= k < |a + b|
      ensures (a + b)[k] != "" && ' ' !in (a + b)[k]
    {
      if k < |a| {
        assert (a + b)[k] == a[k];
      } else {
        assert (a + b)[k] == b[k - |a|];
      }
    }
  }

  /** `/\s/`: the white space of JavaScript's regular expressions and of `trim()`. */
  predicate IsWhite(c: char)
  {
    c == ' ' || c == '\t' || c == '\n' || c == '\r' || c == '\U{000B}' || c == '\U{000C}'
    || c == '\U{00A0}' || c == '\U{1680}' || '\U{2000}' <= c <= '\U{200A}'
    || c == '\U{2028}' || c == '\U{2029}' || c == '\U{202F}' || c == '\U{205F}'
    || c == '\U{3000}' || c == '\U{FEFF}'
  }

  /** `/\S/.test(s)`. */
  predicate NonBlank(s: string)
  {
    exists k :: 0 <= k < |s| && !IsWhite(s[k])
  }

  /** Every character of `s` is white space. */
  predicate AllWhite(s: string)
  {
    forall k :: 0 <= k < |s| ==> IsWhite(s[k])
  }

  /** `s` with its leading white space removed. */
  function TrimStart(s: string): (r: string)
    ensures |r| <= |s| && r == s[|s| - |r|..] && AllWhite(s[..|s| - |r|])
    ensures r == "" || !IsWhite(r[0])
  {
    if |s| > 0 && IsWhite(s[0]) then
      var r := TrimStart(s[1..]);
      assert s[..|s| - |r|] == [s[0]] + s[1..][..|s| - 1 - |r|];
      r
    else s
  }

  /** `s` with its trailing white space removed. */
  function TrimEnd(s: string): (r: string)
    ensures |r| <= |s| && r == s[..|r|] && AllWhite(s[|r|..])
    ensures r == "" || !IsWhite(r[|r| - 1])
  {
    if |s| > 0 && IsWhite(s[|s| - 1]) then
      var r := TrimEnd(s[..|s| - 1]);
      assert s[|r|..] == s[..|s| - 1][|r|..] + [s[|s| - 1]];
      r
    else s
  }

  /**
   * `s.trim()`: the slice of `s` left once its white prefix and its white
   * suffix are removed, and neither end of what is left is white.
   */
  function Trim(s: string): (r: string)
    ensures exists i, j :: 0 <= i <= j <= |s| && r == s[i..j] && AllWhite(s[..i]) && AllWhite(s[j..])
    ensures r == "" || (!IsWhite(r[0]) && !IsWhite(r[|r| - 1]))
  {
    var a := TrimStart(s);
    var r := TrimEnd(a);
    var i := |s| - |a|;
    var j := i + |r|;
    assert r == s[i..j] && s[j..] == a[|r|..];
    r
  }

  /** `s.toLowerCase()` on ASCII letters: each capital becomes its small letter, every other character stays. */
  function Lower(s: string): (r: string)
    ensures |r| == |s|
    ensures forall k :: 0 <= k < |s| ==> r[k] == if 'A' <= s[k] <= 'Z' then (s[k] - 'A' + 'a') as char else s[k]
  {
    if |s| == 0 then ""
    else [if 'A' <= s[0] <= 'Z' then (s[0] - 'A' + 'a') as char else s[0]] + Lower(s[1..])
  }

  predicate IsDigit(c: char)
  {
    '0' <= c <= '9'
  }

  predicate AllDigits(s: string)
  {
    forall k :: 0 <= k < |s| ==> IsDigit(s[k])
  }

  /** The value of a string of decimal digits, as unary `+` reads it. */
  function NatOf(s: string): nat
    requires AllDigits(s)
  {
    if |s| == 0 then 0 else 10 * NatOf(s[..|s| - 1]) + (s[|s| - 1] - '0') as nat
  }

  function Digit(n: nat): (c: char)
    requires n < 10
    ensures IsDigit(c)
  {
    ('0' as int + n) as char
  }

  /** `n` written with exactly two digits (0-padded). */
  function Pad2(n: nat): (r: string)
    requires n < 100
    ensures |r| == 2 && AllDigits(r) && NatOf(r) == n
  {
    var r := [Digit(n / 10), Digit(n % 10)];
    assert r[..1] == [Digit(n / 10)] && r[..1][..0] == [];
    assert NatOf(r[..1]) == n / 10;
    r
  }

  /** `n` written with exactly four digits (0-padded). */
  function Pad4(n: nat): (r: string)
    requires n < 10000
    ensures |r| == 4 && AllDigits(r) && NatOf(r) == n
  {
    var r := Pad2(n / 100) + Pad2(n % 100);
    assert r[..3][..2] == Pad2(n / 100);
    assert r[..2] == Pad2(n / 100);
    r
  }

  /** `s.split(/\r?\n/)`: newline-separated lines, a carriage return before a newline dropped. */
  function Lines(s: string): (r: seq<string>)
    ensures |r| >= 1
    decreases |s|
  {
    var i := IndexOf(s, '\n');
    if i < 0 then [s] else [DropCR(s[..i])] + Lines(s[i + 1..])
  }

  function DropCR(p: string): string
  {
    if |p| > 0 && p[|p| - 1] == '\r' then p[..|p| - 1] else p
  }

}
