/**
 * The multi-key comparator of `sort_tasks`: the configured sort keys are
 * tried in order, the first key on which two tasks differ decides, and each
 * key has a direction.  The priority key's test is the reverse of the other
 * keys' for the same direction.
 */
module Sorting {
  import opened Text
  import opened Dates
  import opened TaskSpec

  /** `G.SortType`: the task property a sort key reads. */
  datatype SortType = Pin | Completed | Priority | DueDate | Recurrence
                    | Context | Project | CreationDate | CompletionDate

  /** `G.SortOrder`. */
  datatype SortOrder = Ascending | Descending

  /** `cache.sort`: the keys in the order they are tried. */
  type SortSpec = seq<(SortType, SortOrder)>

  /** The default `cache.sort` of a fresh cache. */
  const DefaultSort: SortSpec := [
    (Pin, Descending), (Completed, Ascending), (Priority, Ascending),
    (DueDate, Ascending), (Recurrence, Ascending), (Context, Ascending),
    (Project, Ascending), (CreationDate, Ascending), (CompletionDate, Ascending)]

  /** The value of a task property: a flag, a string, or a `yyyy-mm-dd` date. */
  datatype Key = Flag(b: bool) | Word(s: string) | Day(d: Date)

  /** The property `property_map` names for a sort type, read from a task. */
  function KeyOf(f: Fields, k: SortType): Key
  {
    match k
    case Pin => Flag(f.pinned)
    case Completed => Flag(f.completed)
    case Priority => Word(f.priority)
    case DueDate => Day(f.dueDate)
    case Recurrence => Day(f.recNext)
    case Context => Word(f.firstContext)
    case Project => Word(f.firstProject)
    case CreationDate => Day(f.creationDate)
    case CompletionDate => Day(f.completionDate)
  }

  /** Two values of the same property have the same kind. */
  predicate SameKind(x: Key, y: Key)
  {
    x.Flag? == y.Flag? && x.Word? == y.Word? && x.Day? == y.Day?
  }

  /** JavaScript's `x > y` on two values of one property (`true > false`). */
  predicate Greater(x: Key, y: Key)
  {
    match (x, y)
    case (Flag(a), Flag(b)) => a && !b
    case (Word(a), Word(b)) => StrLess(b, a)
    case (Day(a), Day(b)) => Before(b, a)
    case _ => false
  }

  /**
   * The `switch` of the comparator on the deciding key: `+(x > y) ||
   * +(x === y) - 1` and its mirror images.
   */
  function Decide(t: SortType, o: SortOrder, x: Key, y: Key): int
  {
    if t == Priority then
      if o == Descending then (if Greater(x, y) then 1 else if x == y then 0 else -1)
      else (if Greater(y, x) then 1 else if x == y then 0 else -1)
    else
      if o == Descending then (if Greater(y, x) then 1 else if x == y then 0 else -1)
      else (if Greater(x, y) then 1 else if x == y then 0 else -1)
  }

  /** The index of the first configured key, from `i` on, on which `a` and `b` differ. */
  function FirstDiff(spec: SortSpec, a: Fields, b: Fields, i: nat): (j: nat)
    requires i <= |spec|
    ensures i <= j <= |spec|
    ensures forall k :: i <= k < j ==> KeyOf(a, spec[k].0) == KeyOf(b, spec[k].0)
    ensures j < |spec| ==> KeyOf(a, spec[j].0) != KeyOf(b, spec[j].0)
    decreases |spec| - i
  {
    if i == |spec| || KeyOf(a, spec[i].0) != KeyOf(b, spec[i].0) then i
    else FirstDiff(spec, a, b, i + 1)
  }

  /** The comparator `sort_tasks` hands to `Array.prototype.sort`. */
  function Compare(spec: SortSpec, a: Fields, b: Fields): int
  {
    var i := FirstDiff(spec, a, b, 0);
    if i == |spec| then 0 else Decide(spec[i].0, spec[i].1, KeyOf(a, spec[i].0), KeyOf(b, spec[i].0))
  }

  /**
   * The comparator as the source runs it: `i` walks the keys while the two
   * tasks agree, and the key where it stops decides.
   */
  method CompareBy(spec: SortSpec, a: Fields, b: Fields) returns (r: int)
    ensures r == Compare(spec, a, b)
  {
    var i := 0;
    while i < |spec| && KeyOf(a, spec[i].0) == KeyOf(b, spec[i].0)
      invariant i <= |spec| && FirstDiff(spec, a, b, i) == FirstDiff(spec, a, b, 0)
    {
      i := i + 1;
    }
    if i == |spec| {
      return 0;
    }
    r := Decide(spec[i].0, spec[i].1, KeyOf(a, spec[i].0), KeyOf(b, spec[i].0));
  }

  lemma GreaterIrreflexive(x: Key)
    ensures !Greater(x, x)
  {
    if x.Word? {
      StrLessIrreflexive(x.s);
    }
  }

  lemma GreaterAsymmetric(x: Key, y: Key)
    requires Greater(x, y)
    ensures !Greater(y, x)
  {
    if x.Word? {
      StrLessAsymmetric(y.s, x.s);
    }
  }

  lemma GreaterTransitive(x: Key, y: Key, z: Key)
    requires Greater(x, y) && Greater(y, z)
    ensures Greater(x, z)
  {
    if x.Word? {
      StrLessTransitive(z.s, y.s, x.s);
    }
  }

  lemma GreaterTotal(x: Key, y: Key)
    requires SameKind(x, y) && x != y
    ensures Greater(x, y) || Greater(y, x)
  {
    if x.Word? {
      StrLessTotal(x.s, y.s);
    }
  }

  /**
   * Whether the deciding key sorts the greater value last: the generic keys
   * do so ascending, the priority key descending.
   */
  predicate Up(t: SortType, o: SortOrder)
  {
    (t == Priority) == (o == Descending)
  }

  /** On two different values the switch returns 1 or -1, as `Up` says. */
  lemma DecideUp(t: SortType, o: SortOrder, x: Key, y: Key)
    requires SameKind(x, y) && x != y
    ensures Decide(t, o, x, y) == (if Up(t, o) == Greater(x, y) then 1 else -1)
  {
    GreaterTotal(x, y);
    if Greater(x, y) {
      GreaterAsymmetric(x, y);
    } else {
      assert Greater(y, x);
    }
  }

  /** The priority key's test is the reverse of a generic key's for the same order. */
  lemma PriorityReversed(t: SortType, o: SortOrder, x: Key, y: Key)
    requires t != Priority && SameKind(x, y) && x != y
    ensures Decide(Priority, o, x, y) == -Decide(t, o, x, y)
  {
    DecideUp(t, o, x, y);
    DecideUp(Priority, o, x, y);
  }

  /** Both tasks give values of the same kind for every sort type. */
  lemma KeysSameKind(a: Fields, b: Fields, t: SortType)
    ensures SameKind(KeyOf(a, t), KeyOf(b, t))
  {
  }

  /**
   * The comparator is 0 exactly when the tasks agree on every configured
   * key; otherwise the first key on which they differ alone gives its sign,
   * and the sign is never 0.
   */
  lemma CompareFirstDiff(spec: SortSpec, a: Fields, b: Fields, i: nat)
    requires i <= |spec|
    requires forall k :: 0 <= k < i ==> KeyOf(a, spec[k].0) == KeyOf(b, spec[k].0)
    requires i < |spec| ==> KeyOf(a, spec[i].0) != KeyOf(b, spec[i].0)
    ensures i == |spec| ==> Compare(spec, a, b) == 0
    ensures i < |spec| ==> Compare(spec, a, b) == Decide(spec[i].0, spec[i].1, KeyOf(a, spec[i].0), KeyOf(b, spec[i].0))
                            && Compare(spec, a, b) != 0
  {
    var j := FirstDiff(spec, a, b, 0);
    assert j == i;
    if i < |spec| {
      KeysSameKind(a, b, spec[i].0);
      DecideUp(spec[i].0, spec[i].1, KeyOf(a, spec[i].0), KeyOf(b, spec[i].0));
    }
  }

  /** The comparator is 0 iff all configured keys are equal. */
  lemma CompareZero(spec: SortSpec, a: Fields, b: Fields)
    ensures Compare(spec, a, b) == 0 <==> forall k :: 0 <= k < |spec| ==> KeyOf(a, spec[k].0) == KeyOf(b, spec[k].0)
  {
    var j := FirstDiff(spec, a, b, 0);
    CompareFirstDiff(spec, a, b, j);
  }

  /** Swapping the tasks negates the comparator. */
  lemma CompareAntisymmetric(spec: SortSpec, a: Fields, b: Fields)
    ensures Compare(spec, a, b) == -Compare(spec, b, a)
  {
    var j := FirstDiff(spec, a, b, 0);
    CompareFirstDiff(spec, a, b, j);
    CompareFirstDiff(spec, b, a, j);
    if j < |spec| {
      var t, o := spec[j].0, spec[j].1;
      KeysSameKind(a, b, t);
      DecideUp(t, o, KeyOf(a, t), KeyOf(b, t));
      DecideUp(t, o, KeyOf(b, t), KeyOf(a, t));
      if Greater(KeyOf(a, t), KeyOf(b, t)) {
        GreaterAsymmetric(KeyOf(a, t), KeyOf(b, t));
      } else {
        GreaterTotal(KeyOf(a, t), KeyOf(b, t));
      }
    }
  }

  /** Not after, then not after: the comparator orders tasks consistently. */
  lemma CompareTransitive(spec: SortSpec, a: Fields, b: Fields, c: Fields)
    requires Compare(spec, a, b) <= 0 && Compare(spec, b, c) <= 0
    ensures Compare(spec, a, c) <= 0
  {
    var i := FirstDiff(spec, a, b, 0);
    var j := FirstDiff(spec, b, c, 0);
    CompareFirstDiff(spec, a, b, i);
    CompareFirstDiff(spec, b, c, j);
    if i < j {
      CompareFirstDiff(spec, a, c, i);
    } else if j < i {
      CompareFirstDiff(spec, a, c, j);
    } else if i < |spec| {
      var t, o := spec[i].0, spec[i].1;
      var x, y, z := KeyOf(a, t), KeyOf(b, t), KeyOf(c, t);
      KeysSameKind(a, b, t);
      KeysSameKind(b, c, t);
      DecideUp(t, o, x, y);
      DecideUp(t, o, y, z);
      GreaterTotal(x, y);
      GreaterTotal(y, z);
      if Up(t, o) {
        GreaterTransitive(z, y, x);
        GreaterAsymmetric(z, x);
      } else {
        GreaterTransitive(x, y, z);
        GreaterAsymmetric(x, z);
      }
      GreaterIrreflexive(x);
      assert x != z;
      DecideUp(t, o, x, z);
      CompareFirstDiff(spec, a, c, i);
    } else {
      CompareFirstDiff(spec, a, c, i);
    }
  }

  /** Tasks in an order the comparator accepts: no task compares after a later one. */
  predicate SortedBy(spec: SortSpec, s: seq<Fields>)
  {
    forall i, j :: 0 <= i < j < |s| ==> Compare(spec, s[i], s[j]) <= 0
  }

  /** A task that compares before `s[p]` compares before everything after it in a sorted list. */
  lemma SortedEmpty(spec: SortSpec)
    ensures SortedBy(spec, [])
  {
  }

  lemma BeforeTail(spec: SortSpec, s: seq<Fields>, f: Fields, p: nat, k: nat)
    requires SortedBy(spec, s) && p <= k < |s| && Compare(spec, s[p], f) > 0
    ensures Compare(spec, f, s[k]) <= 0
  {
    CompareAntisymmetric(spec, s[p], f);
    if k > p {
      CompareTransitive(spec, f, s[p], s[k]);
    }
  }

  /**
   * Putting a task after the leading run of tasks that do not compare after
   * it keeps a sorted list sorted.
   */
  lemma InsertSorted(spec: SortSpec, s: seq<Fields>, f: Fields, p: nat)
    requires SortedBy(spec, s) && p <= |s|
    requires forall i :: 0 <= i < p ==> Compare(spec, s[i], f) <= 0
    requires p < |s| ==> Compare(spec, s[p], f) > 0
    ensures SortedBy(spec, s[..p] + [f] + s[p..])
  {
    forall k | p <= k < |s|
      ensures Compare(spec, f, s[k]) <= 0
    {
      BeforeTail(spec, s, f, p, k);
    }
    InsertChain((a, b) => Compare(spec, a, b) <= 0, s, f, p);
  }

  /** Inserting into a chain of `le` an element that is `le`-after the front part and before the rest. */
  lemma InsertChain<T>(le: (T, T) -> bool, s: seq<T>, x: T, p: nat)
    requires p <= |s|
    requires forall i, j :: 0 <= i < j < |s| ==> le(s[i], s[j])
    requires forall i :: 0 <= i < p ==> le(s[i], x)
    requires forall k :: p <= k < |s| ==> le(x, s[k])
    ensures forall i, j :: 0 <= i < j < |s| + 1 ==> le((s[..p] + [x] + s[p..])[i], (s[..p] + [x] + s[p..])[j])
  {
    var r := s[..p] + [x] + s[p..];
    forall i, j | 0 <= i < j < |r|
      ensures le(r[i], r[j])
    {
      if j < p {
        assert r[i] == s[i] && r[j] == s[j];
      } else if j == p {
        assert r[i] == s[i] && r[j] == x;
      } else if i == p {
        assert r[i] == x && r[j] == s[j - 1];
      } else if i < p {
        assert r[i] == s[i] && r[j] == s[j - 1];
      } else {
        assert r[i] == s[i - 1] && r[j] == s[j - 1];
      }
    }
  }
}
